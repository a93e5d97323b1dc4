/** The optional value returned by the inventory's and the texture catalog's lookups. */
module Options {

  datatype Option<+T> = None | Some(value: T)
}
