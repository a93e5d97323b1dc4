/**
  The two name queries of the inventory module: the exact, first-match search that
  `Inventory::get_by_name` and `TextureState::get_texture` run with `iter().find`, and the
  substring test that `Inventory::contains_item` runs with `str::contains`.
 */
module Lookup {
  import opened Options

  /** Index of the first name equal to `name`, or None when no name equals it. */
  function FirstIndex(names: seq<string>, name: string): (r: Option<nat>)
    ensures r.None? <==> name !in names
    ensures r.Some? ==> r.value < |names| && names[r.value] == name && name !in names[..r.value]
  {
    if names == [] then None
    else if names[0] == name then Some(0)
    else
      match FirstIndex(names[1..], name)
      case None => None
      case Some(i) =>
        assert names[..i + 1] == [names[0]] + names[1..][..i];
        Some(i + 1)
  }

  /** An occurrence with none before it is the first match. */
  lemma FirstIndexIsFirstOccurrence(names: seq<string>, name: string, i: nat)
    requires i < |names| && names[i] == name && name !in names[..i]
    ensures FirstIndex(names, name) == Some(i)
  {
  }

  /** Names that occur at most once. */
  ghost predicate Distinct(names: seq<string>) {
    forall i, j :: 0 <= i < j < |names| ==> names[i] != names[j]
  }

  /** Among distinct names the first match is the only match. */
  lemma FirstIndexOfDistinct(names: seq<string>, i: nat)
    requires Distinct(names) && i < |names|
    ensures FirstIndex(names, names[i]) == Some(i)
  {
  }

  /** `q` occurs in `s` as a contiguous run of characters (`str::contains` with a `&str` pattern). */
  ghost predicate IsSubstring(q: string, s: string) {
    exists i :: OccursAt(q, s, i)
  }

  /** `q` occurs in `s` starting at position `i`. */
  ghost predicate OccursAt(q: string, s: string, i: int) {
    0 <= i && i + |q| <= |s| && s[i..i + |q|] == q
  }

  /** Substring search: tries each start position of `s` in turn. */
  function Contains(s: string, q: string): (r: bool)
    ensures r <==> IsSubstring(q, s)
    decreases |s|
  {
    if q <= s then
      assert OccursAt(q, s, 0);
      true
    else if s == [] then
      false
    else
      SubstringShift(s, q);
      Contains(s[1..], q)
  }

  /** When `q` is not a prefix of a nonempty `s`, it occurs in `s` exactly when it occurs in `s[1..]`. */
  lemma SubstringShift(s: string, q: string)
    requires s != [] && !(q <= s)
    ensures IsSubstring(q, s) <==> IsSubstring(q, s[1..])
  {
    if IsSubstring(q, s[1..]) {
      var i :| OccursAt(q, s[1..], i);
      assert s[i + 1..i + 1 + |q|] == s[1..][i..i + |q|];
      assert OccursAt(q, s, i + 1);
    }
    if IsSubstring(q, s) {
      var i :| OccursAt(q, s, i);
      assert i > 0;  // at 0, `q` would be a prefix of `s`
      assert s[1..][i - 1..i - 1 + |q|] == s[i..i + |q|];
      assert OccursAt(q, s[1..], i - 1);
    }
  }

  /** Every string contains itself and each of its prefixes. */
  lemma {:induction false} PrefixContained(s: string, q: string)
    requires q <= s
    ensures Contains(s, q)
  {
    assert OccursAt(q, s, 0);
  }

  /** Every string contains the empty string. */
  lemma EmptyContained(s: string)
    ensures Contains(s, "")
  {
    assert OccursAt("", s, 0);
  }
}
