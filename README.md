# Displayed-Inventory: the inventory bookkeeping, modelled in Dafny

The demo program keeps a small inventory of named item stacks, shows it as a grid of
slots, and decorates each slot with a texture loaded at start-up from a `textures`
directory. This project models the bookkeeping behind that display in
`sources/src/inventory.rs`:

- the inventory store (`Item`, `Inventory`): an ordered list of (display name, amount)
  entries. `add_item` merges by exact name into the first entry of that name, or appends;
  `get_by_name` is an exact first-match lookup; `contains_item` is a substring query.
  `Inventory` is a class whose `storedItems: seq<Item>` field `AddItem` reassigns; its
  invariant `Valid()` keeps the stored names pairwise distinct and the capacity at 36.
- the slot layout: slot `s` sits at row `s / 9`, column `s % 9` (module `Slots`).
- the texture catalog (`TextureState`): `LoadTextureState` is the loader loop run over an
  abstract directory listing, and `GetTexture` is the first exact-name lookup.
- the program's start-up in `sources/src/main.rs` (module `Demo`): a new inventory
  receiving "Rose_Flower" then "Dragon_Tooth".

Files: `options.dfy` (the `Option` type), `lookup.dfy` (first exact match and substring
search, shared by both lookups), `slots.dfy`, `textures.dfy`, `inventory.dfy`, `demo.dfy`.

Inputs that come from outside the program are parameters. The texture loader takes a
`Listing`: the directory is missing, or `read_dir` failed, or it lists entries in file-system
order. Each entry is either an iteration error or records whether it is a regular file, its
extension, its file stem, and whether `load_texture` succeeded (with an opaque texture of
type `Tex`) or failed.

Two behaviours of the code are easy to miss:

- An entry that the directory iterator reports as an error is skipped silently. The code
  (`if let Ok(entry) = entry`, inventory.rs:38) does not clear the readiness flag for it;
  only a failed `read_dir` or a failed texture load does.
- The amount of a stored entry is not kept at least 1 by the code itself. It holds for
  entries added through `Item::new`, which is the only way to build an `Item`: `AddNamesCounts`
  proves that each amount is the number of times its name was added.

## Model

| member | source | states |
|---|---|---|
| Lookup.FirstIndex | sources/src/inventory.rs:185-188 | the result is None exactly when no name equals the query; otherwise it is an index holding the query with no earlier occurrence |
| Lookup.FirstIndexIsFirstOccurrence | sources/src/inventory.rs:79-83 | an occurrence of the name with none before it is exactly what the first-match search returns |
| Lookup.FirstIndexOfDistinct | sources/src/inventory.rs:190-196 | among pairwise distinct names, the first match of a stored name is its own slot |
| Lookup.Contains | sources/src/inventory.rs:180-183 | the search is true exactly when the query occurs as a contiguous run of characters at some position |
| Lookup.PrefixContained | sources/src/inventory.rs:180-183 | every prefix of a string, the string itself included, is contained in it |
| Lookup.EmptyContained | sources/src/inventory.rs:180-183 | every string contains the empty string |
| Slots.Row | sources/src/inventory.rs:114-116 | a slot's row r is the one with 9r <= slot < 9r + 9 |
| Slots.Col | sources/src/inventory.rs:114-116 | a slot's column is always below 9 |
| Slots.SlotAt | sources/src/inventory.rs:126-127 | row*9 + col is the slot whose row and column are exactly (row, col): the inverse of the slot mapping |
| Slots.SlotDecomposes | sources/src/inventory.rs:114-116 | row(slot)*9 + col(slot) == slot for every slot |
| Slots.SlotsDistinctCells | sources/src/inventory.rs:162-164 | distinct slots are mapped to distinct (row, col) cells |
| Slots.RowRange | sources/src/inventory.rs:114-116 | row r holds exactly the slots 9r to 9r+8 |
| Slots.PlaceholderGrid | sources/src/inventory.rs:102-116 | a slot is one of the 36 placeholders exactly when its row is 0 to 3 |
| Textures.LoadTextureState | sources/src/inventory.rs:20-76 | a missing or unreadable directory gives an empty catalog that is not ready; otherwise the catalog holds what the listing loads, and it is ready exactly when no image failed and at least one loaded |
| Textures.LoadedTexturesAppend | sources/src/inventory.rs:37-53 | loading keeps listing order: the textures of a concatenated listing are those of the first part followed by those of the second |
| Textures.LoadedTexturesFromImages | sources/src/inventory.rs:42-53 | every loaded texture comes from a regular file with extension exactly png, jpg or jpeg that loaded, under that file's stem |
| Textures.ImagesAreLoaded | sources/src/inventory.rs:42-53 | every image file that loaded is in the catalog under its stem |
| Textures.LoadedTexturesNonempty | sources/src/inventory.rs:72-75 | the catalog is nonempty exactly when some image loaded |
| Textures.GetTexture | sources/src/inventory.rs:79-83 | None exactly when no entry has the name; otherwise the texture of the first entry with exactly that name |
| Textures.OneGoodOneCorrupt | sources/src/inventory.rs:47-58 | one good and one corrupt png give exactly the good texture under its stem, and a recorded failure, so the catalog is not ready |
| Textures.LoadOneGoodOneCorrupt | sources/src/inventory.rs:47-75 | the loader, given one good and one corrupt png, returns a catalog that is not ready and holds only the good texture under its stem |
| Inventory.AnyNameContains | sources/src/inventory.rs:180-183 | true exactly when some entry's name contains the query as a substring |
| Inventory.Inventory.constructor | sources/src/inventory.rs:99-104 | a new inventory has no entries and capacity 36 |
| Inventory.Inventory.GetByName | sources/src/inventory.rs:185-188 | None exactly when no entry has the name; otherwise the slot of the first entry with exactly that name |
| Inventory.Inventory.GetByNameOfStored | sources/src/inventory.rs:185-188 | in a valid inventory, looking up a stored entry's name gives back that entry's own slot |
| Inventory.Inventory.ContainsItem | sources/src/inventory.rs:180-183 | true exactly when some stored name contains the query as a substring |
| Inventory.Inventory.AddItem | sources/src/inventory.rs:190-196 | the entries become `Added(old entries, item)`, the names stay pairwise distinct and the capacity is unchanged |
| Inventory.AddedAppendsNewName | sources/src/inventory.rs:193-195 | a name not stored yet is appended as the last entry; the length grows by one and the earlier entries are unchanged |
| Inventory.AddedMergesExistingName | sources/src/inventory.rs:191-192 | a stored name adds the new amount to its first entry only; length, order and all other entries are unchanged |
| Inventory.AddedLength | sources/src/inventory.rs:190-196 | adding is never rejected: the length grows by one exactly when the name is new, and otherwise stays the same |
| Inventory.AddedKeepsSlots | sources/src/inventory.rs:190-196 | no existing slot changes its name, and no entry is removed |
| Inventory.AddedKeepsNamesDistinct | sources/src/inventory.rs:190-196 | pairwise distinct stored names stay pairwise distinct after an addition |
| Inventory.AddedKeepsFirstSlot | sources/src/inventory.rs:190-196 | the slot where a name first appears never moves |
| Inventory.AddNewItem | sources/src/inventory.rs:88-93 | adding `Item::new(name)` adds exactly one of that name: the first entry named `name` gains one, or a new last entry (name, 1) appears |
| Inventory.AddNamesOrder | sources/src/inventory.rs:190-196 | after adding `Item::new(n)` for a sequence of names to a new inventory, the slots hold the names in order of first addition, each once |
| Inventory.AddNamesCounts | sources/src/inventory.rs:88-93 | after adding `Item::new(n)` for a sequence of names to a new inventory, each entry's amount is the number of times its name was added |
| Inventory.NoCapacityLimit | sources/src/inventory.rs:190-196 | n distinct names give n entries, so with more than 36 the last entry's row is 4 or more, below the placeholder grid (capacity at line 102) |
| Inventory.PrefixOfStoredNameContained | sources/src/inventory.rs:180-183 | every stored name, and each prefix of one, is contained |
| Inventory.EmptyQueryContained | sources/src/inventory.rs:180-183 | the empty query is contained exactly when the inventory is nonempty |
| Inventory.MergeExample | sources/src/inventory.rs:190-196 | adding "X" with amount 1 then "X" with amount 2 gives the single entry ("X", 3) |
| Demo.SetUpInventory | sources/src/main.rs:10-16 | the start-up inventory holds Rose_Flower in slot 0 and Dragon_Tooth in slot 1, each with amount 1; "Rose" is contained although no entry is named exactly "Rose" |

## Left out

- Drawing in `render` (placeholder squares, scaled textures, quantity labels): these are
  calls into the rendering library with floating-point geometry and nothing observable to
  state. Only the integer row and column of a slot are modelled.
- The mouse click test in `render`: floating-point comparisons against the pointer position
  and a button event, whose only effect is console output.
- The file system, the asynchronous texture upload, `file_stem`, and the error logging:
  their outcomes are the `Listing` and `DirEntry` inputs of `LoadTextureState`.
- Textures themselves: they are opaque values of a type parameter.
- The frame loop of `sources/src/main.rs` and the window set-up.
- Inventory.Inventory.AddItem: amounts are unbounded integers. The 32-bit `amount` of the
  code would panic (debug build) or wrap (release build) on overflow, which is not modelled.
- Inventory.Inventory.GetByName: returns the slot index rather than a mutable reference to
  the entry; `AddItem` updates the entry at that index.
- Slots.Col: slot indices are unbounded naturals; the `as i32` conversion of an item index
  is not modelled (it only differs beyond 2^31 entries).
- `max_storage` is a floating-point 36.0 in the code, used only through `as i32`; it is
  modelled as the integer 36.
