/**
  Slot layout of the inventory grid: slot `s` sits in row `s / 9` and column `s % 9`,
  left to right and top to bottom. The renderer uses this mapping for the placeholder
  squares, for the stored items (slot = position in the item list) and for the click test.
  Slot indices are never negative there, so Rust's truncating `/` and `%` agree with Dafny's.
 */
module Slots {

  /** Columns per row of the grid. */
  const ItemsPerRow: nat := 9

  /** Number of placeholder squares the renderer draws (`max_storage`). */
  const MaxStorage: nat := 36

  /** Row of a slot. */
  function Row(slot: nat): (r: nat)
    ensures r * ItemsPerRow <= slot < r * ItemsPerRow + ItemsPerRow
  {
    slot / ItemsPerRow
  }

  /** Column of a slot. */
  function Col(slot: nat): (c: nat)
    ensures c < ItemsPerRow
  {
    slot % ItemsPerRow
  }

  /** The slot at a grid position: the inverse of (`Row`, `Col`). */
  function SlotAt(row: nat, col: nat): (slot: nat)
    requires col < ItemsPerRow
    ensures Row(slot) == row && Col(slot) == col
  {
    row * ItemsPerRow + col
  }

  /** Every slot is recovered from its row and column. */
  lemma SlotDecomposes(slot: nat)
    ensures SlotAt(Row(slot), Col(slot)) == slot
  {
  }

  /** Distinct slots occupy distinct grid cells. */
  lemma SlotsDistinctCells(a: nat, b: nat)
    requires a != b
    ensures Row(a) != Row(b) || Col(a) != Col(b)
  {
    SlotDecomposes(a);
    SlotDecomposes(b);
  }

  /** A row holds exactly the nine slots `9 * row .. 9 * row + 8`. */
  lemma RowRange(slot: nat, row: nat)
    ensures Row(slot) == row <==> row * ItemsPerRow <= slot < row * ItemsPerRow + ItemsPerRow
  {
    SlotDecomposes(slot);
    if row * ItemsPerRow <= slot < row * ItemsPerRow + ItemsPerRow {
      assert slot == SlotAt(row, slot - row * ItemsPerRow);
    }
  }

  /** The 36 placeholder slots fill rows 0 to 3, all nine columns of each. */
  lemma PlaceholderGrid(slot: nat)
    ensures slot < MaxStorage <==> Row(slot) < 4
  {
    RowRange(slot, Row(slot));
  }
}
