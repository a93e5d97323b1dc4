/**
  The inventory store: an ordered list of (display name, amount) entries. Adding an item whose
  name is already stored increases that entry's amount; any other item becomes a new entry at
  the end. An entry's position in the list is its slot in the grid (see module Slots).
 */
module Inventory {
  import opened Options
  import opened Lookup
  import Slots

  /** A stack of one kind of item. Amounts are unbounded integers (see README, "Left out"). */
  datatype Item = Item(displayName: string, amount: int)

  /** `Item::new`: one item of the given name. */
  function NewItem(name: string): Item {
    Item(name, 1)
  }

  /** Display names of `items`, in slot order. */
  function Names(items: seq<Item>): (names: seq<string>)
    ensures |names| == |items|
    ensures forall i :: 0 <= i < |items| ==> names[i] == items[i].displayName
  {
    if items == [] then [] else [items[0].displayName] + Names(items[1..])
  }

  /** The entries after `add_item(item)`: merge into the first entry of the same name, else append. */
  function Added(items: seq<Item>, item: Item): seq<Item> {
    match FirstIndex(Names(items), item.displayName)
    case None => items + [item]
    case Some(i) => items[i := items[i].(amount := items[i].amount + item.amount)]
  }

  /** Some entry's name contains `q` (the `any` over `str::contains` of `contains_item`). */
  function AnyNameContains(items: seq<Item>, q: string): (r: bool)
    ensures r <==> exists i :: 0 <= i < |items| && IsSubstring(q, items[i].displayName)
  {
    if items == [] then false
    else
      assert forall i :: 1 <= i < |items| ==> items[i] == items[1..][i - 1];
      Contains(items[0].displayName, q) || AnyNameContains(items[1..], q)
  }

  class Inventory {
    var storedItems: seq<Item>
    var maxStorage: int

    /** Names stay pairwise distinct, since only `AddItem` changes the entries; the capacity never changes. */
    ghost predicate Valid()
      reads this
    {
      Distinct(Names(storedItems)) && maxStorage == Slots.MaxStorage
    }

    /** `Inventory::new`: no entries, capacity 36. */
    constructor ()
      ensures Valid()
      ensures storedItems == [] && maxStorage == Slots.MaxStorage
    {
      storedItems := [];
      maxStorage := Slots.MaxStorage;
    }

    /** `get_by_name`: the slot of the first entry named exactly `name`, or None. */
    function GetByName(name: string): (r: Option<nat>)
      reads this
      ensures r.None? <==> forall i :: 0 <= i < |storedItems| ==> storedItems[i].displayName != name
      ensures r.Some? ==> && r.value < |storedItems|
                          && storedItems[r.value].displayName == name
                          && forall j :: 0 <= j < r.value ==> storedItems[j].displayName != name
    {
      var names := Names(storedItems);
      var r := FirstIndex(names, name);
      assert r.Some? ==> forall j :: 0 <= j < r.value ==> names[..r.value][j] == names[j];
      r
    }

    /** Stored names are distinct, so each stored name is found at its own slot. */
    lemma GetByNameOfStored(i: nat)
      requires Valid() && i < |storedItems|
      ensures GetByName(storedItems[i].displayName) == Some(i)
    {
      FirstIndexOfDistinct(Names(storedItems), i);
    }

    /** `contains_item`: some stored name contains `q` as a substring (not an exact match). */
    function ContainsItem(q: string): (r: bool)
      reads this
      ensures r <==> exists i :: 0 <= i < |storedItems| && IsSubstring(q, storedItems[i].displayName)
    {
      AnyNameContains(storedItems, q)
    }

    /** `add_item`: no capacity check; merges by exact name or appends. */
    method AddItem(item: Item)
      requires Valid()
      modifies this`storedItems
      ensures Valid()
      ensures storedItems == Added(old(storedItems), item)
    {
      var found := GetByName(item.displayName);
      match found
      case Some(i) =>
        storedItems := storedItems[i := storedItems[i].(amount := storedItems[i].amount + item.amount)];
      case None =>
        storedItems := storedItems + [item];
      AddedKeepsNamesDistinct(old(storedItems), item);
    }
  }

  /** A name not yet stored becomes a new last entry; the earlier entries are untouched. */
  lemma AddedAppendsNewName(items: seq<Item>, item: Item)
    requires forall i :: 0 <= i < |items| ==> items[i].displayName != item.displayName
    ensures var r := Added(items, item);
            |r| == |items| + 1 && r[|items|] == item && r[..|items|] == items
  {
    assert item.displayName !in Names(items);
  }

  /**
    A name already stored, first at slot `i`, adds the new amount to that entry only:
    the length, the order and every other entry stay as they were.
   */
  lemma AddedMergesExistingName(items: seq<Item>, item: Item, i: nat)
    requires i < |items| && items[i].displayName == item.displayName
    requires forall j :: 0 <= j < i ==> items[j].displayName != item.displayName
    ensures var r := Added(items, item);
            && |r| == |items|
            && r[i] == Item(item.displayName, items[i].amount + item.amount)
            && forall j :: 0 <= j < |items| && j != i ==> r[j] == items[j]
  {
  }

  /**
    Adding `Item::new(name)` adds exactly one of that name: the first entry named `name` gains
    one, or a new last entry `(name, 1)` appears.
   */
  lemma AddNewItem(items: seq<Item>, name: string)
    ensures var r := Added(items, NewItem(name));
            match FirstIndex(Names(items), name)
            case Some(i) => |r| == |items| && r[i] == Item(name, items[i].amount + 1)
            case None => |r| == |items| + 1 && r[|items|] == Item(name, 1)
  {
  }

  /** `add_item` never rejects an item: the list grows by one exactly when the name is new. */
  lemma AddedLength(items: seq<Item>, item: Item)
    ensures |Added(items, item)| == |items| + (if item.displayName in Names(items) then 0 else 1)
  {
  }

  /** Entries never move and never change name: every existing slot keeps its name. */
  lemma AddedKeepsSlots(items: seq<Item>, item: Item)
    ensures |Added(items, item)| >= |items|
    ensures forall k :: 0 <= k < |items| ==> Added(items, item)[k].displayName == items[k].displayName
  {
  }

  /** Adding through `add_item` keeps the stored names pairwise distinct. */
  lemma AddedKeepsNamesDistinct(items: seq<Item>, item: Item)
    requires Distinct(Names(items))
    ensures Distinct(Names(Added(items, item)))
  {
    var r := Added(items, item);
    AddedKeepsSlots(items, item);
    if item.displayName !in Names(items) {
      assert Names(r) == Names(items) + [item.displayName];
    } else {
      assert Names(r) == Names(items);
    }
  }

  /** The first slot holding a name still holds it first after any addition. */
  lemma AddedKeepsFirstSlot(items: seq<Item>, item: Item, name: string, i: nat)
    requires FirstIndex(Names(items), name) == Some(i)
    ensures FirstIndex(Names(Added(items, item)), name) == Some(i)
  {
    var r := Added(items, item);
    AddedKeepsSlots(items, item);
    assert Names(r)[..i] == Names(items)[..i];
    FirstIndexIsFirstOccurrence(Names(r), name, i);
  }

  /** The entries of a new inventory after adding `Item::new(n)` for each `n` of `names` in turn. */
  function AddNames(names: seq<string>): seq<Item> {
    if names == [] then []
    else Added(AddNames(names[..|names| - 1]), NewItem(names[|names| - 1]))
  }

  /** `names` with every repeat of an earlier name dropped: the names in order of first appearance. */
  function FirstOccurrences(names: seq<string>): seq<string> {
    if names == [] then []
    else
      var front := FirstOccurrences(names[..|names| - 1]);
      var last := names[|names| - 1];
      if last in names[..|names| - 1] then front else front + [last]
  }

  lemma {:induction false} FirstOccurrencesSameNames(names: seq<string>, n: string)
    ensures n in FirstOccurrences(names) <==> n in names
  {
    if names != [] {
      var front := names[..|names| - 1];
      FirstOccurrencesSameNames(front, n);
      assert names == front + [names[|names| - 1]];
    }
  }

  /** Filling a new inventory: the slots hold the added names in order of first addition, each once. */
  lemma {:induction false} AddNamesOrder(names: seq<string>)
    ensures Names(AddNames(names)) == FirstOccurrences(names)
    ensures Distinct(Names(AddNames(names)))
  {
    if names != [] {
      var front := names[..|names| - 1];
      var last := names[|names| - 1];
      var before := AddNames(front);
      AddNamesOrder(front);
      FirstOccurrencesSameNames(front, last);
      var r := Added(before, NewItem(last));
      assert AddNames(names) == r;
      AddedKeepsNamesDistinct(before, NewItem(last));
      if last in front {
        AddedKeepsSlots(before, NewItem(last));
        assert Names(r) == Names(before);
      } else {
        AddedAppendsNewName(before, NewItem(last));
        assert Names(r) == Names(before) + [last];
      }
    }
  }

  /** Filling a new inventory: every entry's amount is the number of times its name was added. */
  lemma {:induction false} AddNamesCounts(names: seq<string>)
    ensures forall i :: 0 <= i < |AddNames(names)| ==>
              AddNames(names)[i].amount == multiset(names)[AddNames(names)[i].displayName]
  {
    if names != [] {
      var front := names[..|names| - 1];
      var last := names[|names| - 1];
      AddNamesCounts(front);
      AddNamesOrder(front);
      FirstOccurrencesSameNames(front, last);
      assert names == front + [last];
      AddedCounts(AddNames(front), front, last);
    }
  }

  /** One more `Item::new(last)` keeps every amount equal to the number of additions of its name. */
  lemma AddedCounts(before: seq<Item>, front: seq<string>, last: string)
    requires Distinct(Names(before))
    requires last in Names(before) <==> last in front
    requires forall i :: 0 <= i < |before| ==> before[i].amount == multiset(front)[before[i].displayName]
    ensures var r := Added(before, NewItem(last));
            forall i :: 0 <= i < |r| ==> r[i].amount == multiset(front + [last])[r[i].displayName]
  {
    assert multiset(front + [last]) == multiset(front) + multiset{last};
    var r := Added(before, NewItem(last));
    match FirstIndex(Names(before), last)
    case Some(i) =>
      FirstIndexOfDistinct(Names(before), i);
      AddedMergesExistingName(before, NewItem(last), i);
    case None =>
      AddedAppendsNewName(before, NewItem(last));
      assert multiset(front)[last] == 0;
  }

  lemma {:induction false} FirstOccurrencesOfDistinct(names: seq<string>)
    requires Distinct(names)
    ensures FirstOccurrences(names) == names
  {
    if names != [] {
      var front := names[..|names| - 1];
      FirstOccurrencesOfDistinct(front);
      assert names[|names| - 1] !in front;
    }
  }

  /**
    No capacity is enforced: adding `n` distinct names stores `n` entries, so past 36 names the
    last entry's slot lies below the 36 placeholder squares of the grid.
   */
  lemma NoCapacityLimit(names: seq<string>)
    requires Distinct(names)
    ensures |AddNames(names)| == |names|
    ensures |names| > Slots.MaxStorage ==> Slots.Row(|names| - 1) >= 4
  {
    AddNamesOrder(names);
    FirstOccurrencesOfDistinct(names);
    if |names| > Slots.MaxStorage {
      Slots.PlaceholderGrid(|names| - 1);
    }
  }

  /** Every stored name is contained, and so is each prefix of one. */
  lemma PrefixOfStoredNameContained(items: seq<Item>, i: nat, q: string)
    requires i < |items| && q <= items[i].displayName
    ensures AnyNameContains(items, q)
  {
    PrefixContained(items[i].displayName, q);
  }

  /** The empty query is contained exactly when something is stored. */
  lemma EmptyQueryContained(items: seq<Item>)
    ensures AnyNameContains(items, "") <==> |items| > 0
  {
    if |items| > 0 {
      EmptyContained(items[0].displayName);
    }
  }

  /** Adding "X" with amounts 1 and 2 gives one entry "X" of amount 3. */
  lemma MergeExample()
    ensures Added(Added([], Item("X", 1)), Item("X", 2)) == [Item("X", 3)]
  {
    assert Names([Item("X", 1)]) == ["X"];
  }
}
