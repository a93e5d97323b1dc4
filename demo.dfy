/** The start-up of the demo program: a new inventory filled with two items. */
module Demo {
  import opened Options
  import opened Lookup
  import opened Store = Inventory

  /**
    Adds "Rose_Flower" then "Dragon_Tooth" to a new inventory, as the program does before its
    frame loop: slot 0 then holds "Rose_Flower" and slot 1 "Dragon_Tooth", and "Rose" is
    contained (substring) although no entry is named exactly "Rose".
   */
  method SetUpInventory() returns (inv: Store.Inventory)
    ensures fresh(inv) && inv.Valid()
    ensures inv.storedItems == [Item("Rose_Flower", 1), Item("Dragon_Tooth", 1)]
    ensures inv.ContainsItem("Rose") && inv.GetByName("Rose") == None
  {
    inv := new Store.Inventory();
    var dragonTooth := NewItem("Dragon_Tooth");
    var roseFlower := NewItem("Rose_Flower");
    inv.AddItem(roseFlower);
    inv.AddItem(dragonTooth);
    assert Names([roseFlower]) == ["Rose_Flower"];
    PrefixOfStoredNameContained(inv.storedItems, 0, "Rose");
  }
}
