/**
  The class `Inventory` of `inventory_system.py`: an object whose methods
  change its stock dictionary and append to its log in place. Each method is
  proved to perform the matching step of module StockLedger.
 */
module InventorySystem {
  import opened PyStr
  import opened Seqs
  import opened StockLedger

  class Inventory {
    /** `stock_data`: item name to quantity. */
    var stock: map<string, int>
    /** The order `stock_data` iterates its keys in: insertion order, a key
        that is deleted and added again going to the end. */
    var order: seq<string>
    /** `logs`, one entry per logged message. */
    var logs: seq<Event>

    /** The key order lists every key of the dictionary once, and every
        stocked item has a strictly positive quantity. */
    ghost predicate Valid()
      reads this
    {
      Invariant(Snapshot())
    }

    /** The value of the object's fields. */
    function Snapshot(): Ledger
      reads this
    {
      Ledger(stock, order, logs)
    }

    /** `Inventory()` when there is no inventory file to load: empty stock and
        the single log entry of the "starting fresh" branch of `load_data`. */
    constructor ()
      ensures Valid() && Snapshot() == Fresh()
    {
      stock := map[];
      order := [];
      logs := [StartedFresh];
    }

    /** `_log`: appends one entry. */
    method Log(e: Event)
      modifies this
      ensures stock == old(stock) && order == old(order)
      ensures logs == old(logs) + [e]
    {
      logs := logs + [e];
    }

    /** `_validate_item`: accepts a name that is not blank, and logs the name
        when it rejects it. */
    method ValidateItem(item: string) returns (ok: bool)
      modifies this
      ensures ok == ValidItem(item)
      ensures stock == old(stock) && order == old(order)
      ensures logs == old(logs) + (if ok then [] else [InvalidItemName(item)])
    {
      ok := Strip(item) != [];
      ValidItemIffStripNonEmpty(item);
      if !ok {
        Log(InvalidItemName(item));
      }
    }

    /** `_validate_qty`: accepts a positive quantity, and logs the quantity
        when it rejects it. */
    method ValidateQty(qty: int) returns (ok: bool)
      modifies this
      ensures ok == ValidQty(qty)
      ensures stock == old(stock) && order == old(order)
      ensures logs == old(logs) + (if ok then [] else [InvalidQuantity(qty)])
    {
      ok := qty > 0;
      if !ok {
        Log(InvalidQuantity(qty));
      }
    }

    /** The guard `_validate_item(item) and _validate_qty(qty)` that opens
        `add_item` and `remove_item`: the quantity is only validated, and
        only logged, once the name has been accepted. */
    method Accepts(item: string, qty: int) returns (ok: bool)
      modifies this
      ensures ok <==> Rejection(item, qty) == None
      ensures stock == old(stock) && order == old(order)
      ensures logs == old(logs) + (if ok then [] else [Rejection(item, qty).value])
    {
      ok := ValidateItem(item);
      if ok {
        ok := ValidateQty(qty);
      }
    }

    /** `add_item(item, qty)`. */
    method AddItem(item: string, qty: int)
      requires Valid()
      modifies this
      ensures Valid()
      ensures Snapshot() == AddStep(old(Snapshot()), item, qty)
    {
      var ok := Accepts(item, qty);
      if !ok {
        return;
      }
      var total := GetQty(item);
      total := total + qty;
      if item !in stock {
        AppendFreshKeepsDistinct(order, item);
        order := order + [item];
      }
      stock := stock[item := total];
      Log(Added(item, qty, total));
    }

    /** `remove_item(item, qty)`. */
    method RemoveItem(item: string, qty: int)
      requires Valid()
      modifies this
      ensures Valid()
      ensures Snapshot() == RemoveStep(old(Snapshot()), item, qty)
    {
      ghost var before := Snapshot();
      RemoveKeepsInvariant(before, item, qty);
      var ok := Accepts(item, qty);
      if !ok {
        return;
      }
      if item !in stock {
        Log(NotFound(item));
        return;
      }
      var left := stock[item] - qty;
      stock := stock[item := left];
      if stock[item] <= 0 {
        UpdateThenDelete(before.stock, item, left);
        stock := stock - {item};
        order := Without(order, item);
        Log(OutOfStock(item));
      } else {
        Log(Removed(item, qty, stock[item]));
      }
    }

    /** `get_qty(item)`: the stored quantity, or 0 for an item that is not
        stocked; it changes nothing. */
    method GetQty(item: string) returns (q: int)
      ensures q == Quantity(stock, item)
    {
      if item in stock {
        q := stock[item];
      } else {
        q := 0;
      }
    }

    /** `check_low_items(threshold)`: the stocked items whose quantity is
        below `threshold`, each once and in the dictionary's iteration order,
        reported in one log entry; the stock does not change. */
    method CheckLowItems(threshold: int := DefaultThreshold) returns (low: seq<string>)
      requires Valid()
      modifies this
      ensures Valid()
      ensures forall k :: k in low <==> k in stock && stock[k] < threshold
      ensures Distinct(low)
      ensures forall i, j :: 0 <= i < j < |low| ==> IndexOf(order, low[i]) < IndexOf(order, low[j])
      ensures low == LowItems(old(order), old(stock), threshold)
      ensures Snapshot() == CheckLowStep(old(Snapshot()), threshold)
    {
      low := LowItems(order, stock, threshold);
      LowItemsOfLedger(Snapshot(), threshold);
      Log(LowReport(low));
    }
  }

  // Client sessions: what a caller can conclude from the contracts alone.

  /** Two additions of the same item accumulate. */
  method AccumulateSession()
  {
    var inv := new Inventory();
    NonSpaceStartIsValid("apple");
    inv.AddItem("apple", 10);
    inv.AddItem("apple", 3);
    var q := inv.GetQty("apple");
    assert q == 13;
  }

  /** Removing everything that was added deletes the item. */
  method AddRemoveSession()
  {
    var inv := new Inventory();
    NonSpaceStartIsValid("apple");
    inv.AddItem("apple", 5);
    inv.RemoveItem("apple", 5);
    var q := inv.GetQty("apple");
    assert q == 0 && "apple" !in inv.stock;
  }

  /** Removing from an empty inventory changes nothing and raises nothing. */
  method RemoveFromEmptySession()
  {
    var inv := new Inventory();
    NonSpaceStartIsValid("apple");
    inv.RemoveItem("apple", 3);
    var q := inv.GetQty("apple");
    assert q == 0 && inv.stock == map[];
    assert inv.logs == [StartedFresh, NotFound("apple")];
  }

  /** An empty name, a negative and a zero quantity are all rejected. */
  method RejectedAddsSession()
  {
    var inv := new Inventory();
    NonSpaceStartIsValid("x");
    inv.AddItem("", 5);
    inv.AddItem("x", -1);
    inv.AddItem("x", 0);
    assert inv.stock == map[];
    assert inv.logs == [StartedFresh, InvalidItemName(""), InvalidQuantity(-1), InvalidQuantity(0)];
  }

  /** The calls of the demonstration `main`: 7 apples are left, and only the
      pears are low; the bananas, exactly at the threshold, are not. */
  method MainSession()
  {
    var inv := new Inventory();
    inv.AddItem("apple", 10);
    inv.AddItem("banana", 5);
    inv.AddItem("pear", 2);
    inv.RemoveItem("apple", 3);
    inv.RemoveItem("orange", 1);
    MainDemo();
    var q := inv.GetQty("apple");
    assert q == 7;
    var low := inv.CheckLowItems();
    assert low == ["pear"];
  }
}
