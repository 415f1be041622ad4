/**
  The stock ledger of `inventory_system.py` as values: the dictionary from item
  name to quantity, the order in which that dictionary iterates its keys, and
  the in-memory log. Each operation of the class `Inventory` is a function from
  the old ledger to the new one; the class in module InventorySystem is proved
  to perform exactly these steps, and the lemmas here say what they mean.
 */
module StockLedger {
  import opened PyStr
  import opened Seqs

  datatype Option<T> = None | Some(value: T)

  /** One entry of the log, without its timestamp. */
  datatype Event =
    | StartedFresh                                  // no inventory file found at construction
    | InvalidItemName(item: string)
    | InvalidQuantity(qty: int)
    | Added(item: string, qty: int, total: int)
    | NotFound(item: string)                        // removal of an item that is not stocked
    | OutOfStock(item: string)                      // removal that deleted the item
    | Removed(item: string, qty: int, remaining: int)
    | LowStock(items: seq<string>)
    | NoLowStock

  /** `stock` is the dictionary `stock_data`, `order` the order its keys are
      iterated in (insertion order), `logs` the list `logs`. */
  datatype Ledger = Ledger(stock: map<string, int>, order: seq<string>, logs: seq<Event>)

  /** The threshold `check_low_items` uses when none is given. */
  const DefaultThreshold := 5

  /** A name is accepted when it is not blank, that is when something is
      left of it after `strip()` (lemma ValidItemIffStripNonEmpty). */
  predicate ValidItem(item: string) {
    !IsBlank(item)
  }

  /** A quantity is accepted when it is greater than zero. */
  predicate ValidQty(qty: int) {
    qty > 0
  }

  /** `order` lists every key of `stock` once and nothing else. */
  ghost predicate Consistent(order: seq<string>, stock: map<string, int>) {
    && Distinct(order)
    && (forall k :: k in stock ==> k in order)
    && (forall k :: k in order ==> k in stock)
  }

  /** Every stocked item has a strictly positive quantity. */
  ghost predicate AllPositive(stock: map<string, int>) {
    forall k :: k in stock ==> stock[k] > 0
  }

  /** The invariant of the object: the key order is in step with the keys and
      every stored quantity is strictly positive. */
  ghost predicate Invariant(l: Ledger) {
    Consistent(l.order, l.stock) && AllPositive(l.stock)
  }

  /** `stock_data.get(item, 0)`. */
  function Quantity(stock: map<string, int>, item: string): int {
    if item in stock then stock[item] else 0
  }

  /** Overwriting a key and then deleting it is deleting it. */
  lemma UpdateThenDelete<K, V>(m: map<K, V>, k: K, v: V)
    ensures m[k := v] - {k} == m - {k}
  {
  }

  /** The ledger right after construction when no inventory file exists. */
  function Fresh(): Ledger {
    Ledger(map[], [], [StartedFresh])
  }

  /** The entry that validation logs when it rejects a call, or None when it
      accepts it. The name is checked first; when it is rejected the quantity
      is not looked at. */
  function Rejection(item: string, qty: int): Option<Event> {
    if !ValidItem(item) then Some(InvalidItemName(item))
    else if !ValidQty(qty) then Some(InvalidQuantity(qty))
    else None
  }

  /** `add_item(item, qty)`. A new key goes to the end of the iteration order;
      an existing key keeps its place. */
  function AddStep(l: Ledger, item: string, qty: int): Ledger {
    match Rejection(item, qty)
    case Some(e) => l.(logs := l.logs + [e])
    case None =>
      var total := Quantity(l.stock, item) + qty;
      Ledger(l.stock[item := total],
             if item in l.stock then l.order else l.order + [item],
             l.logs + [Added(item, qty, total)])
  }

  /** `remove_item(item, qty)`. */
  function RemoveStep(l: Ledger, item: string, qty: int): Ledger {
    match Rejection(item, qty)
    case Some(e) => l.(logs := l.logs + [e])
    case None =>
      if item !in l.stock then
        l.(logs := l.logs + [NotFound(item)])
      else
        var left := l.stock[item] - qty;
        if left <= 0 then
          Ledger(l.stock - {item}, Without(l.order, item), l.logs + [OutOfStock(item)])
        else
          l.(stock := l.stock[item := left], logs := l.logs + [Removed(item, qty, left)])
  }

  /** The comprehension of `check_low_items`: the keys of `keys`, in their
      order, whose quantity is below `threshold`. */
  function LowItems(keys: seq<string>, stock: map<string, int>, threshold: int): seq<string> {
    if keys == [] then []
    else
      var k := keys[|keys| - 1];
      LowItems(keys[..|keys| - 1], stock, threshold)
        + (if k in stock && stock[k] < threshold then [k] else [])
  }

  /** The entry `check_low_items` logs for the items it found. */
  function LowReport(low: seq<string>): Event {
    if low != [] then LowStock(low) else NoLowStock
  }

  /** `check_low_items(threshold)`, as a change of the ledger. */
  function CheckLowStep(l: Ledger, threshold: int): Ledger {
    l.(logs := l.logs + [LowReport(LowItems(l.order, l.stock, threshold))])
  }

  /** A call of one of the operations that change the ledger. */
  datatype Op =
    | AddItem(item: string, qty: int)
    | RemoveItem(item: string, qty: int)
    | CheckLowItems(threshold: int)

  function Apply(l: Ledger, op: Op): Ledger {
    match op
    case AddItem(item, qty) => AddStep(l, item, qty)
    case RemoveItem(item, qty) => RemoveStep(l, item, qty)
    case CheckLowItems(threshold) => CheckLowStep(l, threshold)
  }

  /** The operations `ops` performed one after the other. */
  function Run(l: Ledger, ops: seq<Op>): Ledger
    decreases |ops|
  {
    if ops == [] then l else Run(Apply(l, ops[0]), ops[1..])
  }

  // ---------------------------------------------------------------------------
  // Validation

  /** A name is accepted exactly when `item.strip()` is not empty, that is
      when it holds a character that is not whitespace. */
  lemma ValidItemIffStripNonEmpty(item: string)
    ensures ValidItem(item) <==> Strip(item) != []
    ensures ValidItem(item) <==> exists i :: 0 <= i < |item| && !IsSpace(item[i])
  {
    StripEmptyIffBlank(item);
  }

  /** A rejected call logs one entry and changes nothing else; a bad name is
      reported as such whatever the quantity. */
  lemma RejectedCallIsLoggedNoOp(l: Ledger, item: string, qty: int)
    requires !ValidItem(item) || qty <= 0
    ensures var e := if !ValidItem(item) then InvalidItemName(item) else InvalidQuantity(qty);
            && AddStep(l, item, qty) == Ledger(l.stock, l.order, l.logs + [e])
            && RemoveStep(l, item, qty) == Ledger(l.stock, l.order, l.logs + [e])
  {
  }

  // ---------------------------------------------------------------------------
  // add_item

  /** A valid `add_item` puts `qty` on the running total of `item` (0 when it
      was absent) and leaves every other item alone. */
  lemma AddAccumulates(l: Ledger, item: string, qty: int)
    requires ValidItem(item) && qty > 0
    ensures var l' := AddStep(l, item, qty);
            && item in l'.stock
            && Quantity(l'.stock, item) == Quantity(l.stock, item) + qty
            && (forall k :: k != item ==> (k in l'.stock <==> k in l.stock))
            && (forall k :: k != item && k in l.stock ==> l'.stock[k] == l.stock[k])
            && l'.order == (if item in l.stock then l.order else l.order + [item])
            && l'.logs == l.logs + [Added(item, qty, Quantity(l'.stock, item))]
  {
  }

  // ---------------------------------------------------------------------------
  // remove_item

  /** Removing an item that is not stocked only logs that it was not found. */
  lemma RemoveMissingIsNoOp(l: Ledger, item: string, qty: int)
    requires ValidItem(item) && qty > 0 && item !in l.stock
    ensures RemoveStep(l, item, qty) == Ledger(l.stock, l.order, l.logs + [NotFound(item)])
  {
  }

  /** A valid removal of a stocked item deletes it when nothing would be left
      (also when more is removed than stocked), and otherwise stores what is
      left; no other item changes and no error is raised. */
  lemma RemoveClampsToDelete(l: Ledger, item: string, qty: int)
    requires ValidItem(item) && qty > 0 && item in l.stock
    ensures var l' := RemoveStep(l, item, qty);
            var left := l.stock[item] - qty;
            && (left <= 0 ==> item !in l'.stock && l'.order == Without(l.order, item)
                              && l'.logs == l.logs + [OutOfStock(item)])
            && (left > 0 ==> item in l'.stock && l'.stock[item] == left && l'.order == l.order
                             && l'.logs == l.logs + [Removed(item, qty, left)])
            && (forall k :: k != item ==> (k in l'.stock <==> k in l.stock))
            && (forall k :: k != item && k in l.stock ==> l'.stock[k] == l.stock[k])
  {
  }

  /** Adding `qty` of an item and then removing `qty` of it gives back the
      stock and the iteration order it started from. */
  lemma AddThenRemoveRestores(l: Ledger, item: string, qty: int)
    requires Invariant(l)
    requires ValidItem(item) && qty > 0
    ensures var l' := RemoveStep(AddStep(l, item, qty), item, qty);
            l'.stock == l.stock && l'.order == l.order
  {
    var l1 := AddStep(l, item, qty);
    var l2 := RemoveStep(l1, item, qty);
    if item in l.stock {
      assert l1.stock[item] - qty == l.stock[item] > 0;
      assert l2.stock == l.stock[item := l.stock[item]];
    } else {
      assert l1.stock[item] - qty == 0;
      assert l2.stock == l.stock;
      WithoutAppended(l.order, item);
      WithoutAbsent(l.order, item);
    }
  }

  // ---------------------------------------------------------------------------
  // check_low_items

  /** The low items are exactly the listed keys whose quantity is strictly
      below the threshold; an item at the threshold is not low. */
  lemma {:induction false} LowItemsMembers(keys: seq<string>, stock: map<string, int>, threshold: int)
    ensures forall k :: k in LowItems(keys, stock, threshold) <==>
                          k in keys && k in stock && stock[k] < threshold
  {
    if keys != [] {
      var prefix := keys[..|keys| - 1];
      LowItemsMembers(prefix, stock, threshold);
      assert keys == prefix + [keys[|keys| - 1]];
    }
  }

  /** Each low item is listed once. */
  lemma {:induction false} LowItemsDistinct(keys: seq<string>, stock: map<string, int>, threshold: int)
    requires Distinct(keys)
    ensures Distinct(LowItems(keys, stock, threshold))
  {
    if keys != [] {
      var prefix := keys[..|keys| - 1];
      var last := keys[|keys| - 1];
      assert Distinct(prefix);
      LowItemsDistinct(prefix, stock, threshold);
      LowItemsMembers(prefix, stock, threshold);
      assert last !in prefix;
    }
  }

  /** The low items come in the order of `keys`: of two low items, the one
      listed first stands first in `keys`. */
  lemma {:induction false} LowItemsInOrder(keys: seq<string>, stock: map<string, int>, threshold: int, i: nat, j: nat)
    requires Distinct(keys)
    requires i < j < |LowItems(keys, stock, threshold)|
    ensures var low := LowItems(keys, stock, threshold);
            low[i] in keys && low[j] in keys && IndexOf(keys, low[i]) < IndexOf(keys, low[j])
  {
    var low := LowItems(keys, stock, threshold);
    var n := |keys| - 1;
    var prefix := keys[..n];
    var last := keys[n];
    var before := LowItems(prefix, stock, threshold);
    assert Distinct(prefix);
    LowItemsMembers(prefix, stock, threshold);
    assert low[i] == before[i] && before[i] in prefix;
    IndexOfInPrefix(keys, n, before[i]);
    if j < |before| {
      assert low[j] == before[j];
      LowItemsInOrder(prefix, stock, threshold, i, j);
      IndexOfInPrefix(keys, n, before[j]);
    } else {
      assert low[j] == last;
      assert last !in prefix;
      assert IndexOf(keys, last) == n;
    }
  }

  /** On a consistent ledger the low items are exactly the stocked items
      whose quantity is below the threshold, each once, in iteration order. */
  lemma LowItemsOfLedger(l: Ledger, threshold: int)
    requires Consistent(l.order, l.stock)
    ensures var low := LowItems(l.order, l.stock, threshold);
            && (forall k :: k in low <==> k in l.stock && l.stock[k] < threshold)
            && Distinct(low)
            && (forall i, j :: 0 <= i < j < |low| ==> IndexOf(l.order, low[i]) < IndexOf(l.order, low[j]))
  {
    var low := LowItems(l.order, l.stock, threshold);
    LowItemsMembers(l.order, l.stock, threshold);
    LowItemsDistinct(l.order, l.stock, threshold);
    forall i, j | 0 <= i < j < |low| ensures IndexOf(l.order, low[i]) < IndexOf(l.order, low[j]) {
      LowItemsInOrder(l.order, l.stock, threshold, i, j);
    }
  }

  /** `{apple: 10, banana: 5, pear: 2}` with threshold 5 has one low item,
      `pear`; `banana`, at the threshold, is not low. */
  lemma LowStockExample(apples: int)
    requires apples >= 5
    ensures LowItems(["apple", "banana", "pear"], map["apple" := apples, "banana" := 5, "pear" := 2], 5) == ["pear"]
  {
    var keys := ["apple", "banana", "pear"];
    var stock := map["apple" := apples, "banana" := 5, "pear" := 2];
    assert keys[..2] == ["apple", "banana"];
    assert keys[..2][..1] == ["apple"];
    assert keys[..2][..1][..0] == [];
    assert LowItems(["apple"], stock, 5) == [];
    assert LowItems(["apple", "banana"], stock, 5) == [];
  }

  /** A name that starts with a character other than whitespace is accepted. */
  lemma NonSpaceStartIsValid(item: string)
    requires item != [] && !IsSpace(item[0])
    ensures ValidItem(item)
  {
  }

  /** The ledger after adding 10 apples, 5 bananas and 2 pears to a fresh one. */
  lemma ThreeAdds()
    ensures var l := AddStep(AddStep(AddStep(Fresh(), "apple", 10), "banana", 5), "pear", 2);
            && l.stock == map["apple" := 10, "banana" := 5, "pear" := 2]
            && l.order == ["apple", "banana", "pear"]
  {
    NonSpaceStartIsValid("apple");
    NonSpaceStartIsValid("banana");
    NonSpaceStartIsValid("pear");
  }

  /** The calls of the demonstration `main`, up to the low-stock check:
      three apples are taken away, the missing orange changes nothing, and
      only the pears are then below the default threshold. */
  lemma MainDemo()
    ensures var l0 := AddStep(AddStep(AddStep(Fresh(), "apple", 10), "banana", 5), "pear", 2);
            var l := RemoveStep(RemoveStep(l0, "apple", 3), "orange", 1);
            && l.stock == map["apple" := 7, "banana" := 5, "pear" := 2]
            && l.order == ["apple", "banana", "pear"]
            && LowItems(l.order, l.stock, DefaultThreshold) == ["pear"]
  {
    ThreeAdds();
    var l0 := AddStep(AddStep(AddStep(Fresh(), "apple", 10), "banana", 5), "pear", 2);
    TakeSomeApples(l0);
    LowStockExample(7);
  }

  /** Taking 3 of 10 apples leaves 7; removing an orange that is not stocked
      changes nothing. */
  lemma TakeSomeApples(l0: Ledger)
    requires l0.stock == map["apple" := 10, "banana" := 5, "pear" := 2]
    ensures var l := RemoveStep(RemoveStep(l0, "apple", 3), "orange", 1);
            l.stock == map["apple" := 7, "banana" := 5, "pear" := 2] && l.order == l0.order
  {
    NonSpaceStartIsValid("apple");
    NonSpaceStartIsValid("orange");
  }

  // ---------------------------------------------------------------------------
  // Invariants over any sequence of calls

  /** `add_item` keeps the key order in step with the keys and keeps every
      stored quantity strictly positive. */
  lemma AddKeepsInvariant(l: Ledger, item: string, qty: int)
    requires Invariant(l)
    ensures var l' := AddStep(l, item, qty);
            Invariant(l')
  {
  }

  /** `remove_item` keeps the key order in step with the keys and keeps every
      stored quantity strictly positive. */
  lemma RemoveKeepsInvariant(l: Ledger, item: string, qty: int)
    requires Invariant(l)
    ensures var l' := RemoveStep(l, item, qty);
            Invariant(l')
  {
    WithoutKeepsDistinct(l.order, item);
  }

  /** Every operation keeps the invariant. */
  lemma ApplyKeepsInvariant(l: Ledger, op: Op)
    requires Invariant(l)
    ensures var l' := Apply(l, op);
            Invariant(l')
  {
    match op
    case AddItem(item, qty) => AddKeepsInvariant(l, item, qty);
    case RemoveItem(item, qty) => RemoveKeepsInvariant(l, item, qty);
    case CheckLowItems(_) =>
  }

  /** Every operation appends exactly one entry to the log. */
  lemma ApplyAppendsOneEntry(l: Ledger, op: Op)
    ensures var logs := Apply(l, op).logs;
            |logs| == |l.logs| + 1 && logs[..|l.logs|] == l.logs
  {
  }

  /** From a consistent, positive ledger (the fresh one among them), every
      sequence of calls leaves a consistent ledger whose quantities are all
      strictly positive. */
  lemma {:induction false} RunKeepsInvariant(l: Ledger, ops: seq<Op>)
    requires Invariant(l)
    ensures var l' := Run(l, ops);
            Invariant(l')
    decreases |ops|
  {
    if ops != [] {
      ApplyKeepsInvariant(l, ops[0]);
      RunKeepsInvariant(Apply(l, ops[0]), ops[1..]);
    }
  }

  /** Every call, accepted or rejected, appends exactly one entry to the log
      and keeps the earlier entries. */
  lemma {:induction false} RunAppendsOneEntryPerCall(l: Ledger, ops: seq<Op>)
    ensures var l' := Run(l, ops);
            |l'.logs| == |l.logs| + |ops| && l'.logs[..|l.logs|] == l.logs
    decreases |ops|
  {
    if ops != [] {
      var l1 := Apply(l, ops[0]);
      ApplyAppendsOneEntry(l, ops[0]);
      RunAppendsOneEntryPerCall(l1, ops[1..]);
      var l' := Run(l, ops);
      assert l'.logs[..|l.logs|] == l'.logs[..|l1.logs|][..|l.logs|];
    }
  }

  /** The fresh ledger satisfies the invariant. */
  lemma FreshIsValid()
    ensures Invariant(Fresh())
  {
  }
}
