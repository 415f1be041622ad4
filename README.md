# Inventory ledger, modelled in Dafny

This project models the in-memory stock ledger of class `Inventory` in
`inventory_system.py`:

- the dictionary `stock_data`, from item name to quantity;
- the order in which that dictionary iterates its keys;
- the append-only list `logs`.

It covers the operations that change or read the ledger. These are name and
quantity validation, `add_item`, `remove_item`, `get_qty`, `check_low_items`,
`_log`, and construction when there is no inventory file.

The project is split into four files:

- `strings.dfy` (module `PyStr`): Python's `str.strip()` with no argument,
  over the exact set of characters that `str.isspace()` accepts.
- `seqs.dfy` (module `Seqs`): key orders of an insertion-ordered dictionary.
  It covers "no key twice", deleting a key, and the position of a key.
- `ledger.dfy` (module `StockLedger`): the ledger as a value, `Ledger(stock,
  order, logs)`.
  - Each operation is a function from the old ledger to the new one:
    `AddStep`, `RemoveStep` and `CheckLowStep`.
  - The lemmas say what those steps mean: accumulation, clamp-to-delete,
    rejected calls as logged no-ops, low items in iteration order, the
    invariant, and one log entry per call.
- `inventory.dfy` (module `InventorySystem`): `class Inventory`.
  - Its fields are `stock`, `order` and `logs`, and each method updates them
    in place.
  - Each state-changing method is proved to leave the object in the state
    its step function gives (`Snapshot() == AddStep(old(Snapshot()), …)`).
    It is also proved to keep the invariant `Valid()`: every key is listed
    once in the order, and every quantity is strictly positive.
  - Client methods replay the demonstration `main` and some edge cases
    using only the contracts.

Python dictionaries iterate in insertion order. A key that is updated keeps
its place. A key that is deleted and added again goes to the end. The model
keeps this order as the field `order` so that `check_low_items` returns its
items in the order Python does.

A log entry is a structured `Event` value. It keeps the data of the message
but not its timestamp or wording.

## Model

| member | source | states |
|---|---|---|
| PyStr.IsSpace | inventory_system.py:30 | no contract; the definition lists the characters `str.isspace()` accepts: TAB through CR, FS through US, SPACE, U+0085, U+00A0, U+1680, U+2000 through U+200A, U+2028, U+2029, U+202F, U+205F and U+3000 |
| PyStr.SkipSpaces | inventory_system.py:30 | the first position at or after `i` that holds a non-whitespace character (or the end); everything skipped is whitespace |
| PyStr.SkipSpacesBack | inventory_system.py:30 | the end of `s[lo..hi]` once trailing whitespace is dropped; everything dropped is whitespace and the new last character is not |
| PyStr.StripBounds | inventory_system.py:30 | where `strip()` starts and ends: only whitespace before the start and from the end on, and the kept part neither starts nor ends with whitespace |
| PyStr.KeptBetweenSpaces | inventory_system.py:30 | no contract; the definition says that `r` is the slice of `s` starting at `lo`, with only whitespace before it and after it |
| PyStr.Strip | inventory_system.py:30 | `strip()` returns a slice of its input with only whitespace before and after it, and a non-empty result neither starts nor ends with whitespace; together these fix the result |
| PyStr.IsBlank | inventory_system.py:30 | no contract; the definition says every character is whitespace, the empty string included |
| PyStr.StripEmptyIffBlank | inventory_system.py:30 | `item.strip()` is empty exactly when the name is blank, proved in both directions from `Strip`'s contract |
| Seqs.Without | inventory_system.py:57 | deleting a key from the order keeps exactly the other keys and never lengthens it |
| Seqs.IndexOf | inventory_system.py:69 | the position of the first occurrence of a key in the iteration order |
| Seqs.WithoutAt | inventory_system.py:58 | `del` of a key that occurs once cuts it out of its place: the keys before it and the keys after it keep their order |
| Seqs.WithoutKeepsDistinct | inventory_system.py:57 | `del` keeps the iteration order free of repeated keys |
| Seqs.AppendFreshKeepsDistinct | inventory_system.py:46 | inserting a new key at the end keeps the iteration order free of repeated keys |
| Seqs.WithoutAbsent | inventory_system.py:57 | deleting a key that is not in the order changes nothing |
| Seqs.WithoutAppended | inventory_system.py:46-57 | deleting a key just inserted at the end also deletes that copy |
| Seqs.IndexOfInPrefix | inventory_system.py:69 | a prefix of the order places each of its keys where the whole order does |
| StockLedger.ValidItem | inventory_system.py:28-33 | no contract; the definition accepts a name that is not blank (see ValidItemIffStripNonEmpty) |
| StockLedger.ValidQty | inventory_system.py:35-40 | no contract; the definition accepts a quantity greater than 0 |
| StockLedger.Quantity | inventory_system.py:65 | no contract; the definition is `stock_data.get(item, 0)`: the stored quantity, or 0 for an absent item |
| StockLedger.Fresh | inventory_system.py:96-97 | no contract; the definition is the ledger of the no-file branch: empty stock and order, and the one "starting fresh" log entry |
| StockLedger.Rejection | inventory_system.py:44 | no contract; the definition gives the entry the short-circuit guard logs: the bad name if the name is rejected, else the bad quantity, else none |
| StockLedger.AddStep | inventory_system.py:42-47 | no contract; the definition is `add_item` as a new ledger (its properties are AddAccumulates and AddKeepsInvariant) |
| StockLedger.RemoveStep | inventory_system.py:49-61 | no contract; the definition is `remove_item` as a new ledger (its properties are RemoveMissingIsNoOp, RemoveClampsToDelete and RemoveKeepsInvariant) |
| StockLedger.LowItems | inventory_system.py:69 | no contract; the definition is the comprehension, keeping the keys in order whose quantity is below the threshold (its properties are LowItemsMembers, LowItemsDistinct and LowItemsInOrder) |
| StockLedger.LowReport | inventory_system.py:70-73 | no contract; the definition is the low-stock entry when some items are low, otherwise the "no low-stock items" entry |
| StockLedger.CheckLowStep | inventory_system.py:67-74 | no contract; the definition is `check_low_items` as a new ledger: one report appended, nothing else changed |
| StockLedger.UpdateThenDelete | inventory_system.py:56-57 | writing `stock_data[item]` and then deleting it is the same as deleting it |
| StockLedger.ValidItemIffStripNonEmpty | inventory_system.py:28-33 | a name is accepted exactly when `item.strip()` is non-empty, which is when it holds a non-whitespace character |
| StockLedger.RejectedCallIsLoggedNoOp | inventory_system.py:28-52 | `add_item` and `remove_item` with a blank name or a quantity `<= 0` leave stock and order unchanged and log one entry; a bad name is reported, never the quantity |
| StockLedger.AddAccumulates | inventory_system.py:46-47 | a valid add sets the item to its old quantity (0 if absent) plus `qty`, leaves every other key and value alone, keeps or appends the key in the order, and logs the new total |
| StockLedger.RemoveMissingIsNoOp | inventory_system.py:53-55 | removing an item that is not stocked changes nothing but the log, which gets "not found" |
| StockLedger.RemoveClampsToDelete | inventory_system.py:56-61 | a valid removal deletes the key when `old - qty <= 0` (even when `qty` exceeds the stock) and otherwise stores `old - qty`; no other key changes |
| StockLedger.AddThenRemoveRestores | inventory_system.py:46-58 | adding `qty` of an item and then removing `qty` of it restores the stock and the iteration order |
| StockLedger.LowItemsMembers | inventory_system.py:69 | an item is low exactly when it is listed, stocked and strictly below the threshold, so an item at the threshold is not low |
| StockLedger.LowItemsDistinct | inventory_system.py:69 | each low item is reported once |
| StockLedger.LowItemsInOrder | inventory_system.py:69 | low items come in the dictionary's iteration order |
| StockLedger.LowItemsOfLedger | inventory_system.py:67-74 | on a consistent ledger the low items are exactly the stocked items below the threshold, each once, in iteration order |
| StockLedger.LowStockExample | inventory_system.py:69 | with 5 bananas and 2 pears and threshold 5, only the pears are low |
| StockLedger.NonSpaceStartIsValid | inventory_system.py:30-33 | a name whose first character is not whitespace passes `_validate_item` |
| StockLedger.ThreeAdds | inventory_system.py:120-122 | the first three calls of `main` give `{apple: 10, banana: 5, pear: 2}` in that insertion order |
| StockLedger.TakeSomeApples | inventory_system.py:123-124 | removing 3 of 10 apples leaves 7, and removing the missing orange changes nothing |
| StockLedger.MainDemo | inventory_system.py:117-126 | on a first run of `main`, with no inventory file yet, 7 apples remain after its calls and `check_low_items()` reports only the pears |
| StockLedger.AddKeepsInvariant | inventory_system.py:46 | `add_item` keeps the order in step with the keys and keeps every quantity strictly positive |
| StockLedger.RemoveKeepsInvariant | inventory_system.py:56-58 | `remove_item` keeps the order in step with the keys and keeps every quantity strictly positive |
| StockLedger.ApplyKeepsInvariant | inventory_system.py:42-74 | every one of the three operations keeps the invariant |
| StockLedger.ApplyAppendsOneEntry | inventory_system.py:21-74 | every call, accepted or rejected, appends exactly one log entry and keeps the earlier ones |
| StockLedger.RunKeepsInvariant | inventory_system.py:17-61 | from a consistent, positive ledger, any sequence of calls leaves every stored quantity strictly positive and the order in step with the keys |
| StockLedger.RunAppendsOneEntryPerCall | inventory_system.py:21-74 | any sequence of `n` calls appends exactly `n` log entries and never removes an earlier entry |
| StockLedger.FreshIsValid | inventory_system.py:15-19 | the empty ledger at construction satisfies the invariant |
| InventorySystem.Inventory.constructor | inventory_system.py:15-19 | construction without an inventory file gives empty stock and the single "starting fresh" log entry |
| InventorySystem.Inventory.Log | inventory_system.py:21-26 | `_log` appends exactly one entry and changes nothing else |
| InventorySystem.Inventory.ValidateItem | inventory_system.py:28-33 | accepts exactly the non-blank names, and logs the name only when it rejects it |
| InventorySystem.Inventory.ValidateQty | inventory_system.py:35-40 | accepts exactly the quantities greater than 0, and logs the quantity only when it rejects it |
| InventorySystem.Inventory.Accepts | inventory_system.py:44 | the short-circuit guard: the quantity is checked and logged only after the name is accepted, and at most one entry is logged |
| InventorySystem.Inventory.AddItem | inventory_system.py:42-47 | `add_item` performs `AddStep` on the object's state and keeps `Valid()` |
| InventorySystem.Inventory.RemoveItem | inventory_system.py:49-61 | `remove_item` performs `RemoveStep` on the object's state, including the in-place subtract and then delete, and keeps `Valid()` |
| InventorySystem.Inventory.GetQty | inventory_system.py:63-65 | returns `Quantity(stock, item)`, the stored quantity or 0; nothing changes |
| InventorySystem.Inventory.CheckLowItems | inventory_system.py:67-74 | returns exactly the stocked items below the threshold (default 5), each once, in iteration order; logs one report and changes no stock |
| InventorySystem.MainSession | inventory_system.py:117-126 | no contract; a client of the class that replays a first run of `main`, with no inventory file yet, and asserts 7 apples and `["pear"]` as the low items |

## Left out

- Loading and saving the JSON inventory file (`load_data` and `save_data`) are left out because they are file I/O.
  - Construction is modelled as the branch where no file is found. That branch logs "starting fresh", so the fresh ledger holds one log entry.
  - A loaded file is assigned without any check. The positivity invariant therefore holds only from a fresh start, which is the only start this model can build.
- The timestamp, the message wording and the `print` echo of `_log` are left out because they are clock and console I/O. A log entry is the `Event` that carries the message's data.
- `print_data` is left out because it only prints.
- The context manager `__enter__` and `__exit__` is left out because it is exception handling plus an automatic save to disk.
- The `isinstance` checks of the validators are left out. Dafny's static types rule out a name that is not a string and a quantity that is not an integer. Python's rule that `bool` counts as `int` is also not modelled.
- `main` is replayed without its printing as `MainSession`, which relies on the lemma `MainDemo`. This is a first run, with no inventory file yet. A later run would load the file that `__exit__` saved, and loading is not modelled. The final `print_data` call is not modelled either.
- Strings are sequences of Unicode scalar values. Python strings can also hold lone surrogates, which Dafny's `char` cannot represent. None of them is whitespace, so `strip()` would keep them.
- Quantities are unbounded integers, as Python's are.
