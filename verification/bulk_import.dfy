/** `bulk_import_inventory` over the in-process store: rows already parsed from the CSV
    are reconciled one at a time against the categories, and each valid row adds a run
    of freshly numbered `Available` items. */
module BulkImport {
  import opened Options
  import opened Seqs
  import opened Text
  import opened Store
  import opened Serials

  /** One CSV row after parsing: `Component Name`, `Quantity` as an integer, `Description`. */
  datatype Row = Row(name: string, quantity: int, description: string)

  /** `(inventory_records_created, item_records_created)`. */
  datatype Counts = Counts(inventoryCreated: nat, itemsCreated: nat)

  datatype Imported = Imported(store: Store, counts: Counts)

  /** The category an imported row lands in, the id it has, and whether it was created. */
  datatype Reconciled = Reconciled(inventory: seq<Inventory>, inventoryId: int, created: bool)

  /** A row with a blank name or a quantity of at most zero is dropped. */
  predicate Skipped(row: Row) {
    Strip(row.name) == [] || row.quantity <= 0
  }

  function TotalQty(inventory: seq<Inventory>): int {
    if |inventory| == 0 then 0 else inventory[0].totalQty + TotalQty(inventory[1..])
  }

  lemma {:induction false} TotalQtyUpdate(inventory: seq<Inventory>, k: nat, v: Inventory)
    requires k < |inventory|
    ensures TotalQty(inventory[k := v]) == TotalQty(inventory) - inventory[k].totalQty + v.totalQty
  {
    if k > 0 {
      assert inventory[k := v][1..] == inventory[1..][k - 1 := v];
      TotalQtyUpdate(inventory[1..], k - 1, v);
    }
  }

  lemma {:induction false} TotalQtyAppend(inventory: seq<Inventory>, v: Inventory)
    ensures TotalQty(inventory + [v]) == TotalQty(inventory) + v.totalQty
  {
    if |inventory| > 0 {
      assert (inventory + [v])[1..] == inventory[1..] + [v];
      TotalQtyAppend(inventory[1..], v);
    }
  }

  /** Step 1 of a row: a category matching the name ignoring case gains `quantity` units of
      cumulative intake; otherwise a new category with that quantity is appended with id
      `len(inventory) + 1`. Either way the intake over all categories grows by exactly
      `quantity`, and the items go to a category whose name matches the row. */
  function Reconcile(inventory: seq<Inventory>, name: string, quantity: nat, description: string): (r: Reconciled)
    ensures r.created <==> forall k :: 0 <= k < |inventory| ==> !SameName(inventory[k], name)
    ensures !r.created ==> |r.inventory| == |inventory|
    ensures !r.created ==> forall k :: 0 <= k < |inventory| ==>
      r.inventory[k].id == inventory[k].id && r.inventory[k].name == inventory[k].name
    ensures !r.created ==>
      CategoryIndex(inventory, name).Some? &&
      var k := CategoryIndex(inventory, name).value;
      r.inventoryId == inventory[k].id &&
      r.inventory == inventory[k := inventory[k].(totalQty := inventory[k].totalQty + quantity)]
    ensures r.created ==> r.inventoryId == |inventory| + 1
    ensures r.created ==> r.inventory == inventory + [Inventory(|inventory| + 1, name, quantity, None, Some(description))]
    ensures TotalQty(r.inventory) == TotalQty(inventory) + quantity
    ensures CategoryIndex(r.inventory, name).Some? &&
      r.inventory[CategoryIndex(r.inventory, name).value].id == r.inventoryId
  {
    match CategoryIndex(inventory, name)
    case Some(k) =>
      var updated := inventory[k].(totalQty := inventory[k].totalQty + quantity);
      TotalQtyUpdate(inventory, k, updated);
      CategoryIndexIsFirst(inventory[k := updated], name, k);
      Reconciled(inventory[k := updated], inventory[k].id, false)
    case None =>
      var added := Inventory(|inventory| + 1, name, quantity, None, Some(description));
      var grown := inventory + [added];
      TotalQtyAppend(inventory, added);
      assert grown[|inventory|] == added;
      assert forall j :: 0 <= j < |inventory| ==> grown[j] == inventory[j];
      CategoryIndexIsFirst(grown, name, |inventory|);
      Reconciled(grown, |inventory| + 1, true)
  }

  /** Step 2 of a row: `n` new `Available` items in the category, numbered on from `firstId`,
      carrying the serials the generator emits above `base`. */
  function NewItems(firstId: int, prefix: string, base: nat, n: nat, inventoryId: int): (r: seq<Item>)
    ensures |r| == n
    ensures forall i :: 0 <= i < n ==>
      r[i] == Item(firstId + i, NewSerials(prefix, base, n)[i], AVAILABLE, inventoryId)
  {
    seq(n, i requires 0 <= i < n => Item(firstId + i, prefix + Format03(base + i + 1), AVAILABLE, inventoryId))
  }

  /** One loop iteration of `bulk_import_inventory`. */
  function ImportRow(s: Store, row: Row, numbering: Numbering): (r: Imported)
    ensures Skipped(row) ==> r == Imported(s, Counts(0, 0))
    ensures !Skipped(row) ==> r.counts.itemsCreated == row.quantity
    ensures r.counts.inventoryCreated == |r.store.inventory| - |s.inventory| <= 1
    ensures |r.store.items| == |s.items| + r.counts.itemsCreated
    ensures r.store.items[..|s.items|] == s.items
    ensures forall i :: |s.items| <= i < |r.store.items| ==>
      r.store.items[i].status == AVAILABLE && r.store.items[i].id == i + 1
    ensures TotalQty(r.store.inventory) == TotalQty(s.inventory) + r.counts.itemsCreated
    ensures !Skipped(row) ==>
      (r.counts.inventoryCreated == 1 <==> CategoryIndex(s.inventory, Strip(row.name)).None?)
    ensures !Skipped(row) ==>
      r.store.inventory == Reconcile(s.inventory, Strip(row.name), row.quantity as nat, Strip(row.description)).inventory
    ensures !Skipped(row) ==>
      var name := Strip(row.name);
      var id := Reconcile(s.inventory, name, row.quantity as nat, Strip(row.description)).inventoryId;
      var c := CategoryIndex(r.store.inventory, name);
      var prefix := SerialPrefix(name);
      c.Some? && r.store.inventory[c.value].id == id &&
      r.store.items == s.items + NewItems(|s.items| + 1, prefix, MaxSuffix(s.items, numbering, id, prefix), row.quantity as nat, id)
    ensures r.store.students == s.students && r.store.staff == s.staff
    ensures r.store.transactions == s.transactions && r.store.lines == s.lines
  {
    var name := Strip(row.name);
    if name == [] || row.quantity <= 0 then Imported(s, Counts(0, 0))
    else
      var q := row.quantity as nat;
      var rec := Reconcile(s.inventory, name, q, Strip(row.description));
      var prefix := SerialPrefix(name);
      var base := MaxSuffix(s.items, numbering, rec.inventoryId, prefix);
      var added := NewItems(|s.items| + 1, prefix, base, q, rec.inventoryId);
      assert (s.items + added)[..|s.items|] == s.items;
      Imported(s.(inventory := rec.inventory, items := s.items + added),
               Counts(if rec.created then 1 else 0, q))
  }

  /** `made` carries the prefix, and its suffix parses to a number above the suffix the scan
      reads from `existing`, if it reads one. */
  predicate SuffixAbove(existing: Item, made: Item, numbering: Numbering, prefix: string) {
    var v := SuffixValue(existing, numbering, made.inventoryId, prefix);
    prefix <= made.serial && ParseInt(made.serial[|prefix|..]).Some? &&
    (v.Some? ==> v.value < ParseInt(made.serial[|prefix|..]).value)
  }

  /** Every unit after the first `|items|` of `after` is `SuffixAbove` every unit of `items`. */
  predicate RunAboveScan(items: seq<Item>, after: seq<Item>, numbering: Numbering, prefix: string) {
    forall i, k :: |items| <= i < |after| && 0 <= k < |items| ==> SuffixAbove(items[k], after[i], numbering, prefix)
  }

  /** Every unit a row creates carries the row's prefix and a suffix above every parsable
      suffix the scan saw: the new numbers start just past the highest one in use. */
  lemma ImportedSuffixAboveExisting(s: Store, row: Row, numbering: Numbering)
    requires !Skipped(row)
    ensures RunAboveScan(s.items, ImportRow(s, row, numbering).store.items, numbering, SerialPrefix(Strip(row.name)))
  {
    var id := Reconcile(s.inventory, Strip(row.name), row.quantity as nat, Strip(row.description)).inventoryId;
    AppendedRunAboveScan(s.items, ImportRow(s, row, numbering).store.items, numbering, id, SerialPrefix(Strip(row.name)), row.quantity as nat);
  }

  /** The same fact for any store given only as "the old items followed by the generated run". */
  lemma AppendedRunAboveScan(items: seq<Item>, after: seq<Item>, numbering: Numbering, id: int, prefix: string, n: nat)
    requires after == items + NewItems(|items| + 1, prefix, MaxSuffix(items, numbering, id, prefix), n, id)
    ensures RunAboveScan(items, after, numbering, prefix)
  {
    var base := MaxSuffix(items, numbering, id, prefix);
    var added := NewItems(|items| + 1, prefix, base, n, id);
    forall i, k | |items| <= i < |after| && 0 <= k < |items|
      ensures SuffixAbove(items[k], after[i], numbering, prefix)
    {
      var made := after[i];
      assert made == added[i - |items|];
      GeneratedAboveScan(items, numbering, id, prefix, n, i - |items|, k, made);
    }
  }

  lemma GeneratedAboveScan(items: seq<Item>, numbering: Numbering, id: int, prefix: string, n: nat, j: nat, k: nat, made: Item)
    requires j < n && k < |items|
    requires made.inventoryId == id && made.serial == NewSerials(prefix, MaxSuffix(items, numbering, id, prefix), n)[j]
    ensures SuffixAbove(items[k], made, numbering, prefix)
  {
    NewSerialSuffix(prefix, MaxSuffix(items, numbering, id, prefix), n, j);
  }

  /** Total quantity of the rows that are not skipped. */
  function ValidQuantity(rows: seq<Row>): nat {
    if |rows| == 0 then 0
    else (if Skipped(rows[0]) then 0 else rows[0].quantity as nat) + ValidQuantity(rows[1..])
  }

  /** `bulk_import_inventory(csv_data)`: rows are applied in order, each on the store the
      previous rows left, and nothing is rolled back. */
  function BulkImport(s: Store, rows: seq<Row>, numbering: Numbering): (r: Imported)
    ensures r.counts.itemsCreated == ValidQuantity(rows)
    ensures |r.store.items| == |s.items| + r.counts.itemsCreated
    ensures |r.store.inventory| == |s.inventory| + r.counts.inventoryCreated
    ensures r.store.items[..|s.items|] == s.items
    ensures TotalQty(r.store.inventory) == TotalQty(s.inventory) + r.counts.itemsCreated
    ensures r.store.students == s.students && r.store.staff == s.staff
    ensures r.store.transactions == s.transactions && r.store.lines == s.lines
    decreases |rows|
  {
    if |rows| == 0 then Imported(s, Counts(0, 0))
    else
      var first := ImportRow(s, rows[0], numbering);
      var rest := BulkImport(first.store, rows[1..], numbering);
      PrefixTrans(s.items, first.store.items, rest.store.items);
      Imported(rest.store, Counts(first.counts.inventoryCreated + rest.counts.inventoryCreated,
                                  first.counts.itemsCreated + rest.counts.itemsCreated))
  }

  /** No two items of one category share a serial number. */
  ghost predicate UniqueSerialsPerCategory(items: seq<Item>) {
    forall j, k :: 0 <= j < k < |items| && items[j].inventoryId == items[k].inventoryId ==>
      items[j].serial != items[k].serial
  }

  /** Collision freedom: an imported row never gives one of its category's serials twice. */
  lemma ImportRowKeepsSerialsUnique(s: Store, row: Row, numbering: Numbering)
    requires UniqueSerialsPerCategory(s.items)
    ensures UniqueSerialsPerCategory(ImportRow(s, row, numbering).store.items)
  {
    if Skipped(row) {
      SameItemsStayUnique(s.items, ImportRow(s, row, numbering).store.items);
    } else {
      var id := Reconcile(s.inventory, Strip(row.name), row.quantity as nat, Strip(row.description)).inventoryId;
      RunStaysUnique(s.items, ImportRow(s, row, numbering).store.items, numbering, id, SerialPrefix(Strip(row.name)), row.quantity as nat);
    }
  }

  /** The store a valid row leaves, given only as "the old items followed by the generated run". */
  lemma RunStaysUnique(items: seq<Item>, after: seq<Item>, numbering: Numbering, inventoryId: int, prefix: string, n: nat)
    requires UniqueSerialsPerCategory(items) && NoLowerAscii(prefix)
    requires after == items + NewItems(|items| + 1, prefix, MaxSuffix(items, numbering, inventoryId, prefix), n, inventoryId)
    ensures UniqueSerialsPerCategory(after)
  {
    AppendedSerialsUnique(items, numbering, inventoryId, prefix, n);
  }

  lemma SameItemsStayUnique(items: seq<Item>, items': seq<Item>)
    requires UniqueSerialsPerCategory(items) && items' == items
    ensures UniqueSerialsPerCategory(items')
  {
  }

  /** The run the generator appends to a category collides neither with the serials already
      in that category nor with itself. */
  lemma AppendedSerialsUnique(items: seq<Item>, numbering: Numbering, inventoryId: int, prefix: string, n: nat)
    requires UniqueSerialsPerCategory(items) && NoLowerAscii(prefix)
    ensures UniqueSerialsPerCategory(items + NewItems(|items| + 1, prefix, MaxSuffix(items, numbering, inventoryId, prefix), n, inventoryId))
  {
    var base := MaxSuffix(items, numbering, inventoryId, prefix);
    var added := NewItems(|items| + 1, prefix, base, n, inventoryId);
    var all := items + added;
    forall j, k | 0 <= j < k < |all| && all[j].inventoryId == all[k].inventoryId
      ensures all[j].serial != all[k].serial
    {
      if k < |items| {
        OldPairUnique(items, all, j, k);
      } else {
        AppendedPairUnique(items, added, numbering, inventoryId, prefix, n, j, k - |items|);
      }
    }
  }

  lemma OldPairUnique(items: seq<Item>, all: seq<Item>, j: nat, k: nat)
    requires UniqueSerialsPerCategory(items) && items <= all
    requires j < k < |items| && all[j].inventoryId == all[k].inventoryId
    ensures all[j].serial != all[k].serial
  {
    assert all[j] == items[j] && all[k] == items[k];
  }

  /** One new unit against an earlier unit of the same category, old or new. */
  lemma AppendedPairUnique(items: seq<Item>, added: seq<Item>, numbering: Numbering, inventoryId: int, prefix: string, n: nat, j: nat, i: nat)
    requires NoLowerAscii(prefix) && i < n && j < |items| + i
    requires j < |items| ==> items[j].inventoryId == inventoryId
    requires added == NewItems(|items| + 1, prefix, MaxSuffix(items, numbering, inventoryId, prefix), n, inventoryId)
    ensures (items + added)[j].serial != (items + added)[|items| + i].serial
  {
    if j < |items| {
      OldAgainstNew(items, added, numbering, inventoryId, prefix, n, j, i);
    } else {
      NewAgainstNew(items, added, prefix, MaxSuffix(items, numbering, inventoryId, prefix), n, inventoryId, j - |items|, i);
    }
  }

  /** A new unit against an existing unit of the same category. */
  lemma OldAgainstNew(items: seq<Item>, added: seq<Item>, numbering: Numbering, inventoryId: int, prefix: string, n: nat, j: nat, i: nat)
    requires NoLowerAscii(prefix) && i < n && j < |items| && items[j].inventoryId == inventoryId
    requires added == NewItems(|items| + 1, prefix, MaxSuffix(items, numbering, inventoryId, prefix), n, inventoryId)
    ensures (items + added)[j].serial != (items + added)[|items| + i].serial
  {
    assert (items + added)[|items| + i] == added[i];
    assert (items + added)[j] == items[j];
    NewSerialsFresh(items, numbering, inventoryId, prefix, n, i, j);
  }

  /** Two new units of one run. */
  lemma NewAgainstNew(items: seq<Item>, added: seq<Item>, prefix: string, base: nat, n: nat, inventoryId: int, j: nat, i: nat)
    requires j < i < n && added == NewItems(|items| + 1, prefix, base, n, inventoryId)
    ensures (items + added)[|items| + j].serial != (items + added)[|items| + i].serial
  {
    assert (items + added)[|items| + i] == added[i];
    assert (items + added)[|items| + j] == added[j];
    NewSerialsDistinct(prefix, base, n, j, i);
  }

  lemma {:induction false} BulkImportKeepsSerialsUnique(s: Store, rows: seq<Row>, numbering: Numbering)
    requires UniqueSerialsPerCategory(s.items)
    ensures UniqueSerialsPerCategory(BulkImport(s, rows, numbering).store.items)
    decreases |rows|
  {
    if |rows| > 0 {
      ImportRowKeepsSerialsUnique(s, rows[0], numbering);
      BulkImportKeepsSerialsUnique(ImportRow(s, rows[0], numbering).store, rows[1..], numbering);
    }
  }

  /** Skipped rows play no part: importing only the valid rows gives the same store and counts. */
  lemma {:induction false} SkippedRowsIgnored(s: Store, rows: seq<Row>, numbering: Numbering)
    ensures BulkImport(s, rows, numbering) == BulkImport(s, Filter(rows, (row: Row) => !Skipped(row)), numbering)
    decreases |rows|
  {
    if |rows| > 0 {
      var keep := (row: Row) => !Skipped(row);
      SkippedRowsIgnored(ImportRow(s, rows[0], numbering).store, rows[1..], numbering);
      if Skipped(rows[0]) {
        FilterDropsHead(rows, keep);
        SkippedHead(s, rows, numbering);
      } else {
        KeptHead(s, rows, Filter(rows[1..], keep), numbering);
        FilterKeepsHead(rows, keep);
      }
    }
  }

  /** A skipped first row leaves the import of the rest as it is. */
  lemma SkippedHead(s: Store, rows: seq<Row>, numbering: Numbering)
    requires |rows| > 0 && Skipped(rows[0])
    ensures BulkImport(s, rows, numbering) == BulkImport(s, rows[1..], numbering)
  {
    var rest := BulkImport(s, rows[1..], numbering);
    assert rest.counts == Counts(0 + rest.counts.inventoryCreated, 0 + rest.counts.itemsCreated);
  }

  /** A kept first row is imported first whatever the rows after it are. */
  lemma KeptHead(s: Store, rows: seq<Row>, tail: seq<Row>, numbering: Numbering)
    requires |rows| > 0
    ensures var first := ImportRow(s, rows[0], numbering);
      var rest := BulkImport(first.store, tail, numbering);
      BulkImport(s, [rows[0]] + tail, numbering) ==
        Imported(rest.store, Counts(first.counts.inventoryCreated + rest.counts.inventoryCreated,
                                    first.counts.itemsCreated + rest.counts.itemsCreated))
  {
    var whole := [rows[0]] + tail;
    assert whole[0] == rows[0] && whole[1..] == tail;
  }

  /** Category ids and item ids stay equal to their positions plus one. */
  lemma ImportRowKeepsDenseIds(s: Store, row: Row, numbering: Numbering)
    requires DenseIds(s)
    ensures DenseIds(ImportRow(s, row, numbering).store)
  {
    var r := ImportRow(s, row, numbering).store;
    if !Skipped(row) {
      var rec := Reconcile(s.inventory, Strip(row.name), row.quantity as nat, Strip(row.description));
      assert r.inventory == rec.inventory;
      forall k | 0 <= k < |r.inventory|
        ensures r.inventory[k].id == k + 1
      {
        if k < |s.inventory| {
          assert r.inventory[k].id == s.inventory[k].id;
        }
      }
      forall k | 0 <= k < |r.items|
        ensures r.items[k].id == k + 1
      {
        if k < |s.items| {
          assert r.items[k] == r.items[..|s.items|][k] == s.items[k];
        }
      }
    }
  }
}
