/** The read side of the in-process store: serial and name lookups used by the issue
    screen, the current holder of an item, a student's open loans, overdue loans,
    student search and the per-category status counts of the stock screen. */
module Queries {
  import opened Options
  import opened Seqs
  import opened Text
  import opened Store
  import opened Workflow
  import opened Serials
  import opened BulkImport

  // ---------------------------------------------------------------------------
  // get_item_by_serial

  /** The first item whose upper-cased serial is `key`. */
  function ItemByKey(items: seq<Item>, key: string): (r: Option<Item>)
    ensures r.None? <==> forall k :: 0 <= k < |items| ==> Upper(items[k].serial) != key
    ensures r.Some? ==> exists k :: (0 <= k < |items| && items[k] == r.value && Upper(items[k].serial) == key &&
      forall j :: 0 <= j < k ==> Upper(items[j].serial) != key)
  {
    match FirstIndex(items, (it: Item) => Upper(it.serial) == key)
    case None => None
    case Some(k) => Some(items[k])
  }

  /** `get_item_by_serial(serial)`: the first item whose serial equals the request ignoring ASCII case. */
  function ItemBySerial(items: seq<Item>, serial: string): (r: Option<Item>)
    ensures r.None? <==> forall k :: 0 <= k < |items| ==> Upper(items[k].serial) != Upper(serial)
    ensures r.Some? ==> exists k :: (0 <= k < |items| && items[k] == r.value && Upper(items[k].serial) == Upper(serial) &&
      forall j :: 0 <= j < k ==> Upper(items[j].serial) != Upper(serial))
  {
    ItemByKey(items, Upper(serial))
  }

  /** The lookup does not depend on the case the serial is typed in. */
  lemma SerialLookupIgnoresCase(items: seq<Item>, serial: string)
    ensures ItemBySerial(items, Lower(serial)) == ItemBySerial(items, serial)
    ensures ItemBySerial(items, Upper(serial)) == ItemBySerial(items, serial)
  {
    UpperAfterLower(serial);
    assert Upper(Upper(serial)) == Upper(serial);
  }

  /** No two items have serials that differ only in case. */
  ghost predicate UniqueSerialsIgnoringCase(items: seq<Item>) {
    forall i, j :: 0 <= i < j < |items| ==> Upper(items[i].serial) != Upper(items[j].serial)
  }

  /** When serials are unique ignoring case, looking up an item's own serial finds that item. */
  lemma SerialFindsItem(items: seq<Item>, k: nat)
    requires k < |items| && UniqueSerialsIgnoringCase(items)
    ensures ItemBySerial(items, items[k].serial) == Some(items[k])
  {
    var r := ItemBySerial(items, items[k].serial);
    var i :| 0 <= i < |items| && items[i] == r.value && Upper(items[i].serial) == Upper(items[k].serial);
    assert !(i < k) && !(k < i);
  }

  // ---------------------------------------------------------------------------
  // get_available_items_by_name

  /** `get_available_items_by_name(name)`: the `Available` items of the first category whose
      name matches ignoring case, in store order; none when no category matches or when the
      matching category's id is 0 (the source tests the id for truthiness). */
  function AvailableItemsByName(s: Store, name: string): (r: seq<Item>)
    ensures forall x :: x in r ==> x in s.items && x.status == AVAILABLE
    ensures CategoryIndex(s.inventory, name).None? ==> r == []
    ensures CategoryIndex(s.inventory, name).Some? ==>
      var id := s.inventory[CategoryIndex(s.inventory, name).value].id;
      (id == 0 ==> r == []) &&
      (id != 0 ==> forall x :: x in r <==> x in s.items && x.status == AVAILABLE && x.inventoryId == id)
  {
    match CategoryIndex(s.inventory, name)
    case None => []
    case Some(k) =>
      var id := s.inventory[k].id;
      if id == 0 then []
      else Filter(s.items, (it: Item) => it.inventoryId == id && it.status == AVAILABLE)
  }

  /** The name lookup does not depend on the case the name is typed in. */
  lemma NameLookupIgnoresCase(s: Store, name: string)
    ensures AvailableItemsByName(s, Lower(name)) == AvailableItemsByName(s, name)
    ensures AvailableItemsByName(s, Upper(name)) == AvailableItemsByName(s, name)
  {
    UpperAfterLower(name);
    assert Upper(Upper(name)) == Upper(name);
    assert CategoryIndex(s.inventory, Lower(name)) == CategoryIndex(s.inventory, name);
    assert CategoryIndex(s.inventory, Upper(name)) == CategoryIndex(s.inventory, name);
  }

  /** Round trip with bulk import: every unit an imported row creates is offered when the
      row's component name is typed on the issue screen. */
  lemma ImportedUnitsAreOffered(s: Store, row: Row, numbering: Numbering)
    requires DenseIds(s) && !Skipped(row)
    ensures var r := ImportRow(s, row, numbering).store;
      forall i :: |s.items| <= i < |r.items| ==> r.items[i] in AvailableItemsByName(r, Strip(row.name))
  {
    var name := Strip(row.name);
    var r := ImportRow(s, row, numbering).store;
    var rec := Reconcile(s.inventory, name, row.quantity as nat, Strip(row.description));
    var k := CategoryIndex(r.inventory, name).value;
    assert r.inventory[k].id == rec.inventoryId;
    ImportRowKeepsDenseIds(s, row, numbering);
    assert rec.inventoryId != 0;
    forall i | |s.items| <= i < |r.items|
      ensures r.items[i] in AvailableItemsByName(r, name)
    {
      assert r.items[i] in r.items;
      assert r.items[i].inventoryId == rec.inventoryId;
    }
  }

  /** The run the store-wide scan appends matches no existing serial ignoring case, nor itself. */
  lemma AppendedSerialsUniqueIgnoringCase(items: seq<Item>, inventoryId: int, prefix: string, n: nat)
    requires UniqueSerialsIgnoringCase(items) && NoLowerAscii(prefix)
    ensures UniqueSerialsIgnoringCase(items + NewItems(|items| + 1, prefix, MaxSuffix(items, AcrossStore, inventoryId, prefix), n, inventoryId))
  {
    var all := items + NewItems(|items| + 1, prefix, MaxSuffix(items, AcrossStore, inventoryId, prefix), n, inventoryId);
    forall i, j | 0 <= i < j < |all|
      ensures Upper(all[i].serial) != Upper(all[j].serial)
    {
      AppendedPairDiffers(items, inventoryId, prefix, n, i, j);
    }
  }

  lemma AppendedPairDiffers(items: seq<Item>, inventoryId: int, prefix: string, n: nat, i: nat, j: nat)
    requires UniqueSerialsIgnoringCase(items) && NoLowerAscii(prefix) && i < j < |items| + n
    ensures var all := items + NewItems(|items| + 1, prefix, MaxSuffix(items, AcrossStore, inventoryId, prefix), n, inventoryId);
      Upper(all[i].serial) != Upper(all[j].serial)
  {
    if j < |items| {
      OldAgainstOld(items, inventoryId, prefix, n, i, j);
    } else if i < |items| {
      NewAgainstOld(items, inventoryId, prefix, n, i, j);
    } else {
      NewAgainstNew(items, inventoryId, prefix, MaxSuffix(items, AcrossStore, inventoryId, prefix), n, i, j);
    }
  }

  lemma OldAgainstOld(items: seq<Item>, inventoryId: int, prefix: string, n: nat, i: nat, j: nat)
    requires UniqueSerialsIgnoringCase(items) && i < j < |items|
    ensures var all := items + NewItems(|items| + 1, prefix, MaxSuffix(items, AcrossStore, inventoryId, prefix), n, inventoryId);
      Upper(all[i].serial) != Upper(all[j].serial)
  {
    OldSerial(items, inventoryId, prefix, n, i);
    OldSerial(items, inventoryId, prefix, n, j);
  }

  lemma NewAgainstNew(items: seq<Item>, inventoryId: int, prefix: string, base: nat, n: nat, i: nat, j: nat)
    requires NoLowerAscii(prefix) && |items| <= i < j < |items| + n
    ensures var all := items + NewItems(|items| + 1, prefix, base, n, inventoryId);
      Upper(all[i].serial) != Upper(all[j].serial)
  {
    var all := items + NewItems(|items| + 1, prefix, base, n, inventoryId);
    assert all[i].serial == NewSerials(prefix, base, n)[i - |items|];
    assert all[j].serial == NewSerials(prefix, base, n)[j - |items|];
    NewSerialsDistinctIgnoringCase(prefix, base, n, i - |items|, j - |items|);
  }

  lemma NewAgainstOld(items: seq<Item>, inventoryId: int, prefix: string, n: nat, i: nat, j: nat)
    requires NoLowerAscii(prefix) && i < |items| <= j < |items| + n
    ensures var all := items + NewItems(|items| + 1, prefix, MaxSuffix(items, AcrossStore, inventoryId, prefix), n, inventoryId);
      Upper(all[i].serial) != Upper(all[j].serial)
  {
    OldSerial(items, inventoryId, prefix, n, i);
    NewSerial(items, inventoryId, prefix, n, j);
    NewSerialDiffersIgnoringCase(items, inventoryId, prefix, n, j - |items|, i);
  }

  lemma OldSerial(items: seq<Item>, inventoryId: int, prefix: string, n: nat, k: nat)
    requires k < |items|
    ensures var all := items + NewItems(|items| + 1, prefix, MaxSuffix(items, AcrossStore, inventoryId, prefix), n, inventoryId);
      all[k].serial == items[k].serial
  {
  }

  lemma NewSerial(items: seq<Item>, inventoryId: int, prefix: string, n: nat, k: nat)
    requires |items| <= k < |items| + n
    ensures var base := MaxSuffix(items, AcrossStore, inventoryId, prefix);
      var all := items + NewItems(|items| + 1, prefix, base, n, inventoryId);
      all[k].serial == NewSerials(prefix, base, n)[k - |items|]
  {
  }

  /** With the store-wide scan an imported row never creates a serial equal, ignoring case,
      to one already in the store, nor two equal ones. */
  lemma AcrossStoreKeepsSerialsUnique(s: Store, row: Row)
    requires UniqueSerialsIgnoringCase(s.items)
    ensures UniqueSerialsIgnoringCase(ImportRow(s, row, AcrossStore).store.items)
  {
    if Skipped(row) {
      SameItemsStayUniqueIgnoringCase(s.items, ImportRow(s, row, AcrossStore).store.items);
    } else {
      var id := Reconcile(s.inventory, Strip(row.name), row.quantity as nat, Strip(row.description)).inventoryId;
      RunStaysUniqueIgnoringCase(s.items, ImportRow(s, row, AcrossStore).store.items, id, SerialPrefix(Strip(row.name)), row.quantity as nat);
    }
  }

  /** The store a valid row leaves, given only as "the old items followed by the generated run". */
  lemma RunStaysUniqueIgnoringCase(items: seq<Item>, after: seq<Item>, inventoryId: int, prefix: string, n: nat)
    requires UniqueSerialsIgnoringCase(items) && NoLowerAscii(prefix)
    requires after == items + NewItems(|items| + 1, prefix, MaxSuffix(items, AcrossStore, inventoryId, prefix), n, inventoryId)
    ensures UniqueSerialsIgnoringCase(after)
  {
    AppendedSerialsUniqueIgnoringCase(items, inventoryId, prefix, n);
  }

  lemma SameItemsStayUniqueIgnoringCase(items: seq<Item>, items': seq<Item>)
    requires UniqueSerialsIgnoringCase(items) && items' == items
    ensures UniqueSerialsIgnoringCase(items')
  {
  }

  lemma {:induction false} BulkImportAcrossStoreKeepsSerialsUnique(s: Store, rows: seq<Row>)
    requires UniqueSerialsIgnoringCase(s.items)
    ensures UniqueSerialsIgnoringCase(BulkImport.BulkImport(s, rows, AcrossStore).store.items)
    decreases |rows|
  {
    if |rows| > 0 {
      AcrossStoreKeepsSerialsUnique(s, rows[0]);
      BulkImportAcrossStoreKeepsSerialsUnique(ImportRow(s, rows[0], AcrossStore).store, rows[1..]);
    }
  }

  /** Round trip with serial lookup: under the store-wide scan every unit an import creates is
      what `get_item_by_serial` returns for its own serial. */
  lemma ImportedUnitsFoundBySerial(s: Store, rows: seq<Row>, k: nat)
    requires UniqueSerialsIgnoringCase(s.items)
    requires k < |BulkImport.BulkImport(s, rows, AcrossStore).store.items|
    ensures var items := BulkImport.BulkImport(s, rows, AcrossStore).store.items;
      ItemBySerial(items, items[k].serial) == Some(items[k])
  {
    BulkImportAcrossStoreKeepsSerialsUnique(s, rows);
    SerialFindsItem(BulkImport.BulkImport(s, rows, AcrossStore).store.items, k);
  }

  /** One Arduino Uno unit, serial ARD001, in category 1. */
  function UnoStore(): Store {
    Store([Inventory(1, "Arduino Uno", 1, None, None)], [Item(1, "ARD001", AVAILABLE, 1)], [], [], [], [])
  }

  lemma NanoPrefix()
    ensures Strip("Arduino Nano") == "Arduino Nano"
    ensures SerialPrefix("Arduino Nano") == "ARD"
  {
    assert "Arduino Nano"[..3] == "Ard";
    assert Upper("Ard") == "ARD";
  }

  /** As written, importing one "Arduino Nano" numbers it ARD001 again: the scan looks only
      inside the new Nano category. Looking ARD001 up then finds the Uno, never the Nano. */
  lemma SerialCollisionAcrossCategories()
    ensures var r := ImportRow(UnoStore(), Row("Arduino Nano", 1, ""), PerCategory).store;
      |r.items| == 2 && r.items[1].serial == "ARD001" && r.items[1].inventoryId == 2 &&
      ItemBySerial(r.items, r.items[1].serial) == Some(r.items[0]) && r.items[0] != r.items[1]
  {
    var s := UnoStore();
    NanoPrefix();
    assert Upper(s.inventory[0].name) != Upper("Arduino Nano");
    var rec := Reconcile(s.inventory, "Arduino Nano", 1, "");
    assert rec.inventoryId == 2;
    assert SuffixValue(s.items[0], PerCategory, 2, "ARD") == None;
    assert MaxSuffix(s.items, PerCategory, 2, "ARD") == 0;
    ArduinoFirstTwo();
    var r := ImportRow(s, Row("Arduino Nano", 1, ""), PerCategory).store;
    assert r.items[1].serial == "ARD001";
    assert Upper(r.items[0].serial) == Upper("ARD001");
  }

  /** With the store-wide scan the Nano unit is numbered ARD002 and is found by its serial. */
  lemma NoCollisionAcrossStore()
    ensures var r := ImportRow(UnoStore(), Row("Arduino Nano", 1, ""), AcrossStore).store;
      |r.items| == 2 && r.items[1].serial == "ARD002" && ItemBySerial(r.items, "ARD002") == Some(r.items[1])
  {
    NanoNumberedTwo();
    var r := ImportRow(UnoStore(), Row("Arduino Nano", 1, ""), AcrossStore).store;
    assert UniqueSerialsIgnoringCase(UnoStore().items);
    AcrossStoreKeepsSerialsUnique(UnoStore(), Row("Arduino Nano", 1, ""));
    SerialFindsItem(r.items, 1);
  }

  lemma NanoNumberedTwo()
    ensures var r := ImportRow(UnoStore(), Row("Arduino Nano", 1, ""), AcrossStore).store;
      |r.items| == 2 && r.items[1].serial == "ARD002"
  {
    var s := UnoStore();
    NanoPrefix();
    assert Upper(s.inventory[0].name) != Upper("Arduino Nano");
    ArduinoFirstTwo();
    UnoScanAcrossStore();
  }

  /** Scanning the whole store for prefix ARD finds the Uno's ARD001. */
  lemma UnoScanAcrossStore()
    ensures MaxSuffix(UnoStore().items, AcrossStore, 2, "ARD") == 1
  {
    Format03Single(1);
    assert Upper("ARD001") == "ARD001";
    assert "ARD001"[3..] == Format03(1);
    ParseFormat03(1);
    assert SuffixValue(UnoStore().items[0], AcrossStore, 2, "ARD") == Some(1);
  }

  // ---------------------------------------------------------------------------
  // get_current_holder

  /** The name of the first student with the id. */
  function StudentName(students: seq<Student>, id: int): (r: Option<string>)
    ensures r.Some? ==> exists st :: st in students && st.id == id && st.name == r.value
    ensures r.None? ==> forall st :: st in students ==> st.id != id
  {
    if |students| == 0 then None
    else if students[0].id == id then Some(students[0].name)
    else StudentName(students[1..], id)
  }

  /** The inner two loops for one line: the first `Active` transaction with the id whose student exists. */
  function HolderInTransactions(txs: seq<Transaction>, students: seq<Student>, transactionId: int): (r: Option<string>)
    ensures r.Some? ==> exists t, st :: (t in txs && t.id == transactionId && t.status == Active &&
      st in students && st.id == t.studentId && st.name == r.value)
    ensures r.None? ==> forall t, st :: (t in txs && t.id == transactionId && t.status == Active && st in students) ==>
      st.id != t.studentId
  {
    if |txs| == 0 then None
    else
      var here := if txs[0].id == transactionId && txs[0].status == Active then StudentName(students, txs[0].studentId) else None;
      if here.Some? then here else HolderInTransactions(txs[1..], students, transactionId)
  }

  /** Line `l` names the item, `t` is its `Active` transaction and `st` that transaction's student, called `name`. */
  predicate HoldLine(lines: seq<Line>, txs: seq<Transaction>, students: seq<Student>, itemId: int,
                     l: Line, t: Transaction, st: Student, name: string) {
    l in lines && l.itemId == itemId && t in txs && t.id == l.transactionId &&
    t.status == Active && st in students && st.id == t.studentId && st.name == name
  }

  /** The outer loop over the lines that name the item. */
  function HolderInLines(lines: seq<Line>, txs: seq<Transaction>, students: seq<Student>, itemId: int): (r: Option<string>)
    ensures r.Some? ==> exists l, t, st :: HoldLine(lines, txs, students, itemId, l, t, st, r.value)
    ensures r.None? ==> forall l, t, st :: (l in lines && l.itemId == itemId && t in txs && t.id == l.transactionId &&
      t.status == Active && st in students) ==> st.id != t.studentId
  {
    if |lines| == 0 then None
    else
      var here := if lines[0].itemId == itemId then HolderInTransactions(txs, students, lines[0].transactionId) else None;
      if here.Some? then
        HolderHere(lines, txs, students, itemId);
        here
      else
        var rest := HolderInLines(lines[1..], txs, students, itemId);
        if rest.Some? then
          HolderLift(lines, txs, students, itemId, rest.value);
          rest
        else rest
  }

  lemma HolderLift(lines: seq<Line>, txs: seq<Transaction>, students: seq<Student>, itemId: int, name: string)
    requires |lines| > 0 && exists l, t, st :: HoldLine(lines[1..], txs, students, itemId, l, t, st, name)
    ensures exists l, t, st :: HoldLine(lines, txs, students, itemId, l, t, st, name)
  {
    var l, t, st :| HoldLine(lines[1..], txs, students, itemId, l, t, st, name);
    assert HoldLine(lines, txs, students, itemId, l, t, st, name);
  }

  lemma HolderHere(lines: seq<Line>, txs: seq<Transaction>, students: seq<Student>, itemId: int)
    requires |lines| > 0 && lines[0].itemId == itemId
    requires HolderInTransactions(txs, students, lines[0].transactionId).Some?
    ensures exists l, t, st :: HoldLine(lines, txs, students, itemId, l, t, st,
                                        HolderInTransactions(txs, students, lines[0].transactionId).value)
  {
    var name := HolderInTransactions(txs, students, lines[0].transactionId).value;
    var t, st :| t in txs && t.id == lines[0].transactionId && t.status == Active &&
      st in students && st.id == t.studentId && st.name == name;
    assert HoldLine(lines, txs, students, itemId, lines[0], t, st, name);
  }

  /** Some line of the item belongs to an `Active` transaction of the student called `name`. */
  ghost predicate HeldBy(s: Store, itemId: int, name: string) {
    exists l, t, st :: HoldLine(s.lines, s.transactions, s.students, itemId, l, t, st, name)
  }

  /** `get_current_holder(item_id)`: the name of a student whose open transaction holds the
      item, or none when no open transaction of an existing student holds it. */
  function CurrentHolder(s: Store, itemId: int): (r: Option<string>)
    ensures r.Some? ==> HeldBy(s, itemId, r.value)
    ensures r.None? <==> forall name :: !HeldBy(s, itemId, name)
  {
    HolderInLines(s.lines, s.transactions, s.students, itemId)
  }

  /** No two students share a store id. */
  ghost predicate UniqueStudentIds(students: seq<Student>) {
    forall i, j :: 0 <= i < j < |students| ==> students[i].id != students[j].id
  }

  lemma SameStudent(students: seq<Student>, a: Student, b: Student)
    requires UniqueStudentIds(students) && a in students && b in students && a.id == b.id
    ensures a == b
  {
    var i :| 0 <= i < |students| && students[i] == a;
    var j :| 0 <= j < |students| && students[j] == b;
    assert !(i < j) && !(j < i);
  }

  lemma SameTransaction(s: Store, a: Transaction, b: Transaction)
    requires DenseIds(s) && a in s.transactions && b in s.transactions && a.id == b.id
    ensures a == b
  {
    var i :| 0 <= i < |s.transactions| && s.transactions[i] == a;
    var j :| 0 <= j < |s.transactions| && s.transactions[j] == b;
  }

  /** Under the single-loan rule two open lines of one item are the same line. */
  lemma OneOpenLine(s: Store, i: nat, j: nat)
    requires SingleLoan(s) && i < |s.lines| && j < |s.lines| && s.lines[i].itemId == s.lines[j].itemId
    requires ActiveTx(s, s.lines[i].transactionId) && ActiveTx(s, s.lines[j].transactionId)
    ensures i == j
  {
  }

  /** Every open loan of an item in a consistent store belongs to the same student. */
  lemma HolderIsUnique(s: Store, itemId: int, a: string, b: string)
    requires DenseIds(s) && SingleLoan(s) && UniqueStudentIds(s.students)
    requires HeldBy(s, itemId, a) && HeldBy(s, itemId, b)
    ensures a == b
  {
    var l1, t1, st1 :| HoldLine(s.lines, s.transactions, s.students, itemId, l1, t1, st1, a);
    var l2, t2, st2 :| HoldLine(s.lines, s.transactions, s.students, itemId, l2, t2, st2, b);
    var i :| 0 <= i < |s.lines| && s.lines[i] == l1;
    var j :| 0 <= j < |s.lines| && s.lines[j] == l2;
    assert ActiveTx(s, l1.transactionId) && ActiveTx(s, l2.transactionId);
    OneOpenLine(s, i, j);
    SameTransaction(s, t1, t2);
    SameStudent(s.students, st1, st2);
  }

  /** After an issue the screen allows, each issued item's holder is the receiving student. */
  lemma HolderAfterIssue(s: Store, student: Student, itemIds: seq<int>, issuerId: Option<int>, now: int, x: int)
    requires LoanInvariant(s) && IssueGuard(s, itemIds) && UniqueStudentIds(s.students)
    requires student in s.students && x in itemIds
    ensures CurrentHolder(CreateTransaction(s, student.id, itemIds, issuerId, now).store, x) == Some(student.name)
  {
    var r := CreateTransaction(s, student.id, itemIds, issuerId, now);
    var s' := r.store;
    IssueKeepsLoanInvariant(s, student.id, itemIds, issuerId, now);
    var i :| 0 <= i < |itemIds| && itemIds[i] == x;
    var l := s'.lines[|s.lines| + i];
    var t := s'.transactions[|s.transactions|];
    assert HoldLine(s'.lines, s'.transactions, s'.students, x, l, t, student, student.name);
    var name := CurrentHolder(s', x).value;
    HolderIsUnique(s', x, name, student.name);
  }

  /** Once its open line is resolved, an item has no holder. */
  lemma HolderAfterReturn(s: Store, itemId: int, transactionId: int, now: int)
    requires DenseIds(s) && SingleLoan(s) && OpenLine(s, itemId, transactionId)
    ensures CurrentHolder(ReturnItem(s, itemId, transactionId, now), itemId) == None
  {
    var s' := ReturnItem(s, itemId, transactionId, now);
    var i :| 0 <= i < |s.lines| && s.lines[i].itemId == itemId && s.lines[i].transactionId == transactionId;
    forall l | l in s'.lines && l.itemId == itemId
      ensures !ActiveTx(s', l.transactionId)
    {
      ResolveActiveTx(s, itemId, transactionId, AVAILABLE, now, l.transactionId);
      var j :| 0 <= j < |s.lines| && s.lines[j] == l;
      if l.transactionId != transactionId {
        assert i != j;
      }
    }
  }

  // ---------------------------------------------------------------------------
  // get_active_loans

  /** One entry of `get_active_loans`: a copy of the item with its category attached,
      tagged with its transaction and line. */
  datatype Loan = Loan(item: Item, inventory: Option<Inventory>, transactionId: int, lineId: int)

  /** An entry the loan scan can produce for the student. */
  ghost predicate LoanOf(s: Store, studentId: int, ln: Loan) {
    && ln.item in s.items
    && ln.inventory == InventoryOf(s.inventory, ln.item.inventoryId)
    && Line(ln.lineId, ln.transactionId, ln.item.id) in s.lines
    && exists t :: t in s.transactions && t.id == ln.transactionId && t.studentId == studentId && t.status == Active
  }

  /** Innermost loop: every item with the line's item id (the scan does not stop at the first). */
  function ItemLoans(items: seq<Item>, inventory: seq<Inventory>, transactionId: int, line: Line): (r: seq<Loan>)
    ensures forall ln :: ln in r <==> (ln.item in items && ln.item.id == line.itemId &&
      ln == Loan(ln.item, InventoryOf(inventory, ln.item.inventoryId), transactionId, line.id))
  {
    if |items| == 0 then []
    else
      (if items[0].id == line.itemId
       then [Loan(items[0], InventoryOf(inventory, items[0].inventoryId), transactionId, line.id)]
       else [])
      + ItemLoans(items[1..], inventory, transactionId, line)
  }

  /** Middle loop: the lines of one transaction. */
  function LineLoans(items: seq<Item>, inventory: seq<Inventory>, lines: seq<Line>, transactionId: int): (r: seq<Loan>)
    ensures forall ln :: ln in r <==> (ln.transactionId == transactionId && ln.item in items &&
      ln.inventory == InventoryOf(inventory, ln.item.inventoryId) && Line(ln.lineId, transactionId, ln.item.id) in lines)
  {
    if |lines| == 0 then []
    else
      var here := if lines[0].transactionId == transactionId then ItemLoans(items, inventory, transactionId, lines[0]) else [];
      var rest := LineLoans(items, inventory, lines[1..], transactionId);
      assert forall l :: l in lines <==> l == lines[0] || l in lines[1..];
      here + rest
  }

  /** Outer loop: the student's `Active` transactions in store order. */
  function TransactionLoans(s: Store, txs: seq<Transaction>, studentId: int): (r: seq<Loan>)
    ensures forall ln :: ln in r <==> (ln.item in s.items && ln.inventory == InventoryOf(s.inventory, ln.item.inventoryId) &&
      Line(ln.lineId, ln.transactionId, ln.item.id) in s.lines &&
      exists t :: t in txs && t.id == ln.transactionId && t.studentId == studentId && t.status == Active)
  {
    if |txs| == 0 then []
    else
      var t := txs[0];
      var here := if t.studentId == studentId && t.status == Active then LineLoans(s.items, s.inventory, s.lines, t.id) else [];
      assert forall u :: u in txs <==> u == t || u in txs[1..];
      here + TransactionLoans(s, txs[1..], studentId)
  }

  /** `get_active_loans(student_id)`: every item on a line of an `Active` transaction of the
      student, with its category, transaction and line; nothing else. */
  function ActiveLoans(s: Store, studentId: int): (r: seq<Loan>)
    ensures forall ln :: ln in r <==> LoanOf(s, studentId, ln)
  {
    TransactionLoans(s, s.transactions, studentId)
  }

  /** Every loan listed for a student names that student as the item's current holder. */
  lemma LoanHasHolder(s: Store, student: Student, ln: Loan)
    requires DenseIds(s) && SingleLoan(s) && UniqueStudentIds(s.students)
    requires student in s.students && ln in ActiveLoans(s, student.id)
    ensures CurrentHolder(s, ln.item.id) == Some(student.name)
  {
    var t :| t in s.transactions && t.id == ln.transactionId && t.studentId == student.id && t.status == Active;
    assert HoldLine(s.lines, s.transactions, s.students, ln.item.id,
                    Line(ln.lineId, ln.transactionId, ln.item.id), t, student, student.name);
    HolderIsUnique(s, ln.item.id, CurrentHolder(s, ln.item.id).value, student.name);
  }

  // ---------------------------------------------------------------------------
  // get_overdue_items

  const SECONDS_PER_DAY: int := 86400

  /** One entry of `get_overdue_items`: the item, its transaction and whole days since issue. */
  datatype Overdue = Overdue(item: Item, transactionId: int, daysOverdue: int)

  /** `issue_date < datetime.now() - timedelta(days=days_threshold)` for an `Active` transaction. */
  predicate IsOverdue(t: Transaction, days: int, now: int) {
    t.status == Active && t.issueDate < now - days * SECONDS_PER_DAY
  }

  /** The first item with the id (the innermost loop breaks on the first hit). */
  function FirstItem(items: seq<Item>, id: int): (r: Option<Item>)
    ensures r.Some? ==> r.value in items && r.value.id == id
    ensures r.None? ==> forall x :: x in items ==> x.id != id
  {
    match ItemIndex(items, id)
    case None => None
    case Some(k) => Some(items[k])
  }

  /** `o` reports the first item of a line of `t`, an overdue transaction among `txs`. */
  ghost predicate OverdueEntry(s: Store, days: int, now: int, t: Transaction, o: Overdue) {
    && IsOverdue(t, days, now) && o.transactionId == t.id
    && o.daysOverdue == (now - t.issueDate) / SECONDS_PER_DAY
    && exists l :: l in s.lines && l.transactionId == t.id && FirstItem(s.items, l.itemId) == Some(o.item)
  }

  function OverdueLines(items: seq<Item>, lines: seq<Line>, t: Transaction, daysOverdue: int): (r: seq<Overdue>)
    ensures forall o :: o in r <==> (o.transactionId == t.id && o.daysOverdue == daysOverdue &&
      exists l :: l in lines && l.transactionId == t.id && FirstItem(items, l.itemId) == Some(o.item))
  {
    if |lines| == 0 then []
    else
      var here := if lines[0].transactionId == t.id then
          match FirstItem(items, lines[0].itemId)
          case None => []
          case Some(x) => [Overdue(x, t.id, daysOverdue)]
        else [];
      assert forall l :: l in lines <==> l == lines[0] || l in lines[1..];
      here + OverdueLines(items, lines[1..], t, daysOverdue)
  }

  function OverdueTransactions(s: Store, txs: seq<Transaction>, days: int, now: int): (r: seq<Overdue>)
    ensures forall o :: o in r <==> exists t :: t in txs && OverdueEntry(s, days, now, t, o)
  {
    if |txs| == 0 then []
    else
      var t := txs[0];
      var here := if IsOverdue(t, days, now) then OverdueLines(s.items, s.lines, t, (now - t.issueDate) / SECONDS_PER_DAY) else [];
      assert forall o :: o in here <==> OverdueEntry(s, days, now, t, o);
      var rest := OverdueTransactions(s, txs[1..], days, now);
      OverdueStep(s, txs, days, now, here, rest);
      here + rest
  }

  lemma OverdueStep(s: Store, txs: seq<Transaction>, days: int, now: int, here: seq<Overdue>, rest: seq<Overdue>)
    requires |txs| > 0
    requires forall o :: o in here <==> OverdueEntry(s, days, now, txs[0], o)
    requires forall o :: o in rest <==> exists t :: t in txs[1..] && OverdueEntry(s, days, now, t, o)
    ensures forall o :: o in here + rest <==> exists t :: t in txs && OverdueEntry(s, days, now, t, o)
  {
    forall o
      ensures o in here + rest <==> exists t :: t in txs && OverdueEntry(s, days, now, t, o)
    {
      if o in here {
        assert txs[0] in txs;
      }
      if o in rest {
        var t :| t in txs[1..] && OverdueEntry(s, days, now, t, o);
        assert t in txs;
      }
      if exists t :: t in txs && OverdueEntry(s, days, now, t, o) {
        var t :| t in txs && OverdueEntry(s, days, now, t, o);
        if t != txs[0] {
          assert t in txs[1..];
        }
      }
    }
  }

  /** `get_overdue_items(days_threshold)` with the clock read once as `now` (seconds): for
      every `Active` transaction issued before the threshold instant, the first item of each
      of its lines, with the whole days elapsed since issue (`timedelta.days` floors). */
  function OverdueItems(s: Store, days: int, now: int): (r: seq<Overdue>)
    ensures forall o :: o in r <==> exists t :: t in s.transactions && OverdueEntry(s, days, now, t, o)
  {
    OverdueTransactions(s, s.transactions, days, now)
  }

  /** Every reported loan has been out for at least the threshold, counted in whole days. */
  lemma OverdueAtLeastThreshold(s: Store, days: int, now: int, o: Overdue)
    requires o in OverdueItems(s, days, now)
    ensures o.daysOverdue >= days
  {
    var t :| t in s.transactions && OverdueEntry(s, days, now, t, o);
    assert now - t.issueDate > days * SECONDS_PER_DAY;
    DivAtLeast(now - t.issueDate, days);
  }

  lemma DivAtLeast(a: int, d: int)
    requires a > d * SECONDS_PER_DAY
    ensures a / SECONDS_PER_DAY >= d
  {
  }

  /** Raising the threshold can only shorten the overdue list. */
  lemma OverdueMonotone(s: Store, d1: int, d2: int, now: int, o: Overdue)
    requires d1 <= d2 && o in OverdueItems(s, d2, now)
    ensures o in OverdueItems(s, d1, now)
  {
    var t :| t in s.transactions && OverdueEntry(s, d2, now, t, o);
    assert d1 * SECONDS_PER_DAY <= d2 * SECONDS_PER_DAY;
    assert OverdueEntry(s, d1, now, t, o);
  }

  /** A transaction created now is never overdue for a threshold of zero or more days. */
  lemma NewLoanNotOverdue(s: Store, studentId: int, itemIds: seq<int>, issuerId: Option<int>, now: int, days: int, o: Overdue)
    requires DenseIds(s) && days >= 0
    requires o in OverdueItems(CreateTransaction(s, studentId, itemIds, issuerId, now).store, days, now)
    ensures o.transactionId != |s.transactions| + 1
  {
    var s' := CreateTransaction(s, studentId, itemIds, issuerId, now).store;
    assert s'.transactions[..|s.transactions|] == s.transactions;
    OverdueIsOld(s, s', days, now, o);
  }

  /** When one transaction issued at `now` is added, every overdue entry belongs to an older one. */
  lemma OverdueIsOld(s: Store, s': Store, days: int, now: int, o: Overdue)
    requires DenseIds(s) && days >= 0
    requires |s'.transactions| == |s.transactions| + 1 && s'.transactions[..|s.transactions|] == s.transactions
    requires s'.transactions[|s.transactions|].issueDate == now
    requires o in OverdueItems(s', days, now)
    ensures o.transactionId <= |s.transactions|
  {
    var t :| t in s'.transactions && OverdueEntry(s', days, now, t, o);
    var k :| 0 <= k < |s'.transactions| && s'.transactions[k] == t;
    assert t.issueDate < now;
    assert k < |s.transactions|;
    assert t == s.transactions[k];
  }

  // ---------------------------------------------------------------------------
  // search_students

  /** Either the code or the name contains the query. */
  predicate StudentMatches(st: Student, q: string) {
    Contains(Lower(st.studentCode), q) || Contains(Lower(st.name), q)
  }

  /** The filter of `search_students`, on the already-normalised query. */
  function StudentsMatching(students: seq<Student>, q: string): (r: seq<Student>)
    ensures forall st :: st in r <==> st in students && StudentMatches(st, q)
  {
    Filter(students, (st: Student) => StudentMatches(st, q))
  }

  /** `search_students(query)`: the query is lower-cased and stripped; an empty query finds
      nobody; otherwise every student whose lower-cased code or name contains it, in order. */
  function SearchStudents(students: seq<Student>, query: string): (r: seq<Student>)
    ensures Strip(Lower(query)) == [] ==> r == []
    ensures Strip(Lower(query)) != [] ==>
      forall st :: st in r <==> st in students && StudentMatches(st, Strip(Lower(query)))
  {
    var q := Strip(Lower(query));
    if q == [] then [] else StudentsMatching(students, q)
  }

  /** Search does not depend on the case the query is typed in. */
  lemma SearchIgnoresCase(students: seq<Student>, query: string)
    ensures SearchStudents(students, Upper(query)) == SearchStudents(students, query)
  {
    LowerAfterUpper(query);
  }

  /** Searching for a student's own code, in any case and with surrounding blanks, finds them. */
  lemma SearchFindsOwnCode(students: seq<Student>, st: Student, query: string)
    requires st in students && Strip(Lower(query)) != []
    requires Strip(Lower(query)) == Strip(Lower(st.studentCode))
    ensures st in SearchStudents(students, query)
  {
    ContainsStrip(Lower(st.studentCode));
  }

  // ---------------------------------------------------------------------------
  // Status counts of the stock screen

  /** The items `sum(1 for item in items if ...)` counts: the category's, with exactly this status. */
  predicate Counted(item: Item, inventoryId: int, status: string) {
    item.inventoryId == inventoryId && item.status == status
  }

  /** Items of the category with exactly this status (`sum(1 for item in items if ...)`). */
  function StatusCount(items: seq<Item>, inventoryId: int, status: string): (n: nat)
    ensures n <= |items|
    ensures n == 0 <==> forall k :: 0 <= k < |items| ==> !Counted(items[k], inventoryId, status)
    ensures n == |items| <==> forall k :: 0 <= k < |items| ==> Counted(items[k], inventoryId, status)
  {
    if |items| == 0 then 0
    else
      var here := if Counted(items[0], inventoryId, status) then 1 else 0;
      assert forall k :: 1 <= k < |items| ==> items[k] == items[1..][k - 1];
      here + StatusCount(items[1..], inventoryId, status)
  }

  /** The count is the length of the list of counted items, as the generator expression sums it. */
  lemma {:induction false} StatusCountIsFilterLength(items: seq<Item>, inventoryId: int, status: string)
    ensures StatusCount(items, inventoryId, status) == |Filter(items, (it: Item) => Counted(it, inventoryId, status))|
  {
    if |items| > 0 {
      StatusCountIsFilterLength(items[1..], inventoryId, status);
    }
  }

  function CategorySize(items: seq<Item>, inventoryId: int): nat {
    if |items| == 0 then 0
    else (if items[0].inventoryId == inventoryId then 1 else 0) + CategorySize(items[1..], inventoryId)
  }

  /** One row of the stock screen: name, intake total and the three live counts. */
  datatype StockRow = StockRow(name: string, totalQty: int, available: nat, issued: nat, damaged: nat)

  /** The rows of `_load_inventory_display`, one per category in store order. */
  function StockRows(s: Store): (r: seq<StockRow>)
    ensures |r| == |s.inventory|
    ensures forall k :: 0 <= k < |r| ==>
      r[k].name == s.inventory[k].name && r[k].totalQty == s.inventory[k].totalQty &&
      r[k].available == StatusCount(s.items, s.inventory[k].id, AVAILABLE) &&
      r[k].issued == StatusCount(s.items, s.inventory[k].id, ISSUED) &&
      r[k].damaged == StatusCount(s.items, s.inventory[k].id, DAMAGED) &&
      r[k].available + r[k].issued + r[k].damaged <= CategorySize(s.items, s.inventory[k].id)
  {
    seq(|s.inventory|, k requires 0 <= k < |s.inventory| => StockRowOf(s.items, s.inventory[k]))
  }

  function StockRowOf(items: seq<Item>, inv: Inventory): (r: StockRow)
    ensures r.name == inv.name && r.totalQty == inv.totalQty
    ensures r.available == StatusCount(items, inv.id, AVAILABLE)
    ensures r.issued == StatusCount(items, inv.id, ISSUED)
    ensures r.damaged == StatusCount(items, inv.id, DAMAGED)
    ensures r.available + r.issued + r.damaged <= CategorySize(items, inv.id)
  {
    CountsWithinCategory(items, inv.id);
    StockRow(inv.name, inv.totalQty,
             StatusCount(items, inv.id, AVAILABLE), StatusCount(items, inv.id, ISSUED), StatusCount(items, inv.id, DAMAGED))
  }

  /** The three counts never exceed the category's units; they add up to it exactly when
      every unit carries one of the three statuses. */
  lemma {:induction false} CountsWithinCategory(items: seq<Item>, id: int)
    ensures StatusCount(items, id, AVAILABLE) + StatusCount(items, id, ISSUED) + StatusCount(items, id, DAMAGED)
      <= CategorySize(items, id)
    ensures (forall k :: 0 <= k < |items| ==> items[k].status in {AVAILABLE, ISSUED, DAMAGED}) ==>
      StatusCount(items, id, AVAILABLE) + StatusCount(items, id, ISSUED) + StatusCount(items, id, DAMAGED)
      == CategorySize(items, id)
  {
    if |items| > 0 {
      CountsWithinCategory(items[1..], id);
    }
  }

  /** Changing one unit's status moves it between the counts of its category and leaves
      every other count alone. */
  lemma {:induction false} StatusCountUpdate(items: seq<Item>, k: nat, v: Item, id: int, status: string)
    requires k < |items|
    ensures StatusCount(items[k := v], id, status) ==
      StatusCount(items, id, status)
      - (if items[k].inventoryId == id && items[k].status == status then 1 else 0)
      + (if v.inventoryId == id && v.status == status then 1 else 0)
  {
    if k > 0 {
      assert items[k := v][1..] == items[1..][k - 1 := v];
      StatusCountUpdate(items[1..], k - 1, v, id, status);
    }
  }

  /** Issuing one available unit moves one from the category's `Available` count to its
      `Issued` count. */
  lemma IssueMovesOneUnit(s: Store, studentId: int, itemId: int, issuerId: Option<int>, now: int)
    requires DenseIds(s) && 1 <= itemId <= |s.items| && s.items[itemId - 1].status == AVAILABLE
    ensures var s' := CreateTransaction(s, studentId, [itemId], issuerId, now).store;
      var c := s.items[itemId - 1].inventoryId;
      StatusCount(s'.items, c, AVAILABLE) == StatusCount(s.items, c, AVAILABLE) - 1 &&
      StatusCount(s'.items, c, ISSUED) == StatusCount(s.items, c, ISSUED) + 1 &&
      StatusCount(s'.items, c, DAMAGED) == StatusCount(s.items, c, DAMAGED)
  {
    var s' := CreateTransaction(s, studentId, [itemId], issuerId, now).store;
    var k := itemId - 1;
    DenseFirst(s.items, k);
    var v := s.items[k].(status := ISSUED);
    assert s'.items == s.items[k := v] by {
      forall j | 0 <= j < |s.items| ensures s'.items[j] == s.items[k := v][j] {
        assert s.items[j].id == j + 1;
      }
    }
    var c := s.items[k].inventoryId;
    StatusCountUpdate(s.items, k, v, c, AVAILABLE);
    StatusCountUpdate(s.items, k, v, c, ISSUED);
    StatusCountUpdate(s.items, k, v, c, DAMAGED);
  }
}
