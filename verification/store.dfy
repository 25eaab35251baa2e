/** The in-process entity store of `DatabaseManager`: the six record lists it keeps
    (`mock_inventory`, `mock_items`, `mock_students`, `mock_staff`,
    `mock_transactions`, `mock_transaction_items`) as one immutable value, with
    the lookups every operation shares. */
module Store {
  import opened Options
  import opened Seqs
  import opened Text

  /** The three item statuses the store writes. Item status is kept as text because
      the issue screen and the catalog filter compare it as text. */
  const AVAILABLE: string := "Available"
  const ISSUED: string := "Issued"
  const DAMAGED: string := "Damaged"

  datatype TxStatus = Active | Closed

  /** One equipment category. `totalQty` counts every unit ever taken in, not the units on the shelf. */
  datatype Inventory = Inventory(
    id: int,
    name: string,
    totalQty: int,
    course: Option<string>,
    description: Option<string>)

  /** One physical, serial-numbered unit. */
  datatype Item = Item(id: int, serial: string, status: string, inventoryId: int)

  /** `studentCode` is the human-readable code (`STU001`); `id` is the store key. */
  datatype Student = Student(
    id: int,
    studentCode: string,
    name: string,
    phone: Option<string>,
    email: Option<string>)

  datatype Staff = Staff(id: int, staffCode: string, name: string)

  /** One issue event; `issueDate` and `closedAt` are seconds on the host clock. */
  datatype Transaction = Transaction(
    id: int,
    studentId: int,
    issuerId: Option<int>,
    status: TxStatus,
    issueDate: int,
    closedAt: Option<int>)

  /** One row of `transaction_items`: links a transaction to one issued item. */
  datatype Line = Line(id: int, transactionId: int, itemId: int)

  datatype Store = Store(
    inventory: seq<Inventory>,
    items: seq<Item>,
    students: seq<Student>,
    staff: seq<Staff>,
    transactions: seq<Transaction>,
    lines: seq<Line>)

  /** Index of the first item with this id (the `for item in mock_items: if item["id"] == …: break` scan). */
  function ItemIndex(items: seq<Item>, id: int): Option<nat> {
    FirstIndex(items, (it: Item) => it.id == id)
  }

  function TransactionIndex(txs: seq<Transaction>, id: int): Option<nat> {
    FirstIndex(txs, (t: Transaction) => t.id == id)
  }

  /** No earlier item shares the id of `items[k]`: it is the one an id scan stops at. */
  predicate FirstWithId(items: seq<Item>, k: nat)
    requires k < |items|
  {
    forall j :: 0 <= j < k ==> items[j].id != items[k].id
  }

  /** A category name matches a requested name ignoring ASCII case (`inv["name"].upper() == name.upper()`). */
  predicate SameName(inv: Inventory, name: string) {
    Upper(inv.name) == Upper(name)
  }

  /** The first category whose name equals `name` ignoring case. */
  function CategoryIndex(inventory: seq<Inventory>, name: string): (r: Option<nat>)
    ensures r.Some? ==> r.value < |inventory| && SameName(inventory[r.value], name)
    ensures r.Some? ==> forall j :: 0 <= j < r.value ==> !SameName(inventory[j], name)
    ensures r.None? ==> forall j :: 0 <= j < |inventory| ==> !SameName(inventory[j], name)
  {
    CategoryIndexByKey(inventory, Upper(name))
  }

  function CategoryIndexByKey(inventory: seq<Inventory>, key: string): Option<nat> {
    FirstIndex(inventory, (inv: Inventory) => Upper(inv.name) == key)
  }

  /** The first matching category is the one a name scan stops at. */
  lemma CategoryIndexIsFirst(inventory: seq<Inventory>, name: string, k: nat)
    requires k < |inventory| && SameName(inventory[k], name)
    requires forall j :: 0 <= j < k ==> !SameName(inventory[j], name)
    ensures CategoryIndex(inventory, name) == Some(k)
  {
    match CategoryIndex(inventory, name) {
      case None =>
      case Some(j) => assert !(j < k) && !(k < j);
    }
  }

  /** The category an item belongs to, as `get_all_items` attaches it (`None` when absent). */
  function InventoryOf(inventory: seq<Inventory>, id: int): (r: Option<Inventory>)
    ensures r.Some? ==> r.value in inventory && r.value.id == id
    ensures r.None? ==> forall inv :: inv in inventory ==> inv.id != id
  {
    match FirstIndex(inventory, (inv: Inventory) => inv.id == id)
    case None => None
    case Some(k) => Some(inventory[k])
  }

  /** The first item with the given id gets `status`; every other item and field is kept. */
  function SetItemStatus(items: seq<Item>, id: int, status: string): (r: seq<Item>)
    ensures |r| == |items|
    ensures forall k :: 0 <= k < |items| ==>
      r[k] == (if ItemIndex(items, id) == Some(k) then items[k].(status := status) else items[k])
  {
    match ItemIndex(items, id)
    case None => items
    case Some(k) => items[k := items[k].(status := status)]
  }

  /** The first transaction with the given id becomes `Closed` at `now`; every other one is kept. */
  function CloseTransaction(txs: seq<Transaction>, id: int, now: int): (r: seq<Transaction>)
    ensures |r| == |txs|
    ensures forall k :: 0 <= k < |txs| ==>
      r[k] == (if TransactionIndex(txs, id) == Some(k)
               then txs[k].(status := Closed, closedAt := Some(now))
               else txs[k])
  {
    match TransactionIndex(txs, id)
    case None => txs
    case Some(k) => txs[k := txs[k].(status := Closed, closedAt := Some(now))]
  }

  /** The store hands out ids `len(list) + 1` for items, transactions and lines, and never
      deletes any of them, so their ids are their positions plus one. Every line points at
      a transaction that exists. */
  ghost predicate DenseIds(s: Store) {
    && (forall k :: 0 <= k < |s.inventory| ==> s.inventory[k].id == k + 1)
    && (forall k :: 0 <= k < |s.items| ==> s.items[k].id == k + 1)
    && (forall k :: 0 <= k < |s.transactions| ==> s.transactions[k].id == k + 1)
    && (forall k :: 0 <= k < |s.lines| ==> s.lines[k].id == k + 1)
    && (forall k :: 0 <= k < |s.lines| ==> 1 <= s.lines[k].transactionId <= |s.transactions|)
  }
}
