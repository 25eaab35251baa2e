/** The transaction workflow of the in-process store: `create_transaction`, `return_item`
    and `report_damaged`, the only writers of item and transaction status, and the loan
    invariant they keep when the issue screen's guard is respected. */
module Workflow {
  import opened Options
  import opened Seqs
  import opened Store

  datatype Issued = Issued(store: Store, transactionId: int)

  /** `if issuer_id: transaction_data["issuer_id"] = issuer_id`: a missing or zero issuer is not recorded. */
  function IssuerField(issuerId: Option<int>): (r: Option<int>)
    ensures r.Some? <==> issuerId.Some? && issuerId.value != 0
    ensures r.Some? ==> r == issuerId
  {
    if issuerId.Some? && issuerId.value != 0 then issuerId else None
  }

  /** Position `k` is the first item carrying `id` exactly when an id scan of the items stops there. */
  lemma ItemIndexIsFirst(items: seq<Item>, id: int, k: nat)
    requires k < |items|
    ensures ItemIndex(items, id) == Some(k) <==> items[k].id == id && FirstWithId(items, k)
  {
    if items[k].id == id && FirstWithId(items, k) {
      match ItemIndex(items, id)
      case None =>
      case Some(j) =>
        assert !(j < k);
        assert !(k < j);
    }
  }

  /** Items whose ids and positions agree have the same id scans. */
  lemma SameIdsSameIndex(a: seq<Item>, b: seq<Item>, id: int)
    requires |a| == |b| && forall k :: 0 <= k < |a| ==> a[k].id == b[k].id
    ensures ItemIndex(a, id) == ItemIndex(b, id)
  {
    match ItemIndex(a, id) {
      case None =>
        match ItemIndex(b, id) {
          case None =>
          case Some(j) =>
        }
      case Some(k) =>
        assert b[k].id == id;
        ItemIndexIsFirst(a, id, k);
        ItemIndexIsFirst(b, id, k);
    }
  }

  /** The status updates of `create_transaction`: for every listed id, the first item with
      that id becomes `Issued`; ids, serials, categories and every other status are kept. */
  function MarkIssued(items: seq<Item>, itemIds: seq<int>): (r: seq<Item>)
    ensures |r| == |items|
    ensures forall k :: 0 <= k < |items| ==>
      r[k] == items[k].(status := if items[k].id in itemIds && FirstWithId(items, k) then ISSUED else items[k].status)
    decreases |itemIds|
  {
    if |itemIds| == 0 then items
    else
      var front := itemIds[..|itemIds| - 1];
      var id := itemIds[|itemIds| - 1];
      var m := MarkIssued(items, front);
      assert forall x :: x in itemIds <==> x in front || x == id by {
        assert itemIds == front + [id];
      }
      SameIdsSameIndex(m, items, id);
      forall k | 0 <= k < |items|
        ensures ItemIndex(items, id) == Some(k) <==> items[k].id == id && FirstWithId(items, k)
      {
        ItemIndexIsFirst(items, id, k);
      }
      SetItemStatus(m, id, ISSUED)
  }

  /** `create_transaction(student_id, item_ids, issuer_id)`: one new `Active` transaction with
      id `len(transactions) + 1` issued at `now`, one new line per listed id in list order,
      and every listed item marked `Issued`. The status of the items is not checked here. */
  function CreateTransaction(s: Store, studentId: int, itemIds: seq<int>, issuerId: Option<int>, now: int): (r: Issued)
    ensures r.transactionId == |s.transactions| + 1
    ensures r.store.transactions ==
      s.transactions + [Transaction(r.transactionId, studentId, IssuerField(issuerId), Active, now, None)]
    ensures |r.store.lines| == |s.lines| + |itemIds| && r.store.lines[..|s.lines|] == s.lines
    ensures forall i :: 0 <= i < |itemIds| ==>
      r.store.lines[|s.lines| + i] == Line(|s.lines| + i + 1, r.transactionId, itemIds[i])
    ensures |r.store.items| == |s.items|
    ensures forall k :: 0 <= k < |s.items| && s.items[k].id in itemIds && FirstWithId(s.items, k) ==>
      r.store.items[k] == s.items[k].(status := ISSUED)
    ensures forall k :: 0 <= k < |s.items| && s.items[k].id !in itemIds ==> r.store.items[k] == s.items[k]
    ensures forall k :: 0 <= k < |s.items| && !FirstWithId(s.items, k) ==> r.store.items[k] == s.items[k]
    ensures r.store.inventory == s.inventory && r.store.students == s.students && r.store.staff == s.staff
  {
    var txId := |s.transactions| + 1;
    var added := seq(|itemIds|, i requires 0 <= i < |itemIds| => Line(|s.lines| + i + 1, txId, itemIds[i]));
    assert (s.lines + added)[..|s.lines|] == s.lines;
    Issued(s.(transactions := s.transactions + [Transaction(txId, studentId, IssuerField(issuerId), Active, now, None)],
              lines := s.lines + added,
              items := MarkIssued(s.items, itemIds)),
           txId)
  }

  /** The shared body of `return_item` and `report_damaged`: the first item with `itemId` takes
      `status`, and the first transaction with `transactionId` is closed at `now`, whatever
      else it contains. */
  function ResolveLoan(s: Store, itemId: int, transactionId: int, status: string, now: int): (r: Store)
    ensures |r.items| == |s.items| && |r.transactions| == |s.transactions|
    ensures forall k :: 0 <= k < |s.items| ==>
      r.items[k] == (if s.items[k].id == itemId && FirstWithId(s.items, k) then s.items[k].(status := status) else s.items[k])
    ensures forall k :: 0 <= k < |s.transactions| ==>
      r.transactions[k] == (if TransactionIndex(s.transactions, transactionId) == Some(k)
                            then s.transactions[k].(status := Closed, closedAt := Some(now))
                            else s.transactions[k])
    ensures r.lines == s.lines && r.inventory == s.inventory && r.students == s.students && r.staff == s.staff
  {
    forall k | 0 <= k < |s.items|
      ensures ItemIndex(s.items, itemId) == Some(k) <==> s.items[k].id == itemId && FirstWithId(s.items, k)
    {
      ItemIndexIsFirst(s.items, itemId, k);
    }
    s.(items := SetItemStatus(s.items, itemId, status),
       transactions := CloseTransaction(s.transactions, transactionId, now))
  }

  /** `return_item(item_id, transaction_id)`: the item is `Available` again and the transaction is `Closed`. */
  function ReturnItem(s: Store, itemId: int, transactionId: int, now: int): (r: Store)
    ensures |r.items| == |s.items| && |r.transactions| == |s.transactions|
    ensures forall k :: 0 <= k < |s.items| && s.items[k].id == itemId && FirstWithId(s.items, k) ==>
      r.items[k] == s.items[k].(status := AVAILABLE)
    ensures forall k :: 0 <= k < |s.items| && !(s.items[k].id == itemId && FirstWithId(s.items, k)) ==>
      r.items[k] == s.items[k]
    ensures forall k :: 0 <= k < |s.transactions| && TransactionIndex(s.transactions, transactionId) == Some(k) ==>
      s.transactions[k].id == transactionId &&
      r.transactions[k] == s.transactions[k].(status := Closed, closedAt := Some(now))
    ensures forall k :: 0 <= k < |s.transactions| && TransactionIndex(s.transactions, transactionId) != Some(k) ==>
      r.transactions[k] == s.transactions[k]
    ensures r.lines == s.lines && r.inventory == s.inventory && r.students == s.students && r.staff == s.staff
  {
    ResolveLoan(s, itemId, transactionId, AVAILABLE, now)
  }

  /** `report_damaged(item_id, transaction_id)`: the item is `Damaged` and the transaction is `Closed`. */
  function ReportDamaged(s: Store, itemId: int, transactionId: int, now: int): (r: Store)
    ensures |r.items| == |s.items| && |r.transactions| == |s.transactions|
    ensures forall k :: 0 <= k < |s.items| && s.items[k].id == itemId && FirstWithId(s.items, k) ==>
      r.items[k] == s.items[k].(status := DAMAGED)
    ensures forall k :: 0 <= k < |s.items| && !(s.items[k].id == itemId && FirstWithId(s.items, k)) ==>
      r.items[k] == s.items[k]
    ensures forall k :: 0 <= k < |s.transactions| && TransactionIndex(s.transactions, transactionId) == Some(k) ==>
      s.transactions[k].id == transactionId &&
      r.transactions[k] == s.transactions[k].(status := Closed, closedAt := Some(now))
    ensures forall k :: 0 <= k < |s.transactions| && TransactionIndex(s.transactions, transactionId) != Some(k) ==>
      r.transactions[k] == s.transactions[k]
    ensures r.lines == s.lines && r.inventory == s.inventory && r.students == s.students && r.staff == s.staff
  {
    ResolveLoan(s, itemId, transactionId, DAMAGED, now)
  }

  // ---------------------------------------------------------------------------
  // The loan invariant

  /** Some transaction with this id is `Active`. */
  ghost predicate ActiveTx(s: Store, transactionId: int) {
    exists t :: t in s.transactions && t.id == transactionId && t.status == Active
  }

  /** Some line for the item belongs to an `Active` transaction. */
  ghost predicate OnLoan(s: Store, itemId: int) {
    exists j :: 0 <= j < |s.lines| && s.lines[j].itemId == itemId && ActiveTx(s, s.lines[j].transactionId)
  }

  /** Every item on an open loan is marked `Issued`. */
  ghost predicate LoansSound(s: Store) {
    forall k :: 0 <= k < |s.items| && OnLoan(s, s.items[k].id) ==> s.items[k].status == ISSUED
  }

  /** Every item marked `Issued` is on an open loan. */
  ghost predicate LoansComplete(s: Store) {
    forall k :: 0 <= k < |s.items| && s.items[k].status == ISSUED ==> OnLoan(s, s.items[k].id)
  }

  /** No item is on two open loans at once. */
  ghost predicate SingleLoan(s: Store) {
    forall j, k ::
      (0 <= j < |s.lines| && 0 <= k < |s.lines| && j != k &&
       s.lines[j].itemId == s.lines[k].itemId && ActiveTx(s, s.lines[j].transactionId)) ==>
      !ActiveTx(s, s.lines[k].transactionId)
  }

  /** An item is `Issued` exactly when exactly one open loan holds it. */
  ghost predicate LoanInvariant(s: Store) {
    DenseIds(s) && LoansSound(s) && LoansComplete(s) && SingleLoan(s)
  }

  /** What the issue screen guarantees before it calls `create_transaction`: the cart holds
      distinct ids of existing items, none of them `Issued`. */
  ghost predicate IssueGuard(s: Store, itemIds: seq<int>) {
    && (forall i :: 0 <= i < |itemIds| ==> 1 <= itemIds[i] <= |s.items|)
    && (forall i :: 0 <= i < |itemIds| ==> s.items[itemIds[i] - 1].status != ISSUED)
    && (forall i, j :: 0 <= i < j < |itemIds| ==> itemIds[i] != itemIds[j])
  }

  lemma ActiveTxDense(s: Store, id: int)
    requires DenseIds(s)
    ensures ActiveTx(s, id) <==> 1 <= id <= |s.transactions| && s.transactions[id - 1].status == Active
  {
    if ActiveTx(s, id) {
      var t :| t in s.transactions && t.id == id && t.status == Active;
      var k :| 0 <= k < |s.transactions| && s.transactions[k] == t;
    }
    if 1 <= id <= |s.transactions| && s.transactions[id - 1].status == Active {
      assert s.transactions[id - 1] in s.transactions;
    }
  }

  lemma DenseFirst(items: seq<Item>, k: nat)
    requires k < |items| && forall j :: 0 <= j < |items| ==> items[j].id == j + 1
    ensures FirstWithId(items, k)
  {
  }

  /** After an issue, the open transactions are the old ones plus the new one. */
  lemma IssueActiveTx(s: Store, studentId: int, itemIds: seq<int>, issuerId: Option<int>, now: int, id: int)
    requires DenseIds(s)
    ensures var s' := CreateTransaction(s, studentId, itemIds, issuerId, now).store;
      ActiveTx(s', id) <==> ActiveTx(s, id) || id == |s.transactions| + 1
  {
    var s' := CreateTransaction(s, studentId, itemIds, issuerId, now).store;
    ActiveTxDense(s, id);
    assert DenseIds(s') by { IssueKeepsDenseIds(s, studentId, itemIds, issuerId, now); }
    ActiveTxDense(s', id);
    if 1 <= id <= |s.transactions| {
      assert s'.transactions[id - 1] == s.transactions[id - 1];
    }
  }

  lemma IssueKeepsDenseIds(s: Store, studentId: int, itemIds: seq<int>, issuerId: Option<int>, now: int)
    requires DenseIds(s)
    ensures DenseIds(CreateTransaction(s, studentId, itemIds, issuerId, now).store)
  {
    var s' := CreateTransaction(s, studentId, itemIds, issuerId, now).store;
    forall k | 0 <= k < |s'.lines|
      ensures s'.lines[k].id == k + 1 && 1 <= s'.lines[k].transactionId <= |s'.transactions|
    {
      if k < |s.lines| {
        assert s'.lines[k] == s'.lines[..|s.lines|][k] == s.lines[k];
      } else {
        assert s'.lines[|s.lines| + (k - |s.lines|)].id == k + 1;
      }
    }
  }

  /** After an issue, an item is on loan exactly when it was before or it is in the issued list. */
  lemma IssueOnLoan(s: Store, studentId: int, itemIds: seq<int>, issuerId: Option<int>, now: int, x: int)
    requires DenseIds(s)
    ensures var s' := CreateTransaction(s, studentId, itemIds, issuerId, now).store;
      OnLoan(s', x) <==> OnLoan(s, x) || x in itemIds
  {
    var r := CreateTransaction(s, studentId, itemIds, issuerId, now);
    var s' := r.store;
    if OnLoan(s', x) {
      var j :| 0 <= j < |s'.lines| && s'.lines[j].itemId == x && ActiveTx(s', s'.lines[j].transactionId);
      if j < |s.lines| {
        assert s'.lines[j] == s'.lines[..|s.lines|][j] == s.lines[j];
        IssueActiveTx(s, studentId, itemIds, issuerId, now, s.lines[j].transactionId);
      } else {
        var i := j - |s.lines|;
        assert s'.lines[|s.lines| + i].itemId == itemIds[i];
      }
    }
    if OnLoan(s, x) {
      var j :| 0 <= j < |s.lines| && s.lines[j].itemId == x && ActiveTx(s, s.lines[j].transactionId);
      assert s'.lines[j] == s'.lines[..|s.lines|][j] == s.lines[j];
      IssueActiveTx(s, studentId, itemIds, issuerId, now, s.lines[j].transactionId);
    }
    if x in itemIds {
      var i :| 0 <= i < |itemIds| && itemIds[i] == x;
      var j := |s.lines| + i;
      assert s'.lines[j] == Line(j + 1, r.transactionId, x);
      IssueActiveTx(s, studentId, itemIds, issuerId, now, r.transactionId);
    }
  }

  /** Issuing items the guard lets through keeps the loan invariant. */
  lemma IssueKeepsLoanInvariant(s: Store, studentId: int, itemIds: seq<int>, issuerId: Option<int>, now: int)
    requires LoanInvariant(s) && IssueGuard(s, itemIds)
    ensures LoanInvariant(CreateTransaction(s, studentId, itemIds, issuerId, now).store)
  {
    IssueKeepsDenseIds(s, studentId, itemIds, issuerId, now);
    IssueKeepsLoansSound(s, studentId, itemIds, issuerId, now);
    IssueKeepsLoansComplete(s, studentId, itemIds, issuerId, now);
    IssueKeepsSingleLoan(s, studentId, itemIds, issuerId, now);
  }

  /** Every item an issue puts on loan is marked `Issued`, and old loans stay marked. */
  lemma IssueKeepsLoansSound(s: Store, studentId: int, itemIds: seq<int>, issuerId: Option<int>, now: int)
    requires DenseIds(s) && LoansSound(s)
    ensures LoansSound(CreateTransaction(s, studentId, itemIds, issuerId, now).store)
  {
    var s' := CreateTransaction(s, studentId, itemIds, issuerId, now).store;
    forall k | 0 <= k < |s'.items| && OnLoan(s', s'.items[k].id)
      ensures s'.items[k].status == ISSUED
    {
      IssueOnLoan(s, studentId, itemIds, issuerId, now, s.items[k].id);
      DenseFirst(s.items, k);
    }
  }

  /** An item `Issued` after an issue was on loan before or is on the new loan. */
  lemma IssueKeepsLoansComplete(s: Store, studentId: int, itemIds: seq<int>, issuerId: Option<int>, now: int)
    requires DenseIds(s) && LoansComplete(s)
    ensures LoansComplete(CreateTransaction(s, studentId, itemIds, issuerId, now).store)
  {
    var s' := CreateTransaction(s, studentId, itemIds, issuerId, now).store;
    forall k | 0 <= k < |s'.items| && s'.items[k].status == ISSUED
      ensures OnLoan(s', s'.items[k].id)
    {
      IssueOnLoan(s, studentId, itemIds, issuerId, now, s.items[k].id);
    }
  }

  lemma IssueKeepsSingleLoan(s: Store, studentId: int, itemIds: seq<int>, issuerId: Option<int>, now: int)
    requires DenseIds(s) && LoansSound(s) && SingleLoan(s) && IssueGuard(s, itemIds)
    ensures SingleLoan(CreateTransaction(s, studentId, itemIds, issuerId, now).store)
  {
    var s' := CreateTransaction(s, studentId, itemIds, issuerId, now).store;
    forall j | 0 <= j < |s.lines|
      ensures s'.lines[j] == s.lines[j]
    {
      assert s'.lines[j] == s'.lines[..|s.lines|][j];
    }
    forall id
      ensures ActiveTx(s', id) <==> ActiveTx(s, id) || id == |s.transactions| + 1
    {
      IssueActiveTx(s, studentId, itemIds, issuerId, now, id);
    }
    PairsAfterIssue(s, s', itemIds);
  }

  /** The lines of `s'` are those of `s` followed by one line per cart id, all in the new transaction. */
  ghost predicate LinesAfterIssue(s: Store, s': Store, itemIds: seq<int>) {
    && |s'.lines| == |s.lines| + |itemIds|
    && (forall j :: 0 <= j < |s.lines| ==> s'.lines[j] == s.lines[j])
    && (forall i :: 0 <= i < |itemIds| ==>
          s'.lines[|s.lines| + i] == Line(|s.lines| + i + 1, |s.transactions| + 1, itemIds[i]))
  }

  /** The open transactions of `s'` are those of `s` and the new one. */
  ghost predicate ActiveAfterIssue(s: Store, s': Store) {
    forall id :: ActiveTx(s', id) <==> ActiveTx(s, id) || id == |s.transactions| + 1
  }

  lemma PairsAfterIssue(s: Store, s': Store, itemIds: seq<int>)
    requires DenseIds(s) && LoansSound(s) && SingleLoan(s) && IssueGuard(s, itemIds)
    requires LinesAfterIssue(s, s', itemIds) && ActiveAfterIssue(s, s')
    ensures SingleLoan(s')
  {
    forall j, k | 0 <= j < |s'.lines| && 0 <= k < |s'.lines| && j != k &&
      s'.lines[j].itemId == s'.lines[k].itemId && ActiveTx(s', s'.lines[j].transactionId)
      ensures !ActiveTx(s', s'.lines[k].transactionId)
    {
      PairAfterIssue(s, s', itemIds, j, k);
    }
  }

  /** Two lines of one item are not both open after the issue: two old ones by the old
      invariant, an old one and a new one because the guard only lets in items on no open
      loan, two new ones because the cart ids are distinct. */
  lemma PairAfterIssue(s: Store, s': Store, itemIds: seq<int>, j: nat, k: nat)
    requires DenseIds(s) && LoansSound(s) && SingleLoan(s) && IssueGuard(s, itemIds)
    requires LinesAfterIssue(s, s', itemIds) && ActiveAfterIssue(s, s')
    requires j < |s'.lines| && k < |s'.lines| && j != k
    ensures s'.lines[j].itemId == s'.lines[k].itemId ==>
      !(ActiveTx(s', s'.lines[j].transactionId) && ActiveTx(s', s'.lines[k].transactionId))
  {
    var n := |s.lines|;
    if j < n && k < n {
      assert s'.lines[j] == s.lines[j] && s'.lines[k] == s.lines[k];
    } else if j < n {
      assert s'.lines[j] == s.lines[j] && s'.lines[n + (k - n)].itemId == itemIds[k - n];
      if s.lines[j].itemId == itemIds[k - n] {
        OldLineNotCarted(s, itemIds, j, k - n);
      }
    } else if k < n {
      assert s'.lines[k] == s.lines[k] && s'.lines[n + (j - n)].itemId == itemIds[j - n];
      if s.lines[k].itemId == itemIds[j - n] {
        OldLineNotCarted(s, itemIds, k, j - n);
      }
    } else {
      assert s'.lines[n + (j - n)].itemId == itemIds[j - n] && s'.lines[n + (k - n)].itemId == itemIds[k - n];
      CartIdsDistinct(itemIds, j - n, k - n);
    }
  }

  lemma CartIdsDistinct(itemIds: seq<int>, a: nat, b: nat)
    requires forall i, i' :: 0 <= i < i' < |itemIds| ==> itemIds[i] != itemIds[i']
    requires a < |itemIds| && b < |itemIds| && a != b
    ensures itemIds[a] != itemIds[b]
  {
    if b < a {
      assert itemIds[b] != itemIds[a];
    }
  }

  /** An item the guard lets through is on no open loan, so no open line of the old store
      carries it. */
  lemma OldLineNotCarted(s: Store, itemIds: seq<int>, o: nat, i: nat)
    requires DenseIds(s) && LoansSound(s) && IssueGuard(s, itemIds)
    requires o < |s.lines| && i < |itemIds| && s.lines[o].itemId == itemIds[i]
    ensures !ActiveTx(s, s.lines[o].transactionId)
  {
    var id := itemIds[i];
    assert s.items[id - 1].id == id;
  }

  /** The line being resolved: the caller passes an item and a transaction that holds it and is open. */
  ghost predicate OpenLine(s: Store, itemId: int, transactionId: int) {
    && ActiveTx(s, transactionId)
    && exists j :: 0 <= j < |s.lines| && s.lines[j].itemId == itemId && s.lines[j].transactionId == transactionId
  }

  lemma ResolveActiveTx(s: Store, itemId: int, transactionId: int, status: string, now: int, id: int)
    requires DenseIds(s)
    ensures var s' := ResolveLoan(s, itemId, transactionId, status, now);
      ActiveTx(s', id) <==> ActiveTx(s, id) && id != transactionId
  {
    var s' := ResolveLoan(s, itemId, transactionId, status, now);
    assert DenseIds(s');
    ActiveTxDense(s, id);
    ActiveTxDense(s', id);
    if 1 <= transactionId <= |s.transactions| {
      assert s.transactions[transactionId - 1].id == transactionId;
      match TransactionIndex(s.transactions, transactionId)
      case None =>
      case Some(k) => assert k == transactionId - 1;
    } else {
      assert TransactionIndex(s.transactions, transactionId).None?;
    }
  }

  /** Resolving an open line (return or damage report) keeps every open loan marked `Issued`
      and never creates a second open loan, whatever status the item takes. */
  lemma ResolveKeepsLoansSound(s: Store, itemId: int, transactionId: int, status: string, now: int)
    requires DenseIds(s) && LoansSound(s) && SingleLoan(s) && OpenLine(s, itemId, transactionId)
    ensures var s' := ResolveLoan(s, itemId, transactionId, status, now);
      DenseIds(s') && LoansSound(s') && SingleLoan(s')
  {
    var s' := ResolveLoan(s, itemId, transactionId, status, now);
    forall k | 0 <= k < |s'.items| && OnLoan(s', s'.items[k].id)
      ensures s'.items[k].status == ISSUED
    {
      var x := s.items[k].id;
      var j :| 0 <= j < |s'.lines| && s'.lines[j].itemId == x && ActiveTx(s', s'.lines[j].transactionId);
      ResolveActiveTx(s, itemId, transactionId, status, now, s.lines[j].transactionId);
      assert OnLoan(s, x);
    }
    forall j, k | 0 <= j < |s'.lines| && 0 <= k < |s'.lines| && j != k &&
      s'.lines[j].itemId == s'.lines[k].itemId && ActiveTx(s', s'.lines[j].transactionId)
      ensures !ActiveTx(s', s'.lines[k].transactionId)
    {
      ResolveActiveTx(s, itemId, transactionId, status, now, s.lines[j].transactionId);
      ResolveActiveTx(s, itemId, transactionId, status, now, s.lines[k].transactionId);
    }
  }

  /** When the resolved line is the only line of its transaction, and the item leaves the
      `Issued` state, the full loan invariant is kept. */
  lemma ResolveSoleLineKeepsLoanInvariant(s: Store, itemId: int, transactionId: int, status: string, now: int)
    requires LoanInvariant(s) && OpenLine(s, itemId, transactionId) && status != ISSUED
    requires forall j :: 0 <= j < |s.lines| && s.lines[j].transactionId == transactionId ==> s.lines[j].itemId == itemId
    ensures LoanInvariant(ResolveLoan(s, itemId, transactionId, status, now))
  {
    var s' := ResolveLoan(s, itemId, transactionId, status, now);
    ResolveKeepsLoansSound(s, itemId, transactionId, status, now);
    forall k | 0 <= k < |s'.items| && s'.items[k].status == ISSUED
      ensures OnLoan(s', s'.items[k].id)
    {
      var x := s.items[k].id;
      DenseFirst(s.items, k);
      assert x != itemId;
      assert OnLoan(s, x);
      var j :| 0 <= j < |s.lines| && s.lines[j].itemId == x && ActiveTx(s, s.lines[j].transactionId);
      ResolveActiveTx(s, itemId, transactionId, status, now, s.lines[j].transactionId);
      assert s'.lines[j].itemId == x && ActiveTx(s', s'.lines[j].transactionId);
    }
  }

  /** Whole-transaction closure: returning one item of a two-item transaction closes the
      transaction, and the other item stays `Issued` with no open loan left to return it by. */
  lemma ReturnStrandsSibling(now: int)
    ensures var s' := ReturnItem(TwoUnitLoan(), 1, 1, now);
      LoanInvariant(TwoUnitLoan()) && s'.items[1].status == ISSUED && !OnLoan(s', 2) && !LoansComplete(s')
  {
    TwoUnitLoanSound();
    SiblingLeftIssued(now);
    assert ReturnItem(TwoUnitLoan(), 1, 1, now).items[1].id == 2;
  }

  /** One open transaction lending units 1 and 2. */
  function TwoUnitLoan(): Store {
    Store([], [Item(1, "ARD001", ISSUED, 1), Item(2, "ARD002", ISSUED, 1)], [], [],
          [Transaction(1, 1, None, Active, 0, None)], [Line(1, 1, 1), Line(2, 1, 2)])
  }

  lemma TwoUnitLoanSound()
    ensures LoanInvariant(TwoUnitLoan())
  {
    TwoUnitLoanComplete();
    TwoUnitLoanSingle();
  }

  lemma TwoUnitLoanComplete()
    ensures LoansComplete(TwoUnitLoan())
  {
    var s := TwoUnitLoan();
    assert ActiveTx(s, 1) by { assert s.transactions[0] in s.transactions; }
    forall k | 0 <= k < |s.items|
      ensures OnLoan(s, s.items[k].id)
    {
      assert s.lines[k].itemId == s.items[k].id && s.lines[k].transactionId == 1;
    }
  }

  lemma TwoUnitLoanSingle()
    ensures SingleLoan(TwoUnitLoan())
  {
    var s := TwoUnitLoan();
    forall j, k | 0 <= j < |s.lines| && 0 <= k < |s.lines| && j != k
      ensures s.lines[j].itemId != s.lines[k].itemId
    {
    }
  }

  lemma SiblingLeftIssued(now: int)
    ensures var s' := ReturnItem(TwoUnitLoan(), 1, 1, now);
      s'.items[1].status == ISSUED && !OnLoan(s', 2)
  {
    var s := TwoUnitLoan();
    var s' := ReturnItem(s, 1, 1, now);
    assert TransactionIndex(s.transactions, 1) == Some(0);
    assert s'.transactions[0].status == Closed;
    assert DenseIds(s');
    ActiveTxDense(s', 1);
    assert s'.items[1] == s.items[1];
  }

  /** The source has no "already closed" error: repeating a return leaves items, lines and
      statuses as the first return left them; only the closing time moves. */
  lemma ReturnTwiceIsIdempotent(s: Store, itemId: int, transactionId: int, t1: int, t2: int)
    ensures var once := ReturnItem(s, itemId, transactionId, t1);
      var twice := ReturnItem(once, itemId, transactionId, t2);
      twice.items == once.items && twice.lines == once.lines &&
      |twice.transactions| == |once.transactions| &&
      forall k :: 0 <= k < |once.transactions| ==>
        twice.transactions[k].status == once.transactions[k].status &&
        twice.transactions[k].(closedAt := None) == once.transactions[k].(closedAt := None)
  {
    var once := ReturnItem(s, itemId, transactionId, t1);
    SameTxIdsSameIndex(s.transactions, once.transactions, transactionId);
    SameIdsSameIndex(s.items, once.items, itemId);
    forall k | 0 <= k < |s.items|
      ensures ItemIndex(s.items, itemId) == Some(k) <==> s.items[k].id == itemId && FirstWithId(s.items, k)
      ensures ItemIndex(once.items, itemId) == Some(k) <==> once.items[k].id == itemId && FirstWithId(once.items, k)
    {
      ItemIndexIsFirst(s.items, itemId, k);
      ItemIndexIsFirst(once.items, itemId, k);
    }
  }

  lemma SameTxIdsSameIndex(a: seq<Transaction>, b: seq<Transaction>, id: int)
    requires |a| == |b| && forall k :: 0 <= k < |a| ==> a[k].id == b[k].id
    ensures TransactionIndex(a, id) == TransactionIndex(b, id)
  {
    match TransactionIndex(a, id) {
      case None =>
        match TransactionIndex(b, id) {
          case None =>
          case Some(j) =>
        }
      case Some(k) =>
        assert b[k].id == id;
        match TransactionIndex(b, id) {
          case None =>
          case Some(j) => assert !(j < k) && !(k < j);
        }
    }
  }

  /** Issue followed by return of the same single item: the item is `Available` again and the
      new transaction is `Closed`. */
  lemma IssueThenReturn(s: Store, studentId: int, itemId: int, issuerId: Option<int>, t1: int, t2: int)
    requires DenseIds(s) && 1 <= itemId <= |s.items|
    ensures var issued := CreateTransaction(s, studentId, [itemId], issuerId, t1);
      var back := ReturnItem(issued.store, itemId, issued.transactionId, t2);
      back.items[itemId - 1].status == AVAILABLE &&
      back.transactions[issued.transactionId - 1].status == Closed &&
      issued.store.items[itemId - 1].status == ISSUED
  {
    var issued := CreateTransaction(s, studentId, [itemId], issuerId, t1);
    var s1 := issued.store;
    DenseFirst(s.items, itemId - 1);
    IssueKeepsDenseIds(s, studentId, [itemId], issuerId, t1);
    DenseFirst(s1.items, itemId - 1);
    var n := |s.transactions|;
    assert s1.transactions[n].id == n + 1;
    match TransactionIndex(s1.transactions, n + 1)
    case None =>
    case Some(k) => assert k == n;
  }
}
