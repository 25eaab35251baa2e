/** Record creation outside the issue flow: `create_student`, `delete_student` and
    `create_inventory` of the in-process store, and the add-student form's validation
    (`_submit_add_student`). New keys are "largest key so far plus one". */
module Roster {
  import opened Options
  import opened Seqs
  import opened Text
  import opened Store
  import opened Queries

  /** `max(xs, default=0)`. */
  function MaxOrZero(xs: seq<int>): (m: int)
    ensures forall k :: 0 <= k < |xs| ==> xs[k] <= m
    ensures |xs| == 0 ==> m == 0
    ensures |xs| > 0 ==> exists k :: 0 <= k < |xs| && xs[k] == m
  {
    if |xs| == 0 then 0
    else if |xs| == 1 then xs[0]
    else
      var rest := MaxOrZero(xs[1..]);
      assert exists k :: 1 <= k < |xs| && xs[k] == rest by {
        var j :| 0 <= j < |xs[1..]| && xs[1..][j] == rest;
        assert xs[j + 1] == rest;
      }
      if xs[0] >= rest then xs[0] else rest
  }

  function StudentIds(students: seq<Student>): (r: seq<int>)
    ensures |r| == |students| && forall k :: 0 <= k < |r| ==> r[k] == students[k].id
  {
    seq(|students|, k requires 0 <= k < |students| => students[k].id)
  }

  function InventoryIds(inventory: seq<Inventory>): (r: seq<int>)
    ensures |r| == |inventory| && forall k :: 0 <= k < |r| ==> r[k] == inventory[k].id
  {
    seq(|inventory|, k requires 0 <= k < |inventory| => inventory[k].id)
  }

  /** The student keys that transactions refer to, whether or not the student still exists. */
  function BorrowerIds(txs: seq<Transaction>): (r: seq<int>)
    ensures |r| == |txs| && forall k :: 0 <= k < |r| ==> r[k] == txs[k].studentId
  {
    seq(|txs|, k requires 0 <= k < |txs| => txs[k].studentId)
  }

  datatype Created = Created(store: Store, id: int)

  /** `create_student(student_data)` as written: the key is one more than the largest
      key among the students that exist now. */
  function CreateStudent(s: Store, code: string, name: string, phone: Option<string>, email: Option<string>): (r: Created)
    ensures r.store == s.(students := s.students + [Student(r.id, code, name, phone, email)])
    ensures forall st :: st in s.students ==> st.id < r.id
    ensures |s.students| == 0 ==> r.id == 1
    ensures |s.students| > 0 ==> exists st :: st in s.students && st.id == r.id - 1
  {
    var id := MaxOrZero(StudentIds(s.students)) + 1;
    assert forall st :: st in s.students ==> st.id < id by {
      forall st | st in s.students
        ensures st.id < id
      {
        var k :| 0 <= k < |s.students| && s.students[k] == st;
        assert StudentIds(s.students)[k] == st.id;
      }
    }
    Created(s.(students := s.students + [Student(id, code, name, phone, email)]), id)
  }

  /** `create_student` with the key made fresh also against the students that open or
      closed transactions still name, so a deleted student's key is never handed out again. */
  function CreateStudentFresh(s: Store, code: string, name: string, phone: Option<string>, email: Option<string>): (r: Created)
    ensures r.store == s.(students := s.students + [Student(r.id, code, name, phone, email)])
    ensures forall st :: st in s.students ==> st.id < r.id
    ensures forall t :: t in s.transactions ==> t.studentId < r.id
  {
    var keys := StudentIds(s.students) + BorrowerIds(s.transactions);
    var id := MaxOrZero(keys) + 1;
    assert forall st :: st in s.students ==> st.id < id by {
      forall st | st in s.students
        ensures st.id < id
      {
        var k :| 0 <= k < |s.students| && s.students[k] == st;
        assert keys[k] == st.id;
      }
    }
    assert forall t :: t in s.transactions ==> t.studentId < id by {
      forall t | t in s.transactions
        ensures t.studentId < id
      {
        var k :| 0 <= k < |s.transactions| && s.transactions[k] == t;
        assert keys[|s.students| + k] == t.studentId;
      }
    }
    Created(s.(students := s.students + [Student(id, code, name, phone, email)]), id)
  }

  /** While every transaction names an existing student, the corrected key is the one `create_student` picks. */
  lemma FreshAgreesWithoutOrphans(s: Store, code: string, name: string, phone: Option<string>, email: Option<string>)
    requires forall t :: t in s.transactions ==> exists st :: st in s.students && st.id == t.studentId
    ensures CreateStudentFresh(s, code, name, phone, email) == CreateStudent(s, code, name, phone, email)
  {
    BorrowersAreStudents(s);
    MaxIgnoresRepeats(StudentIds(s.students), BorrowerIds(s.transactions));
    assert CreateStudentFresh(s, code, name, phone, email).id == CreateStudent(s, code, name, phone, email).id;
  }

  lemma BorrowersAreStudents(s: Store)
    requires forall t :: t in s.transactions ==> exists st :: st in s.students && st.id == t.studentId
    ensures forall i :: 0 <= i < |s.transactions| ==> OccursIn(StudentIds(s.students), BorrowerIds(s.transactions)[i])
  {
    var ids := StudentIds(s.students);
    forall i | 0 <= i < |s.transactions|
      ensures OccursIn(ids, BorrowerIds(s.transactions)[i])
    {
      var t := s.transactions[i];
      assert t in s.transactions;
      var st :| st in s.students && st.id == t.studentId;
      var j :| 0 <= j < |s.students| && s.students[j] == st;
      assert ids[j] == t.studentId;
    }
  }

  predicate OccursIn(ids: seq<int>, x: int) {
    exists k :: 0 <= k < |ids| && ids[k] == x
  }

  /** Keys that already occur in the list do not change its maximum. */
  lemma MaxIgnoresRepeats(ids: seq<int>, extra: seq<int>)
    requires forall i :: 0 <= i < |extra| ==> OccursIn(ids, extra[i])
    ensures MaxOrZero(ids + extra) == MaxOrZero(ids)
  {
    var keys := ids + extra;
    var a := MaxOrZero(ids);
    var m := MaxOrZero(keys);
    if |keys| > 0 {
      var i :| 0 <= i < |keys| && keys[i] == m;
      if i < |ids| {
        assert ids[i] == m;
      } else {
        var j :| 0 <= j < |ids| && ids[j] == extra[i - |ids|];
        assert ids[j] == m;
      }
      var k :| 0 <= k < |ids| && ids[k] == a;
      assert keys[k] == a;
    }
  }

  function OtherThan(id: int): Student -> bool {
    (st: Student) => st.id != id
  }

  /** `delete_student(student_id)`: every student with that key goes; the rest keep their order. */
  function DeleteStudent(s: Store, id: int): (r: Store)
    ensures r == s.(students := r.students)
    ensures forall st :: st in r.students <==> st in s.students && st.id != id
    ensures KeepsOrder(s.students, r.students)
  {
    s.(students := Filter(s.students, OtherThan(id)))
  }

  /** Deleting the student just created gives back the store as it was. */
  lemma DeleteUndoesCreate(s: Store, code: string, name: string, phone: Option<string>, email: Option<string>)
    ensures var c := CreateStudentFresh(s, code, name, phone, email);
      DeleteStudent(c.store, c.id) == s
  {
    var c := CreateStudentFresh(s, code, name, phone, email);
    var p := OtherThan(c.id);
    FilterAppend(s.students, [Student(c.id, code, name, phone, email)], p);
    FilterKeepsAll(s.students, p);
    assert Filter([Student(c.id, code, name, phone, email)], p) == [];
  }

  /** `create_inventory(inventory_data)`: key one more than the largest category key, appended. */
  function CreateInventory(s: Store, name: string, totalQty: int, course: Option<string>, description: Option<string>): (r: Created)
    ensures r.store == s.(inventory := s.inventory + [Inventory(r.id, name, totalQty, course, description)])
    ensures forall inv :: inv in s.inventory ==> inv.id < r.id
    ensures |s.inventory| == 0 ==> r.id == 1
    ensures |s.inventory| > 0 ==> exists inv :: inv in s.inventory && inv.id == r.id - 1
  {
    var id := MaxOrZero(InventoryIds(s.inventory)) + 1;
    assert forall inv :: inv in s.inventory ==> inv.id < id by {
      forall inv | inv in s.inventory
        ensures inv.id < id
      {
        var k :| 0 <= k < |s.inventory| && s.inventory[k] == inv;
        assert InventoryIds(s.inventory)[k] == inv.id;
      }
    }
    Created(s.(inventory := s.inventory + [Inventory(id, name, totalQty, course, description)]), id)
  }

  /** On a store with dense keys the form's "largest plus one" and bulk import's "count plus
      one" pick the same key for a new category, and the store stays dense. */
  lemma CreateInventoryAgreesWithImport(s: Store, name: string, totalQty: int, course: Option<string>, description: Option<string>)
    requires DenseIds(s)
    ensures CreateInventory(s, name, totalQty, course, description).id == |s.inventory| + 1
    ensures DenseIds(CreateInventory(s, name, totalQty, course, description).store)
  {
    var ids := InventoryIds(s.inventory);
    if |s.inventory| > 0 {
      assert ids[|ids| - 1] == |s.inventory|;
    }
  }

  // ---------------------------------------------------------------------------
  // The add-student form

  datatype Submitted = Rejected(errors: seq<string>) | Added(created: Created)

  const ID_REQUIRED: string := "Student ID is required"
  const NAME_REQUIRED: string := "Name is required"

  function AlreadyExists(code: string): string {
    "Student ID '" + code + "' already exists"
  }

  predicate CodeTaken(students: seq<Student>, code: string) {
    exists k :: 0 <= k < |students| && students[k].studentCode == code
  }

  /** The form's error list for stripped entries, in the order the form reports them. */
  function StudentErrors(students: seq<Student>, code: string, name: string): (r: seq<string>)
    ensures ID_REQUIRED in r <==> code == []
    ensures NAME_REQUIRED in r <==> name == []
    ensures AlreadyExists(code) in r <==> CodeTaken(students, code)
    ensures r == [] <==> code != [] && name != [] && !CodeTaken(students, code)
  {
    (if code == [] then [ID_REQUIRED] else []) +
    (if name == [] then [NAME_REQUIRED] else []) +
    (if CodeTaken(students, code) then [AlreadyExists(code)] else [])
  }

  /** An empty optional field is stored as no value. */
  function Blank(s: string): (r: Option<string>)
    ensures r.None? <==> s == []
    ensures r.Some? ==> r.value == s
  {
    if s == [] then None else Some(s)
  }

  /** `_submit_add_student` fed by the form, which strips every entry first. */
  function SubmitAddStudent(s: Store, idText: string, nameText: string, phoneText: string, emailText: string): (r: Submitted)
    ensures r.Rejected? <==> Strip(idText) == [] || Strip(nameText) == [] || CodeTaken(s.students, Strip(idText))
    ensures r.Rejected? ==> r.errors == StudentErrors(s.students, Strip(idText), Strip(nameText)) && r.errors != []
    ensures r.Added? ==> r.created.store == s.(students := s.students +
      [Student(r.created.id, Strip(idText), Strip(nameText), Blank(Strip(phoneText)), Blank(Strip(emailText)))])
    ensures r.Added? ==> forall st :: st in s.students ==> st.id < r.created.id && st.studentCode != Strip(idText)
  {
    var code := Strip(idText);
    var name := Strip(nameText);
    var errors := StudentErrors(s.students, code, name);
    if errors != [] then Rejected(errors)
    else Added(CreateStudentFresh(s, code, name, Blank(Strip(phoneText)), Blank(Strip(emailText))))
  }

  /** A stripped, non-empty code still has a non-space first character once lower-cased. */
  lemma LowerKeepsStripped(code: string)
    requires code != [] && Strip(code) == code
    ensures Strip(Lower(code)) == Lower(code) && Lower(code) != []
  {
    assert Lower(code)[0] == LowerChar(code[0]);
    assert Lower(code)[|code| - 1] == LowerChar(code[|code| - 1]);
  }

  /** A student added through the form is found by searching for their code. */
  lemma AddedStudentIsFound(s: Store, idText: string, nameText: string, phoneText: string, emailText: string)
    requires SubmitAddStudent(s, idText, nameText, phoneText, emailText).Added?
    ensures var c := SubmitAddStudent(s, idText, nameText, phoneText, emailText).created;
      Student(c.id, Strip(idText), Strip(nameText), Blank(Strip(phoneText)), Blank(Strip(emailText)))
        in SearchStudents(c.store.students, Strip(idText))
  {
    var c := SubmitAddStudent(s, idText, nameText, phoneText, emailText).created;
    var code := Strip(idText);
    var st := Student(c.id, code, Strip(nameText), Blank(Strip(phoneText)), Blank(Strip(emailText)));
    assert Strip(code) == code;
    LowerKeepsStripped(code);
    assert st in c.store.students;
    SearchFindsOwnCode(c.store.students, st, code);
  }

  /** Submitting the same code twice: the second submission is refused as a duplicate. */
  lemma SecondSubmitRefused(s: Store, idText: string, nameText: string, phoneText: string, emailText: string,
                            nameText2: string, phoneText2: string, emailText2: string)
    requires SubmitAddStudent(s, idText, nameText, phoneText, emailText).Added?
    ensures var s2 := SubmitAddStudent(s, idText, nameText, phoneText, emailText).created.store;
      var r := SubmitAddStudent(s2, idText, nameText2, phoneText2, emailText2);
      r.Rejected? && AlreadyExists(Strip(idText)) in r.errors
  {
    var s2 := SubmitAddStudent(s, idText, nameText, phoneText, emailText).created.store;
    assert s2.students[|s2.students| - 1].studentCode == Strip(idText);
  }

  // ---------------------------------------------------------------------------
  // Holders across student creation

  lemma {:induction false} StudentNameAppend(students: seq<Student>, st: Student, id: int)
    requires id != st.id
    ensures StudentName(students + [st], id) == StudentName(students, id)
  {
    if |students| > 0 {
      assert (students + [st])[1..] == students[1..] + [st];
      StudentNameAppend(students[1..], st, id);
    }
  }

  lemma {:induction false} TransactionsHolderAppend(txs: seq<Transaction>, students: seq<Student>, st: Student, transactionId: int)
    requires forall k :: 0 <= k < |txs| ==> txs[k].studentId != st.id
    ensures HolderInTransactions(txs, students + [st], transactionId) == HolderInTransactions(txs, students, transactionId)
  {
    if |txs| > 0 {
      StudentNameAppend(students, st, txs[0].studentId);
      TransactionsHolderAppend(txs[1..], students, st, transactionId);
    }
  }

  lemma {:induction false} LinesHolderAppend(lines: seq<Line>, txs: seq<Transaction>, students: seq<Student>, st: Student, itemId: int)
    requires forall k :: 0 <= k < |txs| ==> txs[k].studentId != st.id
    ensures HolderInLines(lines, txs, students + [st], itemId) == HolderInLines(lines, txs, students, itemId)
  {
    if |lines| > 0 {
      TransactionsHolderAppend(txs, students, st, lines[0].transactionId);
      LinesHolderAppend(lines[1..], txs, students, st, itemId);
    }
  }

  /** With the corrected key a new student never becomes the holder of an existing loan. */
  lemma CreateStudentFreshKeepsHolders(s: Store, code: string, name: string, phone: Option<string>, email: Option<string>, itemId: int)
    ensures CurrentHolder(CreateStudentFresh(s, code, name, phone, email).store, itemId) == CurrentHolder(s, itemId)
  {
    var c := CreateStudentFresh(s, code, name, phone, email);
    LinesHolderAppend(s.lines, s.transactions, s.students, Student(c.id, code, name, phone, email), itemId);
  }

  /** One student, STU001 "Ann" with key 1, holding item 1 through open transaction 1. */
  function AnnHoldsItem(): Store {
    Store([Inventory(1, "Arduino Uno", 1, None, None)],
          [Item(1, "ARD001", ISSUED, 1)],
          [Student(1, "STU001", "Ann", None, None)],
          [],
          [Transaction(1, 1, None, Active, 0, None)],
          [Line(1, 1, 1)])
  }

  /** As written, deleting Ann and adding Ben hands Ben key 1, and with it Ann's open loan. */
  lemma StudentKeyReused()
    ensures CurrentHolder(AnnHoldsItem(), 1) == Some("Ann")
    ensures CurrentHolder(DeleteStudent(AnnHoldsItem(), 1), 1) == None
    ensures var c := CreateStudent(DeleteStudent(AnnHoldsItem(), 1), "STU002", "Ben", None, None);
      c.id == 1 && CurrentHolder(c.store, 1) == Some("Ben")
  {
    var s := AnnHoldsItem();
    var d := DeleteStudent(s, 1);
    assert d.students == [];
    var c := CreateStudent(d, "STU002", "Ben", None, None);
    assert c.store.students == [Student(1, "STU002", "Ben", None, None)];
  }

  /** With the corrected key Ben gets key 2 and the orphaned loan stays without a holder. */
  lemma StudentKeyNotReused()
    ensures var c := CreateStudentFresh(DeleteStudent(AnnHoldsItem(), 1), "STU002", "Ben", None, None);
      c.id == 2 && CurrentHolder(c.store, 1) == None
  {
    var d := DeleteStudent(AnnHoldsItem(), 1);
    assert d.students == [];
    assert BorrowerIds(d.transactions) == [1];
    CreateStudentFreshKeepsHolders(d, "STU002", "Ben", None, None, 1);
  }
}
