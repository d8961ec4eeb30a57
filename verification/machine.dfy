/**
 The library as a sequential state machine: each request either commits
 its new store or fails and leaves the store as it was. The well-formedness
 invariant, and with it the three-loan limit, holds in every reachable store.
 */
module Machine {
  import opened Wrappers
  import opened Records
  import opened Store
  import opened Catalog
  import opened InventoryLedger
  import opened Lending
  import opened Admin

  /** The state-changing requests. */
  datatype Request =
    | RegisterBook(book: BookInfo)
    | RegisterStudent(student: StudentInfo)
    | SetInventory(inventory: InventoryRequest)
    | Lend(transaction: TransactionRequest)
    | ClearTables(storeFails: bool)

  /** What the endpoint answers: the store it would commit, or its error. */
  function Outcome(s: Library, req: Request): Result<Library, Error> {
    match req
    case RegisterBook(info) =>
      var r := CreateBook(s, info); if r.Success? then Success(r.value.lib) else Failure(r.error)
    case RegisterStudent(info) =>
      var r := CreateStudent(s, info); if r.Success? then Success(r.value.lib) else Failure(r.error)
    case SetInventory(inv) =>
      var r := CreateInventory(s, inv); if r.Success? then Success(r.value.lib) else Failure(r.error)
    case Lend(t) =>
      var r := CreateTransaction(s, t); if r.Success? then Success(r.value.lib) else Failure(r.error)
    case ClearTables(fails) =>
      ClearAll(s, fails)
  }

  /**
   The store a request leaves behind. Nothing is written before the one
   commit, so a rejected request leaves the store exactly as it was.
   */
  function Step(s: Library, req: Request): (s': Library)
    ensures Outcome(s, req).Failure? ==> s' == s
    ensures Outcome(s, req).Success? ==> s' == Outcome(s, req).value
  {
    var r := Outcome(s, req);
    if r.Success? then r.value else s
  }

  /**
   Every way a request can be rejected leaves the store exactly as it
   was: a duplicate registration, a duplicate or unplaceable inventory
   tuple, an unknown student or book, a malformed date combination, a
   failed issue or return check, or a store fault while clearing.
   */
  lemma RejectedRequestChangesNothing(s: Library, req: Request)
    ensures req.RegisterBook? && BookExists(s, req.book) ==> Step(s, req) == s
    ensures req.RegisterStudent? && StudentExists(s, req.student) ==> Step(s, req) == s
    ensures req.SetInventory? && TupleExists(s, req.inventory) ==> Step(s, req) == s
    ensures (req.SetInventory? && FindInventory(s.inventory, req.inventory.bookId).None?
             && !HasBook(s, req.inventory.bookId)) ==> Step(s, req) == s
    ensures req.Lend? && !Admitted(s, req.transaction) ==> Step(s, req) == s
    ensures req.Lend? && !IsIssue(req.transaction) && !IsReturn(req.transaction) ==> Step(s, req) == s
    ensures (req.Lend? && IsIssue(req.transaction)
             && !CanIssue(s, req.transaction.studentId, req.transaction.bookId)) ==> Step(s, req) == s
    ensures (req.Lend? && IsReturn(req.transaction)
             && !CanReturn(s, req.transaction.studentId, req.transaction.bookId)) ==> Step(s, req) == s
    ensures req == ClearTables(true) ==> Step(s, req) == s
  {
  }

  /** The store after a sequence of requests. */
  function Run(s: Library, reqs: seq<Request>): Library
    decreases |reqs|
  {
    if |reqs| == 0 then s else Run(Step(s, reqs[0]), reqs[1..])
  }

  /** Appending one row with a key larger than every key keeps keys increasing. */
  lemma IncreasingAppend(ids: seq<int>, ids': seq<int>, x: int)
    requires Increasing(ids)
    requires forall i :: 0 <= i < |ids| ==> ids[i] < x
    requires ids' == ids + [x]
    ensures Increasing(ids')
  {
  }

  lemma HasBookGrows(s: Library, s': Library, id: int)
    requires HasBook(s, id)
    requires forall b :: b in s.books ==> b in s'.books
    ensures HasBook(s', id)
  {
    var b :| b in s.books && b.bookId == id;
    assert b in s'.books;
  }

  lemma HasStudentGrows(s: Library, s': Library, id: int)
    requires HasStudent(s, id)
    requires forall st :: st in s.students ==> st in s'.students
    ensures HasStudent(s', id)
  {
    var st :| st in s.students && st.studentId == id;
    assert st in s'.students;
  }

  lemma CreateBookValid(s: Library, info: BookInfo)
    requires Valid(s) && CreateBook(s, info).Success?
    ensures Valid(CreateBook(s, info).value.lib)
  {
    var c := CreateBook(s, info).value;
    assert BookIds(c.lib.books) == BookIds(s.books) + [c.row.bookId];
    IncreasingAppend(BookIds(s.books), BookIds(c.lib.books), c.row.bookId);
    forall id | HasBook(s, id) ensures HasBook(c.lib, id) {
      HasBookGrows(s, c.lib, id);
    }
  }

  lemma CreateStudentValid(s: Library, info: StudentInfo)
    requires Valid(s) && CreateStudent(s, info).Success?
    ensures Valid(CreateStudent(s, info).value.lib)
  {
    var c := CreateStudent(s, info).value;
    assert StudentIds(c.lib.students) == StudentIds(s.students) + [c.row.studentId];
    IncreasingAppend(StudentIds(s.students), StudentIds(c.lib.students), c.row.studentId);
    forall id | HasStudent(s, id) ensures HasStudent(c.lib, id) {
      HasStudentGrows(s, c.lib, id);
    }
  }

  lemma CreateInventoryValid(s: Library, req: InventoryRequest)
    requires Valid(s) && CreateInventory(s, req).Success?
    ensures Valid(CreateInventory(s, req).value.lib)
  {
    var c := CreateInventory(s, req).value;
    match FindInventory(s.inventory, req.bookId)
    case Some(i) =>
      assert InventoryIds(c.lib.inventory) == InventoryIds(s.inventory);
      forall rec | rec in c.lib.inventory ensures HasBook(c.lib, rec.bookId) {
        var k :| 0 <= k < |c.lib.inventory| && c.lib.inventory[k] == rec;
        assert rec.bookId == s.inventory[k].bookId;
        assert s.inventory[k] in s.inventory;
      }
    case None =>
      assert InventoryIds(c.lib.inventory) == InventoryIds(s.inventory) + [c.row.inventoryId];
      IncreasingAppend(InventoryIds(s.inventory), InventoryIds(c.lib.inventory), c.row.inventoryId);
  }

  /** Changing counts in place keeps the inventory's keys, books and references. */
  lemma ShiftedInventoryConsistent(s: Library, s': Library, i: nat, delta: int)
    requires InventoryConsistent(s) && s'.books == s.books
    requires AvailableShifted(s.inventory, s'.inventory, i, delta)
    ensures InventoryConsistent(s')
    ensures InventoryIds(s'.inventory) == InventoryIds(s.inventory)
  {
    forall rec | rec in s'.inventory ensures HasBook(s', rec.bookId) {
      var k :| 0 <= k < |s'.inventory| && s'.inventory[k] == rec;
      assert rec.bookId == s.inventory[k].bookId;
      assert s.inventory[k] in s.inventory;
    }
  }

  lemma IssuedValid(s: Library, s': Library, studentId: int, bookId: int, date: string, loan: Transaction)
    requires Valid(s) && Issued(s, s', studentId, bookId, date, loan)
    requires HasStudent(s, studentId) && HasBook(s, bookId)
    requires OpenLoans(s.transactions, studentId) < LoanLimit
    ensures Valid(s')
  {
    ShiftedInventoryConsistent(s, s', FindInventory(s.inventory, bookId).value, -1);
    assert TransactionIds(s'.transactions) == TransactionIds(s.transactions) + [loan.transactionId];
    IncreasingAppend(TransactionIds(s.transactions), TransactionIds(s'.transactions), loan.transactionId);
    assert KeysIncreasing(s');
    assert LoansReferToRows(s');
    forall sid ensures OpenLoans(s'.transactions, sid) <= LoanLimit {
      OpenLoansAppend(s.transactions, loan, sid);
    }
  }

  lemma ReturnedValid(s: Library, s': Library, studentId: int, bookId: int, date: Option<string>, loan: Transaction)
    requires Valid(s) && Returned(s, s', studentId, bookId, date, loan) && date.Some?
    ensures Valid(s')
  {
    ShiftedInventoryConsistent(s, s', FindInventory(s.inventory, bookId).value, 1);
    var j := FindOpenLoan(s.transactions, studentId, bookId).value;
    assert s'.transactions == s.transactions[j := s.transactions[j].(returnDate := date)];
    assert TransactionIds(s'.transactions) == TransactionIds(s.transactions);
    assert KeysIncreasing(s');
    forall x | x in s'.transactions ensures HasStudent(s', x.studentId) && HasBook(s', x.bookId) {
      var k :| 0 <= k < |s'.transactions| && s'.transactions[k] == x;
      assert x.studentId == s.transactions[k].studentId && x.bookId == s.transactions[k].bookId;
      assert s.transactions[k] in s.transactions;
    }
    forall sid ensures OpenLoans(s'.transactions, sid) <= LoanLimit {
      OpenLoansClose(s.transactions, j, date, sid);
    }
  }

  lemma CreateTransactionValid(s: Library, req: TransactionRequest)
    requires Valid(s) && CreateTransaction(s, req).Success?
    ensures Valid(CreateTransaction(s, req).value.lib)
  {
    var c := CreateTransaction(s, req).value;
    if IsIssue(req) {
      IssuedValid(s, c.lib, req.studentId, req.bookId, req.issueDate.value, c.row);
    } else {
      ReturnedValid(s, c.lib, req.studentId, req.bookId, req.returnDate, c.row);
    }
  }

  /** Every request keeps the store well formed. */
  lemma StepValid(s: Library, req: Request)
    requires Valid(s)
    ensures Valid(Step(s, req))
  {
    match req
    case RegisterBook(info) =>
      if CreateBook(s, info).Success? { CreateBookValid(s, info); }
    case RegisterStudent(info) =>
      if CreateStudent(s, info).Success? { CreateStudentValid(s, info); }
    case SetInventory(inv) =>
      if CreateInventory(s, inv).Success? { CreateInventoryValid(s, inv); }
    case Lend(t) =>
      if CreateTransaction(s, t).Success? { CreateTransactionValid(s, t); }
    case ClearTables(fails) =>
      EmptyIsValid();
  }

  /**
   Every store reachable from the empty library is well formed; in
   particular no student ever holds more than three open loans.
   */
  lemma {:induction false} RunValid(s: Library, reqs: seq<Request>)
    requires Valid(s)
    ensures Valid(Run(s, reqs))
    ensures forall sid :: OpenLoans(Run(s, reqs).transactions, sid) <= LoanLimit
    decreases |reqs|
  {
    if |reqs| > 0 {
      StepValid(s, reqs[0]);
      RunValid(Step(s, reqs[0]), reqs[1..]);
    }
  }

  /** From the empty library, the loan limit holds after any sequence of requests. */
  lemma LoanLimitAlwaysHolds(reqs: seq<Request>, sid: int)
    ensures OpenLoans(Run(EmptyLibrary, reqs).transactions, sid) <= LoanLimit
  {
    EmptyIsValid();
    RunValid(EmptyLibrary, reqs);
  }

  /**
   A return whose book has no inventory record is rejected as a whole:
   the store is unchanged, so the loan it found stays open.
   */
  lemma ReturnWithoutInventoryKeepsLoanOpen(s: Library, req: TransactionRequest)
    requires Admitted(s, req) && IsReturn(req)
    requires FindOpenLoan(s.transactions, req.studentId, req.bookId).Some?
    requires FindInventory(s.inventory, req.bookId).None?
    ensures CreateTransaction(s, req) == Failure(NotFound(InventoryTable))
    ensures Step(s, Lend(req)) == s
    ensures FindOpenLoan(Step(s, Lend(req)).transactions, req.studentId, req.bookId).Some?
  {
  }
}
