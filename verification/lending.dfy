/** Issue and return of books: the transaction endpoint. */
module Lending {
  import opened Wrappers
  import opened Records
  import opened Store

  /** One transaction request; the dates are optional and opaque. */
  datatype TransactionRequest = TransactionRequest(studentId: int, bookId: int, issueDate: Option<string>, returnDate: Option<string>)

  /**
   The request asks to issue: an issue date and no return date. An
   empty date string counts as no date.
   */
  function IsIssue(req: TransactionRequest): (r: bool)
    ensures r ==> req.issueDate.Some? && req.issueDate != Some("")
    ensures r ==> req.returnDate == None || req.returnDate == Some("")
  {
    Present(req.issueDate) && !Present(req.returnDate)
  }

  /**
   The request asks to return: a return date and no issue date. No
   request asks for both.
   */
  function IsReturn(req: TransactionRequest): (r: bool)
    ensures r ==> req.returnDate.Some? && req.returnDate != Some("")
    ensures r ==> req.issueDate == None || req.issueDate == Some("")
    ensures r ==> !IsIssue(req)
  {
    Present(req.returnDate) && !Present(req.issueDate)
  }

  /**
   Truthiness of the dates: an empty date string acts exactly like a
   missing one, a request with an empty issue date is never an issue
   and one with an empty return date never a return, and a request is
   rejected as malformed exactly when both dates or neither are present.
   */
  lemma EmptyDateIsAbsent(req: TransactionRequest)
    ensures IsIssue(req.(returnDate := Some(""))) == IsIssue(req.(returnDate := None))
    ensures IsReturn(req.(issueDate := Some(""))) == IsReturn(req.(issueDate := None))
    ensures !IsIssue(req.(issueDate := Some(""))) && !IsReturn(req.(returnDate := Some("")))
    ensures !IsIssue(req) && !IsReturn(req) <==> Present(req.issueDate) == Present(req.returnDate)
  {
  }

  /**
   The inventory after changing the available copies of record `i` by
   `delta`: that record keeps its id, book and total; every other record
   is untouched.
   */
  predicate AvailableShifted(inv: seq<InventoryRecord>, inv': seq<InventoryRecord>, i: nat, delta: int) {
    && i < |inv| && |inv'| == |inv|
    && inv'[i].inventoryId == inv[i].inventoryId
    && inv'[i].bookId == inv[i].bookId
    && inv'[i].totalCopies == inv[i].totalCopies
    && inv'[i].availableCopies == inv[i].availableCopies + delta
    && (forall k :: 0 <= k < |inv| && k != i ==> inv'[k] == inv[k])
  }

  /**
   The whole effect of a successful issue: the book's inventory record
   loses one available copy, one open loan with a fresh id is appended,
   and nothing else changes.
   */
  predicate Issued(s: Library, s': Library, studentId: int, bookId: int, date: string, loan: Transaction) {
    && s'.books == s.books
    && s'.students == s.students
    && FindInventory(s.inventory, bookId).Some?
    && AvailableShifted(s.inventory, s'.inventory, FindInventory(s.inventory, bookId).value, -1)
    && loan.transactionId == NextId(TransactionIds(s.transactions))
    && (forall x :: x in s.transactions ==> x.transactionId < loan.transactionId)
    && loan.studentId == studentId && loan.bookId == bookId && loan.issueDate == date
    && loan.IsOpen()
    && s'.transactions == s.transactions + [loan]
  }

  /**
   The whole effect of a successful return: the first open loan of the
   pair gets the return date, the book's inventory record gains one
   available copy (with no cap at the total), and nothing else changes.
   */
  predicate Returned(s: Library, s': Library, studentId: int, bookId: int, date: Option<string>, loan: Transaction) {
    && s'.books == s.books
    && s'.students == s.students
    && FindInventory(s.inventory, bookId).Some?
    && AvailableShifted(s.inventory, s'.inventory, FindInventory(s.inventory, bookId).value, 1)
    && FindOpenLoan(s.transactions, studentId, bookId).Some?
    && var j := FindOpenLoan(s.transactions, studentId, bookId).value;
       && |s'.transactions| == |s.transactions|
       && loan == s'.transactions[j]
       && loan.transactionId == s.transactions[j].transactionId
       && loan.studentId == studentId && loan.bookId == bookId
       && loan.issueDate == s.transactions[j].issueDate
       && loan.returnDate == date
       && (forall k :: 0 <= k < |s.transactions| && k != j ==> s'.transactions[k] == s.transactions[k])
  }

  /** Both the student and the book of the request exist. */
  predicate Admitted(s: Library, req: TransactionRequest) {
    HasStudent(s, req.studentId) && HasBook(s, req.bookId)
  }

  /** The issue checks pass: under the loan limit, and the book's inventory record has a copy. */
  predicate CanIssue(s: Library, studentId: int, bookId: int) {
    && OpenLoans(s.transactions, studentId) < LoanLimit
    && FindInventory(s.inventory, bookId).Some?
    && s.inventory[FindInventory(s.inventory, bookId).value].availableCopies >= 1
  }

  /** The return checks pass: an open loan of the pair, and an inventory record of the book. */
  predicate CanReturn(s: Library, studentId: int, bookId: int) {
    FindOpenLoan(s.transactions, studentId, bookId).Some? && FindInventory(s.inventory, bookId).Some?
  }

  /** The issue branch, entered once the student and the book are known to exist. */
  function Issue(s: Library, studentId: int, bookId: int, date: string): (r: Result<Committed<Transaction>, Error>)
    ensures OpenLoans(s.transactions, studentId) >= LoanLimit ==> r == Failure(LimitExceeded)
    ensures OpenLoans(s.transactions, studentId) < LoanLimit && FindInventory(s.inventory, bookId).None?
      ==> r == Failure(NotFound(InventoryTable))
    ensures OpenLoans(s.transactions, studentId) < LoanLimit && FindInventory(s.inventory, bookId).Some?
      && s.inventory[FindInventory(s.inventory, bookId).value].availableCopies < 1
      ==> r == Failure(OutOfStock)
    ensures r.Success? <==> CanIssue(s, studentId, bookId)
    ensures r.Success? ==> Issued(s, r.value.lib, studentId, bookId, date, r.value.row)
  {
    if OpenLoans(s.transactions, studentId) >= LoanLimit then Failure(LimitExceeded)
    else
      match FindInventory(s.inventory, bookId)
      case None => Failure(NotFound(InventoryTable))
      case Some(i) =>
        if s.inventory[i].availableCopies < 1 then Failure(OutOfStock)
        else
          var rec := s.inventory[i].(availableCopies := s.inventory[i].availableCopies - 1);
          var loan := Transaction(NextId(TransactionIds(s.transactions)), studentId, bookId, date, None);
          Success(Committed(Library(s.books, s.students, s.inventory[i := rec], s.transactions + [loan]), loan))
  }

  /** The return branch, entered once the student and the book are known to exist. */
  function Return(s: Library, studentId: int, bookId: int, date: Option<string>): (r: Result<Committed<Transaction>, Error>)
    ensures FindOpenLoan(s.transactions, studentId, bookId).None? ==> r == Failure(NoActiveLoan)
    ensures FindOpenLoan(s.transactions, studentId, bookId).Some? && FindInventory(s.inventory, bookId).None?
      ==> r == Failure(NotFound(InventoryTable))
    ensures r.Success? <==> CanReturn(s, studentId, bookId)
    ensures r.Success? ==> Returned(s, r.value.lib, studentId, bookId, date, r.value.row)
  {
    match FindOpenLoan(s.transactions, studentId, bookId)
    case None => Failure(NoActiveLoan)
    case Some(j) =>
      match FindInventory(s.inventory, bookId)
      case None => Failure(NotFound(InventoryTable))
      case Some(i) =>
        var loan := s.transactions[j].(returnDate := date);
        var rec := s.inventory[i].(availableCopies := s.inventory[i].availableCopies + 1);
        Success(Committed(Library(s.books, s.students, s.inventory[i := rec], s.transactions[j := loan]), loan))
  }

  /**
   The transaction endpoint: check the student, then the book, then
   dispatch on which date is present. A request with both dates or
   neither is invalid. Nothing is written unless the whole branch succeeds.
   */
  function CreateTransaction(s: Library, req: TransactionRequest): (r: Result<Committed<Transaction>, Error>)
    ensures !HasStudent(s, req.studentId) ==> r == Failure(NotFound(StudentsTable))
    ensures HasStudent(s, req.studentId) && !HasBook(s, req.bookId) ==> r == Failure(NotFound(BooksTable))
    ensures HasStudent(s, req.studentId) && HasBook(s, req.bookId) && !IsIssue(req) && !IsReturn(req)
      ==> r == Failure(InvalidRequest)
    ensures r.Success? ==> HasStudent(s, req.studentId) && HasBook(s, req.bookId) && (IsIssue(req) || IsReturn(req))
    ensures Admitted(s, req) && IsIssue(req) ==> (r.Success? <==> CanIssue(s, req.studentId, req.bookId))
    ensures Admitted(s, req) && IsIssue(req) && OpenLoans(s.transactions, req.studentId) >= LoanLimit
      ==> r == Failure(LimitExceeded)
    ensures Admitted(s, req) && IsIssue(req) && OpenLoans(s.transactions, req.studentId) < LoanLimit
      && FindInventory(s.inventory, req.bookId).None?
      ==> r == Failure(NotFound(InventoryTable))
    ensures Admitted(s, req) && IsIssue(req) && OpenLoans(s.transactions, req.studentId) < LoanLimit
      && FindInventory(s.inventory, req.bookId).Some?
      && s.inventory[FindInventory(s.inventory, req.bookId).value].availableCopies < 1
      ==> r == Failure(OutOfStock)
    ensures Admitted(s, req) && IsReturn(req) ==> (r.Success? <==> CanReturn(s, req.studentId, req.bookId))
    ensures Admitted(s, req) && IsReturn(req) && FindOpenLoan(s.transactions, req.studentId, req.bookId).None?
      ==> r == Failure(NoActiveLoan)
    ensures Admitted(s, req) && IsReturn(req) && FindOpenLoan(s.transactions, req.studentId, req.bookId).Some?
      && FindInventory(s.inventory, req.bookId).None?
      ==> r == Failure(NotFound(InventoryTable))
    ensures r.Success? && IsIssue(req) ==> Issued(s, r.value.lib, req.studentId, req.bookId, req.issueDate.value, r.value.row)
    ensures r.Success? && IsReturn(req) ==> Returned(s, r.value.lib, req.studentId, req.bookId, req.returnDate, r.value.row)
  {
    if !HasStudent(s, req.studentId) then Failure(NotFound(StudentsTable))
    else if !HasBook(s, req.bookId) then Failure(NotFound(BooksTable))
    else if IsIssue(req) then Issue(s, req.studentId, req.bookId, req.issueDate.value)
    else if IsReturn(req) then Return(s, req.studentId, req.bookId, req.returnDate)
    else Failure(InvalidRequest)
  }

  /**
   A successful issue adds one open loan to its student's count, which
   therefore stays within the limit, and one use to its book's count;
   every other student's and book's count is unchanged.
   */
  lemma IssueCounts(s: Library, req: TransactionRequest)
    requires IsIssue(req) && CreateTransaction(s, req).Success?
    ensures var s' := CreateTransaction(s, req).value.lib;
      && OpenLoans(s'.transactions, req.studentId) == OpenLoans(s.transactions, req.studentId) + 1
      && OpenLoans(s'.transactions, req.studentId) <= LoanLimit
      && (forall sid :: sid != req.studentId ==> OpenLoans(s'.transactions, sid) == OpenLoans(s.transactions, sid))
      && TimesIssued(s'.transactions, req.bookId) == TimesIssued(s.transactions, req.bookId) + 1
      && (forall bid :: bid != req.bookId ==> TimesIssued(s'.transactions, bid) == TimesIssued(s.transactions, bid))
  {
    var c := CreateTransaction(s, req).value;
    forall sid
      ensures OpenLoans(c.lib.transactions, sid) == OpenLoans(s.transactions, sid) + (if sid == req.studentId then 1 else 0)
    {
      OpenLoansAppend(s.transactions, c.row, sid);
    }
    forall bid
      ensures TimesIssued(c.lib.transactions, bid) == TimesIssued(s.transactions, bid) + (if bid == req.bookId then 1 else 0)
    {
      TimesIssuedAppend(s.transactions, c.row, bid);
    }
  }

  /**
   A successful return takes one open loan off its student's count,
   leaves every other student's count alone, and changes no book's
   issue count.
   */
  lemma ReturnCounts(s: Library, req: TransactionRequest)
    requires IsReturn(req) && CreateTransaction(s, req).Success?
    ensures var s' := CreateTransaction(s, req).value.lib;
      && OpenLoans(s'.transactions, req.studentId) == OpenLoans(s.transactions, req.studentId) - 1
      && (forall sid :: sid != req.studentId ==> OpenLoans(s'.transactions, sid) == OpenLoans(s.transactions, sid))
      && (forall bid :: TimesIssued(s'.transactions, bid) == TimesIssued(s.transactions, bid))
  {
    var c := CreateTransaction(s, req).value;
    var j := FindOpenLoan(s.transactions, req.studentId, req.bookId).value;
    assert c.lib.transactions == s.transactions[j := s.transactions[j].(returnDate := req.returnDate)];
    forall sid
      ensures OpenLoans(c.lib.transactions, sid) == OpenLoans(s.transactions, sid) - (if sid == req.studentId then 1 else 0)
    {
      OpenLoansClose(s.transactions, j, req.returnDate, sid);
    }
    forall bid
      ensures TimesIssued(c.lib.transactions, bid) == TimesIssued(s.transactions, bid)
    {
      TimesIssuedClose(s.transactions, j, req.returnDate, bid);
    }
  }

  /** The first-record lookup depends only on the book ids, position by position. */
  lemma {:induction false} FindInventorySameBooks(a: seq<InventoryRecord>, b: seq<InventoryRecord>, bookId: int)
    requires |a| == |b|
    requires forall k :: 0 <= k < |a| ==> a[k].bookId == b[k].bookId
    ensures FindInventory(a, bookId) == FindInventory(b, bookId)
  {
    if |a| > 0 && a[0].bookId != bookId {
      FindInventorySameBooks(a[1..], b[1..], bookId);
    }
  }

  /** After appending an open loan of the pair, the first open loan is the old one if any, else the new one. */
  lemma {:induction false} FindOpenLoanAppend(t: seq<Transaction>, x: Transaction, studentId: int, bookId: int)
    requires OpenLoanOf(x, studentId, bookId)
    ensures FindOpenLoan(t + [x], studentId, bookId)
         == if FindOpenLoan(t, studentId, bookId).Some? then FindOpenLoan(t, studentId, bookId) else Some(|t|)
  {
    if |t| > 0 && !OpenLoanOf(t[0], studentId, bookId) {
      assert (t + [x])[1..] == t[1..] + [x];
      FindOpenLoanAppend(t[1..], x, studentId, bookId);
    }
  }

  /** Taking one copy and giving it back through the same record restores the inventory. */
  lemma ShiftBack(inv: seq<InventoryRecord>, inv1: seq<InventoryRecord>, inv2: seq<InventoryRecord>, i: nat)
    requires AvailableShifted(inv, inv1, i, -1) && AvailableShifted(inv1, inv2, i, 1)
    ensures inv2 == inv
  {
    assert forall k :: 0 <= k < |inv| ==> inv2[k] == inv[k];
  }

  /** Right after a successful issue, returning the same book for the same student succeeds. */
  lemma ReturnAfterIssue(s: Library, s1: Library, studentId: int, bookId: int, issued: string, loan: Transaction, returned: string)
    requires Admitted(s, TransactionRequest(studentId, bookId, Some(issued), None))
    requires Issued(s, s1, studentId, bookId, issued, loan)
    requires returned != ""
    ensures var r2 := CreateTransaction(s1, TransactionRequest(studentId, bookId, None, Some(returned)));
      && r2.Success?
      && r2.value.lib.inventory == s.inventory
      && FindOpenLoan(s1.transactions, studentId, bookId)
         == if FindOpenLoan(s.transactions, studentId, bookId).Some? then FindOpenLoan(s.transactions, studentId, bookId)
            else Some(|s.transactions|)
  {
    var req2 := TransactionRequest(studentId, bookId, None, Some(returned));
    var i := FindInventory(s.inventory, bookId).value;
    FindInventorySameBooks(s.inventory, s1.inventory, bookId);
    FindOpenLoanAppend(s.transactions, loan, studentId, bookId);
    assert Admitted(s1, req2) && IsReturn(req2) && CanReturn(s1, studentId, bookId);
    var r2 := CreateTransaction(s1, req2);
    ShiftBack(s.inventory, s1.inventory, r2.value.lib.inventory, i);
  }

  /**
   Round trip: issuing a book and then returning it for the same student
   always succeeds, restores the inventory exactly and every student's
   open-loan count, and leaves one more loan on record. When the pair had
   no open loan before, that record is the new loan, now closed.
   */
  lemma IssueThenReturn(s: Library, studentId: int, bookId: int, issued: string, returned: string)
    requires issued != "" && returned != ""
    requires CreateTransaction(s, TransactionRequest(studentId, bookId, Some(issued), None)).Success?
    ensures var c1 := CreateTransaction(s, TransactionRequest(studentId, bookId, Some(issued), None)).value;
      var r2 := CreateTransaction(c1.lib, TransactionRequest(studentId, bookId, None, Some(returned)));
      && r2.Success?
      && r2.value.lib.books == s.books
      && r2.value.lib.students == s.students
      && r2.value.lib.inventory == s.inventory
      && |r2.value.lib.transactions| == |s.transactions| + 1
      && (forall sid :: OpenLoans(r2.value.lib.transactions, sid) == OpenLoans(s.transactions, sid))
      && (FindOpenLoan(s.transactions, studentId, bookId).None? ==>
            && r2.value.row == c1.row.(returnDate := Some(returned))
            && r2.value.lib.transactions == s.transactions + [r2.value.row])
  {
    var req1 := TransactionRequest(studentId, bookId, Some(issued), None);
    var req2 := TransactionRequest(studentId, bookId, None, Some(returned));
    var c1 := CreateTransaction(s, req1).value;
    assert IsIssue(req1) && IsReturn(req2);
    ReturnAfterIssue(s, c1.lib, studentId, bookId, issued, c1.row, returned);
    var c2 := CreateTransaction(c1.lib, req2).value;
    OpenLoansRestored(s, req1, req2);
    if FindOpenLoan(s.transactions, studentId, bookId).None? {
      ClosesNewLoan(s, c1.lib, c2.lib, studentId, bookId, issued, c1.row, Some(returned), c2.row);
    }
  }

  /** An issue and a successful return of the same pair leave every open-loan count as it was. */
  lemma OpenLoansRestored(s: Library, req1: TransactionRequest, req2: TransactionRequest)
    requires IsIssue(req1) && CreateTransaction(s, req1).Success?
    requires IsReturn(req2) && req2.studentId == req1.studentId
    requires CreateTransaction(CreateTransaction(s, req1).value.lib, req2).Success?
    ensures forall sid :: OpenLoans(CreateTransaction(CreateTransaction(s, req1).value.lib, req2).value.lib.transactions, sid)
                       == OpenLoans(s.transactions, sid)
  {
    IssueCounts(s, req1);
    ReturnCounts(CreateTransaction(s, req1).value.lib, req2);
  }

  /** When the pair had no open loan before the issue, the return closes the loan just issued. */
  lemma ClosesNewLoan(s: Library, s1: Library, s2: Library, studentId: int, bookId: int, issued: string,
                      loan: Transaction, date: Option<string>, closed: Transaction)
    requires Issued(s, s1, studentId, bookId, issued, loan)
    requires Returned(s1, s2, studentId, bookId, date, closed)
    requires FindOpenLoan(s.transactions, studentId, bookId).None?
    ensures closed == loan.(returnDate := date)
    ensures s2.transactions == s.transactions + [closed]
  {
    FindOpenLoanAppend(s.transactions, loan, studentId, bookId);
    var n := |s.transactions|;
    assert forall k :: 0 <= k < n ==> s2.transactions[k] == s1.transactions[k] == s.transactions[k];
    assert s2.transactions == s.transactions + [closed];
  }
}
