/**
 Queries over the abstract record store: fresh primary keys, lookups by
 key, the counts the lending rules filter on, and the well-formedness
 invariant every operation preserves.
 */
module Store {
  import opened Wrappers
  import opened Records

  /** The largest of a non-empty list of ids. */
  function Max(ids: seq<int>): (m: int)
    requires |ids| > 0
    ensures forall i :: 0 <= i < |ids| ==> ids[i] <= m
    ensures m in ids
  {
    if |ids| == 1 then ids[0]
    else
      var rest := Max(ids[1..]);
      assert forall i :: 1 <= i < |ids| ==> ids[i] == ids[1..][i - 1];
      if ids[0] >= rest then ids[0] else rest
  }

  /**
   The key an integer primary key column assigns to a new row: one more
   than the largest key in the table, or 1 when the table is empty.
   */
  function NextId(ids: seq<int>): (r: int)
    ensures forall i :: 0 <= i < |ids| ==> ids[i] < r
    ensures |ids| == 0 ==> r == 1
    ensures |ids| > 0 ==> r - 1 in ids
  {
    if |ids| == 0 then 1 else Max(ids) + 1
  }

  function BookIds(books: seq<Book>): (ids: seq<int>)
    ensures |ids| == |books|
    ensures forall i :: 0 <= i < |books| ==> ids[i] == books[i].bookId
  {
    seq(|books|, i requires 0 <= i < |books| => books[i].bookId)
  }

  function StudentIds(students: seq<Student>): (ids: seq<int>)
    ensures |ids| == |students|
    ensures forall i :: 0 <= i < |students| ==> ids[i] == students[i].studentId
  {
    seq(|students|, i requires 0 <= i < |students| => students[i].studentId)
  }

  function InventoryIds(inv: seq<InventoryRecord>): (ids: seq<int>)
    ensures |ids| == |inv|
    ensures forall i :: 0 <= i < |inv| ==> ids[i] == inv[i].inventoryId
  {
    seq(|inv|, i requires 0 <= i < |inv| => inv[i].inventoryId)
  }

  function TransactionIds(t: seq<Transaction>): (ids: seq<int>)
    ensures |ids| == |t|
    ensures forall i :: 0 <= i < |t| ==> ids[i] == t[i].transactionId
  {
    seq(|t|, i requires 0 <= i < |t| => t[i].transactionId)
  }

  /** A book id exists in the books table. */
  predicate HasBook(s: Library, id: int) {
    exists b :: b in s.books && b.bookId == id
  }

  /** A student id exists in the students table. */
  predicate HasStudent(s: Library, id: int) {
    exists st :: st in s.students && st.studentId == id
  }

  /** Position of the first inventory record of a book, as `.first()` on the book_id filter. */
  function FindInventory(inv: seq<InventoryRecord>, bookId: int): (r: Option<nat>)
    ensures r.Some? ==> r.value < |inv| && inv[r.value].bookId == bookId
    ensures r.Some? ==> forall k :: 0 <= k < r.value ==> inv[k].bookId != bookId
    ensures r.None? <==> forall k :: 0 <= k < |inv| ==> inv[k].bookId != bookId
  {
    if |inv| == 0 then None
    else if inv[0].bookId == bookId then Some(0)
    else
      match FindInventory(inv[1..], bookId)
      case None =>
        assert forall k :: 1 <= k < |inv| ==> inv[k] == inv[1..][k - 1];
        None
      case Some(k) => Some(k + 1)
  }

  /** An open loan of the given student for the given book. */
  predicate OpenLoanOf(x: Transaction, studentId: int, bookId: int) {
    x.studentId == studentId && x.bookId == bookId && x.IsOpen()
  }

  /** Position of the first open loan of a (student, book) pair, as `.first()` on that filter. */
  function FindOpenLoan(t: seq<Transaction>, studentId: int, bookId: int): (r: Option<nat>)
    ensures r.Some? ==> r.value < |t| && OpenLoanOf(t[r.value], studentId, bookId)
    ensures r.Some? ==> forall k :: 0 <= k < r.value ==> !OpenLoanOf(t[k], studentId, bookId)
    ensures r.None? <==> forall k :: 0 <= k < |t| ==> !OpenLoanOf(t[k], studentId, bookId)
  {
    if |t| == 0 then None
    else if OpenLoanOf(t[0], studentId, bookId) then Some(0)
    else
      match FindOpenLoan(t[1..], studentId, bookId)
      case None =>
        assert forall k :: 1 <= k < |t| ==> t[k] == t[1..][k - 1];
        None
      case Some(k) => Some(k + 1)
  }

  /** Number of loans of a student whose return date is null. */
  function OpenLoans(t: seq<Transaction>, studentId: int): (c: nat)
    ensures c <= |t|
    ensures c == 0 <==> forall k :: 0 <= k < |t| ==> !(t[k].IsOpen() && t[k].studentId == studentId)
  {
    if |t| == 0 then 0
    else OpenLoans(t[..|t| - 1], studentId) + (if t[|t| - 1].IsOpen() && t[|t| - 1].studentId == studentId then 1 else 0)
  }

  /** Number of loans, open or closed, of a book. */
  function TimesIssued(t: seq<Transaction>, bookId: int): (c: nat)
    ensures c <= |t|
    ensures c == 0 <==> forall k :: 0 <= k < |t| ==> t[k].bookId != bookId
  {
    if |t| == 0 then 0
    else TimesIssued(t[..|t| - 1], bookId) + (if t[|t| - 1].bookId == bookId then 1 else 0)
  }

  /** Appending a loan counts it for its student exactly when it is open. */
  lemma OpenLoansAppend(t: seq<Transaction>, x: Transaction, studentId: int)
    ensures OpenLoans(t + [x], studentId) == OpenLoans(t, studentId) + (if x.IsOpen() && x.studentId == studentId then 1 else 0)
  {
    assert (t + [x])[..|t|] == t;
  }

  /** Appending a loan counts it for its book, open or not. */
  lemma TimesIssuedAppend(t: seq<Transaction>, x: Transaction, bookId: int)
    ensures TimesIssued(t + [x], bookId) == TimesIssued(t, bookId) + (if x.bookId == bookId then 1 else 0)
  {
    assert (t + [x])[..|t|] == t;
  }

  /** Closing one open loan removes it from its student's open count and from no other count. */
  lemma {:induction false} OpenLoansClose(t: seq<Transaction>, j: nat, date: Option<string>, studentId: int)
    requires j < |t| && t[j].IsOpen() && date.Some?
    ensures OpenLoans(t[j := t[j].(returnDate := date)], studentId)
         == OpenLoans(t, studentId) - (if t[j].studentId == studentId then 1 else 0)
  {
    var t' := t[j := t[j].(returnDate := date)];
    var n := |t| - 1;
    if j == n {
      assert t'[..n] == t[..n];
    } else {
      assert t'[..n] == t[..n][j := t[j].(returnDate := date)];
      OpenLoansClose(t[..n], j, date, studentId);
    }
  }

  /** Setting a return date does not change how often the book was issued. */
  lemma {:induction false} TimesIssuedClose(t: seq<Transaction>, j: nat, date: Option<string>, bookId: int)
    requires j < |t|
    ensures TimesIssued(t[j := t[j].(returnDate := date)], bookId) == TimesIssued(t, bookId)
  {
    var t' := t[j := t[j].(returnDate := date)];
    var n := |t| - 1;
    if j == n {
      assert t'[..n] == t[..n];
    } else {
      assert t'[..n] == t[..n][j := t[j].(returnDate := date)];
      TimesIssuedClose(t[..n], j, date, bookId);
    }
  }

  /** Ids strictly increase in table order, so table order is id order and ids are unique. */
  predicate Increasing(ids: seq<int>) {
    forall i, j :: 0 <= i < j < |ids| ==> ids[i] < ids[j]
  }

  /** Book ids are unique, as the primary key guarantees. */
  predicate UniqueBookIds(books: seq<Book>) {
    forall i, j :: 0 <= i < j < |books| ==> books[i].bookId != books[j].bookId
  }

  /** Every table's primary keys increase in table order. */
  predicate KeysIncreasing(s: Library) {
    && Increasing(BookIds(s.books))
    && Increasing(StudentIds(s.students))
    && Increasing(InventoryIds(s.inventory))
    && Increasing(TransactionIds(s.transactions))
  }

  /** At most one inventory record per book, and only for books that exist. */
  predicate InventoryConsistent(s: Library) {
    && (forall i, j :: 0 <= i < j < |s.inventory| ==> s.inventory[i].bookId != s.inventory[j].bookId)
    && (forall rec :: rec in s.inventory ==> HasBook(s, rec.bookId))
  }

  /** Every loan refers to an existing student and an existing book. */
  predicate LoansReferToRows(s: Library) {
    forall x :: x in s.transactions ==> HasStudent(s, x.studentId) && HasBook(s, x.bookId)
  }

  /** A student may hold at most this many open loans. */
  const LoanLimit := 3

  /** No student holds more than `LoanLimit` open loans. */
  ghost predicate WithinLoanLimit(s: Library) {
    forall sid :: OpenLoans(s.transactions, sid) <= LoanLimit
  }

  /**
   The store as the operations keep it: primary keys increasing, at most
   one inventory record per book, every inventory record and loan
   referring to existing rows, and no student over the loan limit.
   */
  ghost predicate Valid(s: Library) {
    KeysIncreasing(s) && InventoryConsistent(s) && LoansReferToRows(s) && WithinLoanLimit(s)
  }

  lemma EmptyIsValid()
    ensures Valid(EmptyLibrary)
  {
  }

  /** In a valid store the book id determines the book. */
  lemma ValidUniqueBooks(s: Library)
    requires Valid(s)
    ensures UniqueBookIds(s.books)
  {
    assert forall i :: 0 <= i < |s.books| ==> BookIds(s.books)[i] == s.books[i].bookId;
  }
}
