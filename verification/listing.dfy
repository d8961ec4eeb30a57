/** The offset/limit listings of the four tables. */
module Listing {
  import opened Records

  /** Where a window starts: a negative offset reads as zero. */
  function Start(skip: int): nat {
    if skip < 0 then 0 else skip
  }

  /**
   One page of a table in table order, with the store's OFFSET/LIMIT
   semantics: a negative offset starts at the first row and a negative
   limit means no limit.
   */
  function Page<T>(rows: seq<T>, skip: int, limit: int): (r: seq<T>)
    ensures var rest := if Start(skip) >= |rows| then 0 else |rows| - Start(skip);
      |r| == if limit < 0 || rest <= limit then rest else limit
    ensures forall i :: 0 <= i < |r| ==> Start(skip) + i < |rows| && r[i] == rows[Start(skip) + i]
  {
    if Start(skip) >= |rows| then []
    else
      var tail := rows[Start(skip)..];
      if limit < 0 || |tail| <= limit then tail else tail[..limit]
  }

  /** Two adjacent pages make up the page that spans both. */
  lemma PageSplit<T>(rows: seq<T>, skip: nat, n: nat, m: nat)
    ensures Page(rows, skip, n) + Page(rows, skip + n, m) == Page(rows, skip, n + m)
  {
    var a := Page(rows, skip, n);
    var b := Page(rows, skip + n, m);
    var c := Page(rows, skip, n + m);
    assert |a + b| == |c|;
    forall i | 0 <= i < |c| ensures (a + b)[i] == c[i] {
      if i >= |a| {
        assert (a + b)[i] == b[i - |a|];
      }
    }
  }

  /** With no offset and no limit a page is the whole table. */
  lemma PageAll<T>(rows: seq<T>)
    ensures Page(rows, 0, -1) == rows
  {
  }

  /** The listing endpoints default to offset 0 and limit 10. */
  function ReadBooks(s: Library, skip: int := 0, limit: int := 10): seq<Book> {
    Page(s.books, skip, limit)
  }

  function ReadStudents(s: Library, skip: int := 0, limit: int := 10): seq<Student> {
    Page(s.students, skip, limit)
  }

  function ReadInventory(s: Library, skip: int := 0, limit: int := 10): seq<InventoryRecord> {
    Page(s.inventory, skip, limit)
  }

  function ReadTransactions(s: Library, skip: int := 0, limit: int := 10): seq<Transaction> {
    Page(s.transactions, skip, limit)
  }

  /** The first ten rows of a table, or all of them when there are fewer. */
  function FirstTen<T>(rows: seq<T>): seq<T> {
    if |rows| <= 10 then rows else rows[..10]
  }

  /** A listing requested without parameters holds the first ten rows of its table. */
  lemma DefaultListings(s: Library)
    ensures ReadBooks(s) == FirstTen(s.books)
    ensures ReadStudents(s) == FirstTen(s.students)
    ensures ReadInventory(s) == FirstTen(s.inventory)
    ensures ReadTransactions(s) == FirstTen(s.transactions)
  {
    DefaultPage(s.books);
    DefaultPage(s.students);
    DefaultPage(s.inventory);
    DefaultPage(s.transactions);
  }

  lemma DefaultPage<T>(rows: seq<T>)
    ensures Page(rows, 0, 10) == FirstTen(rows)
  {
    var p := Page(rows, 0, 10);
    assert |p| == |FirstTen(rows)|;
    assert forall i :: 0 <= i < |p| ==> p[i] == FirstTen(rows)[i];
  }
}
