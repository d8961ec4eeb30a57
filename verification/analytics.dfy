/** The five most borrowed books. */
module Analytics {
  import opened Records
  import opened Store

  /** How many rows the popularity query keeps. */
  const TopCount := 5

  /** One row of the answer: a book, its title and how many loans (open or closed) it has. */
  datatype PopularBook = PopularBook(bookId: int, title: string, timesIssued: nat)

  /** The grouped row a book contributes. */
  function RowOf(b: Book, t: seq<Transaction>): PopularBook {
    PopularBook(b.bookId, b.info.title, TimesIssued(t, b.bookId))
  }

  /** A book with this id and this title is in the books table. */
  predicate Titled(books: seq<Book>, bookId: int, title: string) {
    exists b :: b in books && b.bookId == bookId && b.info.title == title
  }

  predicate DistinctIds(rows: seq<PopularBook>) {
    forall i, j :: 0 <= i < j < |rows| ==> rows[i].bookId != rows[j].bookId
  }

  /** Counts never increase along the rows. */
  predicate SortedByCount(rows: seq<PopularBook>) {
    forall i, j :: 0 <= i < j < |rows| ==> rows[i].timesIssued >= rows[j].timesIssued
  }

  /**
   The grouped rows: one per book that has at least one loan, which is
   what grouping the loans by book and joining them to the books table yields.
   */
  function Candidates(books: seq<Book>, t: seq<Transaction>): (rows: seq<PopularBook>)
    ensures forall p :: p in rows ==>
      && p.timesIssued == TimesIssued(t, p.bookId) && p.timesIssued >= 1
      && Titled(books, p.bookId, p.title)
    ensures forall b :: b in books && TimesIssued(t, b.bookId) > 0 ==> RowOf(b, t) in rows
  {
    if |books| == 0 then []
    else
      var rest := Candidates(books[1..], t);
      assert forall b :: b in books ==> b == books[0] || b in books[1..];
      assert forall b :: b in books[1..] ==> b in books;
      if TimesIssued(t, books[0].bookId) > 0 then [RowOf(books[0], t)] + rest else rest
  }

  /** With unique book ids, each book contributes at most one row. */
  lemma {:induction false} CandidatesDistinct(books: seq<Book>, t: seq<Transaction>)
    requires UniqueBookIds(books)
    ensures DistinctIds(Candidates(books, t))
  {
    if |books| > 0 {
      var rest := Candidates(books[1..], t);
      assert UniqueBookIds(books[1..]);
      CandidatesDistinct(books[1..], t);
      if TimesIssued(t, books[0].bookId) > 0 {
        forall p | p in rest ensures p.bookId != books[0].bookId {
          var b :| b in books[1..] && b.bookId == p.bookId && b.info.title == p.title;
          var k :| 0 <= k < |books[1..]| && books[1..][k] == b;
          assert books[k + 1] == b;
        }
        ConsDistinct(RowOf(books[0], t), rest);
      }
    }
  }

  /** Prepending a row whose id is new keeps the ids distinct. */
  lemma ConsDistinct(x: PopularBook, rows: seq<PopularBook>)
    requires DistinctIds(rows)
    requires forall p :: p in rows ==> p.bookId != x.bookId
    ensures DistinctIds([x] + rows)
  {
    var r := [x] + rows;
    forall i, j | 0 <= i < j < |r| ensures r[i].bookId != r[j].bookId {
      if i == 0 {
        assert r[j] == rows[j - 1];
        assert rows[j - 1] in rows;
      } else {
        assert r[i] == rows[i - 1] && r[j] == rows[j - 1];
      }
    }
  }

  /** Inserts a row before the first row with a smaller count. */
  function Insert(x: PopularBook, rows: seq<PopularBook>): (r: seq<PopularBook>)
    requires SortedByCount(rows)
    ensures SortedByCount(r)
    ensures |r| == |rows| + 1
    ensures multiset(r) == multiset(rows) + multiset{x}
    ensures forall p :: p in r <==> p == x || p in rows
    ensures DistinctIds(rows) && (forall p :: p in rows ==> p.bookId != x.bookId) ==> DistinctIds(r)
  {
    if |rows| == 0 then [x]
    else if x.timesIssued >= rows[0].timesIssued then
      InsertFront(x, rows);
      [x] + rows
    else
      var tail := Insert(x, rows[1..]);
      InsertBehind(x, rows, tail);
      [rows[0]] + tail
  }

  /** The case where the new row goes first. */
  lemma InsertFront(x: PopularBook, rows: seq<PopularBook>)
    requires SortedByCount(rows) && |rows| > 0 && x.timesIssued >= rows[0].timesIssued
    ensures SortedByCount([x] + rows)
    ensures forall p :: p in [x] + rows <==> p == x || p in rows
    ensures DistinctIds(rows) && (forall p :: p in rows ==> p.bookId != x.bookId) ==> DistinctIds([x] + rows)
  {
    if DistinctIds(rows) && (forall p :: p in rows ==> p.bookId != x.bookId) {
      ConsDistinct(x, rows);
    }
  }

  /** The case where the first old row stays first and the new row goes into the rest. */
  lemma InsertBehind(x: PopularBook, rows: seq<PopularBook>, tail: seq<PopularBook>)
    requires SortedByCount(rows) && |rows| > 0 && x.timesIssued < rows[0].timesIssued
    requires SortedByCount(tail) && |tail| == |rows|
    requires multiset(tail) == multiset(rows[1..]) + multiset{x}
    requires forall p :: p in tail <==> p == x || p in rows[1..]
    requires DistinctIds(rows[1..]) && (forall p :: p in rows[1..] ==> p.bookId != x.bookId) ==> DistinctIds(tail)
    ensures SortedByCount([rows[0]] + tail)
    ensures multiset([rows[0]] + tail) == multiset(rows) + multiset{x}
    ensures forall p :: p in [rows[0]] + tail <==> p == x || p in rows
    ensures DistinctIds(rows) && (forall p :: p in rows ==> p.bookId != x.bookId) ==> DistinctIds([rows[0]] + tail)
  {
    assert rows == [rows[0]] + rows[1..];
    var r := [rows[0]] + tail;
    assert forall i :: 1 <= i < |r| ==> r[i] == tail[i - 1];
    forall i | 1 <= i < |r| ensures r[0].timesIssued >= r[i].timesIssued {
      assert r[i] in tail;
      if r[i] != x {
        var k :| 0 <= k < |rows[1..]| && rows[1..][k] == r[i];
        assert rows[k + 1] == r[i];
      }
    }
    if DistinctIds(rows) && (forall p :: p in rows ==> p.bookId != x.bookId) {
      assert DistinctIds(rows[1..]);
      forall p | p in tail ensures p.bookId != rows[0].bookId {
        if p != x {
          var k :| 0 <= k < |rows[1..]| && rows[1..][k] == p;
          assert rows[k + 1] == p;
        } else {
          assert rows[0] in rows;
        }
      }
      ConsDistinct(rows[0], tail);
    }
  }

  /** Orders rows by non-increasing count; among equal counts the earlier row stays first. */
  function SortByCount(rows: seq<PopularBook>): (r: seq<PopularBook>)
    ensures SortedByCount(r)
    ensures |r| == |rows|
    ensures multiset(r) == multiset(rows)
    ensures forall p :: p in r <==> p in rows
    ensures DistinctIds(rows) ==> DistinctIds(r)
  {
    if |rows| == 0 then []
    else
      var tail := SortByCount(rows[1..]);
      SortStep(rows, tail);
      Insert(rows[0], tail)
  }

  /** Inserting the first row into the sorted rest yields a sorting of all rows. */
  lemma SortStep(rows: seq<PopularBook>, tail: seq<PopularBook>)
    requires |rows| > 0 && SortedByCount(tail) && |tail| == |rows| - 1
    requires multiset(tail) == multiset(rows[1..])
    requires forall p :: p in tail <==> p in rows[1..]
    requires DistinctIds(rows[1..]) ==> DistinctIds(tail)
    ensures multiset(Insert(rows[0], tail)) == multiset(rows)
    ensures forall p :: p in Insert(rows[0], tail) <==> p in rows
    ensures DistinctIds(rows) ==> DistinctIds(Insert(rows[0], tail))
  {
    assert rows == [rows[0]] + rows[1..];
    if DistinctIds(rows) {
      assert DistinctIds(rows[1..]);
      forall p | p in tail ensures p.bookId != rows[0].bookId {
        var k :| 0 <= k < |rows[1..]| && rows[1..][k] == p;
        assert rows[k + 1] == p;
      }
    }
  }

  /** Keeping a prefix of sorted rows: any row left out counts no more than the last row kept. */
  lemma PrefixMaximal(sorted: seq<PopularBook>, n: nat, p: PopularBook)
    requires SortedByCount(sorted) && n <= |sorted| && p in sorted && p !in sorted[..n]
    ensures n > 0 ==> p.timesIssued <= sorted[n - 1].timesIssued
    ensures n < |sorted|
  {
    var k :| 0 <= k < |sorted| && sorted[k] == p;
    assert k >= n;
  }

  /** Some row is about this book. */
  predicate Listed(rows: seq<PopularBook>, bookId: int) {
    exists i :: 0 <= i < |rows| && rows[i].bookId == bookId
  }

  /** Every row reports its book's true loan count, at least one, and the book's title. */
  predicate Faithful(rows: seq<PopularBook>, books: seq<Book>, t: seq<Transaction>) {
    forall i :: 0 <= i < |rows| ==>
      && rows[i].timesIssued == TimesIssued(t, rows[i].bookId)
      && rows[i].timesIssued >= 1
      && Titled(books, rows[i].bookId, rows[i].title)
  }

  /**
   No borrowed book is missing unless all five rows are taken, and then
   it counts no more than the last row.
   */
  predicate Maximal(rows: seq<PopularBook>, books: seq<Book>, t: seq<Transaction>) {
    forall b :: b in books && TimesIssued(t, b.bookId) > 0 && !Listed(rows, b.bookId) ==>
      |rows| == TopCount && TimesIssued(t, b.bookId) <= rows[TopCount - 1].timesIssued
  }

  /** Cutting sorted, complete rows to at most five keeps them maximal. */
  lemma TopMaximal(books: seq<Book>, t: seq<Transaction>, sorted: seq<PopularBook>, n: nat)
    requires SortedByCount(sorted)
    requires forall b :: b in books && TimesIssued(t, b.bookId) > 0 ==> RowOf(b, t) in sorted
    requires n == if |sorted| < TopCount then |sorted| else TopCount
    ensures Maximal(sorted[..n], books, t)
  {
    var r := sorted[..n];
    forall b | b in books && TimesIssued(t, b.bookId) > 0 && !Listed(r, b.bookId)
      ensures |r| == TopCount && TimesIssued(t, b.bookId) <= r[TopCount - 1].timesIssued
    {
      var p := RowOf(b, t);
      PrefixMaximal(sorted, n, p);
    }
  }

  /** A prefix of rows drawn from the grouped rows reports true counts and titles. */
  lemma PrefixFaithful(books: seq<Book>, t: seq<Transaction>, sorted: seq<PopularBook>, n: nat)
    requires n <= |sorted|
    requires forall p :: p in sorted ==> p in Candidates(books, t)
    requires SortedByCount(sorted) && DistinctIds(sorted)
    ensures Faithful(sorted[..n], books, t)
    ensures SortedByCount(sorted[..n]) && DistinctIds(sorted[..n])
  {
    assert forall i :: 0 <= i < n ==> sorted[..n][i] in sorted;
  }

  /**
   The popularity query: loans grouped by book, joined to the books
   table, ordered by descending count and cut to five rows. The order
   among equal counts is left open: the answer is only promised to be
   sorted and maximal.
   */
  function PopularBooks(s: Library): (r: seq<PopularBook>)
    requires UniqueBookIds(s.books)
    ensures |r| <= TopCount
    ensures DistinctIds(r)
    ensures SortedByCount(r)
    ensures Faithful(r, s.books, s.transactions)
    ensures Maximal(r, s.books, s.transactions)
  {
    var candidates := Candidates(s.books, s.transactions);
    CandidatesDistinct(s.books, s.transactions);
    var sorted := SortByCount(candidates);
    var n := if |sorted| < TopCount then |sorted| else TopCount;
    TopMaximal(s.books, s.transactions, sorted, n);
    PrefixFaithful(s.books, s.transactions, sorted, n);
    sorted[..n]
  }
}
