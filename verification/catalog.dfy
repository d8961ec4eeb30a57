/** Registration of books and students (the catalog and the roster). */
module Catalog {
  import opened Wrappers
  import opened Records
  import opened Store

  /** A book with exactly this attribute tuple is already registered. */
  predicate BookExists(s: Library, info: BookInfo) {
    exists b :: b in s.books && b.info == info
  }

  /** A student with exactly this attribute tuple is already registered. */
  predicate StudentExists(s: Library, info: StudentInfo) {
    exists st :: st in s.students && st.info == info
  }

  /**
   Registers a book. An identical attribute tuple is a conflict; otherwise
   exactly one book is appended under a fresh id and nothing else changes.
   */
  function CreateBook(s: Library, info: BookInfo): (r: Result<Committed<Book>, Error>)
    ensures r.Failure? <==> BookExists(s, info)
    ensures r.Failure? ==> r.error == Conflict
    ensures r.Success? ==>
      && r.value.row.info == info
      && r.value.row.bookId == NextId(BookIds(s.books))
      && (forall b :: b in s.books ==> b.bookId < r.value.row.bookId)
      && r.value.lib == s.(books := s.books + [r.value.row])
  {
    if BookExists(s, info) then Failure(Conflict)
    else
      var book := Book(NextId(BookIds(s.books)), info);
      Success(Committed(s.(books := s.books + [book]), book))
  }

  /**
   Registers a student. An identical attribute tuple is a conflict;
   otherwise exactly one student is appended under a fresh id.
   */
  function CreateStudent(s: Library, info: StudentInfo): (r: Result<Committed<Student>, Error>)
    ensures r.Failure? <==> StudentExists(s, info)
    ensures r.Failure? ==> r.error == Conflict
    ensures r.Success? ==>
      && r.value.row.info == info
      && r.value.row.studentId == NextId(StudentIds(s.students))
      && (forall st :: st in s.students ==> st.studentId < r.value.row.studentId)
      && r.value.lib == s.(students := s.students + [r.value.row])
  {
    if StudentExists(s, info) then Failure(Conflict)
    else
      var student := Student(NextId(StudentIds(s.students)), info);
      Success(Committed(s.(students := s.students + [student]), student))
  }

  /** Registering the same book twice in a row: the second attempt is a conflict. */
  lemma CreateBookTwiceConflicts(s: Library, info: BookInfo)
    requires CreateBook(s, info).Success?
    ensures CreateBook(CreateBook(s, info).value.lib, info) == Failure(Conflict)
  {
    var c := CreateBook(s, info).value;
    assert c.row in c.lib.books;
  }

  /** Registering the same student twice in a row: the second attempt is a conflict. */
  lemma CreateStudentTwiceConflicts(s: Library, info: StudentInfo)
    requires CreateStudent(s, info).Success?
    ensures CreateStudent(CreateStudent(s, info).value.lib, info) == Failure(Conflict)
  {
    var c := CreateStudent(s, info).value;
    assert c.row in c.lib.students;
  }
}
