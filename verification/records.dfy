/**
 The record shapes of the four tables (books, students, inventory,
 transactions) and of the whole store. Each table is a sequence in
 table order, which is the order rows were inserted.
 */
module Records {
  import opened Wrappers

  /** The attribute tuple a book is registered with; duplicates are judged on all of it. */
  datatype BookInfo = BookInfo(title: string, author: string, publisher: string, publishedYear: int, isbn: string)

  datatype Book = Book(bookId: int, info: BookInfo)

  /** The attribute tuple a student is registered with. */
  datatype StudentInfo = StudentInfo(firstName: string, lastName: string, className: string, email: string, phone: string)

  datatype Student = Student(studentId: int, info: StudentInfo)

  /** Copy counts of one book. Nothing forces the counts to be non-negative or ordered. */
  datatype InventoryRecord = InventoryRecord(inventoryId: int, bookId: int, totalCopies: int, availableCopies: int)

  /** A loan. It is open while `returnDate` is null. */
  datatype Transaction = Transaction(transactionId: int, studentId: int, bookId: int, issueDate: string, returnDate: Option<string>)
  {
    predicate IsOpen() { returnDate.None? }
  }

  datatype Library = Library(books: seq<Book>, students: seq<Student>, inventory: seq<InventoryRecord>, transactions: seq<Transaction>)

  const EmptyLibrary := Library([], [], [], [])

  /** The table whose lookup came back empty. */
  datatype Table = BooksTable | StudentsTable | InventoryTable

  /** Error kinds; every one of them leaves the store as it was. */
  datatype Error =
    | Conflict               // a record with the identical attribute tuple exists
    | NotFound(table: Table) // the referenced student, book or inventory record is absent
    | OutOfStock             // no available copy to issue
    | LimitExceeded          // the student already holds three open loans
    | NoActiveLoan           // nothing to return for this student and book
    | InvalidRequest         // both dates, or neither, were supplied
    | OperationFailed        // the store failed while clearing the tables

  /** A committed request: the new store and the row the request answers with. */
  datatype Committed<T> = Committed(lib: Library, row: T)

  /** Truthiness of an optional string field: null and the empty string both count as absent. */
  predicate Present(d: Option<string>) {
    d.Some? && d.value != ""
  }
}
