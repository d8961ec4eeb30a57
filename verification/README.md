# Library lending and inventory rules, modelled in Dafny

This project models the lending core of a small school-library service
(`library_data.py`): a record store of books, students, per-book copy
counts and lending transactions, and the rules that register books and
students, upsert copy counts, issue and return books, rank the five most
borrowed books, list tables page by page, and clear every table.

The store is an immutable `Library` value holding the four tables as
sequences in table order (insertion order). Each endpoint is a pure
function from the store and the request to `Result<Committed<Row>, Error>`.
`Committed` carries the new store and the row the endpoint answers with.
The source commits its session only after every check of a request has
passed. Any exception rolls the session back. So a `Failure` carries no
store, and `Machine.Step` keeps the old one.

Modelling choices:

- Fresh primary keys follow SQLite's integer-primary-key rule: one more than the largest key in the table, or 1 when it is empty (`Store.NextId`). Keys therefore restart at 1 after the tables are cleared.
- `.first()` is fixed as the first match in table order. Keys increase along each table (part of `Store.Valid`), so that is the lowest-id match. It is also what SQLite's scan returns for these filters, because the filtered columns (`Inventory.book_id` and the transaction's `student_id`, `book_id` and `return_date`) have no index. Both the inventory lookup (`Store.FindInventory`) and the open-loan lookup (`Store.FindOpenLoan`) are modelled this way.
- Request dates are `Option<string>`. The source tests them with Python truthiness, so `Records.Present` treats `None` and `Some("")` alike as absent. Dates are opaque; no date arithmetic happens anywhere.
- Every HTTP 400 is one error kind: `NotFound` (naming the student, book or inventory table), `OutOfStock`, `LimitExceeded`, `NoActiveLoan` or `InvalidRequest`. HTTP 409 is `Conflict` and HTTP 500 is `OperationFailed`.
- Counts are unbounded integers. As in the source, nothing checks that they are non-negative or that `available <= total`.

Where the system's design description and the code differ, the model
follows the code:

- Student and book existence are checked before the date shape. So a request with both dates for an unknown student fails with `NotFound`, not `InvalidRequest`.
- The description's invariant that `available_copies` equals `total_copies` minus the open loans is not kept by the code. An upsert overwrites both counts at any time, and a return adds a copy without a cap. The model proves only what the code keeps (`Store.Valid`).
- The description's `InvalidState` (closing an already-closed loan) cannot arise. The return path only ever selects an open loan.
- Several open loans of the same (student, book) pair are not prevented. A return closes the first of them.

## Model

| member | source | states |
|---|---|---|
| Store.NextId | library_data.py:23-24 | the key given to a new row is larger than every key in the table; it is one more than the largest key, or 1 for an empty table |
| Store.FindInventory | library_data.py:269 | the inventory lookup returns the first record of the book, and returns nothing exactly when no record of the book exists |
| Store.FindOpenLoan | library_data.py:290-294 | the loan lookup returns the first open loan of the (student, book) pair, and returns nothing exactly when the pair has no open loan |
| Store.OpenLoans | library_data.py:260-263 | a student's open-loan count is at most the number of loans, and it is zero exactly when no loan of that student has a null return date |
| Store.TimesIssued | library_data.py:325 | a book's issue count is at most the number of loans, and it is zero exactly when no loan, open or closed, is for that book |
| Store.OpenLoansAppend | library_data.py:260-263 | appending a loan adds one to its student's open-loan count exactly when the loan is open |
| Store.OpenLoansClose | library_data.py:260-263 | setting the return date of an open loan takes one off its own student's open count and leaves every other student's count unchanged |
| Store.TimesIssuedAppend | library_data.py:322-326 | appending a loan adds one to the issue count of its book and of no other book |
| Store.TimesIssuedClose | library_data.py:322-326 | setting a return date changes no book's issue count, because open and closed loans both count |
| Catalog.CreateBook | library_data.py:158-175 | fails with Conflict exactly when a book with the identical attribute tuple exists; otherwise exactly one book with those attributes and a fresh key is appended and nothing else changes |
| Catalog.CreateStudent | library_data.py:183-200 | fails with Conflict exactly when a student with the identical attribute tuple exists; otherwise exactly one student is appended under a fresh key and nothing else changes |
| Catalog.CreateBookTwiceConflicts | library_data.py:160-168 | registering the same book again right after it was accepted is a conflict |
| Catalog.CreateStudentTwiceConflicts | library_data.py:185-193 | registering the same student again right after it was accepted is a conflict |
| InventoryLedger.CreateInventory | library_data.py:207-240 | an identical (book, total, available) tuple is a conflict; an existing record of the book gets both counts overwritten and keeps its key, with no book check; otherwise a missing book is NotFound and an existing book gets exactly one new record; the counts are never validated (no sign or `available <= total` check) |
| InventoryLedger.UpsertOverwrites | library_data.py:219-227 | after a successful upsert the book's record holds exactly the submitted counts, whatever it held before (overwrite, not increment) |
| InventoryLedger.UpsertTwiceConflicts | library_data.py:209-215 | resubmitting a just-accepted tuple is a conflict |
| Lending.EmptyDateIsAbsent | library_data.py:258-310 | an empty date string acts exactly like a missing one; a request with an empty issue date is never an issue and one with an empty return date never a return; a request takes the invalid branch exactly when both dates or neither are present |
| Lending.Issue | library_data.py:258-287 | three or more open loans is LimitExceeded; no inventory record is NotFound; no available copy is OutOfStock; it succeeds exactly when none of these holds, and then one copy is taken from the book's record (total unchanged), one open loan with a fresh key and the given student, book and issue date is appended, and nothing else changes |
| Lending.Return | library_data.py:288-307 | no open loan of the pair is NoActiveLoan; no inventory record is NotFound; otherwise the first open loan of the pair, and no other loan, gets the return date, and the book's available copies rise by one with no cap at the total |
| Lending.CreateTransaction | library_data.py:244-315 | an unknown student or book is NotFound; both dates or neither is InvalidRequest; an issue or return succeeds exactly when its checks pass, with the effects stated for Issue and Return, and fails with the error kind of the first failed check |
| Lending.IssueCounts | library_data.py:259-287 | a successful issue raises its student's open-loan count by one and keeps it within three; it raises its book's issue count by one; all other counts are unchanged |
| Lending.ReturnCounts | library_data.py:288-307 | a successful return lowers its student's open-loan count by one, leaves other students' counts alone and changes no issue count |
| Lending.FindInventorySameBooks | library_data.py:269 | the inventory lookup depends only on the book id of each record |
| Lending.FindOpenLoanAppend | library_data.py:290-294 | after a new open loan of the pair is appended, a return picks the older open loan if one exists, else the new one |
| Lending.ShiftBack | library_data.py:278 | taking one copy and then giving it back through the same record restores the inventory exactly |
| Lending.ReturnAfterIssue | library_data.py:288-307 | right after a successful issue, a return for the same student and book succeeds and restores the inventory |
| Lending.OpenLoansRestored | library_data.py:258-307 | an issue followed by a successful return for the same student leaves every student's open-loan count as it was |
| Lending.ClosesNewLoan | library_data.py:288-300 | when the pair had no open loan before the issue, the return closes the loan just issued, and the loan table is the old one plus that closed loan |
| Lending.IssueThenReturn | library_data.py:258-307 | issue followed by return for the same pair always succeeds; it restores the inventory and every open-loan count and leaves one more loan on record; with no earlier open loan of the pair, that loan is the new one, closed with the return date |
| Analytics.Candidates | library_data.py:322-326 | the grouped rows are exactly one row per book with at least one loan, each carrying the book's title and its loan count |
| Analytics.CandidatesDistinct | library_data.py:326 | with unique book keys the grouped rows have distinct book ids |
| Analytics.Insert | library_data.py:326 | inserting a row into rows sorted by descending count keeps them sorted, adds exactly that row (the multiset grows by it), and keeps book ids distinct |
| Analytics.SortByCount | library_data.py:326 | the ordering by descending count is sorted and a permutation of its input (same multiset of rows), and keeps book ids distinct |
| Analytics.PrefixMaximal | library_data.py:326 | a row of a sorted list left out of a prefix counts no more than the prefix's last row |
| Analytics.TopMaximal | library_data.py:326 | cutting the sorted rows to five leaves no borrowed book out unless five rows are kept, and then it counts no more than the fifth |
| Analytics.PrefixFaithful | library_data.py:326 | the kept rows stay sorted, keep distinct ids and report true counts and titles |
| Analytics.PopularBooks | library_data.py:318-338 | at most five rows with distinct book ids, each naming an existing book with its title and its count of loans (open and closed), which is at least one; counts never increase; a borrowed book is missing only when five rows are returned, and then it counts no more than the last row |
| Listing.Page | library_data.py:357-375 | a listing is the window of the table in table order that starts at the offset (a negative offset is zero) and holds up to `limit` rows (a negative limit is no limit) |
| Listing.PageSplit | library_data.py:357-375 | two adjacent pages together are the page spanning both |
| Listing.PageAll | library_data.py:357-375 | offset 0 with a negative limit lists the whole table |
| Listing.DefaultListings | library_data.py:358-375 | a listing requested without parameters (offset 0, limit 10) holds the first ten rows of its table, or all of them when there are fewer |
| Listing.DefaultPage | library_data.py:358-359 | the window at offset 0 with limit 10 is the first ten rows, or the whole table when it is shorter |
| Admin.ClearAll | library_data.py:342-353 | without a store fault all four tables end empty; with one the error is OperationFailed and nothing is deleted |
| Admin.ClearedListingsEmpty | library_data.py:345-375 | after clearing, every listing of every table is empty whatever its window |
| Store.EmptyIsValid | library_data.py:342-350 | the empty store is well formed |
| Store.ValidUniqueBooks | library_data.py:24 | in a well-formed store the book key determines the book |
| Machine.CreateBookValid | library_data.py:169-175 | registering a book keeps the store well formed |
| Machine.CreateStudentValid | library_data.py:194-200 | registering a student keeps the store well formed |
| Machine.CreateInventoryValid | library_data.py:218-240 | an upsert keeps one inventory record per book, each for an existing book |
| Machine.ShiftedInventoryConsistent | library_data.py:278 | changing a record's available copies in place keeps keys, books and references |
| Machine.IssuedValid | library_data.py:258-287 | a successful issue keeps the store well formed, including the three-loan limit |
| Machine.ReturnedValid | library_data.py:288-307 | a successful return keeps the store well formed |
| Machine.CreateTransactionValid | library_data.py:244-315 | every successful transaction keeps the store well formed |
| Machine.RejectedRequestChangesNothing | library_data.py:312 | nothing is written before the one commit: a duplicate registration, a duplicate or unplaceable inventory tuple, an unknown student or book, a malformed date combination, a failed issue or return check, and a store fault while clearing each leave the store exactly as it was |
| Machine.StepValid | library_data.py:312 | every request, committed or rolled back, leaves a well-formed store |
| Machine.RunValid | library_data.py:258-266 | any sequence of requests keeps the store well formed, so no student ever holds more than three open loans |
| Machine.LoanLimitAlwaysHolds | library_data.py:258-266 | from the empty library no sequence of requests gives a student more than three open loans |
| Machine.ReturnWithoutInventoryKeepsLoanOpen | library_data.py:300-312 | a return whose book has no inventory record fails as a whole: the store is unchanged and the loan stays open |

## Left out

- FastAPI routing, the Pydantic request and response classes, `get_db`, the `print` calls and the `uvicorn` start-up: transport and plumbing around the rules.
- SQLAlchemy engines, sessions, `commit`, `refresh` and `rollback`: a commit is "return the new store" and an exception is "return an error". `refresh` re-reads rows the model already holds.
- The `except IntegrityError` branches of book and student registration: the name is never imported, and no integrity error can arise in the abstract store.
- HTTP status codes and error detail strings: replaced by the `Error` kinds above.
- Concurrency, isolation and SQLite's threading flag: the model is sequential, one request at a time.
- `lib_system.py`: an earlier draft that cannot be imported (undefined names, a missing mapper, constructors with fields the models lack), so it has no well-defined behaviour to model.
- 64-bit limits of SQLite integers: keys and counts are unbounded. SQLite's fallback to a random key after the largest possible key is not modelled.
- Analytics.PopularBooks: requires unique book keys, which the primary key guarantees. The tie-break among equal counts is not promised. The model happens to keep table order, which is ascending book id.
- Store failures while clearing the tables are external events: `Admin.ClearAll` takes one as its `storeFails` parameter.
- The `read_*` endpoints are modelled by `ReadBooks`, `ReadStudents`, `ReadInventory` and `ReadTransactions`, with the source's defaults of offset 0 and limit 10. Each applies `Page` to one table and carries no contract of its own; `Listing.DefaultListings` states what the default call returns. Negative offsets and limits follow the store's LIMIT/OFFSET rules, which the source passes through unchecked.
