/** Clearing every table at once. */
module Admin {
  import opened Wrappers
  import opened Records
  import opened Listing

  /**
   Deletes every loan, inventory record, student and book in one unit of
   work. `storeFails` stands for the store raising during the deletions,
   in which case everything is rolled back and the error is reported.
   */
  function ClearAll(s: Library, storeFails: bool): (r: Result<Library, Error>)
    ensures storeFails <==> r.Failure?
    ensures r.Failure? ==> r.error == OperationFailed
    ensures r.Success? ==>
      && |r.value.books| == 0 && |r.value.students| == 0
      && |r.value.inventory| == 0 && |r.value.transactions| == 0
  {
    if storeFails then Failure(OperationFailed) else Success(EmptyLibrary)
  }

  /** After a successful clear every listing, whatever its window, is empty. */
  lemma ClearedListingsEmpty(s: Library, skip: int, limit: int)
    ensures var s' := ClearAll(s, false).value;
      && ReadBooks(s', skip, limit) == []
      && ReadStudents(s', skip, limit) == []
      && ReadInventory(s', skip, limit) == []
      && ReadTransactions(s', skip, limit) == []
  {
  }
}
