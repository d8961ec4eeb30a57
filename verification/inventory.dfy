/** The inventory upsert: create-or-overwrite of a book's copy counts. */
module InventoryLedger {
  import opened Wrappers
  import opened Records
  import opened Store

  /** The submitted counts for one book. */
  datatype InventoryRequest = InventoryRequest(bookId: int, totalCopies: int, availableCopies: int)

  /** A record holds exactly the submitted (book, total, available) tuple. */
  predicate Matches(rec: InventoryRecord, req: InventoryRequest) {
    rec.bookId == req.bookId && rec.totalCopies == req.totalCopies && rec.availableCopies == req.availableCopies
  }

  predicate TupleExists(s: Library, req: InventoryRequest) {
    exists rec :: rec in s.inventory && Matches(rec, req)
  }

  /**
   Upserts the counts of one book. An identical tuple is a conflict. An
   existing record of the book has both counts overwritten, without
   looking at the books table. Otherwise the book must exist and one
   record is appended under a fresh id. The counts are never checked.
   */
  function CreateInventory(s: Library, req: InventoryRequest): (r: Result<Committed<InventoryRecord>, Error>)
    ensures TupleExists(s, req) ==> r == Failure(Conflict)
    ensures r.Success? <==> !TupleExists(s, req) && (FindInventory(s.inventory, req.bookId).Some? || HasBook(s, req.bookId))
    ensures r == Failure(NotFound(BooksTable))
        <==> !TupleExists(s, req) && FindInventory(s.inventory, req.bookId).None? && !HasBook(s, req.bookId)
    ensures r.Success? ==> Matches(r.value.row, req)
    ensures r.Success? && FindInventory(s.inventory, req.bookId).Some? ==>
      var i := FindInventory(s.inventory, req.bookId).value;
      && r.value.row.inventoryId == s.inventory[i].inventoryId
      && r.value.lib == s.(inventory := s.inventory[i := r.value.row])
    ensures r.Success? && FindInventory(s.inventory, req.bookId).None? ==>
      && (forall rec :: rec in s.inventory ==> rec.inventoryId < r.value.row.inventoryId)
      && r.value.row.inventoryId == NextId(InventoryIds(s.inventory))
      && r.value.lib == s.(inventory := s.inventory + [r.value.row])
  {
    if TupleExists(s, req) then Failure(Conflict)
    else
      match FindInventory(s.inventory, req.bookId)
      case Some(i) =>
        var rec := s.inventory[i].(totalCopies := req.totalCopies, availableCopies := req.availableCopies);
        Success(Committed(s.(inventory := s.inventory[i := rec]), rec))
      case None =>
        if !HasBook(s, req.bookId) then Failure(NotFound(BooksTable))
        else
          var rec := InventoryRecord(NextId(InventoryIds(s.inventory)), req.bookId, req.totalCopies, req.availableCopies);
          Success(Committed(s.(inventory := s.inventory + [rec]), rec))
  }

  /**
   Upsert, not increment: after a successful submission the book's
   record carries exactly the submitted counts, whatever it held before.
   */
  lemma UpsertOverwrites(s: Library, req: InventoryRequest)
    requires CreateInventory(s, req).Success?
    ensures var s' := CreateInventory(s, req).value.lib;
      && FindInventory(s'.inventory, req.bookId).Some?
      && Matches(s'.inventory[FindInventory(s'.inventory, req.bookId).value], req)
  {
    var s' := CreateInventory(s, req).value.lib;
    match FindInventory(s.inventory, req.bookId)
    case Some(i) =>
      assert s'.inventory[i].bookId == req.bookId;
      assert forall k :: 0 <= k < i ==> s'.inventory[k] == s.inventory[k];
      assert FindInventory(s'.inventory, req.bookId) == Some(i);
    case None =>
      var n := |s.inventory|;
      assert s'.inventory[n].bookId == req.bookId;
      assert forall k :: 0 <= k < n ==> s'.inventory[k] == s.inventory[k];
      assert FindInventory(s'.inventory, req.bookId) == Some(n);
  }

  /** Submitting the same tuple again right after it was accepted is a conflict. */
  lemma UpsertTwiceConflicts(s: Library, req: InventoryRequest)
    requires CreateInventory(s, req).Success?
    ensures CreateInventory(CreateInventory(s, req).value.lib, req) == Failure(Conflict)
  {
    var c := CreateInventory(s, req).value;
    UpsertOverwrites(s, req);
    assert c.lib.inventory[FindInventory(c.lib.inventory, req.bookId).value] in c.lib.inventory;
  }
}
