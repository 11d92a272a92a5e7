/** The loan transactions borrow_book and return_book: the only operations
    that change a book's stock and the borrow records together. */
module Loans {
  import opened Tables

  /** What borrow_book and return_book report, one case per message. */
  datatype Outcome =
    | BookNotFound     // borrow: no row with that book_id
    | NotAvailable     // borrow: stock below 1
    | Borrowed         // borrow succeeded
    | NoActiveRecord   // return: no active record for the member and book
    | Returned         // return succeeded
    | ReturnFailed     // return: the record was closed, then the book row was missing

  predicate IsActiveLoan(r: BorrowRecord, memberId: int, bookId: int) {
    r.memberId == memberId && r.bookId == bookId && r.IsActive()
  }

  /** The active-record query of return_book: the position of the first
      active record of this member and book, if there is one. */
  function FindActive(records: seq<BorrowRecord>, memberId: int, bookId: int): (r: Option<nat>)
    ensures r.None? <==> forall k :: 0 <= k < |records| ==> !IsActiveLoan(records[k], memberId, bookId)
    ensures r.Some? ==>
      && r.value < |records|
      && IsActiveLoan(records[r.value], memberId, bookId)
      && forall k :: 0 <= k < r.value ==> !IsActiveLoan(records[k], memberId, bookId)
  {
    if records == [] then None
    else if IsActiveLoan(records[0], memberId, bookId) then Some(0)
    else
      match FindActive(records[1..], memberId, bookId)
      case None => None
      case Some(k) => Some(k + 1)
  }

  function Close(r: BorrowRecord, now: int): BorrowRecord {
    r.(returnDate := Some(now))
  }

  /** The store update of return_book: sets return_date on every row carrying
      this record_id. */
  function CloseById(records: seq<BorrowRecord>, recordId: int, now: int): (r: seq<BorrowRecord>)
    ensures |r| == |records|
    ensures forall k :: 0 <= k < |r| && records[k].recordId == recordId ==>
      r[k].returnDate == Some(now) && !r[k].IsActive()
    ensures forall k :: 0 <= k < |r| ==>
      && r[k].recordId == records[k].recordId && r[k].memberId == records[k].memberId
      && r[k].bookId == records[k].bookId && r[k].borrowDate == records[k].borrowDate
    ensures forall k :: 0 <= k < |r| && records[k].recordId != recordId ==> r[k] == records[k]
  {
    seq(|records|, k requires 0 <= k < |records| =>
      if records[k].recordId == recordId then Close(records[k], now) else records[k])
  }

  /** With unique record ids, closing by the id of record i closes record i and nothing else. */
  lemma CloseByIdClosesOne(records: seq<BorrowRecord>, i: nat, now: int)
    requires i < |records|
    ensures UniqueRecordIds(records) ==>
      CloseById(records, records[i].recordId, now) == records[i := Close(records[i], now)]
  {
  }

  /** borrow_book: check the book exists and has stock, then take one copy
      and append an active record dated `now`. */
  function Borrow(s: State, memberId: int, bookId: int, now: int): (r: (State, Outcome))
    ensures r.1 == BookNotFound <==> bookId !in s.books
    ensures r.1 == NotAvailable <==> bookId in s.books && s.books[bookId].stock < 1
    ensures r.1 == Borrowed <==> bookId in s.books && s.books[bookId].stock >= 1
    ensures r.1 != Borrowed ==> r.0 == s
    ensures r.1 == Borrowed ==>
      && r.0.books.Keys == s.books.Keys
      && r.0.books[bookId] == s.books[bookId].(stock := s.books[bookId].stock - 1)
      && r.0.books[bookId].stock >= 0
      && (forall id :: id in s.books && id != bookId ==> r.0.books[id] == s.books[id])
      && r.0.records == s.records + [BorrowRecord(s.nextRecordId, memberId, bookId, now, None)]
      && r.0.members == s.members
    ensures Valid(s) ==> Valid(r.0)
    ensures StockNonNegative(s.books) ==> StockNonNegative(r.0.books)
  {
    if bookId !in s.books then (s, BookNotFound)
    else if s.books[bookId].stock < 1 then (s, NotAvailable)
    else
      var book := s.books[bookId];
      var loan := BorrowRecord(s.nextRecordId, memberId, bookId, now, None);
      (s.(books := s.books[bookId := book.(stock := book.stock - 1)],
          records := s.records + [loan],
          nextRecordId := s.nextRecordId + 1),
       Borrowed)
  }

  /** Closing a loan, with a catalogue holding the same books, keeps the store invariant. */
  lemma CloseKeepsValid(s: State, i: nat, now: int, books: map<int, Book>)
    requires i < |s.records| && books.Keys == s.books.Keys
    ensures Valid(s) ==> Valid(s.(records := s.records[i := Close(s.records[i], now)], books := books))
  {
    var records := s.records[i := Close(s.records[i], now)];
    assert forall k :: 0 <= k < |records| ==> records[k].recordId == s.records[k].recordId;
    assert forall k :: 0 <= k < |records| && records[k].IsActive() ==> s.records[k].IsActive() && records[k].bookId == s.records[k].bookId;
  }

  /** return_book: close the first active record of this member and book
      with return_date `now`, then give the copy back to stock. */
  function Return(s: State, memberId: int, bookId: int, now: int): (r: (State, Outcome))
    ensures r.1 == NoActiveRecord <==> FindActive(s.records, memberId, bookId).None?
    ensures r.1 == NoActiveRecord ==> r.0 == s
    ensures r.1 == Returned <==> FindActive(s.records, memberId, bookId).Some? && bookId in s.books
    ensures r.1 in {NoActiveRecord, Returned, ReturnFailed}
    ensures r.1 == Returned ==>
      && bookId in s.books
      && r.0.books == s.books[bookId := s.books[bookId].(stock := s.books[bookId].stock + 1)]
      && r.0.members == s.members
    ensures Valid(s) ==> r.1 != ReturnFailed && Valid(r.0)
    ensures Valid(s) && r.1 == Returned ==>
      var i := FindActive(s.records, memberId, bookId).value;
      r.0.records == s.records[i := Close(s.records[i], now)]
    ensures StockNonNegative(s.books) ==> StockNonNegative(r.0.books)
  {
    match FindActive(s.records, memberId, bookId)
    case None => (s, NoActiveRecord)
    case Some(i) =>
      var closed := CloseById(s.records, s.records[i].recordId, now);
      CloseByIdClosesOne(s.records, i, now);
      if bookId !in s.books then (s.(records := closed), ReturnFailed)
      else
        var book := s.books[bookId];
        var books := s.books[bookId := book.(stock := book.stock + 1)];
        CloseKeepsValid(s, i, now, books);
        (s.(records := closed, books := books), Returned)
  }

  /** Borrowing then returning the same book gives back the catalogue as it
      was. When the member held no active loan of that book before, the net
      effect on the records is one appended, already closed record; when they
      did, the older loan is the one closed and the new one stays active. */
  lemma BorrowThenReturn(s: State, memberId: int, bookId: int, borrowedAt: int, returnedAt: int)
    requires Valid(s)
    requires bookId in s.books && s.books[bookId].stock >= 1
    ensures
      var loan := BorrowRecord(s.nextRecordId, memberId, bookId, borrowedAt, None);
      var r := Return(Borrow(s, memberId, bookId, borrowedAt).0, memberId, bookId, returnedAt);
      && r.1 == Returned
      && r.0.books == s.books
      && r.0.members == s.members
      && r.0.records == match FindActive(s.records, memberId, bookId)
                        case None => s.records + [Close(loan, returnedAt)]
                        case Some(i) => s.records[i := Close(s.records[i], returnedAt)] + [loan]
  {
    BorrowThenReturnRestocks(s, memberId, bookId, borrowedAt, returnedAt);
    BorrowThenReturnRecords(s, memberId, bookId, borrowedAt, returnedAt);
  }

  /** The store right after a successful borrow. */
  function AfterBorrow(s: State, memberId: int, bookId: int, now: int): State
    requires bookId in s.books
  {
    var book := s.books[bookId];
    s.(books := s.books[bookId := book.(stock := book.stock - 1)],
       records := s.records + [BorrowRecord(s.nextRecordId, memberId, bookId, now, None)],
       nextRecordId := s.nextRecordId + 1)
  }

  lemma BorrowThenReturnRestocks(s: State, memberId: int, bookId: int, borrowedAt: int, returnedAt: int)
    requires bookId in s.books && s.books[bookId].stock >= 1
    ensures
      var r := Return(Borrow(s, memberId, bookId, borrowedAt).0, memberId, bookId, returnedAt);
      r.1 == Returned && r.0.books == s.books && r.0.members == s.members
  {
    var loan := BorrowRecord(s.nextRecordId, memberId, bookId, borrowedAt, None);
    var s1 := AfterBorrow(s, memberId, bookId, borrowedAt);
    assert Borrow(s, memberId, bookId, borrowedAt) == (s1, Borrowed);
    FindActiveAfterAppend(s.records, loan, memberId, bookId);
    RestockUndoesTake(s.books, bookId);
  }

  lemma RestockUndoesTake(books: map<int, Book>, bookId: int)
    requires bookId in books
    ensures
      var taken := books[bookId := books[bookId].(stock := books[bookId].stock - 1)];
      taken[bookId := taken[bookId].(stock := taken[bookId].stock + 1)] == books
  {
  }

  lemma BorrowThenReturnRecords(s: State, memberId: int, bookId: int, borrowedAt: int, returnedAt: int)
    requires Valid(s)
    requires bookId in s.books && s.books[bookId].stock >= 1
    ensures
      var loan := BorrowRecord(s.nextRecordId, memberId, bookId, borrowedAt, None);
      var r := Return(Borrow(s, memberId, bookId, borrowedAt).0, memberId, bookId, returnedAt);
      r.0.records == match FindActive(s.records, memberId, bookId)
                     case None => s.records + [Close(loan, returnedAt)]
                     case Some(i) => s.records[i := Close(s.records[i], returnedAt)] + [loan]
  {
    var loan := BorrowRecord(s.nextRecordId, memberId, bookId, borrowedAt, None);
    var s1 := AfterBorrow(s, memberId, bookId, borrowedAt);
    assert Borrow(s, memberId, bookId, borrowedAt) == (s1, Borrowed);
    FindActiveAfterAppend(s.records, loan, memberId, bookId);
    assert FindActive(s1.records, memberId, bookId).Some? && bookId in s1.books;
    match FindActive(s.records, memberId, bookId)
    case None =>
      UpdateLast(s.records, loan, Close(loan, returnedAt));
    case Some(i) =>
      UpdateBeforeLast(s.records, loan, i, Close(s.records[i], returnedAt));
  }

  /** Appending an active loan of this member and book: the first active
      one is the earlier one if there was one, otherwise the appended one. */
  lemma FindActiveAfterAppend(records: seq<BorrowRecord>, loan: BorrowRecord, memberId: int, bookId: int)
    requires IsActiveLoan(loan, memberId, bookId)
    ensures FindActive(records + [loan], memberId, bookId) ==
      if FindActive(records, memberId, bookId).None? then Some(|records|) else FindActive(records, memberId, bookId)
  {
    var both := records + [loan];
    assert forall k :: 0 <= k < |records| ==> both[k] == records[k];
    assert IsActiveLoan(both[|records|], memberId, bookId);
    var found := FindActive(both, memberId, bookId);
    match FindActive(records, memberId, bookId)
    case None =>
      assert found.Some? && !(found.value < |records|);
    case Some(i) =>
      assert found.Some? && !(found.value < i) && !(found.value > i);
  }

  lemma UpdateLast(records: seq<BorrowRecord>, last: BorrowRecord, x: BorrowRecord)
    ensures (records + [last])[|records| := x] == records + [x]
  {
    assert forall k :: 0 <= k < |records| ==> (records + [last])[|records| := x][k] == records[k];
  }

  lemma UpdateBeforeLast(records: seq<BorrowRecord>, last: BorrowRecord, i: nat, x: BorrowRecord)
    requires i < |records|
    ensures (records + [last])[i := x] == records[i := x] + [last]
  {
  }
}
