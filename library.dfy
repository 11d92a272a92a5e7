/** The circulation engine as an object whose tables are updated in place.
    Each state-changing method is tied to the function of the same service
    that specifies it, and keeps the store invariant. */
module Library {
  import opened Tables
  import Members
  import Books
  import Loans
  import Reports

  class Library {
    var members: map<int, Member>
    var books: map<int, Book>
    var records: seq<BorrowRecord>
    var nextMemberId: int
    var nextBookId: int
    var nextRecordId: int

    /** The tables as a value. */
    function State(): State
      reads this
    {
      Tables.State(members, books, records, nextMemberId, nextBookId, nextRecordId)
    }

    ghost predicate Valid()
      reads this
    {
      Tables.Valid(State())
    }

    constructor ()
      ensures Valid() && State() == Empty
    {
      members, books, records := map[], map[], [];
      nextMemberId, nextBookId, nextRecordId := 1, 1, 1;
    }

    method AddMember(name: string, email: string) returns (inserted: seq<(int, Member)>)
      requires Valid()
      modifies this
      ensures Valid()
      ensures (State(), inserted) == Members.AddMember(old(State()), name, email)
    {
      var memberId := nextMemberId;
      members := members[memberId := Member(name, email)];
      nextMemberId := nextMemberId + 1;
      inserted := [(memberId, Member(name, email))];
    }

    method UpdateMember(memberId: int, name: Option<string> := None, email: Option<string> := None)
      returns (updated: seq<(int, Member)>)
      requires Valid()
      modifies this
      ensures Valid()
      ensures (State(), updated) == Members.UpdateMember(old(State()), memberId, name, email)
    {
      if memberId !in members {
        return [];
      }
      var row := members[memberId];
      if Members.Given(name) {
        row := row.(name := name.value);
      }
      if Members.Given(email) {
        row := row.(email := email.value);
      }
      members := members[memberId := row];
      updated := [(memberId, row)];
    }

    method DeleteMember(memberId: int) returns (result: Deletion<(int, Member)>)
      requires Valid()
      modifies this
      ensures Valid()
      ensures (State(), result) == Members.DeleteMember(old(State()), memberId)
    {
      if MemberHasActiveLoan(records, memberId) {
        return Blocked;
      }
      var rows := if memberId in members then [(memberId, members[memberId])] else [];
      members := members - {memberId};
      result := Deleted(rows);
    }

    method AddBook(title: string, author: string, category: string, stock: int := 1)
      returns (inserted: seq<(int, Book)>)
      requires Valid()
      modifies this
      ensures Valid()
      ensures (State(), inserted) == Books.AddBook(old(State()), title, author, category, stock)
    {
      var bookId := nextBookId;
      books := books[bookId := Book(title, author, category, stock)];
      nextBookId := nextBookId + 1;
      inserted := [(bookId, Book(title, author, category, stock))];
    }

    method UpdateBookStock(bookId: int, stock: int) returns (updated: seq<(int, Book)>)
      requires Valid()
      modifies this
      ensures Valid()
      ensures (State(), updated) == Books.UpdateBookStock(old(State()), bookId, stock)
    {
      if bookId !in books {
        return [];
      }
      var row := books[bookId].(stock := stock);
      books := books[bookId := row];
      updated := [(bookId, row)];
    }

    method DeleteBook(bookId: int) returns (result: Deletion<(int, Book)>)
      requires Valid()
      modifies this
      ensures Valid()
      ensures (State(), result) == Books.DeleteBook(old(State()), bookId)
    {
      if BookHasActiveLoan(records, bookId) {
        return Blocked;
      }
      var rows := if bookId in books then [(bookId, books[bookId])] else [];
      books := books - {bookId};
      result := Deleted(rows);
    }

    method BorrowBook(memberId: int, bookId: int, now: int) returns (outcome: Loans.Outcome)
      requires Valid()
      modifies this
      ensures Valid()
      ensures (State(), outcome) == Loans.Borrow(old(State()), memberId, bookId, now)
    {
      if bookId !in books {
        return Loans.BookNotFound;
      }
      var book := books[bookId];
      if book.stock < 1 {
        return Loans.NotAvailable;
      }
      books := books[bookId := book.(stock := book.stock - 1)];
      records := records + [BorrowRecord(nextRecordId, memberId, bookId, now, None)];
      nextRecordId := nextRecordId + 1;
      outcome := Loans.Borrowed;
    }

    method ReturnBook(memberId: int, bookId: int, now: int) returns (outcome: Loans.Outcome)
      requires Valid()
      modifies this
      ensures Valid()
      ensures (State(), outcome) == Loans.Return(old(State()), memberId, bookId, now)
      ensures outcome != Loans.ReturnFailed
    {
      var found := Loans.FindActive(records, memberId, bookId);
      if found.None? {
        return Loans.NoActiveRecord;
      }
      var i := found.value;
      Loans.CloseByIdClosesOne(records, i, now);
      records := records[i := Loans.Close(records[i], now)];
      // The closed record was active, so Valid() guarantees the book row exists.
      var book := books[bookId];
      books := books[bookId := book.(stock := book.stock + 1)];
      outcome := Loans.Returned;
    }
  }

  /** The circulation scenario of one single-copy book lent to two members in turn. */
  method SingleCopyScenario() returns (first: Loans.Outcome, second: Loans.Outcome,
                                       back: Loans.Outcome, third: Loans.Outcome)
    ensures first == Loans.Borrowed
    ensures second == Loans.NotAvailable
    ensures back == Loans.Returned
    ensures third == Loans.Borrowed
  {
    var lib := new Library();
    var annRows := lib.AddMember("Ann", "ann@example.org");
    var bobRows := lib.AddMember("Bob", "bob@example.org");
    var duneRows := lib.AddBook("Dune", "Herbert", "SciFi", 1);
    var ann, bob, dune := annRows[0].0, bobRows[0].0, duneRows[0].0;
    first := lib.BorrowBook(ann, dune, 100);
    second := lib.BorrowBook(bob, dune, 200);
    back := lib.ReturnBook(ann, dune, 300);
    third := lib.BorrowBook(bob, dune, 400);
  }

  /** Deleting a book is refused only while it is on loan, so a book whose
      loans were all returned can be deleted while its records stay. */
  method ReturnedThenDeleted() returns (store: State)
    ensures store.records == [BorrowRecord(1, 1, 1, 100, Some(200))]
    ensures store.books == map[]
  {
    var lib := new Library();
    var annRows := lib.AddMember("Ann", "ann@example.org");
    var duneRows := lib.AddBook("Dune", "Herbert", "SciFi", 1);
    var ann, dune := annRows[0].0, duneRows[0].0;
    var lent := lib.BorrowBook(ann, dune, 100);
    assert lib.records == [BorrowRecord(1, 1, 1, 100, None)];
    assert Loans.FindActive(lib.records, ann, dune) == Some(0);
    var back := lib.ReturnBook(ann, dune, 200);
    assert back == Loans.Returned;
    assert lib.records == [BorrowRecord(1, 1, 1, 100, Some(200))];
    var deleted := lib.DeleteBook(dune);
    store := lib.State();
  }

  /** The report over that store reaches a ranked id without a book row. */
  method DeletedBookReport() returns (report: Reports.Result<seq<Reports.TopEntry>>)
    ensures report == Reports.MissingBook(1)
  {
    var store := ReturnedThenDeleted();
    Reports.SingleRecordReport(store.records[0], 5);
    report := Reports.TopBorrowedBooks(store);
  }
}
