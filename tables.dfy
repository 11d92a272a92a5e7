/** The three tables of the circulation store (members, books, borrow_records),
    held in memory instead of in the remote relational store. */
module Tables {

  datatype Option<T> = None | Some(value: T)

  /** A row of `members`; its key, member_id, is the key of State.members. */
  datatype Member = Member(name: string, email: string)

  /** A row of `books`; its key, book_id, is the key of State.books.
      Stock is a plain integer: nothing in the store keeps it non-negative. */
  datatype Book = Book(title: string, author: string, category: string, stock: int)

  /** A row of `borrow_records`. Timestamps are integer seconds;
      a loan is active while returnDate is None. */
  datatype BorrowRecord = BorrowRecord(
    recordId: int,
    memberId: int,
    bookId: int,
    borrowDate: int,
    returnDate: Option<int>)
  {
    predicate IsActive() { returnDate.None? }
  }

  /** The whole store. The next* counters stand for the serial sequences the
      store uses to hand out member_id, book_id and record_id. */
  datatype State = State(
    members: map<int, Member>,
    books: map<int, Book>,
    records: seq<BorrowRecord>,
    nextMemberId: int,
    nextBookId: int,
    nextRecordId: int)

  /** Outcome of a guarded delete: refused, or the rows the store removed. */
  datatype Deletion<T> = Blocked | Deleted(rows: seq<T>)

  /** A freshly created store: empty tables, every serial at 1. */
  const Empty: State := State(map[], map[], [], 1, 1, 1)

  predicate UniqueRecordIds(records: seq<BorrowRecord>) {
    forall i, j :: 0 <= i < j < |records| ==> records[i].recordId != records[j].recordId
  }

  /** What the operations keep true of the store: the serials are ahead of
      every key they handed out, record ids are unique, and every active loan
      refers to a book that is still in `books`. */
  predicate Valid(s: State) {
    && (forall id :: id in s.members ==> id < s.nextMemberId)
    && (forall id :: id in s.books ==> id < s.nextBookId)
    && (forall i :: 0 <= i < |s.records| ==> s.records[i].recordId < s.nextRecordId)
    && UniqueRecordIds(s.records)
    && (forall i :: 0 <= i < |s.records| && s.records[i].IsActive() ==> s.records[i].bookId in s.books)
  }

  predicate StockNonNegative(books: map<int, Book>) {
    forall id :: id in books ==> books[id].stock >= 0
  }

  /** The guard query of delete_member: an active record for this member. */
  predicate MemberHasActiveLoan(records: seq<BorrowRecord>, memberId: int) {
    exists i :: 0 <= i < |records| && records[i].memberId == memberId && records[i].IsActive()
  }

  /** The guard query of delete_book: an active record for this book. */
  predicate BookHasActiveLoan(records: seq<BorrowRecord>, bookId: int) {
    exists i :: 0 <= i < |records| && records[i].bookId == bookId && records[i].IsActive()
  }
}
