/** Sequences of service calls over the store, and what every such sequence
    keeps true: the store invariant and, as long as no caller writes a
    negative stock itself, stock that never goes below zero. */
module Operations {
  import opened Tables
  import Members
  import Books
  import Loans

  /** One state-changing call of the member, book and loan services. */
  datatype Op =
    | AddMember(name: string, email: string)
    | UpdateMember(memberId: int, newName: Option<string>, newEmail: Option<string>)
    | DeleteMember(memberId: int)
    | AddBook(title: string, author: string, category: string, stock: int)
    | UpdateBookStock(bookId: int, newStock: int)
    | DeleteBook(bookId: int)
    | BorrowBook(memberId: int, bookId: int, now: int)
    | ReturnBook(memberId: int, bookId: int, now: int)

  /** The only calls that write a stock value chosen by the caller. */
  predicate WritesNoNegativeStock(op: Op) {
    match op
    case AddBook(_, _, _, stock) => stock >= 0
    case UpdateBookStock(_, stock) => stock >= 0
    case _ => true
  }

  function Apply(s: State, op: Op): (r: State)
    ensures Valid(s) ==> Valid(r)
    ensures StockNonNegative(s.books) && WritesNoNegativeStock(op) ==> StockNonNegative(r.books)
  {
    match op
    case AddMember(name, email) => Members.AddMember(s, name, email).0
    case UpdateMember(id, name, email) => Members.UpdateMember(s, id, name, email).0
    case DeleteMember(id) => Members.DeleteMember(s, id).0
    case AddBook(title, author, category, stock) => Books.AddBook(s, title, author, category, stock).0
    case UpdateBookStock(id, stock) => Books.UpdateBookStock(s, id, stock).0
    case DeleteBook(id) => Books.DeleteBook(s, id).0
    case BorrowBook(memberId, bookId, now) => Loans.Borrow(s, memberId, bookId, now).0
    case ReturnBook(memberId, bookId, now) => Loans.Return(s, memberId, bookId, now).0
  }

  function Run(s: State, ops: seq<Op>): State
    decreases |ops|
  {
    if ops == [] then s else Run(Apply(s, ops[0]), ops[1..])
  }

  /** After any sequence of calls the store invariant still holds, and no
      stock has gone below zero unless a caller wrote a negative one. */
  lemma {:induction false} RunKeepsInvariants(s: State, ops: seq<Op>)
    requires forall k :: 0 <= k < |ops| ==> WritesNoNegativeStock(ops[k])
    ensures Valid(s) ==> Valid(Run(s, ops))
    ensures StockNonNegative(s.books) ==> StockNonNegative(Run(s, ops).books)
    decreases |ops|
  {
    if ops != [] {
      RunKeepsInvariants(Apply(s, ops[0]), ops[1..]);
    }
  }

  /** Borrows and returns alone never take any stock below zero. */
  lemma LoansKeepStockNonNegative(s: State, ops: seq<Op>)
    requires StockNonNegative(s.books)
    requires forall k :: 0 <= k < |ops| ==> ops[k].BorrowBook? || ops[k].ReturnBook?
    ensures StockNonNegative(Run(s, ops).books)
  {
    RunKeepsInvariants(s, ops);
  }
}
