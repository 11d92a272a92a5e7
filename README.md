# Library circulation engine

A model of the library management system in `lms.py`: members, books and
borrow records kept in three tables, the member and book lifecycles, the
borrow and return transactions, keyword search, and the two reports (the most
borrowed books and the overdue loans).

The remote relational store becomes an in-memory value, `Tables.State`:

- a map `member_id -> Member`;
- a map `book_id -> Book`;
- the `borrow_records` table as a sequence in insertion order;
- three serial counters that hand out the ids.

Each service call is specified as a function from the store before the call
to the store after it and the rows or outcome the call returns. These
functions live in the modules `Members`, `Books`, `Loans` and `Reports`.

`Library.Library` is the store as an object whose fields the calls update in
place. Each of its methods is proved to produce exactly the state and result
of its specifying function, and to keep the store invariant `Tables.Valid`:

- serials ahead of the keys they handed out;
- record ids unique;
- every active loan referring to an existing book.

`top_borrowed_books` is a method with the source's two loops: counting into a
dictionary, then attaching book rows. The read-only queries (`list_books`,
`search_books`, `get_member`, `overdue_members`) are functions.

Time is an integer number of seconds, passed in as `now`. A day is 86400
seconds.

## Model

| member | source | states |
|---|---|---|
| Members.AddMember | lms.py:15-18 | The new member is stored under an id no existing member has, and the call returns exactly that one inserted row with its id. Books and records are untouched; the store invariant is kept. |
| Members.UpdateMember | lms.py:20-26 | Only the fields passed non-empty change; every other member and every other table stays as it was; with neither field given the store is unchanged; an unknown id changes nothing and returns no rows. |
| Members.DeleteMember | lms.py:28-34 | Refused exactly when the member has an active loan, and then nothing changes; otherwise exactly that member's row is removed and returned, and nothing else changes. |
| Members.LoanPositions | lms.py:39 | The positions of exactly the member's records, active or returned, in increasing order. |
| Members.LoansOf | lms.py:39 | One (book, borrow date, return date) entry per record of the member, active or returned, in record order, and nothing else. |
| Members.GetMember | lms.py:36-40 | The member row is returned exactly when the id exists, together with the member's whole loan history. |
| Books.AddBook | lms.py:43-51 | The new book is stored under a fresh id with the given stock (1 by default), and the call returns exactly that one inserted row with its id. Members and records are untouched. The invariant and non-negative stock are kept when the given stock is not negative. |
| Books.UpdateBookStock | lms.py:53-56 | Overwrites the stock of an existing book and nothing else, returning the updated row; an unknown id changes nothing. |
| Books.DeleteBook | lms.py:58-64 | Refused exactly when the book is on an active loan, and then nothing changes; otherwise exactly that book's row is removed and returned. |
| Books.ListBooks | lms.py:66-69 | Every stored book is listed with its row, and nothing else. |
| Books.SearchBooks | lms.py:71-76 | The result is the sub-catalogue of books whose title, author or category contains the keyword, with the rows unchanged. |
| Books.ContainsIffOccurs | lms.py:73-75 | The `%keyword%` pattern test agrees with the substring relation: some offset of the column starts a copy of the keyword. |
| Books.SearchIffOccurs | lms.py:71-76 | A book is found exactly when the lower-cased keyword occurs in its lower-cased title, author or category. |
| Books.EmptyKeywordListsAll | lms.py:66-76 | Searching for the empty keyword returns the whole catalogue, as list_books does. |
| Books.SearchIgnoresKeywordCase | lms.py:73-75 | The search is case-insensitive in the keyword: lower-casing it first gives the same rows. |
| Loans.FindActive | lms.py:95-98 | Finds no record exactly when no record of this member and book is active; otherwise gives the first active one. |
| Loans.CloseById | lms.py:100 | Every row carrying the record id gets return date `now` and is no longer active. Its ids and borrow date stay. Every other row is unchanged. |
| Loans.CloseByIdClosesOne | lms.py:100 | With unique record ids, setting return_date by record_id closes that one record and leaves every other record as it was. |
| Loans.Borrow | lms.py:79-91 | Not-found exactly when the book is absent, and not-available exactly when its stock is below 1; both change nothing. A successful borrow lowers only that book's stock by one, never below zero, and appends one active record of this member and book dated `now`. Members are untouched. The invariant and non-negative stock are kept. |
| Loans.Return | lms.py:93-105 | No-active-record exactly when the member holds no active loan of the book, and then nothing changes. Returned exactly when there is one and the book row exists. Otherwise the first active loan is closed with return date `now` and nothing else in the records changes. That book's stock goes up by one. On a valid store the failure branch cannot happen. The invariant and non-negative stock are kept. |
| Loans.BorrowThenReturn | lms.py:79-105 | Borrowing and then returning a book restores every book's stock and leaves members as they were. If the member held no earlier loan of the book, one already-closed record is appended. Otherwise the earlier loan is closed and the new one stays active. |
| Reports.FirstSeen | lms.py:111-114 | The counting dictionary's keys in insertion order: without repetition, and holding exactly the books that have a record. |
| Reports.CountsOf | lms.py:111-114 | The counting dictionary has a key for exactly the books with a record, each mapped to its number of records. |
| Reports.FirstLoan | lms.py:112-114 | The position of a book's first record: it holds that book, no earlier record does, and it is in range exactly when the book has a record. |
| Reports.FirstSeenFollowsFirstLoans | lms.py:111-114 | For two borrowed books, one comes before the other among the dictionary's keys exactly when its first record comes first. |
| Reports.FirstBelow | lms.py:115 | The insertion point of the descending sort: every id before it has a count at least the inserted one's, and the id at it has a lower count. |
| Reports.Insert | lms.py:115 | One step of the descending sort: the ranking gains exactly the new id and stays non-increasing. |
| Reports.SortByCount | lms.py:115 | `sorted(..., reverse=True)` by count gives a permutation of the keys with non-increasing counts. |
| Reports.SortByCountIsStable | lms.py:115 | Ties stay in the order in which the keys entered the dictionary. |
| Reports.Slice | lms.py:115 | Python's `[:limit]`: a prefix of min(limit, n) entries, or of n + limit entries (at least none) for a negative limit. |
| Reports.TopIds | lms.py:111-115 | Every reported id is a book with at least one record. |
| Reports.TopIdsAreBorrowedBooks | lms.py:111-115 | The reported ids are distinct books with at least one record, and there are at most `limit` of them. |
| Reports.TopIdsRanked | lms.py:115 | Borrow counts never go up along the report. |
| Reports.TopIdsDominate | lms.py:115 | No book left out of the report has a count above that of any reported book. |
| Reports.TopIdsDominateAll | lms.py:115 | The same for every omitted book and every reported position at once. |
| Reports.TopIdsTiesInFirstSeenOrder | lms.py:111-115 | Books with equal counts are reported in the order in which they entered the counting dictionary. |
| Reports.TopIdsTiesInFirstLoanOrder | lms.py:111-115 | Books with equal counts are reported in the order of their first record. |
| Reports.ShortReportIsComplete | lms.py:115 | A report shorter than `limit` contains every borrowed book. |
| Reports.SingleRecordReport | lms.py:108-115 | With a single record and a positive limit, the report is that record's book. |
| Reports.TopTwoOfThree | lms.py:108-115 | For three books first borrowed as x, y, z, with counts x > z > y, the report of two is x then z. |
| Reports.TopTwoExample | lms.py:108-115 | Any six loans of books 1, 2, 3, 1, 3, 1 (book 1 three times, book 3 twice, book 2 once): the report of two lists book 1, then book 3. |
| Reports.CountBorrows | lms.py:110-114 | The counting loop builds exactly the number of records per book, with its keys in first-seen order. |
| Reports.AttachRows | lms.py:116-120 | Each ranked id gets its current book row and its count, in order. The first id without a book row ends the report with an error. |
| Reports.TopBorrowedBooks | lms.py:108-121 | The report succeeds exactly when every ranked id still has a book row. On success it has at most `limit` entries, each with the book's row and its exact record count. Counts do not increase along the report, and no omitted book has more records than any reported one. Otherwise it names a ranked id with no book row. |
| Reports.OverduePositions | lms.py:126 | The positions of exactly the active loans borrowed before the cutoff, in increasing order. |
| Reports.OverdueSince | lms.py:126 | One (member, book, borrow date) row per active loan borrowed before the cutoff, in record order, and nothing else. |
| Reports.OverdueMembers | lms.py:123-127 | A row is listed exactly when it is the (member, book, borrow date) of an active loan borrowed more than `days` days (14 by default) before `now`. |
| Reports.ZeroDaysListsActiveLoans | lms.py:123-127 | With a zero threshold, every active loan borrowed before `now` is listed. |
| Reports.RecentLoansNotOverdue | lms.py:126 | No loan borrowed at or after the cutoff is listed. |
| Reports.LongerThresholdFewerRows | lms.py:123-126 | A longer threshold lists no loan that a shorter one leaves out. |
| Operations.Apply | lms.py:15-105 | Every state-changing call keeps the store invariant, and keeps stock non-negative unless the caller itself writes a negative stock. |
| Operations.RunKeepsInvariants | lms.py:15-105 | The same holds after any sequence of such calls. |
| Operations.LoansKeepStockNonNegative | lms.py:79-105 | Borrows and returns alone never take any stock below zero. |
| Library.Library.AddMember | lms.py:15-18 | In place: exactly the state and inserted row of Members.AddMember; the invariant is kept. |
| Library.Library.UpdateMember | lms.py:20-26 | In place: exactly the state and rows of Members.UpdateMember; the invariant is kept. |
| Library.Library.DeleteMember | lms.py:28-34 | In place: exactly the state and result of Members.DeleteMember; the invariant is kept. |
| Library.Library.AddBook | lms.py:43-51 | In place: exactly the state and inserted row of Books.AddBook; the invariant is kept. |
| Library.Library.UpdateBookStock | lms.py:53-56 | In place: exactly the state and rows of Books.UpdateBookStock; the invariant is kept. |
| Library.Library.DeleteBook | lms.py:58-64 | In place: exactly the state and result of Books.DeleteBook; the invariant is kept. |
| Library.Library.BorrowBook | lms.py:79-91 | In place: exactly the state and outcome of Loans.Borrow; the invariant is kept. |
| Library.Library.ReturnBook | lms.py:93-105 | In place: exactly the state and outcome of Loans.Return. The failure outcome never occurs, and the invariant is kept. |
| Library.SingleCopyScenario | lms.py:79-105 | A single-copy book lent to Ann cannot be lent to Bob until Ann returns it; after that it can. |
| Library.ReturnedThenDeleted | lms.py:58-64 | A book borrowed and returned can then be deleted: its row is gone, and its closed record stays. |
| Library.DeletedBookReport | lms.py:116-118 | On that store, the report fails on the deleted book, because its record still counts but its row is missing. |

## Left out

- The remote store client, environment loading and connection set-up: the tables are an in-memory value.
- The interactive menu (`main`): it is user interface only.
- The `except Exception` branches of borrow_book and return_book. In memory, no storage call can fail. The source is not atomic: a failure between its two writes would leave one done and not the other. The model makes no atomicity claim either way.
- return_book's `.data[0]` on a missing book row is caught by its `except`. It is modelled as the `ReturnFailed` outcome, with the record already closed. It is proved unreachable on a valid store.
- top_borrowed_books' `.data[0]` on a missing book row is not caught. It is modelled as the `MissingBook` result, not as a skipped row.
- `datetime.now()`, `timedelta` and the ISO 8601 timestamp strings: time is an integer number of seconds passed in as `now`, and `days` is a whole number of days.
- The store's default `borrow_date`: the borrow is dated with the `now` passed in.
- The exact wording of the returned messages: they are the `Loans.Outcome` cases and the `Tables.Deletion` result.
- Books.SearchBooks: case folding is ASCII only.
- Books.SearchBooks: `%` and `_` in the keyword are taken literally rather than as wildcards.
- Books.SearchBooks: a keyword containing `,` or `.` is matched as text rather than as part of the `or` filter syntax.
- Store-side constraints: borrow_book never checks that the member exists, so the model does not check it either. Any foreign keys or cascades the store itself enforces are not modelled.
- The store does not stop one member from borrowing the same book twice while the first loan is active. The model allows it too, and Loans.Return closes the earliest such loan.
- Rows the store returns unordered are taken in insertion order (records by record id). This applies to the first active match in return_book and the counting order in top_borrowed_books.
- Members.UpdateMember: an update with no field given is modelled as leaving the row unchanged and returning it. What the store does with an empty update payload is not modelled.
- Reports.OverdueMembers: fractional `days` are not modelled, because `days` is an integer.
