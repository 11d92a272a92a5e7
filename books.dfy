/** Book lifecycle and catalogue queries: add_book, update_book_stock,
    delete_book, list_books, search_books. */
module Books {
  import opened Tables

  /** add_book: inserts a row under the next book_id (stock defaults to 1)
      and returns the inserted row with its id. */
  function AddBook(s: State, title: string, author: string, category: string, stock: int := 1)
    : (r: (State, seq<(int, Book)>))
    ensures |r.1| == 1 && r.1[0].1 == Book(title, author, category, stock)
    ensures r.0.books == s.books[r.1[0].0 := Book(title, author, category, stock)]
    ensures r.0.members == s.members && r.0.records == s.records
    ensures Valid(s) ==> r.1[0].0 !in s.books && Valid(r.0)
    ensures StockNonNegative(s.books) && stock >= 0 ==> StockNonNegative(r.0.books)
  {
    var id := s.nextBookId;
    (s.(books := s.books[id := Book(title, author, category, stock)], nextBookId := id + 1),
     [(id, Book(title, author, category, stock))])
  }

  /** update_book_stock: overwrites the stock (not an increment); returns the
      updated rows (none when the id is unknown). */
  function UpdateBookStock(s: State, bookId: int, stock: int): (r: (State, seq<(int, Book)>))
    ensures bookId in s.books ==>
      && r.0.books == s.books[bookId := s.books[bookId].(stock := stock)]
      && r.1 == [(bookId, r.0.books[bookId])]
    ensures bookId !in s.books ==> r.0 == s && r.1 == []
    ensures r.0.members == s.members && r.0.records == s.records
    ensures Valid(s) ==> Valid(r.0)
    ensures StockNonNegative(s.books) && stock >= 0 ==> StockNonNegative(r.0.books)
  {
    if bookId !in s.books then (s, [])
    else
      var updated := s.books[bookId].(stock := stock);
      (s.(books := s.books[bookId := updated]), [(bookId, updated)])
  }

  /** delete_book: refused while the book is on an active loan. */
  function DeleteBook(s: State, bookId: int): (r: (State, Deletion<(int, Book)>))
    ensures r.1.Blocked? <==> BookHasActiveLoan(s.records, bookId)
    ensures r.1.Blocked? ==> r.0 == s
    ensures r.1.Deleted? ==>
      && r.0.books.Keys == s.books.Keys - {bookId}
      && (forall id :: id in r.0.books ==> r.0.books[id] == s.books[id])
      && r.0.members == s.members && r.0.records == s.records
      && r.1.rows == (if bookId in s.books then [(bookId, s.books[bookId])] else [])
    ensures Valid(s) ==> Valid(r.0)
    ensures StockNonNegative(s.books) ==> StockNonNegative(r.0.books)
  {
    if BookHasActiveLoan(s.records, bookId) then (s, Blocked)
    else
      var rows := if bookId in s.books then [(bookId, s.books[bookId])] else [];
      (s.(books := s.books - {bookId}), Deleted(rows))
  }

  /** list_books: the whole catalogue, unfiltered. */
  function ListBooks(s: State): (r: map<int, Book>)
    ensures forall id :: id in r <==> id in s.books
    ensures forall id :: id in r ==> r[id] == s.books[id]
  {
    s.books
  }

  /** ASCII lower-casing; other characters are left as they are. */
  function LowerChar(c: char): char {
    if 'A' <= c <= 'Z' then (c as int + 32) as char else c
  }

  function Lower(s: string): (r: string)
    ensures |r| == |s|
  {
    seq(|s|, i requires 0 <= i < |s| => LowerChar(s[i]))
  }

  /** Does `pattern` occur in `text` as a contiguous piece? */
  predicate Contains(text: string, pattern: string)
    decreases |text|
  {
    |pattern| <= |text| && (text[..|pattern|] == pattern || Contains(text[1..], pattern))
  }

  /** The ilike '%keyword%' test of one column, ASCII case-insensitive. */
  predicate ColumnMatches(column: string, keyword: string) {
    Contains(Lower(column), Lower(keyword))
  }

  /** search_books' filter: keyword in the title, the author or the category. */
  predicate Matches(b: Book, keyword: string) {
    ColumnMatches(b.title, keyword) || ColumnMatches(b.author, keyword) || ColumnMatches(b.category, keyword)
  }

  /** search_books: the catalogue rows whose title, author or category
      contains the keyword, ignoring ASCII case. */
  function SearchBooks(s: State, keyword: string): (r: map<int, Book>)
    ensures forall id :: id in r <==> id in s.books && Matches(s.books[id], keyword)
    ensures forall id :: id in r ==> r[id] == s.books[id]
  {
    map id | id in s.books && Matches(s.books[id], keyword) :: s.books[id]
  }

  /** `pattern` occurs in `text` starting at offset `i`. */
  predicate OccursAt(text: string, pattern: string, i: int) {
    0 <= i <= |text| - |pattern| && text[i..i + |pattern|] == pattern
  }

  /** Contains is the substring relation: some offset of `text` starts a copy of `pattern`. */
  lemma {:induction false} ContainsIffOccurs(text: string, pattern: string)
    ensures Contains(text, pattern) <==> exists i :: OccursAt(text, pattern, i)
  {
    if |pattern| <= |text| {
      if text[..|pattern|] == pattern {
        assert OccursAt(text, pattern, 0);
      } else {
        ContainsIffOccurs(text[1..], pattern);
        if Contains(text[1..], pattern) {
          var i :| OccursAt(text[1..], pattern, i);
          assert text[i + 1..i + 1 + |pattern|] == text[1..][i..i + |pattern|];
          assert OccursAt(text, pattern, i + 1);
        }
        if exists i :: OccursAt(text, pattern, i) {
          var i :| OccursAt(text, pattern, i);
          assert i != 0;
          assert text[1..][i - 1..i - 1 + |pattern|] == text[i..i + |pattern|];
          assert OccursAt(text[1..], pattern, i - 1);
        }
      }
    }
  }

  /** The empty keyword matches every column, so searching for it lists the whole catalogue. */
  lemma EmptyKeywordListsAll(s: State)
    ensures SearchBooks(s, "") == ListBooks(s)
  {
    forall id | id in s.books ensures Matches(s.books[id], "") {
      assert Lower(s.books[id].title)[..0] == Lower("");
    }
  }

  lemma LowerIdempotent(s: string)
    ensures Lower(Lower(s)) == Lower(s)
  {
  }

  /** The search ignores the case of the keyword: lower-casing it first changes nothing. */
  lemma SearchIgnoresKeywordCase(s: State, keyword: string)
    ensures SearchBooks(s, Lower(keyword)) == SearchBooks(s, keyword)
  {
    LowerIdempotent(keyword);
  }

  /** A book is found exactly when the keyword, lower-cased, occurs somewhere
      in its lower-cased title, author or category. */
  lemma SearchIffOccurs(s: State, keyword: string, bookId: int)
    ensures bookId in SearchBooks(s, keyword) <==> (
      && bookId in s.books
      && (|| (exists i :: OccursAt(Lower(s.books[bookId].title), Lower(keyword), i))
          || (exists i :: OccursAt(Lower(s.books[bookId].author), Lower(keyword), i))
          || (exists i :: OccursAt(Lower(s.books[bookId].category), Lower(keyword), i))))
  {
    if bookId in s.books {
      var b := s.books[bookId];
      ContainsIffOccurs(Lower(b.title), Lower(keyword));
      ContainsIffOccurs(Lower(b.author), Lower(keyword));
      ContainsIffOccurs(Lower(b.category), Lower(keyword));
    }
  }
}
