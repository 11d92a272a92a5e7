/** The two reports: top_borrowed_books and overdue_members. */
module Reports {
  import opened Tables

  const SecondsPerDay: int := 86400

  /** A book row with its borrow_count attached, as top_borrowed_books returns it. */
  datatype TopEntry = TopEntry(bookId: int, book: Book, borrowCount: nat)

  /** top_borrowed_books fails (an uncaught IndexError) when a ranked book_id
      has no row in `books` any more. */
  datatype Result<T> = Ok(value: T) | MissingBook(bookId: int)

  /** One row of overdue_members. */
  datatype OverdueRow = OverdueRow(memberId: int, bookId: int, borrowDate: int)

  // ---------------------------------------------------------------- counting

  /** Number of records, active or returned, that lend this book. */
  function Count(records: seq<BorrowRecord>, bookId: int): nat {
    if records == [] then 0
    else
      Count(records[..|records| - 1], bookId) + if records[|records| - 1].bookId == bookId then 1 else 0
  }

  predicate Distinct(ids: seq<int>) {
    forall i, j :: 0 <= i < j < |ids| ==> ids[i] != ids[j]
  }

  /** The book ids of the records in order of first appearance: the key order
      of the counting dictionary. */
  function FirstSeen(records: seq<BorrowRecord>): (r: seq<int>)
    ensures forall b :: b in r <==> Count(records, b) > 0
    ensures Distinct(r)
  {
    if records == [] then []
    else
      var earlier := FirstSeen(records[..|records| - 1]);
      var b := records[|records| - 1].bookId;
      if b in earlier then earlier else earlier + [b]
  }

  /** Position of the first record of `bookId`; |records| when it has none. */
  function FirstLoan(records: seq<BorrowRecord>, bookId: int): (k: nat)
    ensures k <= |records|
    ensures k < |records| <==> Count(records, bookId) > 0
    ensures k < |records| ==> records[k].bookId == bookId
    ensures forall i :: 0 <= i < k ==> records[i].bookId != bookId
  {
    if records == [] then 0
    else
      var n := |records| - 1;
      var e := FirstLoan(records[..n], bookId);
      assert forall i :: 0 <= i < n ==> records[..n][i] == records[i];
      if e < n then e else if records[n].bookId == bookId then n else n + 1
  }

  /** The counting dictionary: book_id to its number of records. */
  function CountsOf(records: seq<BorrowRecord>): (r: map<int, nat>)
    ensures forall b :: b in r <==> Count(records, b) > 0
    ensures forall b :: b in r ==> r[b] == Count(records, b)
  {
    map b | b in FirstSeen(records) :: Count(records, b)
  }

  // ----------------------------------------------------------------- ranking

  predicate KeysIn(ids: seq<int>, counts: map<int, nat>) {
    forall k :: 0 <= k < |ids| ==> ids[k] in counts
  }

  /** Counts read along `ids` never go up. */
  predicate NonIncreasing(ids: seq<int>, counts: map<int, nat>)
    requires KeysIn(ids, counts)
  {
    forall i, j :: 0 <= i < j < |ids| ==> counts[ids[j]] <= counts[ids[i]]
  }

  /** Position of the first id in `ranked` whose count is below `c`. */
  function FirstBelow(ranked: seq<int>, c: nat, counts: map<int, nat>): (p: nat)
    requires KeysIn(ranked, counts)
    ensures p <= |ranked|
    ensures forall k :: 0 <= k < p ==> counts[ranked[k]] >= c
    ensures p < |ranked| ==> counts[ranked[p]] < c
  {
    if ranked == [] || counts[ranked[0]] < c then 0
    else 1 + FirstBelow(ranked[1..], c, counts)
  }

  /** Inserting at FirstBelow keeps a ranking ranked. */
  lemma InsertKeepsRanking(x: int, ranked: seq<int>, counts: map<int, nat>)
    requires x in counts && KeysIn(ranked, counts)
    ensures
      var p := FirstBelow(ranked, counts[x], counts);
      var r := ranked[..p] + [x] + ranked[p..];
      && KeysIn(r, counts)
      && (NonIncreasing(ranked, counts) ==> NonIncreasing(r, counts))
  {
    var p := FirstBelow(ranked, counts[x], counts);
    var r := ranked[..p] + [x] + ranked[p..];
    SpliceAt(ranked, x, p);
    if NonIncreasing(ranked, counts) {
      forall i, j | 0 <= i < j < |r| ensures counts[r[j]] <= counts[r[i]] {
        if j > p && i >= p {
          assert counts[r[j]] <= counts[ranked[p]];
        }
      }
    }
  }

  /** Places `x` after every id whose count is at least its own, so that equal
      counts keep the order in which they arrived. */
  function Insert(x: int, ranked: seq<int>, counts: map<int, nat>): (r: seq<int>)
    requires x in counts && KeysIn(ranked, counts)
    ensures KeysIn(r, counts)
    ensures multiset(r) == multiset(ranked) + multiset{x}
    ensures NonIncreasing(ranked, counts) ==> NonIncreasing(r, counts)
  {
    var p := FirstBelow(ranked, counts[x], counts);
    InsertKeepsRanking(x, ranked, counts);
    assert ranked == ranked[..p] + ranked[p..];
    ranked[..p] + [x] + ranked[p..]
  }

  /** sorted(ids, key=counts, reverse=True): a stable sort by descending count. */
  function SortByCount(ids: seq<int>, counts: map<int, nat>): (r: seq<int>)
    requires KeysIn(ids, counts)
    ensures KeysIn(r, counts)
    ensures multiset(r) == multiset(ids)
    ensures NonIncreasing(r, counts)
  {
    if ids == [] then []
    else
      assert ids == ids[..|ids| - 1] + [ids[|ids| - 1]];
      Insert(ids[|ids| - 1], SortByCount(ids[..|ids| - 1], counts), counts)
  }

  /** Position of the first `b` in `ids`; |ids| when there is none. */
  function IndexOf(ids: seq<int>, b: int): (k: nat)
    ensures k <= |ids|
    ensures k < |ids| <==> b in ids
    ensures k < |ids| ==> ids[k] == b
    ensures forall i :: 0 <= i < k ==> ids[i] != b
  {
    if ids == [] || ids[0] == b then 0 else 1 + IndexOf(ids[1..], b)
  }

  lemma {:induction false} IndexOfAppend(ids: seq<int>, x: int, b: int)
    requires b in ids
    ensures IndexOf(ids + [x], b) == IndexOf(ids, b)
  {
    var k := IndexOf(ids, b);
    assert (ids + [x])[k] == b;
    assert forall i :: 0 <= i < k ==> (ids + [x])[i] != b;
    var k' := IndexOf(ids + [x], b);
    assert !(k' < k) && !(k < k');
  }

  /** Ids of equal count appear in the order they have in `ids`. */
  predicate TiesKeepOrder(r: seq<int>, ids: seq<int>, counts: map<int, nat>)
    requires KeysIn(r, counts)
  {
    forall i, j :: 0 <= i < j < |r| && counts[r[i]] == counts[r[j]] ==> IndexOf(ids, r[i]) < IndexOf(ids, r[j])
  }

  /** Where each element of `s[..p] + [x] + s[p..]` comes from. */
  lemma SpliceAt(s: seq<int>, x: int, p: nat)
    requires p <= |s|
    ensures var r := s[..p] + [x] + s[p..];
      && |r| == |s| + 1
      && (forall k :: 0 <= k < p ==> r[k] == s[k])
      && r[p] == x
      && (forall k :: p < k < |r| ==> r[k] == s[k - 1])
  {
  }

  /** Splicing `x` in front of every id of lower count keeps ties in order,
      when `x` comes after every id already ranked. */
  lemma SpliceKeepsTies(x: int, prev: seq<int>, p: nat, ids: seq<int>, counts: map<int, nat>)
    requires x in counts && KeysIn(prev, counts) && p <= |prev|
    requires TiesKeepOrder(prev, ids, counts)
    requires forall k :: p <= k < |prev| ==> counts[prev[k]] < counts[x]
    requires forall y :: y in prev ==> IndexOf(ids, y) < IndexOf(ids, x)
    ensures KeysIn(prev[..p] + [x] + prev[p..], counts)
    ensures TiesKeepOrder(prev[..p] + [x] + prev[p..], ids, counts)
  {
    var r := prev[..p] + [x] + prev[p..];
    SpliceAt(prev, x, p);
    forall i, j | 0 <= i < j < |r| && counts[r[i]] == counts[r[j]]
      ensures IndexOf(ids, r[i]) < IndexOf(ids, r[j])
    {
      if j == p {
        assert prev[i] in prev;
      } else if i == p {
        assert false;
      }
    }
  }

  /** In a ranking, every id from the insertion point on has a lower count. */
  lemma BelowFromFirstBelow(ranked: seq<int>, c: nat, counts: map<int, nat>)
    requires KeysIn(ranked, counts) && NonIncreasing(ranked, counts)
    ensures forall k :: FirstBelow(ranked, c, counts) <= k < |ranked| ==> counts[ranked[k]] < c
  {
    var p := FirstBelow(ranked, c, counts);
    forall k | p < k < |ranked| ensures counts[ranked[k]] <= counts[ranked[p]] { }
  }

  /** Inserting an id that comes after every id already ranked keeps ties in order. */
  lemma InsertKeepsTies(x: int, prev: seq<int>, ids: seq<int>, counts: map<int, nat>)
    requires x in counts && KeysIn(prev, counts) && NonIncreasing(prev, counts)
    requires TiesKeepOrder(prev, ids, counts)
    requires forall y :: y in prev ==> IndexOf(ids, y) < IndexOf(ids, x)
    ensures TiesKeepOrder(Insert(x, prev, counts), ids, counts)
  {
    var p := FirstBelow(prev, counts[x], counts);
    BelowFromFirstBelow(prev, counts[x], counts);
    SpliceKeepsTies(x, prev, p, ids, counts);
  }

  /** The ranking is stable: among ids of equal count, the one seen first comes first. */
  lemma {:induction false} SortByCountIsStable(ids: seq<int>, counts: map<int, nat>)
    requires KeysIn(ids, counts) && Distinct(ids)
    ensures TiesKeepOrder(SortByCount(ids, counts), ids, counts)
    decreases |ids|
  {
    if ids != [] {
      var pre, x := ids[..|ids| - 1], ids[|ids| - 1];
      assert ids == pre + [x];
      var prev := SortByCount(pre, counts);
      SortByCountIsStable(pre, counts);
      assert x !in pre;
      forall y | y in prev ensures IndexOf(ids, y) == IndexOf(pre, y) < IndexOf(ids, x) {
        assert y in multiset(pre);
        IndexOfAppend(pre, x, y);
      }
      assert TiesKeepOrder(prev, ids, counts) by {
        forall i, j | 0 <= i < j < |prev| && counts[prev[i]] == counts[prev[j]]
          ensures IndexOf(ids, prev[i]) < IndexOf(ids, prev[j])
        {
          assert prev[i] in prev && prev[j] in prev;
        }
      }
      InsertKeepsTies(x, prev, ids, counts);
    }
  }

  function Min(a: int, b: int): int { if a <= b then a else b }

  function Max(a: int, b: int): int { if a <= b then b else a }

  /** Python's s[:limit]; a negative limit drops that many entries from the end. */
  function Slice<T>(s: seq<T>, limit: int): (r: seq<T>)
    ensures limit >= 0 ==> |r| == Min(limit, |s|)
    ensures limit < 0 ==> |r| == Max(0, |s| + limit)
    ensures r == s[..|r|]
  {
    if limit >= 0 then (if limit <= |s| then s[..limit] else s)
    else if |s| + limit >= 0 then s[..|s| + limit]
    else []
  }

  /** The ids top_borrowed_books reports, best first. */
  function TopIds(records: seq<BorrowRecord>, limit: int): (r: seq<int>)
    ensures forall b :: b in r ==> Count(records, b) > 0
  {
    var ranked := SortByCount(FirstSeen(records), CountsOf(records));
    var top := Slice(ranked, limit);
    assert forall k :: 0 <= k < |top| ==> top[k] == ranked[k] && ranked[k] in multiset(ranked);
    top
  }

  function IdsOf(entries: seq<TopEntry>): (r: seq<int>)
    ensures |r| == |entries|
  {
    seq(|entries|, k requires 0 <= k < |entries| => entries[k].bookId)
  }

  // ------------------------------------------------- what the ranking promises

  lemma {:induction false} CountsOfKeys(records: seq<BorrowRecord>)
    ensures KeysIn(FirstSeen(records), CountsOf(records))
    ensures forall b :: b in CountsOf(records) ==> CountsOf(records)[b] == Count(records, b)
  {
  }

  /** The reported ids are distinct books that each have at least one record,
      and there are at most `limit` of them. */
  lemma TopIdsAreBorrowedBooks(records: seq<BorrowRecord>, limit: int)
    ensures Distinct(TopIds(records, limit))
    ensures forall b :: b in TopIds(records, limit) ==> Count(records, b) > 0
    ensures limit >= 0 ==> |TopIds(records, limit)| <= limit
  {
    var firstSeen := FirstSeen(records);
    var ranked := SortByCount(firstSeen, CountsOf(records));
    var top := TopIds(records, limit);
    forall b | b in top ensures Count(records, b) > 0 {
      assert b in ranked;
      assert b in multiset(firstSeen);
    }
    forall i, j | 0 <= i < j < |top| ensures top[i] != top[j] {
      DistinctPermutation(firstSeen, ranked, i, j);
    }
  }

  /** A sequence without repetitions holds each value at most once. */
  lemma {:induction false} DistinctOccursOnce(a: seq<int>, x: int)
    requires Distinct(a)
    ensures multiset(a)[x] <= 1
  {
    if a != [] {
      assert a == [a[0]] + a[1..];
      DistinctOccursOnce(a[1..], x);
      if a[0] == x {
        assert x !in a[1..];
      }
    }
  }

  /** A permutation of a sequence without repetitions has none either. */
  lemma DistinctPermutation(a: seq<int>, b: seq<int>, i: int, j: int)
    requires Distinct(a) && multiset(a) == multiset(b)
    requires 0 <= i < j < |b|
    ensures b[i] != b[j]
  {
    if b[i] == b[j] {
      assert b == b[..i] + [b[i]] + b[i + 1..j] + [b[j]] + b[j + 1..];
      assert multiset(b)[b[i]] >= 2;
      DistinctOccursOnce(a, b[i]);
      assert false;
    }
  }

  /** The reported counts never go up along the report. */
  lemma TopIdsRanked(records: seq<BorrowRecord>, limit: int)
    ensures forall i, j :: 0 <= i < j < |TopIds(records, limit)| ==>
      Count(records, TopIds(records, limit)[j]) <= Count(records, TopIds(records, limit)[i])
  {
    CountsOfKeys(records);
    var ranked := SortByCount(FirstSeen(records), CountsOf(records));
    var top := TopIds(records, limit);
    forall i, j | 0 <= i < j < |top| ensures Count(records, top[j]) <= Count(records, top[i]) {
      assert top[i] == ranked[i] && top[j] == ranked[j];
      assert ranked[i] in ranked && ranked[j] in ranked;
    }
  }

  /** No book left out of the report was borrowed more often than any book in it. */
  lemma {:induction false} TopIdsDominate(records: seq<BorrowRecord>, limit: int, b: int)
    requires b !in TopIds(records, limit)
    ensures forall t :: t in TopIds(records, limit) ==> Count(records, b) <= Count(records, t)
  {
    CountsOfKeys(records);
    var firstSeen := FirstSeen(records);
    var counts := CountsOf(records);
    var ranked := SortByCount(firstSeen, counts);
    var top := TopIds(records, limit);
    if Count(records, b) > 0 {
      assert b in multiset(ranked);
      var j :| 0 <= j < |ranked| && ranked[j] == b;
      forall t | t in top ensures Count(records, b) <= Count(records, t) {
        var i :| 0 <= i < |top| && top[i] == t;
        assert ranked[i] == t;
        assert i < j;
        assert ranked[i] in ranked && ranked[j] in ranked;
      }
    }
  }

  /** No book left out of the report was borrowed more often than any reported book. */
  lemma TopIdsDominateAll(records: seq<BorrowRecord>, limit: int)
    ensures forall b, k :: 0 <= k < |TopIds(records, limit)| && b !in TopIds(records, limit) ==>
      Count(records, b) <= Count(records, TopIds(records, limit)[k])
  {
    var top := TopIds(records, limit);
    forall b, k | 0 <= k < |top| && b !in top ensures Count(records, b) <= Count(records, top[k]) {
      TopIdsDominate(records, limit, b);
      assert top[k] in top;
    }
  }

  /** Books borrowed equally often are reported in the order of their first record. */
  lemma TopIdsTiesInFirstSeenOrder(records: seq<BorrowRecord>, limit: int)
    ensures forall i, j ::
      (0 <= i < j < |TopIds(records, limit)| &&
       Count(records, TopIds(records, limit)[i]) == Count(records, TopIds(records, limit)[j])) ==>
      IndexOf(FirstSeen(records), TopIds(records, limit)[i]) < IndexOf(FirstSeen(records), TopIds(records, limit)[j])
  {
    CountsOfKeys(records);
    var ranked := SortByCount(FirstSeen(records), CountsOf(records));
    SortByCountIsStable(FirstSeen(records), CountsOf(records));
    var top := TopIds(records, limit);
    forall i, j | 0 <= i < j < |top| && Count(records, top[i]) == Count(records, top[j])
      ensures IndexOf(FirstSeen(records), top[i]) < IndexOf(FirstSeen(records), top[j])
    {
      assert top[i] == ranked[i] && top[j] == ranked[j];
      assert ranked[i] in ranked && ranked[j] in ranked;
    }
  }

  lemma IndexOfLast(ids: seq<int>, x: int)
    requires x !in ids
    ensures IndexOf(ids + [x], x) == |ids|
  {
  }

  /** The dictionary's key order is the order of each book's first record. */
  lemma {:induction false} FirstSeenFollowsFirstLoans(records: seq<BorrowRecord>, a: int, b: int)
    requires Count(records, a) > 0 && Count(records, b) > 0
    ensures IndexOf(FirstSeen(records), a) < IndexOf(FirstSeen(records), b)
        <==> FirstLoan(records, a) < FirstLoan(records, b)
  {
    if records != [] {
      var n := |records| - 1;
      var p := records[..n];
      var x := records[n].bookId;
      var earlier := FirstSeen(p);
      assert records == p + [records[n]];
      if a in earlier && b in earlier {
        FirstSeenFollowsFirstLoans(p, a, b);
        if x !in earlier {
          IndexOfAppend(earlier, x, a);
          IndexOfAppend(earlier, x, b);
        }
      } else if a in earlier {
        assert b == x && x !in earlier;
        IndexOfAppend(earlier, x, a);
        IndexOfLast(earlier, x);
      } else if b in earlier {
        assert a == x && x !in earlier;
        IndexOfAppend(earlier, x, b);
        IndexOfLast(earlier, x);
      } else {
        assert a == x && b == x;
      }
    }
  }

  /** Books borrowed equally often are reported in the order of their first loans. */
  lemma TopIdsTiesInFirstLoanOrder(records: seq<BorrowRecord>, limit: int)
    ensures forall i, j ::
      (0 <= i < j < |TopIds(records, limit)| &&
       Count(records, TopIds(records, limit)[i]) == Count(records, TopIds(records, limit)[j])) ==>
      FirstLoan(records, TopIds(records, limit)[i]) < FirstLoan(records, TopIds(records, limit)[j])
  {
    TopIdsTiesInFirstSeenOrder(records, limit);
    var top := TopIds(records, limit);
    forall i, j | 0 <= i < j < |top| && Count(records, top[i]) == Count(records, top[j])
      ensures FirstLoan(records, top[i]) < FirstLoan(records, top[j])
    {
      assert top[i] in top && top[j] in top;
      FirstSeenFollowsFirstLoans(records, top[i], top[j]);
    }
  }

  /** Appending a record of a book not seen yet puts that book last in the first-seen order. */
  lemma FirstSeenNewBook(records: seq<BorrowRecord>, k: int)
    requires 0 <= k < |records| && records[k].bookId !in FirstSeen(records[..k])
    ensures FirstSeen(records[..k + 1]) == FirstSeen(records[..k]) + [records[k].bookId]
  {
    assert records[..k + 1][..k] == records[..k];
  }

  /** Appending a record of a book already seen leaves the first-seen order as it is. */
  lemma FirstSeenKnownBook(records: seq<BorrowRecord>, k: int)
    requires 0 <= k < |records| && records[k].bookId in FirstSeen(records[..k])
    ensures FirstSeen(records[..k + 1]) == FirstSeen(records[..k])
  {
    assert records[..k + 1][..k] == records[..k];
  }

  /** Appending a record adds one to its book's count and to no other. */
  lemma CountStep(records: seq<BorrowRecord>, k: int, b: int)
    requires 0 <= k < |records|
    ensures Count(records[..k + 1], b) == Count(records[..k], b) + if records[k].bookId == b then 1 else 0
  {
    assert records[..k + 1][..k] == records[..k];
  }

  /** Six loans, of books 1, 2, 3, 1, 3, 1 in that order: book 1 borrowed
      three times, book 2 once, book 3 twice. */
  predicate ExampleLoans(loans: seq<BorrowRecord>) {
    && |loans| == 6
    && loans[0].bookId == 1 && loans[1].bookId == 2 && loans[2].bookId == 3
    && loans[3].bookId == 1 && loans[4].bookId == 3 && loans[5].bookId == 1
  }

  lemma ExampleFirstSeenFirstTwo(loans: seq<BorrowRecord>)
    requires ExampleLoans(loans)
    ensures FirstSeen(loans[..2]) == [1, 2]
  {
    assert loans[..0] == [];
    FirstSeenNewBook(loans, 0);
    assert FirstSeen(loans[..1]) == [1];
    FirstSeenNewBook(loans, 1);
  }

  lemma ExampleFirstSeenOpening(loans: seq<BorrowRecord>)
    requires ExampleLoans(loans)
    ensures FirstSeen(loans[..3]) == [1, 2, 3]
  {
    ExampleFirstSeenFirstTwo(loans);
    FirstSeenNewBook(loans, 2);
  }

  lemma ExampleFirstSeen(loans: seq<BorrowRecord>)
    requires ExampleLoans(loans)
    ensures FirstSeen(loans) == [1, 2, 3]
  {
    ExampleFirstSeenOpening(loans);
    FirstSeenKnownBook(loans, 3);
    FirstSeenKnownBook(loans, 4);
    FirstSeenKnownBook(loans, 5);
    assert loans[..6] == loans;
  }

  lemma ExampleCount(loans: seq<BorrowRecord>, b: int)
    requires ExampleLoans(loans)
    ensures Count(loans, b) == if b == 1 then 3 else if b == 3 then 2 else if b == 2 then 1 else 0
  {
    assert loans[..0] == [];
    CountStep(loans, 0, b);
    CountStep(loans, 1, b);
    CountStep(loans, 2, b);
    CountStep(loans, 3, b);
    CountStep(loans, 4, b);
    CountStep(loans, 5, b);
    assert loans[..6] == loans;
  }

  /** With three borrowed books, the report of two lists two different ones of them. */
  lemma TopTwoOfThreeBooks(records: seq<BorrowRecord>, x: int, y: int, z: int)
    requires FirstSeen(records) == [x, y, z]
    ensures |TopIds(records, 2)| == 2
    ensures TopIds(records, 2)[0] != TopIds(records, 2)[1]
    ensures TopIds(records, 2)[0] in [x, y, z] && TopIds(records, 2)[1] in [x, y, z]
  {
    var firstSeen := FirstSeen(records);
    var ranked := SortByCount(firstSeen, CountsOf(records));
    assert |ranked| == 3 by {
      assert |multiset(ranked)| == |multiset(firstSeen)|;
    }
    var top := TopIds(records, 2);
    TopIdsAreBorrowedBooks(records, 2);
    assert top[0] in top && top[1] in top;
  }

  /** Three books first borrowed in the order x, y, z, x more often than z and
      z more often than y. */
  predicate RankedThree(records: seq<BorrowRecord>, x: int, y: int, z: int) {
    FirstSeen(records) == [x, y, z] && Count(records, x) > Count(records, z) > Count(records, y)
  }

  /** Neither of the two most borrowed of three books is left out of a report of two. */
  lemma TopTwoKeepsLeaders(records: seq<BorrowRecord>, x: int, y: int, z: int)
    requires RankedThree(records, x, y, z)
    ensures x in TopIds(records, 2)
  {
    var top := TopIds(records, 2);
    TopTwoOfThreeBooks(records, x, y, z);
    assert top[1] in top;
    if x !in top {
      TopIdsDominate(records, 2, x);
      assert false;
    }
  }

  lemma TopTwoKeepsRunnerUp(records: seq<BorrowRecord>, x: int, y: int, z: int)
    requires RankedThree(records, x, y, z)
    ensures z in TopIds(records, 2)
  {
    var top := TopIds(records, 2);
    TopTwoOfThreeBooks(records, x, y, z);
    TopIdsRanked(records, 2);
    assert top[1] in top;
    if z !in top {
      TopIdsDominate(records, 2, z);
      assert false;
    }
  }

  /** In that situation the report of two lists x and then z. Derived from the
      general properties of the report alone. */
  lemma TopTwoOfThree(records: seq<BorrowRecord>, x: int, y: int, z: int)
    requires RankedThree(records, x, y, z)
    ensures TopIds(records, 2) == [x, z]
  {
    TopTwoOfThreeBooks(records, x, y, z);
    TopTwoKeepsLeaders(records, x, y, z);
    TopTwoKeepsRunnerUp(records, x, y, z);
    TopIdsRanked(records, 2);
    LeaderFirst(TopIds(records, 2), Count(records, x), Count(records, z), x, z, Count(records, TopIds(records, 2)[0]), Count(records, TopIds(records, 2)[1]));
  }

  /** Two distinct ids with the higher count first: the leader comes first. */
  lemma LeaderFirst(top: seq<int>, cx: nat, cz: nat, x: int, z: int, c0: nat, c1: nat)
    requires |top| == 2 && x in top && z in top && x != z && cx > cz
    requires top[0] == x ==> c0 == cx
    requires top[0] == z ==> c0 == cz
    requires top[1] == x ==> c1 == cx
    requires top[1] == z ==> c1 == cz
    requires c1 <= c0
    ensures top == [x, z]
  {
  }

  /** With those six loans, the report of two lists book 1, then book 3. */
  lemma TopTwoExample(loans: seq<BorrowRecord>)
    requires ExampleLoans(loans)
    ensures TopIds(loans, 2) == [1, 3]
  {
    ExampleFirstSeen(loans);
    ExampleCount(loans, 1);
    ExampleCount(loans, 2);
    ExampleCount(loans, 3);
    TopTwoOfThree(loans, 1, 2, 3);
  }

  /** A single record makes a report of just its book. */
  lemma SingleRecordReport(rec: BorrowRecord, limit: int)
    requires limit >= 1
    ensures TopIds([rec], limit) == [rec.bookId]
  {
    var records := [rec];
    assert records[..0] == [];
    assert FirstSeen(records) == [rec.bookId];
    CountsOfKeys(records);
    assert SortByCount([rec.bookId], CountsOf(records)) == Insert(rec.bookId, [], CountsOf(records));
  }

  /** When the limit is not reached, every borrowed book is reported. */
  lemma ShortReportIsComplete(records: seq<BorrowRecord>, limit: int, b: int)
    requires limit >= 0 && |TopIds(records, limit)| < limit
    requires Count(records, b) > 0
    ensures b in TopIds(records, limit)
  {
    var ranked := SortByCount(FirstSeen(records), CountsOf(records));
    CountsOfKeys(records);
    assert b in multiset(ranked);
    assert TopIds(records, limit) == ranked;
  }

  // ------------------------------------------------------------- the reports

  /** The counting loop of top_borrowed_books: one pass over the records,
      building the dictionary book_id -> count. `order` is the dictionary's
      key order (insertion order), which is what sorted() iterates. */
  method CountBorrows(records: seq<BorrowRecord>) returns (order: seq<int>, counts: map<int, nat>)
    ensures order == FirstSeen(records)
    ensures counts == CountsOf(records)
    ensures forall b :: b in counts <==> Count(records, b) > 0
    ensures forall b :: b in counts ==> counts[b] == Count(records, b)
  {
    order := [];
    counts := map[];
    var i := 0;
    while i < |records|
      invariant 0 <= i <= |records|
      invariant order == FirstSeen(records[..i])
      invariant forall b :: b in counts <==> b in order
      invariant forall b :: b in counts ==> counts[b] == Count(records[..i], b)
    {
      assert records[..i + 1][..i] == records[..i];
      var b := records[i].bookId;
      if b !in counts {
        order := order + [b];
      }
      counts := counts[b := (if b in counts then counts[b] else 0) + 1];
      i := i + 1;
    }
    assert records[..i] == records;
    assert forall b :: b in counts <==> b in CountsOf(records);
  }

  /** The second loop of top_borrowed_books: fetch each ranked book's row
      and attach its count. The first id without a row ends the report with
      an error, as the unchecked `.data[0]` does. */
  method AttachRows(ids: seq<int>, counts: map<int, nat>, books: map<int, Book>)
    returns (r: Result<seq<TopEntry>>)
    requires KeysIn(ids, counts)
    ensures r.Ok? <==> forall b :: b in ids ==> b in books
    ensures r.Ok? ==> |r.value| == |ids| && forall k :: 0 <= k < |ids| ==>
      ids[k] in books && r.value[k] == TopEntry(ids[k], books[ids[k]], counts[ids[k]])
    ensures r.MissingBook? ==> r.bookId !in books && exists j ::
      && 0 <= j < |ids| && ids[j] == r.bookId
      && (forall k :: 0 <= k < j ==> ids[k] in books)
  {
    var top: seq<TopEntry> := [];
    var j := 0;
    while j < |ids|
      invariant 0 <= j <= |ids|
      invariant |top| == j
      invariant forall k :: 0 <= k < j ==>
        ids[k] in books && top[k] == TopEntry(ids[k], books[ids[k]], counts[ids[k]])
    {
      var id := ids[j];
      if id !in books {
        return MissingBook(id);
      }
      top := top + [TopEntry(id, books[id], counts[id])];
      j := j + 1;
    }
    r := Ok(top);
  }

  /** Entries that pair each reported id with its row and count carry the
      ranking's promises over to the counts they show. */
  lemma EntriesOfTopIds(records: seq<BorrowRecord>, limit: int, books: map<int, Book>, entries: seq<TopEntry>)
    requires |entries| == |TopIds(records, limit)|
    requires forall k :: 0 <= k < |entries| ==>
      TopIds(records, limit)[k] in books &&
      entries[k] == TopEntry(TopIds(records, limit)[k], books[TopIds(records, limit)[k]], CountsOf(records)[TopIds(records, limit)[k]])
    ensures IdsOf(entries) == TopIds(records, limit)
    ensures forall k :: 0 <= k < |entries| ==> entries[k].borrowCount == Count(records, entries[k].bookId)
    ensures limit >= 0 ==> |entries| <= limit
    ensures forall k, l :: 0 <= k < l < |entries| ==> entries[l].borrowCount <= entries[k].borrowCount
    ensures forall b, k :: 0 <= k < |entries| && b !in IdsOf(entries) ==> Count(records, b) <= entries[k].borrowCount
  {
    var top := TopIds(records, limit);
    assert IdsOf(entries) == top;
    assert forall k :: 0 <= k < |entries| ==> top[k] in top;
    TopIdsAreBorrowedBooks(records, limit);
    TopIdsRanked(records, limit);
    TopIdsDominateAll(records, limit);
  }

  /** top_borrowed_books: count the records per book, rank the ids by count
      (ties in first-seen order), keep the first `limit`, and attach each
      book's current row. */
  method TopBorrowedBooks(s: State, limit: int := 5) returns (r: Result<seq<TopEntry>>)
    ensures r.Ok? <==> forall b :: b in TopIds(s.records, limit) ==> b in s.books
    ensures r.Ok? ==> IdsOf(r.value) == TopIds(s.records, limit)
    ensures r.Ok? ==> forall k :: 0 <= k < |r.value| ==>
      && r.value[k].bookId in s.books
      && r.value[k].book == s.books[r.value[k].bookId]
      && r.value[k].borrowCount == Count(s.records, r.value[k].bookId)
    ensures r.Ok? && limit >= 0 ==> |r.value| <= limit
    ensures r.Ok? ==> forall k, l :: 0 <= k < l < |r.value| ==> r.value[l].borrowCount <= r.value[k].borrowCount
    ensures r.Ok? ==> forall b, k :: 0 <= k < |r.value| && b !in IdsOf(r.value) ==>
      Count(s.records, b) <= r.value[k].borrowCount
    ensures r.MissingBook? ==> r.bookId in TopIds(s.records, limit) && r.bookId !in s.books
  {
    var order, counts := CountBorrows(s.records);
    var topIds := Slice(SortByCount(order, counts), limit);
    assert topIds == TopIds(s.records, limit);
    r := AttachRows(topIds, counts, s.books);
    if r.Ok? {
      EntriesOfTopIds(s.records, limit, s.books, r.value);
    }
  }

  /** An active loan borrowed strictly before `cutoff`. */
  predicate IsOverdue(rec: BorrowRecord, cutoff: int) {
    rec.IsActive() && rec.borrowDate < cutoff
  }

  function RowOf(rec: BorrowRecord): OverdueRow {
    OverdueRow(rec.memberId, rec.bookId, rec.borrowDate)
  }

  /** Positions of the active loans borrowed before `cutoff`, in record order. */
  function OverduePositions(records: seq<BorrowRecord>, cutoff: int): (idx: seq<int>)
    ensures forall k :: 0 <= k < |idx| ==> 0 <= idx[k] < |records| && IsOverdue(records[idx[k]], cutoff)
    ensures forall k, l :: 0 <= k < l < |idx| ==> idx[k] < idx[l]
    ensures forall i :: 0 <= i < |records| && IsOverdue(records[i], cutoff) ==> i in idx
    ensures |idx| <= |records|
  {
    if records == [] then []
    else
      var n := |records| - 1;
      var earlier := OverduePositions(records[..n], cutoff);
      assert forall i :: 0 <= i < n ==> records[..n][i] == records[i];
      if IsOverdue(records[n], cutoff) then earlier + [n] else earlier
  }

  /** The active loans borrowed before `cutoff`: one row per such loan, in record order. */
  function OverdueSince(records: seq<BorrowRecord>, cutoff: int): (r: seq<OverdueRow>)
    ensures |r| <= |records|
    ensures |r| == |OverduePositions(records, cutoff)|
    ensures forall k :: 0 <= k < |r| ==> r[k] == RowOf(records[OverduePositions(records, cutoff)[k]])
    ensures forall row :: row in r <==>
      exists i :: 0 <= i < |records| && IsOverdue(records[i], cutoff) && row == RowOf(records[i])
  {
    if records == [] then []
    else
      var n := |records| - 1;
      var earlier := OverdueSince(records[..n], cutoff);
      var positions := OverduePositions(records[..n], cutoff);
      assert forall i :: 0 <= i < n ==> records[..n][i] == records[i];
      assert forall k :: 0 <= k < |earlier| ==> earlier[k] == RowOf(records[positions[k]]);
      if IsOverdue(records[n], cutoff) then earlier + [RowOf(records[n])] else earlier
  }

  /** overdue_members: the active loans borrowed more than `days` days before
      `now` (14 by default). */
  function OverdueMembers(records: seq<BorrowRecord>, now: int, days: int := 14): (r: seq<OverdueRow>)
    ensures forall row :: row in r <==> exists i ::
      && 0 <= i < |records| && records[i].IsActive()
      && records[i].borrowDate + days * SecondsPerDay < now
      && row == RowOf(records[i])
  {
    OverdueSince(records, now - days * SecondsPerDay)
  }

  /** With a zero threshold every active loan borrowed before `now` is overdue. */
  lemma ZeroDaysListsActiveLoans(records: seq<BorrowRecord>, now: int, i: int)
    requires 0 <= i < |records| && records[i].IsActive() && records[i].borrowDate < now
    ensures RowOf(records[i]) in OverdueMembers(records, now, 0)
  {
  }

  /** Loans borrowed no earlier than the cutoff never appear: in particular,
      with a non-negative threshold, none borrowed at `now` or later. */
  lemma RecentLoansNotOverdue(records: seq<BorrowRecord>, cutoff: int)
    requires forall i :: 0 <= i < |records| ==> records[i].borrowDate >= cutoff
    ensures OverdueSince(records, cutoff) == []
  {
  }

  /** A longer threshold reports no loan that a shorter one leaves out. */
  lemma LongerThresholdFewerRows(records: seq<BorrowRecord>, now: int, shorter: int, longer: int)
    requires shorter <= longer
    ensures forall row :: row in OverdueMembers(records, now, longer) ==> row in OverdueMembers(records, now, shorter)
  {
    assert longer * SecondsPerDay >= shorter * SecondsPerDay;
  }
}
