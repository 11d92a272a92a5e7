/** Member lifecycle: add_member, update_member, delete_member, get_member,
    each as a function from the store before to the store after and the
    rows the call returns. */
module Members {
  import opened Tables

  /** One line of a member's loan history as get_member reports it. */
  datatype LoanSummary = LoanSummary(bookId: int, borrowDate: int, returnDate: Option<int>)

  /** Python truthiness of an optional string argument: passed and non-empty. */
  predicate Given(field: Option<string>) {
    field.Some? && field.value != ""
  }

  /** add_member: inserts a row under the next member_id and returns the
      inserted row with its id. */
  function AddMember(s: State, name: string, email: string): (r: (State, seq<(int, Member)>))
    ensures |r.1| == 1 && r.1[0].1 == Member(name, email)
    ensures r.0.members == s.members[r.1[0].0 := Member(name, email)]
    ensures r.0.books == s.books && r.0.records == s.records
    ensures Valid(s) ==> r.1[0].0 !in s.members && Valid(r.0)
  {
    var id := s.nextMemberId;
    (s.(members := s.members[id := Member(name, email)], nextMemberId := id + 1), [(id, Member(name, email))])
  }

  /** update_member: applies only the fields given non-empty; returns the
      updated rows (none when the id is unknown). */
  function UpdateMember(s: State, memberId: int, name: Option<string> := None, email: Option<string> := None)
    : (r: (State, seq<(int, Member)>))
    ensures r.0.books == s.books && r.0.records == s.records
    ensures r.0.members.Keys == s.members.Keys
    ensures forall id :: id in s.members && id != memberId ==> r.0.members[id] == s.members[id]
    ensures memberId in s.members ==>
      && r.0.members[memberId].name == (if Given(name) then name.value else s.members[memberId].name)
      && r.0.members[memberId].email == (if Given(email) then email.value else s.members[memberId].email)
      && r.1 == [(memberId, r.0.members[memberId])]
    ensures memberId !in s.members ==> r.0 == s && r.1 == []
    ensures !Given(name) && !Given(email) ==> r.0 == s
    ensures Valid(s) ==> Valid(r.0)
  {
    if memberId !in s.members then (s, [])
    else
      var row := s.members[memberId];
      var updated := Member(if Given(name) then name.value else row.name,
                            if Given(email) then email.value else row.email);
      (s.(members := s.members[memberId := updated]), [(memberId, updated)])
  }

  /** delete_member: refused while the member has an active loan. */
  function DeleteMember(s: State, memberId: int): (r: (State, Deletion<(int, Member)>))
    ensures r.1.Blocked? <==> MemberHasActiveLoan(s.records, memberId)
    ensures r.1.Blocked? ==> r.0 == s
    ensures r.1.Deleted? ==>
      && r.0.members.Keys == s.members.Keys - {memberId}
      && (forall id :: id in r.0.members ==> r.0.members[id] == s.members[id])
      && r.0.books == s.books && r.0.records == s.records
      && r.1.rows == (if memberId in s.members then [(memberId, s.members[memberId])] else [])
    ensures Valid(s) ==> Valid(r.0)
  {
    if MemberHasActiveLoan(s.records, memberId) then (s, Blocked)
    else
      var rows := if memberId in s.members then [(memberId, s.members[memberId])] else [];
      (s.(members := s.members - {memberId}), Deleted(rows))
  }

  function SummaryOf(rec: BorrowRecord): LoanSummary {
    LoanSummary(rec.bookId, rec.borrowDate, rec.returnDate)
  }

  /** Positions of the member's records, active or returned, in record order. */
  function LoanPositions(records: seq<BorrowRecord>, memberId: int): (idx: seq<int>)
    ensures forall k :: 0 <= k < |idx| ==> 0 <= idx[k] < |records| && records[idx[k]].memberId == memberId
    ensures forall k, l :: 0 <= k < l < |idx| ==> idx[k] < idx[l]
    ensures forall i :: 0 <= i < |records| && records[i].memberId == memberId ==> i in idx
    ensures |idx| <= |records|
  {
    if records == [] then []
    else
      var n := |records| - 1;
      var earlier := LoanPositions(records[..n], memberId);
      assert forall i :: 0 <= i < n ==> records[..n][i] == records[i];
      if records[n].memberId == memberId then earlier + [n] else earlier
  }

  /** Every loan of the member, active or returned: one entry per record, in record order. */
  function LoansOf(records: seq<BorrowRecord>, memberId: int): (r: seq<LoanSummary>)
    ensures |r| <= |records|
    ensures |r| == |LoanPositions(records, memberId)|
    ensures forall k :: 0 <= k < |r| ==> r[k] == SummaryOf(records[LoanPositions(records, memberId)[k]])
    ensures forall l :: l in r <==>
      exists i :: 0 <= i < |records| && records[i].memberId == memberId && l == SummaryOf(records[i])
  {
    if records == [] then []
    else
      var n := |records| - 1;
      var earlier := LoansOf(records[..n], memberId);
      var positions := LoanPositions(records[..n], memberId);
      assert forall i :: 0 <= i < n ==> records[..n][i] == records[i];
      assert forall k :: 0 <= k < |earlier| ==> earlier[k] == SummaryOf(records[positions[k]]);
      if records[n].memberId == memberId then earlier + [SummaryOf(records[n])] else earlier
  }

  /** get_member: the member row (if any) and the member's whole loan history. */
  function GetMember(s: State, memberId: int): (r: (Option<Member>, seq<LoanSummary>))
    ensures r.0.Some? <==> memberId in s.members
    ensures r.0.Some? ==> r.0.value == s.members[memberId]
    ensures r.1 == LoansOf(s.records, memberId)
  {
    (if memberId in s.members then Some(s.members[memberId]) else None, LoansOf(s.records, memberId))
  }
}
