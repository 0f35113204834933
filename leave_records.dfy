/**
 * Leave requests as the admin view holds them, the search-and-status filter
 * that decides which of them the table shows, and the local update the view
 * applies to its list once the backend has accepted a decision.
 */
module LeaveRecords {
  import opened Text

  datatype Option<T> = None | Some(value: T)

  /** Leave identifiers; only `0` among them is falsy. */
  type Id = int

  /** One leave request. `userName` and `comment` may be absent from a record. */
  datatype Leave = Leave(
    id: Id,
    userName: Option<string>,
    leaveType: string,
    fromDate: string,
    toDate: string,
    status: string,
    comment: Option<string>)

  // Values of the status filter, of `status` and of the pending action kind
  const ALL: string := "All"
  const PENDING: string := "Pending"
  const APPROVED: string := "Approved"
  const REJECTED: string := "Rejected"
  const APPROVE: string := "approve"
  const REJECT: string := "reject"

  /**
   * The name searched, `userName || ""`: it is "" exactly when the name is
   * missing or empty, and otherwise the record's name.
   */
  function EmployeeName(leave: Leave): (name: string)
    ensures name == "" <==> leave.userName == None || leave.userName == Some("")
    ensures name != "" ==> leave.userName == Some(name)
  {
    if leave.userName.Some? then leave.userName.value else ""
  }

  /** Case-insensitive search: the lower-cased name includes the lower-cased term. */
  predicate MatchesSearch(leave: Leave, searchTerm: string): (b: bool)
    ensures searchTerm == "" ==> b
    ensures b ==> |searchTerm| <= |EmployeeName(leave)|
  {
    Contains(ToLower(EmployeeName(leave)), ToLower(searchTerm))
  }

  /** The status filter lets every record through when it is "All", otherwise only equal statuses. */
  predicate MatchesStatus(leave: Leave, filterStatus: string): (b: bool)
    ensures filterStatus == ALL ==> b
    ensures filterStatus != ALL ==> (b <==> leave.status == filterStatus)
  {
    filterStatus == ALL || leave.status == filterStatus
  }

  /** A record is shown when it satisfies both the search and the status filter. */
  predicate Shown(leave: Leave, searchTerm: string, filterStatus: string): (b: bool)
    ensures searchTerm == "" && filterStatus == ALL ==> b
    ensures b ==> filterStatus == ALL || leave.status == filterStatus
  {
    MatchesSearch(leave, searchTerm) && MatchesStatus(leave, filterStatus)
  }

  /** The rows the table renders: `leaves.filter(...)`. */
  function FilterLeaves(leaves: seq<Leave>, searchTerm: string, filterStatus: string): (r: seq<Leave>)
    ensures |r| <= |leaves|
    ensures forall x :: x in r ==> x in leaves && Shown(x, searchTerm, filterStatus)
    ensures forall x :: x in leaves && Shown(x, searchTerm, filterStatus) ==> x in r
  {
    if leaves == [] then []
    else
      var rest := FilterLeaves(leaves[1..], searchTerm, filterStatus);
      if Shown(leaves[0], searchTerm, filterStatus) then [leaves[0]] + rest else rest
  }

  /** Which records pass the filter, position by position. */
  ghost function ShownMask(leaves: seq<Leave>, searchTerm: string, filterStatus: string): (m: seq<bool>)
    ensures |m| == |leaves|
    ensures forall k :: 0 <= k < |leaves| ==> m[k] == Shown(leaves[k], searchTerm, filterStatus)
  {
    seq(|leaves|, k requires 0 <= k < |leaves| => Shown(leaves[k], searchTerm, filterStatus))
  }

  /** `idx` lists positions below `n` in strictly increasing order. */
  ghost predicate IncreasingPositions(idx: seq<int>, n: int)
  {
    && (forall k :: 0 <= k < |idx| ==> 0 <= idx[k] < n)
    && (forall k, m :: 0 <= k < m < |idx| ==> idx[k] < idx[m])
  }

  /** Every position moved one place to the right. */
  function Shift(idx: seq<int>): (r: seq<int>)
    ensures |r| == |idx| && forall k :: 0 <= k < |idx| ==> r[k] == idx[k] + 1
  {
    seq(|idx|, k requires 0 <= k < |idx| => idx[k] + 1)
  }

  /** The positions at which `mask` is true. */
  ghost function Positions(mask: seq<bool>): seq<int>
  {
    if mask == [] then []
    else
      var shifted := Shift(Positions(mask[1..]));
      if mask[0] then [0] + shifted else shifted
  }

  /** The records of `leaves` at which `mask` is true, in order. */
  function Select(leaves: seq<Leave>, mask: seq<bool>): (r: seq<Leave>)
    requires |mask| == |leaves|
    ensures |r| <= |leaves|
  {
    if leaves == [] then []
    else
      var rest := Select(leaves[1..], mask[1..]);
      if mask[0] then [leaves[0]] + rest else rest
  }

  /** `Positions` lists valid positions of the mask in strictly increasing order. */
  lemma {:induction false} PositionsIncreasing(mask: seq<bool>)
    ensures IncreasingPositions(Positions(mask), |mask|)
  {
    if mask != [] {
      var rest := Positions(mask[1..]);
      PositionsIncreasing(mask[1..]);
      var shifted := Shift(rest);
      assert IncreasingPositions(shifted, |mask|);
      if mask[0] {
        var idx := [0] + shifted;
        assert forall k :: 1 <= k < |idx| ==> idx[k] == shifted[k - 1];
        assert forall k :: 1 <= k < |idx| ==> 0 < idx[k];
      }
    }
  }

  /** A position is in the shifted list exactly when the position before it is in the original. */
  lemma ShiftMembership(idx: seq<int>, i: int)
    ensures i in Shift(idx) <==> i - 1 in idx
  {
  }

  /** A position is listed by `Positions` exactly when the mask is true there. */
  lemma {:induction false} PositionsComplete(mask: seq<bool>, i: int)
    requires 0 <= i < |mask|
    ensures i in Positions(mask) <==> mask[i]
  {
    var rest := Positions(mask[1..]);
    var shifted := Shift(rest);
    PositionsIncreasing(mask[1..]);
    ShiftMembership(rest, i);
    if i == 0 {
      assert -1 !in rest;
    } else {
      PositionsComplete(mask[1..], i - 1);
      assert i in Positions(mask) <==> i in shifted;
    }
  }

  /** Positions into the tail of a list, shifted by one, are the same positions into the whole list. */
  lemma ShiftIntoTail(leaves: seq<Leave>, rows: seq<Leave>, idx: seq<int>)
    requires leaves != [] && |rows| == |idx|
    requires forall k :: 0 <= k < |rows| ==> 0 <= idx[k] < |leaves| - 1 && rows[k] == leaves[1..][idx[k]]
    ensures forall k :: 0 <= k < |rows| ==> 0 <= Shift(idx)[k] < |leaves| && rows[k] == leaves[Shift(idx)[k]]
  {
  }

  /** The k-th selected record is the record at the k-th position of the mask. */
  lemma {:induction false} SelectInOrder(leaves: seq<Leave>, mask: seq<bool>)
    requires |mask| == |leaves|
    ensures var r := Select(leaves, mask);
            var idx := Positions(mask);
            |r| == |idx| && forall k :: 0 <= k < |r| ==> 0 <= idx[k] < |leaves| && r[k] == leaves[idx[k]]
  {
    if leaves != [] {
      var rest := Select(leaves[1..], mask[1..]);
      var restIdx := Positions(mask[1..]);
      SelectInOrder(leaves[1..], mask[1..]);
      ShiftIntoTail(leaves, rest, restIdx);
      var shifted := Shift(restIdx);
      if mask[0] {
        var r, idx := [leaves[0]] + rest, [0] + shifted;
        assert Select(leaves, mask) == r;
        assert Positions(mask) == idx;
        assert forall k :: 1 <= k < |r| ==> r[k] == rest[k - 1] && idx[k] == shifted[k - 1];
      }
    }
  }

  /** The filter keeps the records its mask marks, and only those. */
  lemma {:induction false} FilterIsSelect(leaves: seq<Leave>, searchTerm: string, filterStatus: string)
    ensures FilterLeaves(leaves, searchTerm, filterStatus) == Select(leaves, ShownMask(leaves, searchTerm, filterStatus))
  {
    if leaves != [] {
      var mask := ShownMask(leaves, searchTerm, filterStatus);
      FilterIsSelect(leaves[1..], searchTerm, filterStatus);
      assert mask[1..] == ShownMask(leaves[1..], searchTerm, filterStatus);
    }
  }

  /** The positions of the records that are shown. */
  ghost function ShownPositions(leaves: seq<Leave>, searchTerm: string, filterStatus: string): seq<int>
  {
    Positions(ShownMask(leaves, searchTerm, filterStatus))
  }

  /** `ShownPositions` lists positions of `leaves` in strictly increasing order. */
  lemma ShownPositionsIncreasing(leaves: seq<Leave>, searchTerm: string, filterStatus: string)
    ensures IncreasingPositions(ShownPositions(leaves, searchTerm, filterStatus), |leaves|)
  {
    PositionsIncreasing(ShownMask(leaves, searchTerm, filterStatus));
  }

  /** A position is listed by `ShownPositions` exactly when its record passes the filter. */
  lemma ShownPositionsComplete(leaves: seq<Leave>, searchTerm: string, filterStatus: string, i: int)
    requires 0 <= i < |leaves|
    ensures i in ShownPositions(leaves, searchTerm, filterStatus) <==> Shown(leaves[i], searchTerm, filterStatus)
  {
    PositionsComplete(ShownMask(leaves, searchTerm, filterStatus), i);
  }

  /**
   * The filtered list is exactly the shown records of `leaves`, in their
   * original order and with their multiplicities: its k-th element is the
   * record at the k-th shown position.
   */
  lemma FilterKeepsShownInOrder(leaves: seq<Leave>, searchTerm: string, filterStatus: string)
    ensures var r := FilterLeaves(leaves, searchTerm, filterStatus);
            var idx := ShownPositions(leaves, searchTerm, filterStatus);
            |r| == |idx| && forall k :: 0 <= k < |r| ==> 0 <= idx[k] < |leaves| && r[k] == leaves[idx[k]]
  {
    FilterIsSelect(leaves, searchTerm, filterStatus);
    SelectInOrder(leaves, ShownMask(leaves, searchTerm, filterStatus));
  }

  /** Filtering an already filtered list changes nothing: a re-render shows the same rows. */
  lemma {:induction false} FilterIdempotent(leaves: seq<Leave>, searchTerm: string, filterStatus: string)
    ensures var r := FilterLeaves(leaves, searchTerm, filterStatus);
            FilterLeaves(r, searchTerm, filterStatus) == r
  {
    if leaves != [] {
      FilterIdempotent(leaves[1..], searchTerm, filterStatus);
      var rest := FilterLeaves(leaves[1..], searchTerm, filterStatus);
      if Shown(leaves[0], searchTerm, filterStatus) {
        assert ([leaves[0]] + rest)[1..] == rest;
      }
    }
  }

  /** With the default criteria (empty search, "All") every record is shown. */
  lemma {:induction false} DefaultFilterShowsAll(leaves: seq<Leave>)
    ensures FilterLeaves(leaves, "", ALL) == leaves
  {
    if leaves != [] {
      DefaultFilterShowsAll(leaves[1..]);
      assert ToLower("") == "";
      assert [leaves[0]] + leaves[1..] == leaves;
    }
  }

  /** Under the ASCII case mapping, the search ignores the case of the term: typing it in capitals shows the same rows. */
  lemma SearchIgnoresCase(leaves: seq<Leave>, searchTerm: string, filterStatus: string)
    ensures FilterLeaves(leaves, ToUpper(searchTerm), filterStatus) == FilterLeaves(leaves, searchTerm, filterStatus)
  {
    ToLowerForgetsCase(searchTerm);
  }

  /** Under the ASCII case mapping, the search ignores the case of the name: a record whose name is written in capitals matches the same terms. */
  lemma SearchIgnoresNameCase(leave: Leave, name: string, searchTerm: string)
    ensures MatchesSearch(leave.(userName := Some(ToUpper(name))), searchTerm)
        == MatchesSearch(leave.(userName := Some(name)), searchTerm)
  {
    ToLowerForgetsCase(name);
  }

  /** The status set by a decision: "Approved" for "approve", "Rejected" for any other action kind. */
  function DecisionStatus(actionType: string): (status: string)
    ensures status == APPROVED <==> actionType == APPROVE
    ensures status == APPROVED || status == REJECTED
  {
    if actionType == APPROVE then APPROVED else REJECTED
  }

  /** One record after a decision: new status and comment, every other field kept. */
  function Decided(leave: Leave, actionType: string, commentText: string): (d: Leave)
    ensures d.(status := leave.status, comment := leave.comment) == leave
    ensures d.status != PENDING && (d.status == APPROVED <==> actionType == APPROVE)
    ensures d.comment == Some(commentText)
  {
    leave.(status := DecisionStatus(actionType), comment := Some(commentText))
  }

  /** The local merge after a successful decision: `prevLeaves.map(...)` over the list. */
  function ApplyDecision(leaves: seq<Leave>, id: Id, actionType: string, commentText: string): (r: seq<Leave>)
    ensures |r| == |leaves|
  {
    if leaves == [] then []
    else
      var head := if leaves[0].id == id then Decided(leaves[0], actionType, commentText) else leaves[0];
      [head] + ApplyDecision(leaves[1..], id, actionType, commentText)
  }

  /**
   * The merge is positionwise: a record whose id equals `id` gets the
   * decision's status and comment and keeps its other fields; every other
   * record is left exactly as it was.
   */
  lemma {:induction false} ApplyDecisionAt(leaves: seq<Leave>, id: Id, actionType: string, commentText: string)
    ensures var r := ApplyDecision(leaves, id, actionType, commentText);
            forall i :: 0 <= i < |leaves| ==>
              if leaves[i].id == id then
                && r[i].status == DecisionStatus(actionType)
                && r[i].comment == Some(commentText)
                && r[i].(status := leaves[i].status, comment := leaves[i].comment) == leaves[i]
              else r[i] == leaves[i]
  {
    if leaves != [] {
      ApplyDecisionAt(leaves[1..], id, actionType, commentText);
    }
  }

  /** A decision for an id that no record carries leaves the list as it was. */
  lemma {:induction false} ApplyDecisionNoMatch(leaves: seq<Leave>, id: Id, actionType: string, commentText: string)
    requires forall x :: x in leaves ==> x.id != id
    ensures ApplyDecision(leaves, id, actionType, commentText) == leaves
  {
    if leaves != [] {
      ApplyDecisionNoMatch(leaves[1..], id, actionType, commentText);
      assert [leaves[0]] + leaves[1..] == leaves;
    }
  }

  /** Merging the same decision twice gives the same list as merging it once. */
  lemma {:induction false} ApplyDecisionIdempotent(leaves: seq<Leave>, id: Id, actionType: string, commentText: string)
    ensures var r := ApplyDecision(leaves, id, actionType, commentText);
            ApplyDecision(r, id, actionType, commentText) == r
  {
    if leaves != [] {
      ApplyDecisionIdempotent(leaves[1..], id, actionType, commentText);
    }
  }

  /** After a decision no record with the decided id is still "Pending". */
  lemma ApplyDecisionSettles(leaves: seq<Leave>, id: Id, actionType: string, commentText: string)
    ensures forall x :: x in ApplyDecision(leaves, id, actionType, commentText) && x.id == id ==>
              x.status != PENDING && x.comment == Some(commentText)
  {
    ApplyDecisionAt(leaves, id, actionType, commentText);
  }

  /** No two records of the list share an id. */
  predicate DistinctIds(leaves: seq<Leave>)
  {
    forall i, j :: 0 <= i < j < |leaves| ==> leaves[i].id != leaves[j].id
  }

  /**
   * With distinct ids, a decision on a record of the list changes that
   * record and no other.
   */
  lemma DecisionTouchesOnlyItsRecord(leaves: seq<Leave>, leave: Leave, actionType: string, commentText: string)
    requires DistinctIds(leaves) && leave in leaves
    ensures var r := ApplyDecision(leaves, leave.id, actionType, commentText);
            forall i :: 0 <= i < |leaves| && r[i] != leaves[i] ==> leaves[i] == leave
  {
    ApplyDecisionAt(leaves, leave.id, actionType, commentText);
    var p :| 0 <= p < |leaves| && leaves[p] == leave;
    forall i | 0 <= i < |leaves| && i != p
      ensures leaves[i].id != leave.id
    {
      if i < p { assert leaves[i].id != leaves[p].id; } else { assert leaves[p].id != leaves[i].id; }
    }
  }

  /**
   * When ids repeat, the decision on one record also overwrites every other
   * record with the same id, an already decided one included: a rejection
   * turns an "Approved" namesake into "Rejected".
   */
  lemma RepeatedIdOverwritesDecided(leaves: seq<Leave>, p: int, q: int, actionType: string, commentText: string)
    requires 0 <= p < |leaves| && 0 <= q < |leaves| && p != q
    requires leaves[q].id == leaves[p].id && leaves[q].status == APPROVED
    ensures var r := ApplyDecision(leaves, leaves[p].id, actionType, commentText);
            r[q] == Decided(leaves[q], actionType, commentText)
            && (actionType != APPROVE ==> r[q].status == REJECTED && r[q] != leaves[q])
  {
    ApplyDecisionAt(leaves, leaves[p].id, actionType, commentText);
  }
}
