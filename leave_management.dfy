/**
 * The admin leave-management view as an object. Its fields are the view's
 * state hooks; each method is one event handler, run as one atomic step.
 * The backend is not modelled: a fetch hands its response in as a parameter
 * and a decision call hands in whether it succeeded.
 */
module LeaveManagementPage {
  import opened Text
  import opened LeaveRecords

  /** The backend call a confirmation issues: `approveLeave` or `rejectLeave`. */
  datatype ApiCall =
    | ApproveLeave(id: Id, comment: string)
    | RejectLeave(id: Id, comment: string)

  class LeaveManagement {
    var leaves: seq<Leave>
    // search and filter
    var searchTerm: string
    var filterStatus: string
    // the pending decision: record, kind ("approve", "reject" or "") and draft comment
    var selectedLeaveId: Option<Id>
    var actionType: string
    var commentText: string
    // the record shown in the read-only modal
    var viewLeave: Option<Leave>

    /** The view as first rendered, before any fetch has answered. */
    constructor ()
      ensures leaves == [] && searchTerm == "" && filterStatus == ALL
      ensures selectedLeaveId == None && actionType == "" && commentText == ""
      ensures viewLeave == None
    {
      leaves := [];
      searchTerm := "";
      filterStatus := ALL;
      selectedLeaveId := None;
      actionType := "";
      commentText := "";
      viewLeave := None;
    }

    /** The rows the table shows: records of the list that pass the current search and status filter. */
    function FilteredLeaves(): (r: seq<Leave>)
      reads this`leaves, this`searchTerm, this`filterStatus
      ensures |r| <= |leaves|
      ensures forall x :: x in r ==> x in leaves && Shown(x, searchTerm, filterStatus)
      ensures searchTerm == "" && filterStatus == ALL ==> r == leaves
    {
      DefaultFilterShowsAll(leaves);
      FilterLeaves(leaves, searchTerm, filterStatus)
    }

    /** `selectedLeaveId` is truthy: set, and not the id 0. The comment form is shown exactly then. */
    predicate HasSelection(): (b: bool)
      reads this`selectedLeaveId
      ensures selectedLeaveId == None ==> !b
      ensures selectedLeaveId == Some(0) ==> !b
      ensures b ==> selectedLeaveId.Some?
      ensures selectedLeaveId.Some? && selectedLeaveId.value != 0 ==> b
    {
      selectedLeaveId.Some? && selectedLeaveId.value != 0
    }

    /** The guard at the head of the confirm handler: a truthy id and a non-empty action kind. */
    predicate ReadyToConfirm(): (b: bool)
      reads this`selectedLeaveId, this`actionType
      ensures b ==> HasSelection()
      ensures actionType == "" ==> !b
    {
      HasSelection() && actionType != ""
    }

    /**
     * The Confirm button is enabled: the trimmed draft comment is not empty,
     * that is, the draft holds a character that is not white space.
     */
    predicate ConfirmEnabled(): (b: bool)
      reads this`commentText
      ensures b <==> exists k :: 0 <= k < |commentText| && !IsWhiteSpace(commentText[k])
    {
      TrimEmptyIffBlank(commentText);
      Trim(commentText) != ""
    }

    /** The answer to the initial fetch: a list replaces `leaves`; a failure (`None`) keeps it. */
    method FetchLeaves(response: Option<seq<Leave>>)
      modifies this`leaves
      ensures leaves == if response.Some? then response.value else old(leaves)
    {
      if response.Some? {
        leaves := response.value;
      }
    }

    /** Typing in the search box. */
    method SetSearchTerm(value: string)
      modifies this`searchTerm
      ensures searchTerm == value
    {
      searchTerm := value;
    }

    /** Choosing in the status drop-down. */
    method SetFilterStatus(value: string)
      modifies this`filterStatus
      ensures filterStatus == value
    {
      filterStatus := value;
    }

    /** Typing in the comment box. */
    method SetCommentText(value: string)
      modifies this`commentText
      ensures commentText == value
    {
      commentText := value;
    }

    /** The Reset button: default criteria, so the table shows the whole list again. */
    method Reset()
      modifies this`searchTerm, this`filterStatus
      ensures searchTerm == "" && filterStatus == ALL
      ensures FilteredLeaves() == leaves
    {
      searchTerm := "";
      filterStatus := ALL;
      DefaultFilterShowsAll(leaves);
    }

    /** Starts a decision on record `id`, replacing any earlier one and its draft comment. */
    method HandleActionClick(id: Id, kind: string)
      modifies this`selectedLeaveId, this`actionType, this`commentText
      ensures selectedLeaveId == Some(id) && actionType == kind && commentText == ""
    {
      selectedLeaveId := Some(id);
      actionType := kind;
      commentText := "";
    }

    /**
     * The Approve (`approve`) or Reject button of a table row; the buttons
     * exist only on rows whose status is "Pending". The decision started is
     * therefore always about a pending record of the list.
     */
    method ClickDecisionButton(row: int, approve: bool)
      requires 0 <= row < |FilteredLeaves()| && FilteredLeaves()[row].status == PENDING
      modifies this`selectedLeaveId, this`actionType, this`commentText
      ensures selectedLeaveId == Some(FilteredLeaves()[row].id)
      ensures actionType == (if approve then APPROVE else REJECT) && commentText == ""
      ensures exists x :: x in leaves && Some(x.id) == selectedLeaveId && x.status == PENDING
    {
      var leave := FilteredLeaves()[row];
      assert leave in FilteredLeaves();
      HandleActionClick(leave.id, if approve then APPROVE else REJECT);
    }

    /** The View link of a table row; it exists only on rows that are not "Pending". */
    method ClickView(row: int)
      requires 0 <= row < |FilteredLeaves()| && FilteredLeaves()[row].status != PENDING
      modifies this`viewLeave
      ensures viewLeave == Some(FilteredLeaves()[row])
      ensures viewLeave.value in leaves && viewLeave.value.status != PENDING
    {
      var leave := FilteredLeaves()[row];
      assert leave in FilteredLeaves();
      viewLeave := Some(leave);
    }

    /** The Close button of the modal. */
    method CloseView()
      modifies this`viewLeave
      ensures viewLeave == None
    {
      viewLeave := None;
    }

    /**
     * Confirms the pending decision. Without a truthy id or an action kind it
     * does nothing. Otherwise it issues `approveLeave` when the kind is
     * "approve" and `rejectLeave` for any other kind, with the draft comment.
     * On success the records with the selected id take the new status and
     * the comment and the selection is cleared; on failure nothing changes,
     * so the form stays open with its draft.
     */
    method HandleConfirmAction(succeeded: bool) returns (call: Option<ApiCall>)
      modifies this`leaves, this`selectedLeaveId, this`actionType, this`commentText
      ensures !old(ReadyToConfirm()) ==> call == None
      ensures old(ReadyToConfirm()) ==>
        var id := old(selectedLeaveId).value;
        call == Some(if old(actionType) == APPROVE
                     then ApproveLeave(id, old(commentText))
                     else RejectLeave(id, old(commentText)))
      ensures old(ReadyToConfirm()) && succeeded ==>
        && leaves == ApplyDecision(old(leaves), old(selectedLeaveId).value, old(actionType), old(commentText))
        && selectedLeaveId == None && actionType == "" && commentText == ""
      ensures !(old(ReadyToConfirm()) && succeeded) ==>
        && leaves == old(leaves)
        && selectedLeaveId == old(selectedLeaveId) && actionType == old(actionType)
        && commentText == old(commentText)
    {
      if !ReadyToConfirm() {
        return None;
      }
      var id := selectedLeaveId.value;
      call := Some(if actionType == APPROVE then ApproveLeave(id, commentText) else RejectLeave(id, commentText));
      if succeeded {
        leaves := ApplyDecision(leaves, id, actionType, commentText);
        selectedLeaveId := None;
        actionType := "";
        commentText := "";
      }
    }

    /**
     * The Confirm button: rendered only while the comment form is shown and
     * enabled only for a comment that is not blank, so every decision sent
     * to the backend carries a non-blank comment.
     */
    method ClickConfirm(succeeded: bool) returns (call: Option<ApiCall>)
      requires HasSelection() && ConfirmEnabled()
      modifies this`leaves, this`selectedLeaveId, this`actionType, this`commentText
      ensures call == if old(actionType) == "" then None
                      else if old(actionType) == APPROVE then Some(ApproveLeave(old(selectedLeaveId).value, old(commentText)))
                      else Some(RejectLeave(old(selectedLeaveId).value, old(commentText)))
      ensures call.Some? ==> exists k :: 0 <= k < |call.value.comment| && !IsWhiteSpace(call.value.comment[k])
      ensures call.Some? && succeeded ==>
        && leaves == ApplyDecision(old(leaves), old(selectedLeaveId).value, old(actionType), old(commentText))
        && selectedLeaveId == None && actionType == "" && commentText == ""
      ensures !(call.Some? && succeeded) ==>
        && leaves == old(leaves)
        && selectedLeaveId == old(selectedLeaveId) && actionType == old(actionType)
        && commentText == old(commentText)
    {
      TrimEmptyIffBlank(commentText);
      call := HandleConfirmAction(succeeded);
    }

    /**
     * A whole decision from any state: the Approve or Reject button of a
     * pending row, a comment typed that is not blank (one that enables the
     * Confirm button, see `ConfirmEnabled`), then the Confirm handler. When
     * ids are distinct, the only record that can change is that pending
     * record, so a decided record is never touched.
     */
    method DecideRow(row: int, approve: bool, comment: string, succeeded: bool) returns (call: Option<ApiCall>)
      requires DistinctIds(leaves)
      requires 0 <= row < |FilteredLeaves()| && FilteredLeaves()[row].status == PENDING
      requires exists k :: 0 <= k < |comment| && !IsWhiteSpace(comment[k])
      modifies this`leaves, this`selectedLeaveId, this`actionType, this`commentText
      ensures |leaves| == |old(leaves)|
      ensures forall i :: 0 <= i < |leaves| && leaves[i] != old(leaves)[i] ==>
                old(leaves)[i].status == PENDING && old(leaves)[i].id == old(FilteredLeaves())[row].id
      ensures call.Some? <==> old(FilteredLeaves())[row].id != 0
      ensures var id := old(FilteredLeaves())[row].id;
              var kind := if approve then APPROVE else REJECT;
              if id != 0 && succeeded then
                && leaves == ApplyDecision(old(leaves), id, kind, comment)
                && selectedLeaveId == None && actionType == "" && commentText == ""
              else
                && leaves == old(leaves)
                && selectedLeaveId == Some(id) && actionType == kind && commentText == comment
    {
      ghost var before := leaves;
      ghost var leave := FilteredLeaves()[row];
      assert leave in FilteredLeaves();
      DecisionTouchesOnlyItsRecord(before, leave, if approve then APPROVE else REJECT, comment);
      ClickDecisionButton(row, approve);
      SetCommentText(comment);
      call := HandleConfirmAction(succeeded);
    }

    /** The Cancel button: drops the pending decision without a backend call. */
    method HandleCancelAction()
      modifies this`selectedLeaveId, this`actionType, this`commentText
      ensures selectedLeaveId == None && actionType == "" && commentText == ""
    {
      selectedLeaveId := None;
      actionType := "";
      commentText := "";
    }
  }

  /**
   * Walk-throughs that use only the contracts above: a pending record with id 7
   * approved with comment "ok", a failed call, and a change of target.
   */
  method ApproveWithCommentWalkThrough()
  {
    var a := Leave(7, Some("Asha"), "Sick", "2024-05-01", "2024-05-02", PENDING, None);
    var b := Leave(8, Some("Ben"), "Casual", "2024-05-03", "2024-05-03", PENDING, None);
    var page := new LeaveManagement();
    page.FetchLeaves(Some([a, b]));
    page.HandleActionClick(7, APPROVE);
    page.SetCommentText("ok");
    var call := page.HandleConfirmAction(true);
    assert call == Some(ApproveLeave(7, "ok"));
    assert page.leaves == ApplyDecision([a, b], 7, APPROVE, "ok");
    ApplyDecisionAt([a, b], 7, APPROVE, "ok");
    assert page.leaves[0] == a.(status := APPROVED, comment := Some("ok"));
    assert page.leaves[1] == b;
    assert page.selectedLeaveId == None && page.commentText == "";
  }

  method FailedCallKeepsDraftWalkThrough()
  {
    var a := Leave(7, Some("Asha"), "Sick", "2024-05-01", "2024-05-02", PENDING, None);
    var page := new LeaveManagement();
    page.FetchLeaves(Some([a]));
    page.HandleActionClick(7, REJECT);
    page.SetCommentText("overlaps release");
    var call := page.HandleConfirmAction(false);
    assert call == Some(RejectLeave(7, "overlaps release"));
    assert page.leaves == [a];
    assert page.selectedLeaveId == Some(7) && page.actionType == REJECT;
    assert page.commentText == "overlaps release";
  }

  method SwitchTargetWalkThrough()
  {
    var page := new LeaveManagement();
    page.HandleActionClick(7, APPROVE);
    page.SetCommentText("fine");
    page.HandleActionClick(8, REJECT);
    assert page.selectedLeaveId == Some(8) && page.actionType == REJECT && page.commentText == "";
  }

  /** A record whose id is 0 can be selected, but the confirm handler then does nothing. */
  method ZeroIdWalkThrough()
  {
    var a := Leave(0, Some("Asha"), "Sick", "2024-05-01", "2024-05-02", PENDING, None);
    var page := new LeaveManagement();
    page.FetchLeaves(Some([a]));
    page.HandleActionClick(0, APPROVE);
    page.SetCommentText("ok");
    var call := page.HandleConfirmAction(true);
    assert call == None && page.leaves == [a] && page.selectedLeaveId == Some(0);
  }
}
