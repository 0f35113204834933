# Leave management (admin view), modelled in Dafny

This project models the admin page of an HR system that lists employee leave
requests. The admin can narrow the table by a case-insensitive search on the
employee name and by a status drop-down. Pending requests can be approved or
rejected with a mandatory comment. Decided requests can be opened read-only in
a modal.

The project has three modules:

- `Text` (`text.dfy`) holds the string operations the view uses: `toLowerCase`
  (ASCII letters), `includes` and `trim`. `trim` removes exactly the ECMAScript
  WhiteSpace and LineTerminator code points.
- `LeaveRecords` (`leave_records.dfy`) holds the leave record and the filter
  that decides which rows the table shows. It also holds the local merge the
  view applies to its list after the backend accepts a decision. Both are pure
  functions.
- `LeaveManagementPage` (`leave_management.dfy`) holds the class
  `LeaveManagement`, whose fields are the view's seven pieces of state:
  `leaves`, `searchTerm`, `filterStatus`, `selectedLeaveId`, `actionType`,
  `commentText` and `viewLeave`. There is one method per event handler. Each
  method's `modifies` clause names exactly the fields the handler sets, so
  every other field is unchanged by construction. Four walk-through methods
  at the end follow from the contracts alone:
  - approving the record with id 7 with the comment "ok" updates that record only;
  - a failed call keeps the list, the selection and the typed draft;
  - switching to another record clears the draft;
  - a record with id 0 can be selected but not confirmed.

Calls to the backend are parameters. The fetch passes its response in as
`Option<seq<Leave>>`, where `None` is a failed request. A decision call passes
in `succeeded: bool`. `HandleConfirmAction` returns the call it issued
(`ApproveLeave` or `RejectLeave` with the id and comment), or `None` when its
guard stops it.

Behaviour of the code that the model keeps:

- The confirm handler tests `selectedLeaveId` for JavaScript truthiness. A
  record whose id is `0` can be selected, but confirming it does nothing, and
  the comment form is not rendered for it (`HasSelection`, `ZeroIdWalkThrough`).
- Any action kind other than `"approve"` issues the reject call and sets the
  status `"Rejected"`.
- The merge updates every record whose id equals the selected id. With
  distinct ids, a decision changes only the pending record it was started on
  (`DecideRow`). If ids repeat, deciding one record also overwrites its
  namesakes, even ones already decided: rejecting a pending record turns an
  "Approved" record with the same id into "Rejected" (`RepeatedIdOverwritesDecided`).

## Model

| member | source | states |
|---|---|---|
| `Text.ToLower` | client/src/pages/admin/LeaveManagement.jsx:36-38 | lower-casing keeps the length, maps each character on its own and leaves no upper-case ASCII letter |
| `Text.ToLowerForgetsCase` | client/src/pages/admin/LeaveManagement.jsx:36-38 | lower-casing the upper-cased string equals lower-casing the original, and lower-casing is idempotent |
| `Text.Contains` | client/src/pages/admin/LeaveManagement.jsx:38 | `includes`: every string includes the empty string, and nothing longer than itself |
| `Text.TrimStart` | client/src/pages/admin/LeaveManagement.jsx:208 | the result is a suffix of the input, everything dropped is white space, and the result does not start with white space |
| `Text.TrimEnd` | client/src/pages/admin/LeaveManagement.jsx:208 | the result is a prefix of the input, everything dropped is white space, and the result does not end with white space |
| `Text.Trim` | client/src/pages/admin/LeaveManagement.jsx:208 | `trim`: the result is a contiguous piece of the input that neither starts nor ends with white space, and everything of the input before and after it is white space |
| `Text.TrimEmptyIffBlank` | client/src/pages/admin/LeaveManagement.jsx:208 | a comment trims to "" if and only if every character of it is white space, so Confirm is disabled exactly for blank comments |
| `LeaveRecords.EmployeeName` | client/src/pages/admin/LeaveManagement.jsx:35 | the name used, `userName` with `""` as fallback, is "" exactly when the name is missing or empty, and otherwise the name itself |
| `LeaveRecords.MatchesSearch` | client/src/pages/admin/LeaveManagement.jsx:36-38 | an empty search term matches every record, and a matching term is no longer than the name |
| `LeaveRecords.MatchesStatus` | client/src/pages/admin/LeaveManagement.jsx:40-41 | the filter "All" lets every record through; any other filter value exactly the records with that status |
| `LeaveRecords.Shown` | client/src/pages/admin/LeaveManagement.jsx:43 | the default criteria show every record, and a shown record has the filtered status unless the filter is "All" |
| `LeaveRecords.FilterLeaves` | client/src/pages/admin/LeaveManagement.jsx:34-44 | every row shown is a record of the list that passes both the name search (missing name read as "") and the status filter ("All" or equal), and every such record is shown |
| `LeaveRecords.ShownPositionsIncreasing` | client/src/pages/admin/LeaveManagement.jsx:34-44 | the positions of the passing records are valid positions of the list, in strictly increasing order |
| `LeaveRecords.ShownPositionsComplete` | client/src/pages/admin/LeaveManagement.jsx:34-44 | a position is listed if and only if its record passes the filter |
| `LeaveRecords.FilterKeepsShownInOrder` | client/src/pages/admin/LeaveManagement.jsx:34-44 | the filtered list is the passing records, in their original order and with their multiplicities |
| `LeaveRecords.FilterIdempotent` | client/src/pages/admin/LeaveManagement.jsx:34-44 | filtering the filtered rows again yields the same rows |
| `LeaveRecords.DefaultFilterShowsAll` | client/src/pages/admin/LeaveManagement.jsx:34-44 | with an empty search and the filter "All", the filtered list is the whole list |
| `LeaveRecords.SearchIgnoresCase` | client/src/pages/admin/LeaveManagement.jsx:36-38 | for ASCII letters, typing the search term in capitals shows the same rows |
| `LeaveRecords.SearchIgnoresNameCase` | client/src/pages/admin/LeaveManagement.jsx:35-38 | for ASCII letters, a name written in capitals matches the same search terms as the name itself |
| `LeaveRecords.DecisionStatus` | client/src/pages/admin/LeaveManagement.jsx:69 | the new status is "Approved" if and only if the action kind is "approve", and is otherwise "Rejected" |
| `LeaveRecords.Decided` | client/src/pages/admin/LeaveManagement.jsx:67-71 | the decided record keeps every field but status and comment; its status is not "Pending", is "Approved" exactly for "approve", and its comment is the typed one |
| `LeaveRecords.ApplyDecision` | client/src/pages/admin/LeaveManagement.jsx:64-74 | the merge keeps the length of the list |
| `LeaveRecords.ApplyDecisionAt` | client/src/pages/admin/LeaveManagement.jsx:64-74 | at each position, a record with the selected id gets the decided status and the comment and keeps all its other fields; any other record is unchanged |
| `LeaveRecords.ApplyDecisionNoMatch` | client/src/pages/admin/LeaveManagement.jsx:64-74 | when no record carries the selected id, the list is unchanged |
| `LeaveRecords.ApplyDecisionIdempotent` | client/src/pages/admin/LeaveManagement.jsx:64-74 | merging the same decision twice gives the list that merging it once gives |
| `LeaveRecords.ApplyDecisionSettles` | client/src/pages/admin/LeaveManagement.jsx:64-74 | after the merge no record with the decided id is "Pending", and each carries the decision's comment |
| `LeaveRecords.DecisionTouchesOnlyItsRecord` | client/src/pages/admin/LeaveManagement.jsx:64-74 | with distinct ids, a decision on a record of the list changes that record and no other |
| `LeaveRecords.RepeatedIdOverwritesDecided` | client/src/pages/admin/LeaveManagement.jsx:64-74 | with a repeated id, the decision also rewrites an "Approved" record with that id, and a rejection turns it "Rejected" |
| `LeaveManagementPage.LeaveManagement.constructor` | client/src/pages/admin/LeaveManagement.jsx:5-17 | initial state: no records, empty search, filter "All", no selection, empty kind and comment, no modal |
| `LeaveManagementPage.LeaveManagement.FilteredLeaves` | client/src/pages/admin/LeaveManagement.jsx:34-44 | the rows shown are records of the list that pass the current criteria, and with the default criteria they are the whole list |
| `LeaveManagementPage.LeaveManagement.HasSelection` | client/src/pages/admin/LeaveManagement.jsx:192 | the selection is truthy exactly when an id is set and that id is not 0 |
| `LeaveManagementPage.LeaveManagement.ReadyToConfirm` | client/src/pages/admin/LeaveManagement.jsx:54 | the confirm handler proceeds only with a truthy id and a non-empty action kind |
| `LeaveManagementPage.LeaveManagement.ConfirmEnabled` | client/src/pages/admin/LeaveManagement.jsx:208 | Confirm is enabled if and only if the draft comment holds a character that is not white space |
| `LeaveManagementPage.LeaveManagement.FetchLeaves` | client/src/pages/admin/LeaveManagement.jsx:23-31 | a successful fetch replaces the list; a failed one leaves it as it was; nothing else changes |
| `LeaveManagementPage.LeaveManagement.SetSearchTerm` | client/src/pages/admin/LeaveManagement.jsx:101 | the search text becomes the typed value; nothing else changes |
| `LeaveManagementPage.LeaveManagement.SetFilterStatus` | client/src/pages/admin/LeaveManagement.jsx:108 | the status filter becomes the chosen value; nothing else changes |
| `LeaveManagementPage.LeaveManagement.SetCommentText` | client/src/pages/admin/LeaveManagement.jsx:200 | the draft comment becomes the typed value; nothing else changes |
| `LeaveManagementPage.LeaveManagement.Reset` | client/src/pages/admin/LeaveManagement.jsx:116-119 | search becomes "" and the filter "All", after which the table shows the whole list; nothing else changes |
| `LeaveManagementPage.LeaveManagement.HandleActionClick` | client/src/pages/admin/LeaveManagement.jsx:46-50 | selects the id and kind and clears the draft comment, replacing any earlier selection; the list and the filters are untouched |
| `LeaveManagementPage.LeaveManagement.ClickDecisionButton` | client/src/pages/admin/LeaveManagement.jsx:155-169 | the Approve/Reject buttons exist only on Pending rows; a click selects that row's id with "approve" or "reject" and an empty comment, so every selection names a Pending record of the list |
| `LeaveManagementPage.LeaveManagement.ClickView` | client/src/pages/admin/LeaveManagement.jsx:170-177 | the View link exists only on rows that are not Pending; the modal then holds exactly that row's record; nothing else changes |
| `LeaveManagementPage.LeaveManagement.CloseView` | client/src/pages/admin/LeaveManagement.jsx:251-255 | closing the modal clears it and changes nothing else |
| `LeaveManagementPage.LeaveManagement.HandleConfirmAction` | client/src/pages/admin/LeaveManagement.jsx:53-83 | without a truthy id or a kind, no call and no change; otherwise the approve call for "approve" and the reject call for any other kind. On success the list becomes the merge of the decision and the selection is cleared; on failure list, id, kind and draft are all kept |
| `LeaveManagementPage.LeaveManagement.ClickConfirm` | client/src/pages/admin/LeaveManagement.jsx:192-214 | the Confirm button exists only while the form is shown and is enabled only for a non-blank comment, so every call it issues carries a comment with a non-white-space character; its effect is that of the confirm handler |
| `LeaveManagementPage.LeaveManagement.DecideRow` | client/src/pages/admin/LeaveManagement.jsx:46-90 | from any state with distinct ids: Approve/Reject on a pending row, a non-blank comment, then Confirm keeps the list's length and changes no record except that pending one; a call is issued unless its id is 0; on success with a non-zero id the list is the decision merged into it and the selection is cleared, otherwise the list is unchanged and the selection, kind and draft stay as the clicks left them |
| `LeaveManagementPage.LeaveManagement.HandleCancelAction` | client/src/pages/admin/LeaveManagement.jsx:86-90 | clears id, kind and draft comment, without a backend call; the list is untouched |

## Left out

- Rendering: the JSX markup, CSS classes, the table and the modal's layout. The rows
  shown are modelled as `FilteredLeaves()`; which controls a row offers is modelled as
  the preconditions of `ClickDecisionButton` and `ClickView`.
- The backend (`getAllLeaves`, `approveLeave`, `rejectLeave`) lives in
  `services/leaveService`, which is not part of this model. Its answers are parameters.
  `useEffect` issuing the fetch once on mount is not modelled; `FetchLeaves` can be
  called at any point.
- `console.error` and `alert` only log or notify. They change no state and are not modelled.
- Asynchrony: each handler runs as one atomic step. Two decisions in flight at
  once, the order in which their answers arrive, and React's batching of state
  updates are not modelled.
- `Text.ToLower`: lower-cases only the ASCII letters A-Z. JavaScript's
  `toLowerCase` also maps the other Unicode letters. Full Unicode case mapping
  is out of scope.
- Strings are sequences of Unicode scalar values. JavaScript strings are
  sequences of UTF-16 code units. The two differ for characters outside the
  Basic Multilingual Plane, and for unpaired surrogate code units, which a
  JavaScript string can hold and a Dafny `char` cannot.
- Ids are integers. The code compares ids with `===` and tests them for
  truthiness. Ids of other JavaScript types (strings, `NaN`) are not modelled.
- `userName` is either a string or absent. Non-string values of that field are
  not modelled.
