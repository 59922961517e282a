/**
 * The request-validation rules of the leave and report workflows and the
 * activity-log filter: which leave type a free-text type becomes, which
 * status changes a supervisor may make and what they record, and which log
 * actions each filter category selects.
 */
module Workflows {
  import opened Wrappers
  import Attendance

  /** A request-body string is truthy when present and non-empty. */
  predicate Truthy(s: Option<string>) {
    s.Some? && s.value != ""
  }

  /** `value || null`: a falsy string is stored as null. */
  function OrNull(s: Option<string>): (r: Option<string>)
    ensures r.Some? <==> Truthy(s)
    ensures r.Some? ==> r == s
  {
    if Truthy(s) then s else None
  }

  // ----- leave requests -----

  datatype LeaveType = Personal | Sick | Other
  datatype ApprovalStatus = Pending | Approved | Rejected

  /** `toLowerCase` on the ASCII letters; every other character is kept. */
  function AsciiLower(s: string): (r: string)
    ensures |r| == |s|
    ensures forall i :: 0 <= i < |s| ==> ('A' <= s[i] <= 'Z' ==> r[i] == (s[i] as int + 32) as char)
    ensures forall i :: 0 <= i < |s| ==> (!('A' <= s[i] <= 'Z') ==> r[i] == s[i])
  {
    if s == [] then []
    else [if 'A' <= s[0] <= 'Z' then (s[0] as int + 32) as char else s[0]] + AsciiLower(s[1..])
  }

  /** Lower-casing twice changes nothing more. */
  lemma {:induction false} AsciiLowerIdempotent(s: string)
    ensures AsciiLower(AsciiLower(s)) == AsciiLower(s)
  {
    if s != [] {
      AsciiLowerIdempotent(s[1..]);
      assert AsciiLower(s)[1..] == AsciiLower(s[1..]);
    }
  }

  /**
   * `typeMap[type.toLowerCase()] || 'OTHER'`: "izin" and "sakit" in any
   * letter case are recognised; everything else, "cuti" included, is OTHER.
   */
  function LeaveTypeFor(text: string): (t: LeaveType)
    ensures t == Personal <==> AsciiLower(text) == "izin"
    ensures t == Sick <==> AsciiLower(text) == "sakit"
    ensures t == Other <==> AsciiLower(text) != "izin" && AsciiLower(text) != "sakit"
  {
    var key := AsciiLower(text);
    if key == "izin" then Personal
    else if key == "sakit" then Sick
    else Other
  }

  /** Lower-casing the submitted type first does not change the leave type it maps to. */
  lemma LeaveTypeClassifies(text: string)
    ensures LeaveTypeFor(AsciiLower(text)) == LeaveTypeFor(text)
  {
    AsciiLowerIdempotent(text);
  }

  datatype LeaveForm = LeaveForm(
    userId: Option<string>, startDate: Option<string>, endDate: Option<string>,
    leaveType: Option<string>, reason: Option<string>, uploadedFile: Option<string>)

  /** The row `POST /api/leave-requests` creates (dates kept as the submitted text). */
  datatype LeaveDraft = LeaveDraft(
    userId: string, startDate: string, endDate: string, leaveType: LeaveType,
    reason: string, attachment: Option<string>, status: ApprovalStatus)

  datatype WorkflowError = MissingFields | BadStatus

  predicate LeaveFormComplete(f: LeaveForm) {
    Truthy(f.userId) && Truthy(f.startDate) && Truthy(f.endDate) && Truthy(f.leaveType) && Truthy(f.reason)
  }

  /** Validation and row construction of a leave submission. */
  function SubmitLeave(f: LeaveForm): (r: Result<LeaveDraft, WorkflowError>)
    ensures r.Ok? <==> LeaveFormComplete(f)
    ensures r.Err? ==> r.error == MissingFields
    ensures r.Ok? ==> r.value.startDate == f.startDate.value && r.value.endDate == f.endDate.value
    ensures r.Ok? ==> r.value.status == Pending && r.value.userId == f.userId.value
                      && r.value.leaveType == LeaveTypeFor(f.leaveType.value)
                      && r.value.reason == f.reason.value
    ensures r.Ok? ==> (r.value.attachment.Some? <==> f.uploadedFile.Some?)
    ensures r.Ok? && f.uploadedFile.Some? ==> r.value.attachment == Some("/uploads/" + f.uploadedFile.value)
  {
    if !LeaveFormComplete(f) then Err(MissingFields)
    else
      var attachment := if f.uploadedFile.Some? then Some("/uploads/" + f.uploadedFile.value) else None;
      Ok(LeaveDraft(f.userId.value, f.startDate.value, f.endDate.value, LeaveTypeFor(f.leaveType.value),
                    f.reason.value, attachment, Pending))
  }

  /** The fields `PUT /api/leave-requests/:id/status` writes, and the message it answers with. */
  datatype LeaveDecision = LeaveDecision(
    status: ApprovalStatus, approvedBy: Option<string>, approvedAt: Option<int>, message: string)

  function DecideLeave(status: Option<string>, approvedBy: Option<string>, now: int): (r: Result<LeaveDecision, WorkflowError>)
    ensures r.Ok? <==> status == Some("APPROVED") || status == Some("REJECTED")
    ensures r.Err? ==> r.error == BadStatus
    ensures r.Ok? ==> (r.value.status == Approved <==> status == Some("APPROVED"))
    ensures r.Ok? ==> r.value.status != Pending
    ensures r.Ok? ==> (r.value.approvedAt.Some? <==> r.value.status == Approved)
    ensures r.Ok? && r.value.approvedAt.Some? ==> r.value.approvedAt.value == now
    ensures r.Ok? ==> r.value.approvedBy == OrNull(approvedBy)
    ensures r.Ok? ==> r.value.message == (if r.value.status == Approved then "Izin disetujui" else "Izin ditolak")
  {
    if status == Some("APPROVED") then Ok(LeaveDecision(Approved, OrNull(approvedBy), Some(now), "Izin disetujui"))
    else if status == Some("REJECTED") then Ok(LeaveDecision(Rejected, OrNull(approvedBy), None, "Izin ditolak"))
    else Err(BadStatus)
  }

  /** A leave row as the decision sees it. */
  datatype LeaveRow = LeaveRow(draft: LeaveDraft, approvedBy: Option<string>, approvedAt: Option<int>)

  /**
   * Applies a decision to the row `id`; a missing row is the store's failure
   * (answered with 500), and every other row is left as it was.
   */
  function ApplyLeaveDecision(rows: map<string, LeaveRow>, id: string, d: LeaveDecision): (r: Option<map<string, LeaveRow>>)
    ensures r.Some? <==> id in rows
    ensures r.Some? ==> r.value.Keys == rows.Keys
    ensures r.Some? ==> forall k :: k in rows && k != id ==> r.value[k] == rows[k]
    ensures r.Some? ==> r.value[id].draft.status == d.status && r.value[id].approvedAt == d.approvedAt
                        && r.value[id].approvedBy == d.approvedBy
    ensures r.Some? ==> r.value[id].draft.(status := rows[id].draft.status) == rows[id].draft
  {
    if id !in rows then None
    else
      var row := rows[id];
      Some(rows[id := LeaveRow(row.draft.(status := d.status), d.approvedBy, d.approvedAt)])
  }

  /** A row that is approved carries its approval time; a rejected one carries none. */
  lemma DecisionKeepsApprovalStamp(rows: map<string, LeaveRow>, id: string, status: Option<string>,
                                   approvedBy: Option<string>, now: int)
    requires id in rows
    requires DecideLeave(status, approvedBy, now).Ok?
    ensures var after := ApplyLeaveDecision(rows, id, DecideLeave(status, approvedBy, now).value).value;
            (after[id].approvedAt.Some? <==> after[id].draft.status == Approved)
            && (after[id].draft.status == Approved ==> after[id].approvedAt == Some(now))
  {
  }

  // ----- report review -----

  datatype ReportStatus = ReportApproved | RevisionNeeded

  /** The fields `PUT /api/reports/:id/review` writes, the activity it logs and its message. */
  datatype Review = Review(
    status: ReportStatus, reviewedBy: Option<string>, reviewedAt: int, feedback: Option<string>,
    logged: Option<string>, message: string)

  function ReviewReport(status: Option<string>, reviewedBy: Option<string>, feedback: Option<string>, now: int)
    : (r: Result<Review, WorkflowError>)
    ensures r.Ok? <==> status == Some("APPROVED") || status == Some("REVISION_NEEDED")
    ensures r.Err? ==> r.error == BadStatus
    ensures r.Ok? ==> (r.value.status == ReportApproved <==> status == Some("APPROVED"))
    ensures r.Ok? ==> r.value.reviewedAt == now && r.value.reviewedBy == OrNull(reviewedBy)
                      && r.value.feedback == OrNull(feedback)
    ensures r.Ok? ==> (r.value.logged.Some? <==> Truthy(reviewedBy))
    ensures r.Ok? && r.value.logged.Some? ==>
              r.value.logged.value == (if r.value.status == ReportApproved then "REPORT_APPROVED" else "REPORT_REVISION")
    ensures r.Ok? ==> r.value.message == (if status == Some("APPROVED") then "Laporan disetujui" else "Laporan perlu revisi")
  {
    if status != Some("APPROVED") && status != Some("REVISION_NEEDED") then Err(BadStatus)
    else
      var s := if status == Some("APPROVED") then ReportApproved else RevisionNeeded;
      var action := if s == ReportApproved then "REPORT_APPROVED" else "REPORT_REVISION";
      Ok(Review(s, OrNull(reviewedBy), now, OrNull(feedback),
                if Truthy(reviewedBy) then Some(action) else None,
                if s == ReportApproved then "Laporan disetujui" else "Laporan perlu revisi"))
  }

  // ----- activity-log filter -----

  /** `actionMap[action]`: the actions a filter category selects. */
  function CategoryActions(category: string): (r: Option<set<string>>)
    ensures r.Some? <==> category in {"absen", "izin", "laporan", "login", "user"}
    ensures r.Some? ==> r.value != {}
  {
    if category == "absen" then Some({"CHECK_IN", "CHECK_OUT"})
    else if category == "izin" then Some({"LEAVE_REQUEST"})
    else if category == "laporan" then Some({"REPORT_SUBMITTED", "REPORT_REVIEWED", "REPORT_APPROVED", "REPORT_REVISION"})
    else if category == "login" then Some({"LOGIN"})
    else if category == "user" then Some({"USER_CREATED", "USER_UPDATED", "PASSWORD_CHANGED"})
    else None
  }

  /**
   * The `action IN (...)` condition the log query adds, or None when it adds
   * none: no category, "all", or a category the map does not know.
   */
  function ActionFilter(action: Option<string>): (r: Option<set<string>>)
    ensures r.Some? ==> Truthy(action) && action.value != "all" && r == CategoryActions(action.value)
    ensures Truthy(action) && action.value != "all" && CategoryActions(action.value).Some? ==> r.Some?
  {
    if !Truthy(action) || action.value == "all" then None else CategoryActions(action.value)
  }

  /** Whether a log row with `logged` action is listed under the filter. */
  predicate Shown(action: Option<string>, logged: string) {
    var f := ActionFilter(action);
    f.None? || logged in f.value
  }

  /** No log action is listed under two categories. */
  lemma CategoriesDisjoint(c1: string, c2: string, a: string)
    requires CategoryActions(c1).Some? && CategoryActions(c2).Some?
    requires a in CategoryActions(c1).value && a in CategoryActions(c2).value
    ensures c1 == c2
  {
  }

  /** Every row the attendance engine logs is listed under "absen" and under no other category. */
  lemma EngineLogIsAbsen(e: Attendance.LogEntry, category: string)
    ensures Shown(Some("absen"), e.Action())
    ensures CategoryActions(category).Some? && category != "absen" ==> !Shown(Some(category), e.Action())
  {
  }

  /** The activity a leave submission logs. */
  const LeaveLogAction: string := "LEAVE_REQUEST"

  /** A leave submission's log row is listed under "izin" only. */
  lemma LeaveLogIsIzin(category: string)
    ensures Shown(Some("izin"), LeaveLogAction)
    ensures CategoryActions(category).Some? && category != "izin" ==> !Shown(Some(category), LeaveLogAction)
  {
  }

  /** A logged review is listed under "laporan". */
  lemma ReviewLogIsLaporan(status: Option<string>, reviewedBy: Option<string>, feedback: Option<string>, now: int)
    requires ReviewReport(status, reviewedBy, feedback, now).Ok?
    requires ReviewReport(status, reviewedBy, feedback, now).value.logged.Some?
    ensures Shown(Some("laporan"), ReviewReport(status, reviewedBy, feedback, now).value.logged.value)
  {
  }
}
