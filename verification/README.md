# Geofenced attendance engine — Dafny model

This project models the attendance system of an internship programme. Students check in and out at an
office. The server accepts a check-in from 08:00 WIB (Western Indonesia Time, UTC+7) and a check-out from
17:00 WIB. Both must come from within 50 m of the office. A check-in after 08:15 is LATE. Each user has
at most one attendance row per WIB day. The server keeps every instant in a "fake UTC" convention: it
shifts the clock seven hours ahead and stores the result as if it were UTC, so the UTC fields of a stored
instant are the WIB wall-clock fields.

The modules:

- `Wrappers` holds `Option` and `Result`.
- `JsText` holds the JavaScript primitives the code relies on: `String(n)`, `padStart`, `parseInt`,
  `Math.round`, `Math.floor(a / b)` and the truncating `%`. Each is written out over unbounded integers
  and reals, with their read-back lemmas.
- `CivilTime` derives the WIB day, clock and stored `now` from a UTC millisecond instant. It proves that
  `now` lies inside `today`, that reading a stored instant's UTC fields gives back the WIB clock, and
  that `today` is stable while the WIB date does not change.
- `Attendance` is the engine. `CheckInOutcome` and `CheckOutOutcome` are pure decision functions.
  `Committed` gives the table after a decision. The class `AttendanceStore` holds the keyed table and
  the activity log, and its `CheckIn` and `CheckOut` methods follow the handlers step by step and are
  proved equal to the decision functions. The ghost predicate `StoreValid` is the table invariant, and
  both handlers preserve it.
- `CustomId` is role-based user-id generation, over the users' ids and roles.
- `Workflows` covers the leave-type mapping, leave and report status decisions, and the activity-log
  filter.
- `Dashboard` covers rounded percentages, the Monday of the week and the weekly chart loop.
- `AttendancePage` is the client page: `formatTime`, `formatDuration`, the history tally, the button
  predicates and the guards of the two click handlers.

Where a comment in the source disagrees with its code, the model follows the code:

- Check-in opens at 08:00. The comment at server/index.ts:833 says 11:00.
- The radius is 50 m. The comment at server/index.ts:867 says 100 m.
- Check-out has no `typeof number` test.
- The activity-log write is awaited, so it happens before the response. The model appends the log entry
  in the same step as the row update, not as a fire-and-forget side effect.

## Model

| member | source | states |
|---|---|---|
| JsText.NatToString | server/index.ts:221-222 | `String(n)` is a non-empty run of digits with no leading zero (n > 0); one digit exactly when n < 10 |
| JsText.ParseNatToString | server/index.ts:221-222 | reading back the digits `String(n)` wrote gives n |
| JsText.NatToStringInjective | server/index.ts:221-222 | two numbers with the same decimal text are equal |
| JsText.PadStart | server/index.ts:222 | `padStart` fills on the left up to the width, keeps a longer text whole, and the original text is the suffix |
| JsText.PadStartRoundTrip | server/index.ts:222 | a zero-padded number is all digits and reads back as the number |
| JsText.Pad2RoundTrip | server/index.ts:823-824 | a clock field below 100 padded to two places is exactly two digits and reads back as itself |
| JsText.Pad2 | server/index.ts:823-824 | a clock field is its decimal text padded on the left with zeros to two places |
| JsText.ParseInt | server/index.ts:221 | `parseInt` is NaN exactly when the text is empty or does not start with a digit |
| JsText.ParseIntPadded | server/index.ts:221-222 | `parseInt` of any zero-padded counter gives the counter back |
| JsText.Round | server/index.ts:871 | `Math.round(x)` is the integer within half a unit of x, halves rounded up |
| JsText.FloorDiv | server/index.ts:1009 | `Math.floor(a / b)` is the q with `b*q <= a < b*q + b` |
| JsText.JsRem | server/index.ts:1025 | JavaScript `%` takes the dividend's sign: the Euclidean remainder for a >= 0, its negation mirrored for a < 0 |
| JsText.IntToString | src/components/AttendancePage.tsx:348 | `String(i)`: a non-negative integer reads back as itself; a negative one is a minus sign followed by the digits of its magnitude |
| JsText.JoinClockFields | server/index.ts:837-838 | joining two 2-character fields with ':' gives 5 characters whose halves are the fields |
| CivilTime.UtcHours | server/index.ts:834 | `getUTCHours` is in [0, 24) |
| CivilTime.UtcMinutes | server/index.ts:824 | `getUTCMinutes` is in [0, 60) |
| CivilTime.UtcSeconds | server/index.ts:825 | `getUTCSeconds` is in [0, 60) |
| CivilTime.UtcMidnight | server/index.ts:54-61 | the UTC midnight of an instant is a whole day and the instant lies in that day |
| CivilTime.WibTime | server/index.ts:47-51 | the WIB clock is the UTC clock seven hours ahead |
| CivilTime.CivilHour | server/index.ts:834 | the WIB hour is in [0, 24) |
| CivilTime.CivilMinute | server/index.ts:882 | the WIB minute is in [0, 60) |
| CivilTime.CivilSecond | server/index.ts:825 | the WIB second is in [0, 60) |
| CivilTime.CivilToday | server/index.ts:54-61 | the stored `today` is a whole UTC day and the shifted instant lies in `[today, today + 24h)` |
| CivilTime.CivilNow | server/index.ts:828 | the stored `now` is a whole second, at most one second before the shifted instant |
| CivilTime.ClockText | server/index.ts:823-824 | the `HH:MM` text is 5 characters whose halves read back as the WIB hour and minute |
| CivilTime.CivilNowBounds | server/index.ts:815-829 | the stored `now` is the shifted instant cut to a whole second, lies inside `today`, and hour/minute are in range |
| CivilTime.ReadBack | server/index.ts:828-829 | the UTC midnight, hours, minutes and seconds of the stored `now` are the WIB date and clock fields |
| CivilTime.TodayStable | server/index.ts:829 | later readings never have an earlier `today` or `now`; two readings share `today` exactly when the later one is before the next WIB midnight |
| Attendance.PresenceCheck | server/index.ts:804-809 | passes exactly when the user id is truthy and neither coordinate is undefined; a falsy user id is answered first with the user-id error, and only a request with a user id gets the missing-coordinates error |
| Attendance.CheckInValidation | server/index.ts:804-812 | passes exactly when the request also has numeric coordinates; a missing field is answered as the presence check answers it, and present but non-numeric coordinates give the "not numbers" rejection |
| Attendance.IsLate | server/index.ts:883 | late exactly when the clock is strictly after 08:15 in whole minutes |
| Attendance.StatusAt | server/index.ts:882-884 | the status is PRESENT or LATE, and LATE exactly when the WIB clock is after 08:15 |
| Attendance.WorkedMinutes | server/index.ts:1009 | the duration is the number of whole minutes between check-in and check-out |
| Attendance.KeyFor | server/index.ts:844-850 | the `userId_date` key: the user and the day-aligned start of the WIB day containing the request instant |
| Attendance.LogEntry.Action | server/index.ts:924 | the action string of a log row: CHECK_IN for a check-in, CHECK_OUT (line 1024) for a check-out |
| Attendance.Committed | server/index.ts:887-917 | an accepted row is written under the user's key for today (created or replaced, never duplicated), all other rows unchanged; a rejection changes nothing |
| Attendance.CheckedInToday | server/index.ts:844-859 | the user's row for today exists and already has a check-in |
| Attendance.OpenToday | server/index.ts:980-991 | the user's row for today exists, has a check-in and has no check-out |
| Attendance.CheckInOutcome | server/index.ts:799-917 | a check-in is accepted exactly when the request is well formed, the WIB hour is >= 8, today's row has no check-in and the distance is <= 50; a malformed request gets the validation's rejection; the accepted row carries `now`, the coordinates, the rounded distance and the status, and updates an existing row or creates one dated today |
| Attendance.CheckInAcceptedRow | server/index.ts:887-917 | an accepted check-in updates today's row with the time, coordinates, rounded distance and status, or creates a row for today with the same fields |
| Attendance.CheckInTooEarly | server/index.ts:834-841 | before 08:00 the answer is "not open yet" with the current clock and "8:00" |
| Attendance.CheckInDuplicate | server/index.ts:844-859 | a second check-in the same day is refused with the existing check-in time |
| Attendance.CheckInOutOfRange | server/index.ts:862-876 | beyond 50 m the answer carries the rounded distance, the limit and the user's position |
| Attendance.RadiusBoundary | server/index.ts:749 | exactly 50 m passes and stores distance 50; 51 m is refused |
| Attendance.StatusExamples | server/index.ts:882-884 | 08:15 is PRESENT, 08:16 and 09:00 are LATE |
| Attendance.CheckInWindowExamples | server/index.ts:834-835 | 07:59 is refused and 08:00 is accepted on an empty table |
| Attendance.CheckInKeepsValid | server/index.ts:887-917 | an accepted check-in preserves the table invariant |
| Attendance.SecondCheckInRefused | server/index.ts:844-859 | after an accepted check-in, the table grew by at most one key and any later check-in by that user the same WIB day is refused |
| Attendance.CheckOutOutcome | server/index.ts:943-1018 | a check-out is accepted exactly when the user id and coordinates are present, the hour is >= 17, today's row is open, and the distance is not a number > 50; otherwise the answer is, in this order, the presence rejection, "not open yet" with the clock and "17:00", "not checked in", or "too far" with the rounded distance and 50; an accepted check-out changes only `checkOut`, `duration` and `updatedAt` |
| Attendance.CheckOutKeepsValid | server/index.ts:1008-1018 | an accepted check-out preserves the table invariant |
| Attendance.SecondCheckOutRefused | server/index.ts:980-991 | after an accepted check-out, any other check-out that day is refused |
| Attendance.WorkedMinutesOnClock | server/index.ts:1009 | the duration is the clock-minute difference, one less when the check-out second is earlier than the check-in second |
| Attendance.DurationNonNegative | server/index.ts:1009 | with a non-decreasing clock the stored duration is never negative |
| Attendance.FullDayExample | server/index.ts:882-884 | checking in at 08:10 and out at 17:05 gives PRESENT and 535 minutes |
| Attendance.CheckOutAcceptsNaNDistance | server/index.ts:947-953 | a non-numeric latitude with a NaN distance is accepted on an open row (finding, as written) |
| Attendance.GuardedCheckOutOutcome | server/index.ts:1000 | corrected check-out: acceptance needs numeric coordinates and a known distance <= 50; otherwise agrees with the handler |
| Attendance.GuardedCheckOutKeepsValid | server/index.ts:1000-1018 | the corrected check-out preserves the invariant and refuses every NaN distance |
| Attendance.AttendanceStore.TodayRecord | server/index.ts:768-784 | today's row for the user if there is one, dated today and owned by the user |
| Attendance.AttendanceStore.constructor | server/index.ts:14 | the store opens on a table that satisfies the invariant, with no entry logged yet |
| Attendance.AttendanceStore.CheckIn | server/index.ts:799-941 | the handler's result is the decision function's; the table becomes the committed table; an accepted check-in appends one CHECK_IN entry with the clock, lateness and rounded distance; the invariant holds |
| Attendance.AttendanceStore.CheckOut | server/index.ts:943-1037 | the handler's result is the decision function's; the table becomes the committed table; an accepted check-out appends one CHECK_OUT entry with the hours and minutes worked; the invariant holds |
| CustomId.LexLeqTotal | server/index.ts:219 | the string order of ids is total |
| CustomId.LexLeqTransitive | server/index.ts:219 | the string order of ids is transitive |
| CustomId.LexLeq | server/index.ts:219 | the `orderBy: { id: 'desc' }` order: character by character, a proper prefix first (its properties are the two lemmas above) |
| CustomId.StartsWith | server/index.ts:217 | the `startsWith` filter on the id |
| CustomId.Candidate | server/index.ts:216-218 | the rows the query selects: the scheme's role and an id starting with its prefix |
| CustomId.SchemeFor | server/index.ts:211-245 | PEMBIMBING and ADMIN keep their role with 3 digits; every other role is searched as MAHASISWA with 4 digits; the prefix is "pg", "am" or "ms" according to the role |
| CustomId.SchemePrefixesDistinct | server/index.ts:216-240 | two roles share a prefix only when they are the same role |
| CustomId.LastId | server/index.ts:214-220 | the last id is the greatest id in string order among the users that have the scheme's role and an id with its prefix; it belongs to such a user, and it is None exactly when there is no such user |
| CustomId.NextCounter | server/index.ts:221 | 1 when the role has no id yet; otherwise one above the last id's counter, or NaN exactly when that counter does not parse |
| CustomId.CounterOf | server/index.ts:221 | the counter is `parseInt` of what follows the prefix |
| CustomId.CounterText | server/index.ts:221-222 | the counter's text is its decimal digits, which `parseInt` reads back, or "NaN", which it does not |
| CustomId.NextId | server/index.ts:209-245 | the new id is the prefix, then zeros, then the counter's text, exactly as long as prefix plus the larger of the width and the text; its counter reads back as the next counter |
| CustomId.PaddedCounter | server/index.ts:222 | the prefix, then zeros, then the counter's text, padded to the width but never cut; a present counter reads back as itself |
| CustomId.FirstIdOfRole | server/index.ts:221-222 | the first id of a role is the prefix, zeros and a final 1 (`pg001`, `am001`, `ms0001`) |
| CustomId.NextIdSucceeds | server/index.ts:221-222 | after an id with counter n the next id carries n + 1 |
| CustomId.LexicalLastIdRepeats | server/index.ts:214-222 | with `pg999` and `pg1000` taken the generator produces `pg1000` again (finding, as written) |
| CustomId.RoleChangeRepeatsId | server/index.ts:214-222 | when the only `pg` id belongs to a user whose role became ADMIN, the next supervisor is given that same `pg001` (finding, as written) |
| CustomId.MaxCounter | server/index.ts:221 | the largest parsable counter among all ids with the prefix, whatever the holder's role: it bounds every such counter and, when positive, is one of them |
| CustomId.NextIdByValue | server/index.ts:221-222 | corrected generator: the counter is one above the largest in use under the prefix and the id is held by no user |
| CustomId.NextIdByValuePassesThousand | server/index.ts:214-222 | the corrected generator gives counter 1001 after `pg999` and `pg1000` |
| CustomId.NextIdByValueSeesOtherRoles | server/index.ts:214-222 | the corrected generator gives counter 2 beside the promoted `pg001` |
| Workflows.OrNull | server/index.ts:1313 | a falsy request value is stored as null and a truthy one as itself |
| Workflows.Truthy | server/index.ts:1170 | JavaScript truthiness of a request-body string: present and non-empty (the same test guards the report handler at line 1339) |
| Workflows.AsciiLower | server/index.ts:1183 | `toLowerCase` maps A-Z to a-z and keeps every other character |
| Workflows.AsciiLowerIdempotent | server/index.ts:1183 | lower-casing twice changes nothing more |
| Workflows.LeaveTypeFor | server/index.ts:1178-1183 | PERSONAL exactly for "izin", SICK exactly for "sakit" in any letter case, OTHER for everything else, "cuti" included |
| Workflows.LeaveTypeClassifies | server/index.ts:1183 | lower-casing the submitted type first does not change the leave type |
| Workflows.SubmitLeave | server/index.ts:1170-1199 | a submission is accepted exactly when all five fields are truthy; the row is PENDING with the submitter, the submitted dates and reason, the mapped type, and an attachment path exactly when a file came |
| Workflows.DecideLeave | server/index.ts:1307-1325 | only APPROVED and REJECTED are accepted; `approvedAt` is set exactly for APPROVED; `approvedBy` is the truthy approver or null; the message follows the status |
| Workflows.ApplyLeaveDecision | server/index.ts:1311-1320 | the named row gets the decision's status, approver and approval time and keeps every other field; every other row is unchanged; a missing row is a failure |
| Workflows.DecisionKeepsApprovalStamp | server/index.ts:1311-1320 | an approved row carries the approval time and a rejected one none |
| Workflows.ReviewReport | server/index.ts:1460-1498 | only APPROVED and REVISION_NEEDED are accepted; the review time is always set; an activity is logged exactly when the reviewer is truthy, with REPORT_APPROVED or REPORT_REVISION; the reply message is "Laporan disetujui" for APPROVED and "Laporan perlu revisi" otherwise |
| Workflows.CategoryActions | server/index.ts:647-653 | exactly the five categories absen, izin, laporan, login and user have an action list, and none is empty |
| Workflows.ActionFilter | server/index.ts:646-658 | a filter is added only for a truthy category other than "all" that the map knows, and is that category's actions |
| Workflows.Shown | server/index.ts:646-658 | a log row is listed when no filter applies or its action is in the filter |
| Workflows.CategoriesDisjoint | server/index.ts:647-653 | no action belongs to two categories |
| Workflows.EngineLogIsAbsen | server/index.ts:648 | the engine's CHECK_IN and CHECK_OUT rows are listed under "absen" and under no other category |
| Workflows.LeaveLogIsIzin | server/index.ts:1202-1208 | the LEAVE_REQUEST row of a leave submission is listed under "izin" only |
| Workflows.ReviewLogIsLaporan | server/index.ts:1480-1494 | a logged review is listed under "laporan" |
| Dashboard.Percent | server/index.ts:1627-1629 | with no total the percentage is 0; otherwise it is within half a point of the exact percentage |
| Dashboard.PercentIsRound | server/index.ts:537 | the integer percentage equals `Math.round` of the exact ratio times 100 |
| Dashboard.PercentBounds | server/index.ts:589 | a part of the total shows between 0 and 100, and a larger part never shows less |
| Dashboard.PercentEnds | server/index.ts:589 | the whole shows 100 and nothing shows 0 |
| Dashboard.PieSharesSum | server/index.ts:1624-1630 | the three monthly shares add up to between 99 and 101 |
| Dashboard.Weekday | server/index.ts:1514 | `getDay` is in [0, 7) |
| Dashboard.MondayOffset | server/index.ts:1516 | stepping back by the offset always lands on a Monday |
| Dashboard.MondayOf | server/index.ts:1515-1516 | the Monday is a whole number of days back from today, at most six |
| Dashboard.MondayOfWeek | server/index.ts:1513-1516 | the Monday found is a midnight on a Monday at most six days back, and the five chart days are Monday to Friday |
| Dashboard.ScopeFor | server/index.ts:1529-1539 | a student with an id sees own rows, a supervisor with an id sees their students' rows, everyone else every row |
| Dashboard.InScope | server/index.ts:1529-1539 | a row is in scope when it is the student's own, when it belongs to a student of the supervisor, or always for everyone else |
| Dashboard.Count | server/index.ts:1541-1560 | a count never exceeds the rows |
| Dashboard.BarFor | server/index.ts:1541-1568 | a day's bar holds that day's hadir, izin and alpha counts in scope |
| Dashboard.CountSplit | server/index.ts:1541-1560 | counting disjoint status groups separately adds up to counting them together |
| Dashboard.BarPartitionsDay | server/index.ts:1541-1560 | every row of the day in scope is counted in exactly one of hadir, izin and alpha |
| Dashboard.WeeklyChart | server/index.ts:1508-1572 | five bars, Sen to Jum, one per day of the current WIB week, each holding that day's three counts in the caller's scope |
| AttendancePage.FormatTime | src/components/AttendancePage.tsx:334-341 | "-" for no instant; otherwise `HH:MM` whose halves read back as the instant's UTC hour and minute |
| AttendancePage.FormatTimeShowsWibClock | src/components/AttendancePage.tsx:334-341 | a stored check-in or check-out is shown as the WIB clock the server read when it wrote it |
| AttendancePage.FormatDuration | src/components/AttendancePage.tsx:344-349 | "-" exactly for no or zero minutes; for a positive count hours, "j ", minutes below 60, "m"; for a negative count the hours rounded up and the leftover minutes, each with a minus sign |
| AttendancePage.DurationFields | src/components/AttendancePage.tsx:346-348 | `Math.floor` and `%` on the minute count give the hours and leftover minutes of a positive count, and the negated rounded-up hours and negated leftover of a negative one |
| AttendancePage.LeftoverText | src/components/AttendancePage.tsx:347 | `String(m % 60)` of a negative count is "0" when 60 divides it and otherwise a minus sign and the leftover minutes |
| AttendancePage.SplitAfterDigits | src/components/AttendancePage.tsx:348 | digits followed by a non-digit separator split in only one way |
| AttendancePage.DurationTextDetermines | src/components/AttendancePage.tsx:344-349 | two positive durations shown alike are equal |
| AttendancePage.DurationParts | src/components/AttendancePage.tsx:346-348 | the minutes part is below 60 and 60 × hours + minutes is the duration |
| AttendancePage.CountStatus | src/components/AttendancePage.tsx:206-207 | a filter count never exceeds the history |
| AttendancePage.CountStatusSplit | src/components/AttendancePage.tsx:206-207 | filter counts over disjoint status groups add up |
| AttendancePage.CountAllStatuses | src/components/AttendancePage.tsx:206-207 | every row has one of the five statuses |
| AttendancePage.Tally | src/components/AttendancePage.tsx:205-208 | hadir counts PRESENT/LATE and izin counts LEAVE/SICK; with the ABSENT rows they make up the whole history; a missing history tallies 0 and 0 |
| AttendancePage.PreviewAcceptsRefusedDistance | src/components/AttendancePage.tsx:378 | 50.25 m is shown as a valid location but the server refuses it as too far (finding, as written) |
| AttendancePage.PreviewAgreesWithServer | src/components/AttendancePage.tsx:378 | corrected preview: with the unrounded distance the page shows "valid" exactly when the server's radius gate accepts |
| AttendancePage.LocationWithinLimit | src/components/AttendancePage.tsx:378 | corrected preview: the unrounded distance and the office are known and the distance is within the limit |
| AttendancePage.HasCheckedIn | src/components/AttendancePage.tsx:376 | the page treats today as checked in when its row has a check-in time |
| AttendancePage.HasCheckedOut | src/components/AttendancePage.tsx:377 | the page treats today as checked out when its row has a check-out time |
| AttendancePage.IsLocationValid | src/components/AttendancePage.tsx:378 | the preview is valid when a (rounded) distance and the office are known and the distance is within the office's limit |
| AttendancePage.CheckInDisabled | src/components/AttendancePage.tsx:486 | the check-in button is disabled after a check-in, without coordinates, or while loading |
| AttendancePage.CheckOutDisabled | src/components/AttendancePage.tsx:507 | the check-out button is disabled before a check-in, after a check-out, without coordinates, or while loading |
| AttendancePage.ButtonsFollowRow | src/components/AttendancePage.tsx:486-507 | at most one button is enabled; an enabled check-out button means today's row is open on the server; an enabled check-in button means no check-in today; no coordinates or loading disables both |
| AttendancePage.AttendanceView.constructor | src/components/AttendancePage.tsx:83-103 | the page starts with no row, no popup, empty history and zero statistics |
| AttendancePage.AttendanceView.Submit | src/components/AttendancePage.tsx:241-330 | without a user id or coordinates the page shows the matching error and does not call the server; otherwise it calls it; an accepted reply becomes today's row with the reloaded history and tally and the success text; a reload that throws replaces that popup with its error and keeps the old history and tally; a refusal only shows the error |

## Left out

- Haversine `calculateDistance` (server/index.ts:752-765 and the client copy) is floating-point
  trigonometry. The distance is an input to the handlers: a finite real for check-in, and a real or NaN
  for check-out.
- Attendance.CheckInOutcome and Attendance.AttendanceStore.CheckIn: non-finite coordinates are not
  modelled. A body value such as `1e999` parses as `Infinity` (server/index.ts:72). It passes the
  `typeof` test at server/index.ts:810, its distance is NaN, and `NaN > 50` at server/index.ts:868 is
  false, so the request reaches the write at server/index.ts:887-917 with `Math.round(NaN)` as the
  distance. What the store then does depends on the column types, which are not part of this model.
  The model's coordinates and check-in distance are finite reals, so it does not promise the 50 m
  gate for that input. The check-out side of the same gap is the first row under Findings.
- Express routing, Prisma queries, multer uploads, bcrypt and `fs` are I/O. The store is an in-memory
  map. A store failure, answered with status 500, appears only as the `None` of
  `Workflows.ApplyLeaveDecision`.
- Concurrent requests and the database's unique constraint on (user, date) are not modelled. Key
  uniqueness holds because the table is a map.
- Some texts built with `toFixed(6)`, `toLocaleTimeString` or `toLocaleDateString` are locale and
  floating-point rendering, and are left out: the `location` column, the log descriptions and the
  response messages. The check-out log entry keeps the stored instant in place of its locale text.
- The office location in a rejection payload is a constant, so it is not carried.
- The record id (`cuid`) and the ISO-string rebuild for years outside 1000-9999 are not modelled. `${year}`
  prints years below 1000 with fewer than four digits, so the rebuilt text is not a valid ISO date there.
  The stored `now` is the shifted instant cut to a whole second, which is what the rebuild gives for
  years 1000-9999.
- Month-start computations use host-local `setDate`/`setHours`, which depend on the host timezone.
- Dashboard.WeeklyChart and Dashboard.Weekday take the server to run with a UTC host timezone, which
  is where `getDay` and `setDate` agree with the stored UTC midnights.
- Dashboard.Percent: the percentage is computed in exact arithmetic. Floating-point products such as
  `0.145 * 100` can round half a point differently.
- JsText.ParseInt: `parseInt` is modelled on unsigned decimal text only, with no leading blanks, sign
  or radix prefix. These do not occur after a two-letter prefix is removed from a stored id.
- Workflows.AsciiLower: it lower-cases ASCII letters only. Full Unicode case mapping is not modelled.
- Lookup tables are modelled as plain functions. Keys inherited from `Object.prototype` (such as
  "constructor") are left out.
- The user-update payload built field by field (server/index.ts:339-363) and the rest of the user
  CRUD are not modelled. Password hashing and profile fields carry no invariant beyond copying
  request fields.
- Deleting an uploaded file on a failed leave validation is not modelled.
- Workflows.SubmitLeave: the dates are kept as the submitted text. The source stores
  `new Date(startDate)` and `new Date(endDate)` (server/index.ts:1188-1190). An unparseable date then
  fails in the store and is answered with 500 by the catch, a path this model does not have.
- Client state not touched by the two handlers is left out: GPS acquisition, timers, popups' display
  and the office-location load.

## Findings

| source | as written | input that shows it | evidently intended | confidence | as-written member | corrected member |
|---|---|---|---|---|---|---|
| server/index.ts:947-1006 | check-out validates only that the coordinates are defined, then rejects only when `distance > 50` | latitude `"abc"` on an open row after 17:00: the distance is NaN, `NaN > 50` is false, and the check-out is accepted from anywhere | reject non-numeric coordinates as check-in does, so that only a known distance <= 50 passes | not executed | Attendance.CheckOutAcceptsNaNDistance | Attendance.GuardedCheckOutOutcome |
| server/index.ts:214-222 | the last id is taken by `orderBy: { id: 'desc' }`, which is string order | ids `pg999` and `pg1000`: "pg999" sorts last, so the new id is `pg1000`, which already exists | number one above the largest counter in use | not executed | CustomId.LexicalLastIdRepeats | CustomId.NextIdByValue |
| server/index.ts:214-222 | the last-id query also filters on the role, but `PUT /api/users/:id` (server/index.ts:348-353) can change a user's role and keeps the id | the only supervisor `pg001` becomes an ADMIN: no PEMBIMBING user has a `pg` id, so the next supervisor is given `pg001`, which already exists | look for the largest counter among all ids with the prefix, whatever the holder's role | not executed | CustomId.RoleChangeRepeatsId | CustomId.NextIdByValue |
| src/components/AttendancePage.tsx:378 | `isLocationValid` compares the rounded distance with the limit | 50.25 m rounds to 50 and is shown as valid, but the server compares 50.25 > 50 and refuses | the preview agrees with the server's gate on the unrounded distance | not executed | AttendancePage.PreviewAcceptsRefusedDistance | AttendancePage.PreviewAgreesWithServer |
