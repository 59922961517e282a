/**
 * The attendance page of the web client: how it shows the stored instants
 * and durations, how it tallies the recent history, when its buttons are
 * enabled, and the guards its check-in and check-out handlers run before
 * calling the server.
 */
module AttendancePage {
  import opened Wrappers
  import opened JsText
  import opened CivilTime
  import opened Attendance

  // ----- display helpers -----

  /**
   * `formatTime`: "-" for no instant, otherwise the instant's UTC hour and
   * minute, two digits each. The stored instants are already WIB, so no
   * offset is applied here.
   */
  function FormatTime(instant: Option<int>): (s: string)
    ensures instant.None? ==> s == "-"
    ensures instant.Some? ==>
      && |s| == 5 && s[2] == ':'
      && AllDigits(s[..2]) && ParseDigits(s[..2]) == UtcHours(instant.value)
      && AllDigits(s[3..]) && ParseDigits(s[3..]) == UtcMinutes(instant.value)
  {
    if instant.None? then "-"
    else
      var t := instant.value;
      Pad2RoundTrip(UtcHours(t));
      Pad2RoundTrip(UtcMinutes(t));
      JoinClockFields(Pad2(UtcHours(t)), Pad2(UtcMinutes(t)));
      Pad2(UtcHours(t)) + ":" + Pad2(UtcMinutes(t))
  }

  /** A stored `checkIn` / `checkOut` is shown as the WIB clock the server read when it wrote it. */
  lemma FormatTimeShowsWibClock(utcMs: int)
    ensures FormatTime(Some(CivilNow(utcMs))) == ClockText(utcMs)
  {
    ReadBack(utcMs);
  }

  /** `formatDuration`: "-" for no or zero minutes, otherwise `"{hours}j {minutes}m"`. */
  function FormatDuration(minutes: Option<int>): (s: string)
    ensures (minutes.None? || minutes.value == 0) <==> s == "-"
    ensures minutes.Some? && minutes.value > 0 ==>
              s == NatToString(minutes.value / 60) + "j " + NatToString(minutes.value % 60) + "m"
    ensures minutes.Some? && minutes.value < 0 ==> s == NegativeDurationText(-minutes.value)
  {
    if minutes.None? || minutes.value == 0 then "-"
    else
      var m := minutes.value;
      DurationFields(m);
      IntToString(FloorDiv(m, 60)) + "j " + IntToString(JsRem(m, 60)) + "m"
  }

  /** The text for `-n` minutes: the hours rounded up and the leftover minutes, each with a minus sign ("0" when none are left). */
  function NegativeDurationText(n: nat): string {
    "-" + NatToString((n + 59) / 60) + "j " + (if n % 60 == 0 then "0" else "-" + NatToString(n % 60)) + "m"
  }

  /**
   * The two fields of a duration as text: for a positive count the hours and
   * the leftover minutes; for a negative one floor gives the negated
   * rounded-up hours and `%` the negated leftover minutes.
   */
  lemma DurationFields(m: int)
    ensures m > 0 ==>
              IntToString(FloorDiv(m, 60)) + "j " + IntToString(JsRem(m, 60)) + "m"
              == NatToString(m / 60) + "j " + NatToString(m % 60) + "m"
    ensures m < 0 ==>
              IntToString(FloorDiv(m, 60)) + "j " + IntToString(JsRem(m, 60)) + "m" == NegativeDurationText(-m)
  {
    if m < 0 {
      var n := -m;
      var hours, mins := FloorDiv(m, 60), JsRem(m, 60);
      assert hours == -((n + 59) / 60);
      assert IntToString(hours) == "-" + NatToString((n + 59) / 60);
      LeftoverText(m);
    }
  }

  /** `String(m % 60)` for a negative count. */
  lemma LeftoverText(m: int)
    requires m < 0
    ensures IntToString(JsRem(m, 60)) == (if (-m) % 60 == 0 then "0" else "-" + NatToString((-m) % 60))
  {
    var r := JsRem(m, 60);
    if (-m) % 60 == 0 {
      assert r == 0;
      assert NatToString(0) == "0";
    } else {
      assert r == -((-m) % 60);
    }
  }

  /** In `x + rest`, every position before `|x|` is a digit and position `|x|` is not. */
  lemma DigitsThenSeparator(x: string, rest: string)
    requires AllDigits(x) && rest != [] && !IsDigit(rest[0])
    ensures forall i :: 0 <= i < |x| ==> IsDigit((x + rest)[i])
    ensures !IsDigit((x + rest)[|x|])
  {
  }

  /** A digit run followed by a separator that starts with a non-digit splits in one way only. */
  lemma SplitAfterDigits(x: string, y: string, x2: string, y2: string, sep: string)
    requires AllDigits(x) && AllDigits(x2) && sep != [] && !IsDigit(sep[0])
    requires x + sep + y == x2 + sep + y2
    ensures x == x2 && y == y2
  {
    var s := x + sep + y;
    assert s == x + (sep + y) && s == x2 + (sep + y2);
    DigitsThenSeparator(x, sep + y);
    DigitsThenSeparator(x2, sep + y2);
    assert |x| == |x2|;
    assert x == s[..|x|];
    assert x2 == s[..|x2|];
    assert y == s[|x| + |sep|..];
    assert y2 == (x2 + sep + y2)[|x2| + |sep|..];
  }

  /** Two positive durations that are shown alike are equal: the text determines the minutes. */
  lemma DurationTextDetermines(a: int, b: int)
    requires a > 0 && b > 0
    requires FormatDuration(Some(a)) == FormatDuration(Some(b))
    ensures a == b
  {
    var pa := NatToString(a / 60) + "j " + NatToString(a % 60);
    var pb := NatToString(b / 60) + "j " + NatToString(b % 60);
    assert pa + "m" == pb + "m";
    assert pa == (pa + "m")[..|pa|] && pb == (pb + "m")[..|pb|];
    SplitAfterDigits(NatToString(a / 60), NatToString(a % 60), NatToString(b / 60), NatToString(b % 60), "j ");
    NatToStringInjective(a / 60, b / 60);
    NatToStringInjective(a % 60, b % 60);
  }

  /** The minutes part is below 60 and the parts recombine to the stored duration. */
  lemma DurationParts(m: int)
    requires m > 0
    ensures var s := FormatDuration(Some(m));
            var h := NatToString(m / 60);
            var r := NatToString(m % 60);
            s == h + "j " + r + "m" && ParseDigits(r) < 60 && 60 * ParseDigits(h) + ParseDigits(r) == m
  {
    ParseNatToString(m / 60);
    ParseNatToString(m % 60);
  }

  // ----- the history tally -----

  /** How many of `history` have a status in `statuses` (a `filter(...).length`). */
  function CountStatus(history: seq<AttendanceRecord>, statuses: set<Status>): (n: nat)
    ensures n <= |history|
  {
    if history == [] then 0
    else CountStatus(history[1..], statuses) + (if history[0].status in statuses then 1 else 0)
  }

  lemma {:induction false} CountStatusSplit(history: seq<AttendanceRecord>, a: set<Status>, b: set<Status>)
    requires a !! b
    ensures CountStatus(history, a + b) == CountStatus(history, a) + CountStatus(history, b)
  {
    if history != [] {
      CountStatusSplit(history[1..], a, b);
    }
  }

  lemma {:induction false} CountAllStatuses(history: seq<AttendanceRecord>)
    ensures CountStatus(history, {Present, Late, Absent, Leave, Sick}) == |history|
  {
    if history != [] {
      CountAllStatuses(history[1..]);
      var st := history[0].status;
      assert st.Present? || st.Late? || st.Absent? || st.Leave? || st.Sick?;
    }
  }

  /** The page's statistics: `totalHadir` and `totalIzin`. */
  datatype Stats = Stats(totalHadir: nat, totalIzin: nat)

  /**
   * The tally over the loaded history (`history || []`): attended days
   * (PRESENT, LATE) and excused days (LEAVE, SICK) together never exceed the
   * rows, and the rows left over are exactly the ABSENT ones.
   */
  function Tally(history: Option<seq<AttendanceRecord>>): (st: Stats)
    ensures history.None? ==> st == Stats(0, 0)
    ensures var rows := if history.Some? then history.value else [];
            && st.totalHadir == CountStatus(rows, {Present, Late})
            && st.totalIzin == CountStatus(rows, {Leave, Sick})
            && st.totalHadir + st.totalIzin + CountStatus(rows, {Absent}) == |rows|
  {
    var rows := if history.Some? then history.value else [];
    CountStatusSplit(rows, {Present, Late}, {Leave, Sick});
    CountStatusSplit(rows, {Present, Late} + {Leave, Sick}, {Absent});
    CountAllStatuses(rows);
    assert {Present, Late} + {Leave, Sick} + {Absent} == {Present, Late, Absent, Leave, Sick};
    Stats(CountStatus(rows, {Present, Late}), CountStatus(rows, {Leave, Sick}))
  }

  // ----- predicates and buttons -----

  predicate HasCheckedIn(today: Option<AttendanceRecord>) {
    today.Some? && today.value.checkIn.Some?
  }

  predicate HasCheckedOut(today: Option<AttendanceRecord>) {
    today.Some? && today.value.checkOut.Some?
  }

  /**
   * `isLocationValid` as written: `distance` is the page's state, which holds
   * `Math.round` of the measured distance, compared with the office's limit.
   */
  predicate IsLocationValid(roundedDistance: Option<int>, office: Option<OfficeConfig>) {
    roundedDistance.Some? && office.Some? && roundedDistance.value <= office.value.maxDistance
  }

  /** The preview the server's radius gate calls for: the measured distance itself against the limit. */
  predicate LocationWithinLimit(distance: Option<real>, office: Option<OfficeConfig>) {
    distance.Some? && office.Some? && distance.value <= office.value.maxDistance as real
  }

  /**
   * Finding (as written): 50.25 m rounds to 50, so the page shows the
   * location as valid while the server refuses the same check-in as too far.
   */
  lemma PreviewAcceptsRefusedDistance(records: map<Key, AttendanceRecord>, req: Request, utcMs: int)
    requires NumericRequest(req) && CivilHour(utcMs) >= CheckInOpenHour
    requires !CheckedInToday(records, req.userId.value, utcMs)
    ensures IsLocationValid(Some(Round(50.25)), Some(Office))
    ensures CheckInOutcome(records, req, utcMs, 50.25).Err?
    ensures CheckInOutcome(records, req, utcMs, 50.25).error.TooFar?
  {
    assert Round(50.25) == 50;
  }

  /**
   * With the unrounded distance the preview agrees with the server: once the
   * request, the hour and the day's row let a check-in through, it succeeds
   * exactly when the page shows the location as valid.
   */
  lemma PreviewAgreesWithServer(records: map<Key, AttendanceRecord>, req: Request, utcMs: int, distance: real)
    requires NumericRequest(req) && CivilHour(utcMs) >= CheckInOpenHour
    requires !CheckedInToday(records, req.userId.value, utcMs)
    ensures LocationWithinLimit(Some(distance), Some(Office)) <==> CheckInOutcome(records, req, utcMs, distance).Ok?
  {
  }

  /** `disabled={hasCheckedIn || !userCoords || isLoading}`. */
  predicate CheckInDisabled(today: Option<AttendanceRecord>, hasCoords: bool, loading: bool) {
    HasCheckedIn(today) || !hasCoords || loading
  }

  /** `disabled={!hasCheckedIn || hasCheckedOut || !userCoords || isLoading}`. */
  predicate CheckOutDisabled(today: Option<AttendanceRecord>, hasCoords: bool, loading: bool) {
    !HasCheckedIn(today) || HasCheckedOut(today) || !hasCoords || loading
  }

  /**
   * At most one button is enabled; an enabled check-out button means the day's
   * row is open; and with today's row as the server keeps it, an enabled
   * check-in button means the server has no check-in for today.
   */
  lemma ButtonsFollowRow(today: Option<AttendanceRecord>, hasCoords: bool, loading: bool,
                         records: map<Key, AttendanceRecord>, userId: UserId, utcMs: int)
    requires today == (if KeyFor(userId, utcMs) in records then Some(records[KeyFor(userId, utcMs)]) else None)
    ensures CheckInDisabled(today, hasCoords, loading) || CheckOutDisabled(today, hasCoords, loading)
    ensures !CheckOutDisabled(today, hasCoords, loading) ==> OpenToday(records, userId, utcMs)
    ensures !CheckInDisabled(today, hasCoords, loading) ==> !CheckedInToday(records, userId, utcMs)
    ensures !hasCoords || loading ==> CheckInDisabled(today, hasCoords, loading) && CheckOutDisabled(today, hasCoords, loading)
  {
  }

  // ----- the page's handlers -----

  datatype PopupKind = Success | Failure
  datatype Popup = Popup(kind: PopupKind, message: string)

  const NoUserMessage: string := "User tidak ditemukan. Silakan login ulang."
  const NoLocationMessage: string := "Lokasi GPS belum didapatkan. Klik \"Ambil Lokasi GPS\" terlebih dahulu."

  /** What the server answered: the row and its message, or the error text. */
  datatype Reply = Accepted(row: AttendanceRecord, message: string) | Refused(error: string)

  /** The page state the handlers set. */
  class AttendanceView {
    var todayAttendance: Option<AttendanceRecord>
    var coords: Option<(real, real)>
    var isLoading: bool
    var popup: Option<Popup>
    var history: seq<AttendanceRecord>
    var stats: Stats

    constructor (coords: Option<(real, real)>)
      ensures this.coords == coords && todayAttendance.None? && !isLoading && popup.None?
      ensures history == [] && stats == Stats(0, 0)
    {
      this.coords := coords;
      todayAttendance := None;
      isLoading := false;
      popup := None;
      history := [];
      stats := Stats(0, 0);
    }

    /**
     * `handleCheckIn` / `handleCheckOut`: with no user id or no coordinates the
     * page shows an error and does not call the server; otherwise it calls it
     * (`called`) and shows `reply`. An accepted row becomes today's row and
     * the history and statistics are reloaded from `reloaded` (`history || []`);
     * when that reload throws, the catch replaces the success popup with the
     * error and the old history and statistics stay. A refusal only shows the
     * error. `fallback` is the success text used when the server sends none.
     */
    method Submit(userId: Option<string>, reply: Reply, reloaded: Result<Option<seq<AttendanceRecord>>, string>,
                  fallback: string)
      returns (called: bool)
      modifies this
      ensures called <==> (userId.Some? && userId.value != "" && old(coords).Some?)
      ensures coords == old(coords)
      ensures called ==> !isLoading
      ensures userId.None? || userId.value == "" ==> popup == Some(Popup(Failure, NoUserMessage))
      ensures userId.Some? && userId.value != "" && old(coords).None? ==> popup == Some(Popup(Failure, NoLocationMessage))
      ensures !called || reply.Refused? ==> todayAttendance == old(todayAttendance)
      ensures !called || reply.Refused? || reloaded.Err? ==> history == old(history) && stats == old(stats)
      ensures called && reply.Refused? ==> popup == Some(Popup(Failure, reply.error))
      ensures called && reply.Accepted? ==> todayAttendance == Some(reply.row)
      ensures called && reply.Accepted? && reloaded.Err? ==> popup == Some(Popup(Failure, reloaded.error))
      ensures called && reply.Accepted? && reloaded.Ok? ==>
                && popup == Some(Popup(Success, if reply.message != "" then reply.message else fallback))
                && history == (if reloaded.value.Some? then reloaded.value.value else [])
                && stats == Tally(reloaded.value)
      ensures !called ==> isLoading == old(isLoading)
    {
      if userId.None? || userId.value == "" {
        popup := Some(Popup(Failure, NoUserMessage));
        return false;
      }
      if coords.None? {
        popup := Some(Popup(Failure, NoLocationMessage));
        return false;
      }
      isLoading := true;
      called := true;
      match reply {
        case Accepted(row, message) =>
          todayAttendance := Some(row);
          popup := Some(Popup(Success, if message != "" then message else fallback));
          match reloaded {
            case Ok(rows) =>
              history := if rows.Some? then rows.value else [];
              stats := Tally(rows);
            case Err(error) =>
              popup := Some(Popup(Failure, error));
          }
        case Refused(error) =>
          popup := Some(Popup(Failure, error));
      }
      isLoading := false;
    }
  }
}
