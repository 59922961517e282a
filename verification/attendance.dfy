/**
 * The geofenced attendance engine: the check-in and check-out request
 * handlers over the attendance table, which holds at most one row per
 * (user, WIB day), and the activity log they append to.
 *
 * Each handler is modelled twice, as the source's two halves: a pure
 * function that decides the outcome of a request against the current table
 * (`CheckInOutcome`, `CheckOutOutcome`), and a method of `AttendanceStore`
 * that performs the request step by step, returning early on each failed
 * guard, and updates the table and the log in place.
 *
 * The great-circle distance between the submitted coordinates and the office
 * is floating-point trigonometry; it enters as a parameter.
 */
module Attendance {
  import opened Wrappers
  import opened JsText
  import opened CivilTime

  type UserId = string

  /** The dedup key of the attendance table: a user and a WIB day (its stored midnight). */
  type Key = (UserId, int)

  datatype Status = Present | Late | Absent | Leave | Sick

  /** The office the geofence is centred on, as `GET /api/attendance/office-location` reports it. */
  datatype OfficeConfig = OfficeConfig(latitude: real, longitude: real, name: string, maxDistance: int)

  const MaxDistanceMeters: int := 50
  const Office: OfficeConfig := OfficeConfig(5.194133, 97.017938, "PT Pupuk Iskandar Muda", MaxDistanceMeters)

  /** Check-in opens at 08:00 WIB; an arrival after 08:15 is late; check-out opens at 17:00 WIB. */
  const CheckInOpenHour: int := 8
  const GraceMinute: int := 15
  const CheckOutOpenHour: int := 17

  /** A coordinate field of the JSON request body: absent, a JSON number, or some other JSON value. */
  datatype Field = Missing | Number(value: real) | NotNumber

  datatype Request = Request(userId: Option<string>, latitude: Field, longitude: Field)

  /** What `calculateDistance` returns: metres, or NaN when a coordinate is not numeric. */
  datatype Distance = Meters(meters: real) | NaN

  /** One row of the attendance table; every instant is in the "fake UTC" WIB convention. */
  datatype AttendanceRecord = AttendanceRecord(
    userId: UserId,
    date: int,
    checkIn: Option<int>,
    checkOut: Option<int>,
    latitude: Option<real>,
    longitude: Option<real>,
    distance: Option<int>,
    duration: Option<int>,
    status: Status,
    createdAt: int,
    updatedAt: int)

  /** The 400 answers of the two handlers, with the payload each carries. */
  datatype Rejection =
    | MissingUserId
    | MissingCoordinates
    | CoordinatesNotNumbers
    | NotOpenYet(currentTime: string, minTime: string)
    | AlreadyCheckedIn(existingCheckIn: int)
    | TooFar(distance: int, maxDistance: int, userLocation: Option<(real, real)>)
    | NotCheckedIn
    | DistanceNotANumber

  /** The activity-log rows the handlers write (action CHECK_IN / CHECK_OUT). */
  datatype LogEntry =
    | CheckInLogged(userId: UserId, clock: string, late: bool, distance: int)
    | CheckOutLogged(userId: UserId, at: int, hours: int, minutes: int)
  {
    function Action(): string {
      if CheckInLogged? then "CHECK_IN" else "CHECK_OUT"
    }
  }

  // ----- request validation -----

  /** The `!userId` and `=== undefined` checks both handlers begin with. */
  predicate HasUserAndCoordinates(req: Request) {
    req.userId.Some? && req.userId.value != "" && !req.latitude.Missing? && !req.longitude.Missing?
  }

  /** What check-in additionally demands: both coordinates are JSON numbers. */
  predicate NumericRequest(req: Request) {
    HasUserAndCoordinates(req) && req.latitude.Number? && req.longitude.Number?
  }

  function PresenceCheck(req: Request): (r: Option<Rejection>)
    ensures r.None? <==> HasUserAndCoordinates(req)
    ensures (req.userId.None? || req.userId.value == "") ==> r == Some(MissingUserId)
    ensures (req.userId.Some? && req.userId.value != "" && (req.latitude.Missing? || req.longitude.Missing?))
              ==> r == Some(MissingCoordinates)
  {
    if req.userId.None? || req.userId.value == "" then Some(MissingUserId)
    else if req.latitude.Missing? || req.longitude.Missing? then Some(MissingCoordinates)
    else None
  }

  function CheckInValidation(req: Request): (r: Option<Rejection>)
    ensures r.None? <==> NumericRequest(req)
    ensures !HasUserAndCoordinates(req) ==> r == PresenceCheck(req)
    ensures HasUserAndCoordinates(req) && !NumericRequest(req) ==> r == Some(CoordinatesNotNumbers)
  {
    var missing := PresenceCheck(req);
    if missing.Some? then missing
    else if !req.latitude.Number? || !req.longitude.Number? then Some(CoordinatesNotNumbers)
    else None
  }

  // ----- the status rule and the stored duration -----

  /**
   * `currentHour > 8 || (currentHour === 8 && currentMinute > 15)`: late means
   * strictly after 08:15 on the WIB clock, counted in whole minutes.
   */
  function IsLate(hour: int, minute: int): (late: bool)
    ensures 0 <= minute < 60 ==> (late <==> hour * 60 + minute > 8 * 60 + 15)
  {
    hour > CheckInOpenHour || (hour == CheckInOpenHour && minute > GraceMinute)
  }

  function StatusAt(utcMs: int): (s: Status)
    ensures s == Late || s == Present
    ensures s == Late <==> CivilHour(utcMs) * 60 + CivilMinute(utcMs) > 8 * 60 + 15
  {
    CivilNowBounds(utcMs);
    if IsLate(CivilHour(utcMs), CivilMinute(utcMs)) then Late else Present
  }

  /** `Math.floor((now - checkIn) / 60000)`: whole minutes worked. */
  function WorkedMinutes(checkIn: int, checkOut: int): (m: int)
    ensures m * MsPerMinute <= checkOut - checkIn < (m + 1) * MsPerMinute
  {
    FloorDiv(checkOut - checkIn, MsPerMinute)
  }

  // ----- the table and its invariant -----

  /** The `userId_date` key: the user and the start of the WIB day that contains `utcMs`. */
  function KeyFor(userId: UserId, utcMs: int): (key: Key)
    ensures key.0 == userId
    ensures key.1 % MsPerDay == 0 && key.1 <= WibTime(utcMs) < key.1 + MsPerDay
  {
    (userId, CivilToday(utcMs))
  }

  /** The `existing?.checkIn` test of the check-in handler. */
  predicate CheckedInToday(records: map<Key, AttendanceRecord>, userId: UserId, utcMs: int) {
    var key := KeyFor(userId, utcMs);
    key in records && records[key].checkIn.Some?
  }

  /** The check-out lookup: today's row with `checkIn` set and `checkOut` null. */
  predicate OpenToday(records: map<Key, AttendanceRecord>, userId: UserId, utcMs: int) {
    var key := KeyFor(userId, utcMs);
    key in records && records[key].checkIn.Some? && records[key].checkOut.None?
  }

  /**
   * What every row written by the engine satisfies: it sits under its own
   * (user, day) key; `checkOut` is never set without `checkIn`; a check-in
   * lies on the row's day at or after 08:00, carries the status the late rule
   * gives its clock and a distance inside the geofence; a check-out lies on
   * the same day at or after 17:00 and carries the minutes worked.
   */
  ghost predicate RecordValid(key: Key, r: AttendanceRecord) {
    && r.userId == key.0
    && r.date == key.1
    && key.1 % MsPerDay == 0
    && (r.checkOut.Some? ==> r.checkIn.Some?)
    && (r.checkIn.Some? ==>
          var t := r.checkIn.value;
          && UtcMidnight(t) == r.date
          && UtcHours(t) >= CheckInOpenHour
          && r.status == (if IsLate(UtcHours(t), UtcMinutes(t)) then Late else Present)
          && r.distance.Some? && r.distance.value <= MaxDistanceMeters)
    && (r.checkOut.Some? && r.checkIn.Some? ==>
          var t := r.checkOut.value;
          && UtcMidnight(t) == r.date
          && UtcHours(t) >= CheckOutOpenHour
          && r.duration == Some(WorkedMinutes(r.checkIn.value, t)))
  }

  ghost predicate StoreValid(records: map<Key, AttendanceRecord>) {
    forall key :: key in records ==> RecordValid(key, records[key])
  }

  /**
   * The table after a request: the accepted row is written under the
   * requesting user's key for today (update or create, never a second row)
   * and every other row is left as it was; a rejection changes nothing.
   */
  function Committed(records: map<Key, AttendanceRecord>, req: Request, utcMs: int,
                     result: Result<AttendanceRecord, Rejection>): (m: map<Key, AttendanceRecord>)
    requires result.Ok? ==> req.userId.Some?
    ensures result.Err? ==> m == records
    ensures result.Ok? ==> m.Keys == records.Keys + {KeyFor(req.userId.value, utcMs)}
    ensures result.Ok? ==> m[KeyFor(req.userId.value, utcMs)] == result.value
    ensures forall k :: k in records && (result.Err? || k != KeyFor(req.userId.value, utcMs)) ==> m[k] == records[k]
  {
    if result.Ok? then records[KeyFor(req.userId.value, utcMs) := result.value] else records
  }

  // ----- check-in -----

  /**
   * The decision of `POST /api/attendance/checkin` made at UTC instant
   * `utcMs` with the measured distance `distance` (metres).
   */
  function CheckInOutcome(records: map<Key, AttendanceRecord>, req: Request, utcMs: int, distance: real)
    : (r: Result<AttendanceRecord, Rejection>)
    ensures r.Ok? <==>
      && NumericRequest(req)
      && CivilHour(utcMs) >= CheckInOpenHour
      && !CheckedInToday(records, req.userId.value, utcMs)
      && distance <= MaxDistanceMeters as real
    ensures !NumericRequest(req) ==> r == Err(CheckInValidation(req).value)
    ensures r.Ok? ==>
      var key := KeyFor(req.userId.value, utcMs);
      && r.value.checkIn == Some(CivilNow(utcMs))
      && r.value.latitude == Some(req.latitude.value)
      && r.value.longitude == Some(req.longitude.value)
      && r.value.distance == Some(Round(distance))
      && r.value.status == StatusAt(utcMs)
      && r.value.updatedAt == CivilNow(utcMs)
      && (key in records ==>
            r.value == records[key].(checkIn := r.value.checkIn, latitude := r.value.latitude,
                                     longitude := r.value.longitude, distance := r.value.distance,
                                     status := r.value.status, updatedAt := r.value.updatedAt))
      && (key !in records ==>
            && r.value.userId == key.0 && r.value.date == key.1
            && r.value.checkOut.None? && r.value.duration.None?
            && r.value.createdAt == CivilNow(utcMs))
  {
    var invalid := CheckInValidation(req);
    if invalid.Some? then Err(invalid.value)
    else if CivilHour(utcMs) < CheckInOpenHour then Err(NotOpenYet(ClockText(utcMs), "8:00"))
    else
      var key := KeyFor(req.userId.value, utcMs);
      if key in records && records[key].checkIn.Some? then Err(AlreadyCheckedIn(records[key].checkIn.value))
      else if distance > MaxDistanceMeters as real then
        Err(TooFar(Round(distance), MaxDistanceMeters, Some((req.latitude.value, req.longitude.value))))
      else
        var now := CivilNow(utcMs);
        var lat, lon := Some(req.latitude.value), Some(req.longitude.value);
        if key in records then
          Ok(records[key].(checkIn := Some(now), latitude := lat, longitude := lon,
                           distance := Some(Round(distance)), status := StatusAt(utcMs), updatedAt := now))
        else
          Ok(AttendanceRecord(key.0, key.1, Some(now), None, lat, lon, Some(Round(distance)), None,
                              StatusAt(utcMs), now, now))
  }

  /** Before 08:00 WIB a well-formed check-in is refused with the current and the opening time. */
  lemma CheckInTooEarly(records: map<Key, AttendanceRecord>, req: Request, utcMs: int, distance: real)
    requires NumericRequest(req) && CivilHour(utcMs) < CheckInOpenHour
    ensures CheckInOutcome(records, req, utcMs, distance) == Err(NotOpenYet(ClockText(utcMs), "8:00"))
  {
  }

  /** A second check-in on a day whose row already has `checkIn` is refused with the existing time. */
  lemma CheckInDuplicate(records: map<Key, AttendanceRecord>, req: Request, utcMs: int, distance: real)
    requires NumericRequest(req) && CivilHour(utcMs) >= CheckInOpenHour
    requires CheckedInToday(records, req.userId.value, utcMs)
    ensures CheckInOutcome(records, req, utcMs, distance)
              == Err(AlreadyCheckedIn(records[KeyFor(req.userId.value, utcMs)].checkIn.value))
  {
  }

  /** Outside the geofence a check-in is refused with the rounded distance and the submitted position. */
  lemma CheckInOutOfRange(records: map<Key, AttendanceRecord>, req: Request, utcMs: int, distance: real)
    requires NumericRequest(req) && CivilHour(utcMs) >= CheckInOpenHour
    requires !CheckedInToday(records, req.userId.value, utcMs) && distance > MaxDistanceMeters as real
    ensures CheckInOutcome(records, req, utcMs, distance)
              == Err(TooFar(Round(distance), MaxDistanceMeters, Some((req.latitude.value, req.longitude.value))))
  {
  }

  /** The geofence boundary: exactly 50 m passes, 51 m is refused with the rounded distance. */
  lemma RadiusBoundary(records: map<Key, AttendanceRecord>, req: Request, utcMs: int)
    requires NumericRequest(req) && CivilHour(utcMs) >= CheckInOpenHour
    requires !CheckedInToday(records, req.userId.value, utcMs)
    ensures CheckInOutcome(records, req, utcMs, 50.0).Ok?
    ensures CheckInOutcome(records, req, utcMs, 50.0).value.distance == Some(50)
    ensures CheckInOutcome(records, req, utcMs, 51.0) == Err(TooFar(51, 50, Some((req.latitude.value, req.longitude.value))))
  {
  }

  /**
   * The status threshold on the WIB clock, at instants of 1970-01-01 UTC:
   * 08:15 is on time, 08:16 and 09:00 are late.
   */
  lemma StatusExamples()
    ensures CivilHour(4_500_000) == 8 && CivilMinute(4_500_000) == 15 && StatusAt(4_500_000) == Present
    ensures CivilHour(4_560_000) == 8 && CivilMinute(4_560_000) == 16 && StatusAt(4_560_000) == Late
    ensures CivilHour(7_200_000) == 9 && CivilMinute(7_200_000) == 0 && StatusAt(7_200_000) == Late
  {
  }

  /** The check-in window opens at 08:00 WIB sharp: 07:59 is refused, 08:00 is accepted. */
  lemma CheckInWindowExamples(req: Request)
    requires NumericRequest(req)
    ensures CivilHour(3_540_000) == 7 && CivilMinute(3_540_000) == 59
    ensures CheckInOutcome(map[], req, 3_540_000, 0.0).Err?
    ensures CivilHour(3_600_000) == 8 && CivilMinute(3_600_000) == 0
    ensures CheckInOutcome(map[], req, 3_600_000, 0.0).Ok?
  {
    assert CivilHour(3_540_000) == 7;
    assert CivilHour(3_600_000) == 8;
    assert !CheckedInToday(map[], req.userId.value, 3_600_000);
  }

  /** The row an accepted check-in writes: today's row with the check-in fields set, or a fresh one. */
  lemma CheckInAcceptedRow(records: map<Key, AttendanceRecord>, req: Request, utcMs: int, distance: real)
    requires NumericRequest(req) && CivilHour(utcMs) >= CheckInOpenHour
    requires !CheckedInToday(records, req.userId.value, utcMs) && distance <= MaxDistanceMeters as real
    ensures var key := KeyFor(req.userId.value, utcMs);
            var now := CivilNow(utcMs);
            var lat, lon := Some(req.latitude.value), Some(req.longitude.value);
            CheckInOutcome(records, req, utcMs, distance) ==
              Ok(if key in records
                 then records[key].(checkIn := Some(now), latitude := lat, longitude := lon,
                                    distance := Some(Round(distance)), status := StatusAt(utcMs), updatedAt := now)
                 else AttendanceRecord(key.0, key.1, Some(now), None, lat, lon, Some(Round(distance)), None,
                                       StatusAt(utcMs), now, now))
  {
  }

  /** An accepted check-in keeps the table invariant. */
  lemma CheckInKeepsValid(records: map<Key, AttendanceRecord>, req: Request, utcMs: int, distance: real)
    requires StoreValid(records)
    ensures var r := CheckInOutcome(records, req, utcMs, distance);
            StoreValid(Committed(records, req, utcMs, r))
  {
    var r := CheckInOutcome(records, req, utcMs, distance);
    if r.Ok? {
      var key := KeyFor(req.userId.value, utcMs);
      ReadBack(utcMs);
      CivilNowBounds(utcMs);
      if key in records {
        assert RecordValid(key, records[key]);
      }
      assert RecordValid(key, r.value);
    }
  }

  /**
   * One row per user and day: once a check-in is accepted, every later
   * check-in by the same user on the same WIB day is refused, and the table
   * holds exactly one row for that key.
   */
  lemma SecondCheckInRefused(records: map<Key, AttendanceRecord>, req: Request, u1: int, d1: real,
                             req2: Request, u2: int, d2: real)
    requires CheckInOutcome(records, req, u1, d1).Ok?
    requires req2.userId == req.userId && CivilToday(u2) == CivilToday(u1)
    ensures var after := Committed(records, req, u1, CheckInOutcome(records, req, u1, d1));
            && |after.Keys| <= |records.Keys| + 1
            && CheckInOutcome(after, req2, u2, d2).Err?
  {
    var key := KeyFor(req.userId.value, u1);
    var after := Committed(records, req, u1, CheckInOutcome(records, req, u1, d1));
    assert after.Keys == records.Keys + {key};
    assert KeyFor(req.userId.value, u2) == key;
    assert CheckedInToday(after, req.userId.value, u2);
  }

  // ----- check-out -----

  /**
   * The decision of `POST /api/attendance/checkout` as the source writes it.
   * Unlike check-in it has no `typeof` test, so a non-numeric coordinate gets
   * through validation and its NaN distance is never `> 50`.
   */
  function CheckOutOutcome(records: map<Key, AttendanceRecord>, req: Request, utcMs: int, distance: Distance)
    : (r: Result<AttendanceRecord, Rejection>)
    ensures r.Ok? <==>
      && HasUserAndCoordinates(req)
      && CivilHour(utcMs) >= CheckOutOpenHour
      && OpenToday(records, req.userId.value, utcMs)
      && !(distance.Meters? && distance.meters > MaxDistanceMeters as real)
    ensures r.Ok? ==>
      var old_ := records[KeyFor(req.userId.value, utcMs)];
      && r.value == old_.(checkOut := r.value.checkOut, duration := r.value.duration, updatedAt := r.value.updatedAt)
      && r.value.checkOut == Some(CivilNow(utcMs))
      && r.value.duration == Some(WorkedMinutes(old_.checkIn.value, CivilNow(utcMs)))
      && r.value.updatedAt == CivilNow(utcMs)
    ensures !HasUserAndCoordinates(req) ==> r == Err(PresenceCheck(req).value)
    ensures (HasUserAndCoordinates(req) && CivilHour(utcMs) < CheckOutOpenHour)
              ==> r == Err(NotOpenYet(ClockText(utcMs), "17:00"))
    ensures (HasUserAndCoordinates(req) && CivilHour(utcMs) >= CheckOutOpenHour
             && !OpenToday(records, req.userId.value, utcMs)) ==> r == Err(NotCheckedIn)
    ensures (HasUserAndCoordinates(req) && CivilHour(utcMs) >= CheckOutOpenHour
             && OpenToday(records, req.userId.value, utcMs)
             && distance.Meters? && distance.meters > MaxDistanceMeters as real)
              ==> r == Err(TooFar(Round(distance.meters), MaxDistanceMeters, None))
  {
    var missing := PresenceCheck(req);
    if missing.Some? then Err(missing.value)
    else if CivilHour(utcMs) < CheckOutOpenHour then Err(NotOpenYet(ClockText(utcMs), "17:00"))
    else
      var key := KeyFor(req.userId.value, utcMs);
      if !(key in records && records[key].checkIn.Some? && records[key].checkOut.None?) then Err(NotCheckedIn)
      else if distance.Meters? && distance.meters > MaxDistanceMeters as real then
        Err(TooFar(Round(distance.meters), MaxDistanceMeters, None))
      else
        var now := CivilNow(utcMs);
        var rec := records[key];
        Ok(rec.(checkOut := Some(now), duration := Some(WorkedMinutes(rec.checkIn.value, now)), updatedAt := now))
  }

  /** An accepted check-out keeps the table invariant; `checkIn` and `status` stay as they were. */
  lemma CheckOutKeepsValid(records: map<Key, AttendanceRecord>, req: Request, utcMs: int, distance: Distance)
    requires StoreValid(records)
    ensures var r := CheckOutOutcome(records, req, utcMs, distance);
            StoreValid(Committed(records, req, utcMs, r))
  {
    var r := CheckOutOutcome(records, req, utcMs, distance);
    if r.Ok? {
      var key := KeyFor(req.userId.value, utcMs);
      assert RecordValid(key, records[key]);
      ReadBack(utcMs);
      assert RecordValid(key, r.value);
    }
  }

  /** Complete is terminal: after an accepted check-out, a second one the same day is refused. */
  lemma SecondCheckOutRefused(records: map<Key, AttendanceRecord>, req: Request, u1: int, d1: Distance,
                              req2: Request, u2: int, d2: Distance)
    requires CheckOutOutcome(records, req, u1, d1).Ok?
    requires req2.userId == req.userId && CivilToday(u2) == CivilToday(u1)
    ensures var after := Committed(records, req, u1, CheckOutOutcome(records, req, u1, d1));
            CheckOutOutcome(after, req2, u2, d2).Err?
  {
    var after := Committed(records, req, u1, CheckOutOutcome(records, req, u1, d1));
    assert KeyFor(req.userId.value, u2) == KeyFor(req.userId.value, u1);
    assert !OpenToday(after, req.userId.value, u2);
  }

  /**
   * The minutes worked between two stored instants of one WIB day: the
   * difference of their clock minutes, one less when the check-out second
   * is earlier in its minute than the check-in second.
   */
  lemma WorkedMinutesOnClock(checkIn: int, checkOut: int)
    requires UtcMidnight(checkIn) == UtcMidnight(checkOut)
    requires checkIn % MsPerSecond == 0 && checkOut % MsPerSecond == 0
    ensures WorkedMinutes(checkIn, checkOut)
            == (UtcHours(checkOut) * 60 + UtcMinutes(checkOut)) - (UtcHours(checkIn) * 60 + UtcMinutes(checkIn))
               - (if UtcSeconds(checkOut) < UtcSeconds(checkIn) then 1 else 0)
  {
    Decompose(checkIn);
    Decompose(checkOut);
    var clockIn := UtcHours(checkIn) * 60 + UtcMinutes(checkIn);
    var clockOut := UtcHours(checkOut) * 60 + UtcMinutes(checkOut);
    var diff := (clockOut - clockIn) * MsPerMinute + (UtcSeconds(checkOut) - UtcSeconds(checkIn)) * MsPerSecond;
    assert checkOut - checkIn == diff;
  }

  /** With a clock that does not run backwards, the stored duration is never negative. */
  lemma DurationNonNegative(u1: int, u2: int)
    requires u1 <= u2
    ensures WorkedMinutes(CivilNow(u1), CivilNow(u2)) >= 0
  {
    TodayStable(u1, u2);
  }

  /**
   * A whole day: check in at 08:10 WIB, check out at 17:05 WIB, 50 m from
   * the office both times: the day is recorded as on time with 535 minutes.
   */
  lemma FullDayExample(req: Request)
    requires NumericRequest(req)
    ensures var r1 := CheckInOutcome(map[], req, 4_200_000, 50.0);
            && r1.Ok? && r1.value.status == Present
            && var after := Committed(map[], req, 4_200_000, r1);
               var r2 := CheckOutOutcome(after, req, 36_300_000, Meters(50.0));
               && r2.Ok? && r2.value.duration == Some(535) && r2.value.status == Present
  {
    assert CivilHour(4_200_000) == 8 && CivilMinute(4_200_000) == 10;
    assert CivilToday(36_300_000) == CivilToday(4_200_000);
    assert CivilNow(36_300_000) - CivilNow(4_200_000) == 32_100_000;
  }

  /**
   * Finding (as written): a check-out whose latitude is a non-numeric JSON
   * value passes validation, its distance is NaN, `NaN > 50` is false, and
   * the check-out is accepted wherever the user stands.
   */
  lemma CheckOutAcceptsNaNDistance(records: map<Key, AttendanceRecord>, userId: UserId, utcMs: int)
    requires userId != "" && CivilHour(utcMs) >= CheckOutOpenHour && OpenToday(records, userId, utcMs)
    ensures CheckOutOutcome(records, Request(Some(userId), NotNumber, Number(0.0)), utcMs, NaN).Ok?
  {
  }

  /**
   * Check-out with the check-in's `typeof` test and a geofence that only
   * lets a known distance of at most 50 m through.
   */
  function GuardedCheckOutOutcome(records: map<Key, AttendanceRecord>, req: Request, utcMs: int, distance: Distance)
    : (r: Result<AttendanceRecord, Rejection>)
    ensures r.Ok? ==> NumericRequest(req) && distance.Meters? && distance.meters <= MaxDistanceMeters as real
    ensures NumericRequest(req) && distance.Meters? ==> r == CheckOutOutcome(records, req, utcMs, distance)
    ensures HasUserAndCoordinates(req) && !NumericRequest(req) ==> r == Err(CoordinatesNotNumbers)
  {
    var invalid := CheckInValidation(req);
    if invalid.Some? then Err(invalid.value)
    else if distance.NaN? then
      (if CivilHour(utcMs) < CheckOutOpenHour then Err(NotOpenYet(ClockText(utcMs), "17:00"))
       else if !OpenToday(records, req.userId.value, utcMs) then Err(NotCheckedIn)
       else Err(DistanceNotANumber))
    else CheckOutOutcome(records, req, utcMs, distance)
  }

  /** The corrected check-out keeps the table invariant, and a NaN distance can no longer pass. */
  lemma GuardedCheckOutKeepsValid(records: map<Key, AttendanceRecord>, req: Request, utcMs: int, distance: Distance)
    requires StoreValid(records)
    ensures var r := GuardedCheckOutOutcome(records, req, utcMs, distance);
            StoreValid(Committed(records, req, utcMs, r))
    ensures GuardedCheckOutOutcome(records, req, utcMs, NaN).Err?
  {
    CheckOutKeepsValid(records, req, utcMs, distance);
  }

  /** The table with its activity log, updated in place by the two handlers. */
  class AttendanceStore {
    var records: map<Key, AttendanceRecord>
    var log: seq<LogEntry>

    ghost predicate Valid()
      reads this
    {
      StoreValid(records)
    }

    constructor (initial: map<Key, AttendanceRecord>)
      requires StoreValid(initial)
      ensures Valid() && records == initial && log == []
    {
      records := initial;
      log := [];
    }

    /** `GET /api/attendance/today/:userId`: today's row for the user, if any. */
    method TodayRecord(userId: UserId, utcMs: int) returns (r: Option<AttendanceRecord>)
      requires Valid()
      ensures r.Some? <==> KeyFor(userId, utcMs) in records
      ensures r.Some? ==> r.value == records[KeyFor(userId, utcMs)]
      ensures r.Some? ==> r.value.userId == userId && r.value.date == CivilToday(utcMs)
    {
      var key := (userId, CivilToday(utcMs));
      if key in records {
        assert RecordValid(key, records[key]);
        r := Some(records[key]);
      } else {
        r := None;
      }
    }

    /** `POST /api/attendance/checkin`. */
    method CheckIn(req: Request, utcMs: int, distance: real) returns (result: Result<AttendanceRecord, Rejection>)
      requires Valid()
      modifies this
      ensures Valid()
      ensures result == CheckInOutcome(old(records), req, utcMs, distance)
      ensures records == Committed(old(records), req, utcMs, result)
      ensures result.Ok? ==>
                log == old(log) + [CheckInLogged(req.userId.value, ClockText(utcMs), result.value.status == Late, Round(distance))]
      ensures result.Err? ==> log == old(log)
    {
      if req.userId.None? || req.userId.value == "" {
        result := Err(MissingUserId);
      } else if req.latitude.Missing? || req.longitude.Missing? {
        result := Err(MissingCoordinates);
      } else if !req.latitude.Number? || !req.longitude.Number? {
        result := Err(CoordinatesNotNumbers);
      } else if CivilHour(utcMs) < CheckInOpenHour {
        result := Err(NotOpenYet(ClockText(utcMs), "8:00"));
      } else {
        var userId := req.userId.value;
        var key := KeyFor(userId, utcMs);
        var existing := if key in records then Some(records[key]) else None;
        if existing.Some? && existing.value.checkIn.Some? {
          result := Err(AlreadyCheckedIn(existing.value.checkIn.value));
        } else if distance > MaxDistanceMeters as real {
          result := Err(TooFar(Round(distance), MaxDistanceMeters, Some((req.latitude.value, req.longitude.value))));
        } else {
          var now := CivilNow(utcMs);
          var late := IsLate(CivilHour(utcMs), CivilMinute(utcMs));
          var status := if late then Late else Present;
          var lat, lon := Some(req.latitude.value), Some(req.longitude.value);
          var row: AttendanceRecord;
          if existing.Some? {
            row := existing.value.(checkIn := Some(now), latitude := lat, longitude := lon,
                                   distance := Some(Round(distance)), status := status, updatedAt := now);
          } else {
            row := AttendanceRecord(userId, key.1, Some(now), None, lat, lon, Some(Round(distance)), None, status, now, now);
          }
          CheckInAcceptedRow(records, req, utcMs, distance);
          result := Ok(row);
          log := log + [CheckInLogged(userId, ClockText(utcMs), late, Round(distance))];
        }
      }
      CheckInKeepsValid(records, req, utcMs, distance);
      records := Committed(records, req, utcMs, result);
    }

    /** `POST /api/attendance/checkout`, as the source writes it. */
    method CheckOut(req: Request, utcMs: int, distance: Distance) returns (result: Result<AttendanceRecord, Rejection>)
      requires Valid()
      modifies this
      ensures Valid()
      ensures result == CheckOutOutcome(old(records), req, utcMs, distance)
      ensures records == Committed(old(records), req, utcMs, result)
      ensures result.Ok? ==>
                var worked := result.value.duration.value;
                log == old(log) + [CheckOutLogged(req.userId.value, CivilNow(utcMs), FloorDiv(worked, 60), JsRem(worked, 60))]
      ensures result.Err? ==> log == old(log)
    {
      CheckOutKeepsValid(records, req, utcMs, distance);
      if req.userId.None? || req.userId.value == "" {
        return Err(MissingUserId);
      }
      if req.latitude.Missing? || req.longitude.Missing? {
        return Err(MissingCoordinates);
      }
      var userId := req.userId.value;
      var now := CivilNow(utcMs);
      var today := CivilToday(utcMs);
      if CivilHour(utcMs) < CheckOutOpenHour {
        return Err(NotOpenYet(ClockText(utcMs), "17:00"));
      }
      var key := (userId, today);
      if !(key in records && records[key].checkIn.Some? && records[key].checkOut.None?) {
        return Err(NotCheckedIn);
      }
      var open := records[key];
      if distance.Meters? && distance.meters > MaxDistanceMeters as real {
        return Err(TooFar(Round(distance.meters), MaxDistanceMeters, None));
      }
      var worked := WorkedMinutes(open.checkIn.value, now);
      var row := open.(checkOut := Some(now), duration := Some(worked), updatedAt := now);
      records := records[key := row];
      log := log + [CheckOutLogged(userId, now, FloorDiv(worked, 60), JsRem(worked, 60))];
      result := Ok(row);
    }
  }
}
