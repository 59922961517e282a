/**
 * The dashboard's arithmetic: rounded percentages guarded against an empty
 * month, the Monday of the current WIB week, and the weekly chart that
 * counts, for each weekday, the attendance rows in the caller's scope by
 * status group.
 */
module Dashboard {
  import opened Wrappers
  import opened JsText
  import opened CivilTime
  import opened Attendance

  // ----- percentages -----

  /** `total > 0 ? Math.round((part / total) * 100) : 0`, in exact arithmetic. */
  function Percent(part: nat, total: nat): (p: int)
    ensures total == 0 ==> p == 0
    ensures total > 0 ==> 2 * total * p <= 200 * part + total < 2 * total * p + 2 * total
  {
    if total > 0 then FloorDiv(200 * part + total, 2 * total) else 0
  }

  /** The integer percentage is `Math.round` of the exact ratio times one hundred. */
  lemma PercentIsRound(part: nat, total: nat)
    requires total > 0
    ensures Percent(part, total) == Round(part as real / total as real * 100.0)
  {
    var p, t := Percent(part, total), total as real;
    var x := part as real / t * 100.0;
    assert x * t == 100.0 * part as real;
    assert 2.0 * t * (x + 0.5) == (200 * part + total) as real;
    assert (2 * total * p) as real == 2.0 * t * p as real;
    assert (2 * total * p + 2 * total) as real == 2.0 * t * (p as real + 1.0);
    CancelReal(t, p as real, x + 0.5);
    CancelRealStrict(t, x + 0.5, p as real + 1.0);
  }

  lemma CancelReal(t: real, a: real, b: real)
    requires t > 0.0 && 2.0 * t * a <= 2.0 * t * b
    ensures a <= b
  {
  }

  lemma CancelRealStrict(t: real, a: real, b: real)
    requires t > 0.0 && 2.0 * t * a < 2.0 * t * b
    ensures a < b
  {
  }

  /** Multiplying by a positive factor keeps a strict order, and so dividing it out does too. */
  lemma CancelLt(k: int, a: int, b: int)
    requires k > 0 && k * a < k * b
    ensures a < b
  {
    assert k * (b - a) == k * b - k * a;
  }

  /** A part of the total is between 0 and 100 per cent, and a larger part never shows less. */
  lemma PercentBounds(part: nat, part2: nat, total: nat)
    requires part <= part2 <= total
    ensures 0 <= Percent(part, total) <= Percent(part2, total) <= 100
  {
    if total > 0 {
      var p, q, k := Percent(part, total), Percent(part2, total), 2 * total;
      assert k * q + k == k * (q + 1);
      CancelLt(k, p, q + 1);
      assert k * 101 == 202 * total;
      CancelLt(k, q, 101);
      assert k * (-1) == -2 * total;
      CancelLt(k, -1, p);
    }
  }

  /** The whole is 100 per cent and nothing is 0 per cent. */
  lemma PercentEnds(total: nat)
    requires total > 0
    ensures Percent(total, total) == 100 && Percent(0, total) == 0
  {
    var z, h, k := Percent(0, total), Percent(total, total), 2 * total;
    assert k * 1 == 2 * total && k * (-1) == -2 * total;
    CancelLt(k, z, 1);
    CancelLt(k, -1, z);
    assert k * 101 == 202 * total && k * 99 == 198 * total;
    CancelLt(k, h, 101);
    CancelLt(k, 99, h);
  }

  /**
   * The three shares of the monthly pie add up to 100 give or take one
   * point of rounding.
   */
  lemma PieSharesSum(hadir: nat, izin: nat, alpha: nat)
    requires hadir + izin + alpha > 0
    ensures var total := hadir + izin + alpha;
            99 <= Percent(hadir, total) + Percent(izin, total) + Percent(alpha, total) <= 101
  {
    var t := hadir + izin + alpha;
    var p1, p2, p3, k := Percent(hadir, t), Percent(izin, t), Percent(alpha, t), 2 * t;
    assert k * p1 <= 200 * hadir + t < k * p1 + k;
    assert k * p2 <= 200 * izin + t < k * p2 + k;
    assert k * p3 <= 200 * alpha + t < k * p3 + k;
    var s := p1 + p2 + p3;
    Distribute3(k, p1, p2, p3);
    assert k * s <= 203 * t < k * s + 3 * k;
    assert k * 102 == 204 * t && k * 98 == 196 * t;
    CancelLt(k, s, 102);
    CancelLt(k, 98, s);
  }

  lemma Distribute3(k: int, a: int, b: int, c: int)
    ensures k * (a + b + c) == k * a + k * b + k * c
  {
  }

  // ----- the current week -----

  /** `getDay()` of a midnight on a UTC host: 1 January 1970 was a Thursday (4). */
  function Weekday(midnight: int): (d: int)
    ensures 0 <= d < 7
  {
    (midnight / 86_400_000 + 4) % 7
  }

  /** `dayOfWeek === 0 ? 6 : dayOfWeek - 1`: days back to Monday. */
  function MondayOffset(dayOfWeek: int): (k: int)
    requires 0 <= dayOfWeek < 7
    ensures 0 <= k < 7
    ensures (dayOfWeek + 7 - k) % 7 == 1
  {
    if dayOfWeek == 0 then 6 else dayOfWeek - 1
  }

  /** `monday.setDate(today.getDate() - offset)` on a UTC host. */
  function MondayOf(today: int): (monday: int)
    ensures today - 6 * MsPerDay <= monday <= today
    ensures (today - monday) % MsPerDay == 0
  {
    today - MondayOffset(Weekday(today)) * 86_400_000
  }

  /** The midnight `j` days after the epoch: its day number is `j` and its weekday `(j + 4) % 7`. */
  lemma DayIndex(j: int)
    ensures (j * 86_400_000) / 86_400_000 == j
    ensures (j * 86_400_000) % MsPerDay == 0
    ensures Weekday(j * 86_400_000) == (j + 4) % 7
  {
  }

  /** Stepping back by the Monday offset and then `i` days forward lands on weekday `i + 1`. */
  lemma WeekStep(d: int, i: int)
    requires 0 <= i < 5
    ensures (d - MondayOffset((d + 4) % 7) + i + 4) % 7 == i + 1
  {
    var w := (d + 4) % 7;
    assert d + 4 == 7 * ((d + 4) / 7) + w;
  }

  /** The Monday found is a Monday, at most six days back, and `today` is within its week. */
  lemma MondayOfWeek(today: int)
    requires today % MsPerDay == 0
    ensures MondayOf(today) % MsPerDay == 0
    ensures Weekday(MondayOf(today)) == 1
    ensures MondayOf(today) <= today < MondayOf(today) + 7 * MsPerDay
    ensures forall i :: 0 <= i < 5 ==> Weekday(MondayOf(today) + i * MsPerDay) == i + 1
  {
    var d := today / 86_400_000;
    assert today == d * 86_400_000;
    DayIndex(d);
    var k := MondayOffset((d + 4) % 7);
    var m := d - k;
    assert MondayOf(today) == m * 86_400_000;
    forall i | 0 <= i < 5
      ensures Weekday(MondayOf(today) + i * MsPerDay) == i + 1
    {
      assert MondayOf(today) + i * MsPerDay == (m + i) * 86_400_000;
      DayIndex(m + i);
      WeekStep(d, i);
    }
    DayIndex(m);
    WeekStep(d, 0);
  }

  // ----- the weekly chart -----

  /** The part of a user row the chart's scope filter reads. */
  datatype UserInfo = UserInfo(role: string, supervisorId: Option<string>)

  /** Whose rows a chart counts: one student's, a supervisor's students', or every row. */
  datatype Scope = OwnRows(userId: string) | SupervisedRows(supervisorId: string) | AllRows

  predicate Given(s: Option<string>) {
    s.Some? && s.value != ""
  }

  /** The `whereClause` branches: a student sees their own rows, a supervisor their students', anyone else all rows. */
  function ScopeFor(role: Option<string>, userId: Option<string>, supervisorId: Option<string>): (s: Scope)
    ensures s.OwnRows? <==> role == Some("MAHASISWA") && Given(userId)
    ensures s.SupervisedRows? <==> role == Some("PEMBIMBING") && Given(supervisorId)
    ensures s.OwnRows? ==> s.userId == userId.value
    ensures s.SupervisedRows? ==> s.supervisorId == supervisorId.value
  {
    if role == Some("MAHASISWA") && Given(userId) then OwnRows(userId.value)
    else if role == Some("PEMBIMBING") && Given(supervisorId) then SupervisedRows(supervisorId.value)
    else AllRows
  }

  predicate InScope(row: AttendanceRecord, scope: Scope, users: map<UserId, UserInfo>) {
    match scope
    case OwnRows(u) => row.userId == u
    case SupervisedRows(s) =>
      row.userId in users && users[row.userId].role == "MAHASISWA" && users[row.userId].supervisorId == Some(s)
    case AllRows => true
  }

  /** `attendance.count` of the rows in scope on `date` whose status is in `statuses`. */
  function Count(rows: seq<AttendanceRecord>, users: map<UserId, UserInfo>, scope: Scope, date: int,
                 statuses: set<Status>): (n: nat)
    ensures n <= |rows|
  {
    if rows == [] then 0
    else
      var r := rows[|rows| - 1];
      Count(rows[..|rows| - 1], users, scope, date, statuses)
        + (if r.date == date && r.status in statuses && InScope(r, scope, users) then 1 else 0)
  }

  /** Counting two disjoint status groups apart adds up to counting them together. */
  lemma {:induction false} CountSplit(rows: seq<AttendanceRecord>, users: map<UserId, UserInfo>, scope: Scope,
                                      date: int, a: set<Status>, b: set<Status>)
    requires a !! b
    ensures Count(rows, users, scope, date, a + b)
              == Count(rows, users, scope, date, a) + Count(rows, users, scope, date, b)
  {
    if rows != [] {
      CountSplit(rows[..|rows| - 1], users, scope, date, a, b);
    }
  }

  const HadirStatuses: set<Status> := {Present, Late}
  const IzinStatuses: set<Status> := {Leave, Sick}
  const AlphaStatuses: set<Status> := {Absent}

  const DayNames: seq<string> := ["Sen", "Sel", "Rab", "Kam", "Jum"]

  /** One entry of the weekly chart; `date` is the day's midnight. */
  datatype DayBar = DayBar(name: string, date: int, hadir: nat, izin: nat, alpha: nat)

  function BarFor(rows: seq<AttendanceRecord>, users: map<UserId, UserInfo>, scope: Scope, date: int, name: string)
    : DayBar
  {
    DayBar(name, date, Count(rows, users, scope, date, HadirStatuses), Count(rows, users, scope, date, IzinStatuses),
           Count(rows, users, scope, date, AlphaStatuses))
  }

  /** Every row of the day in scope falls in exactly one of the three bars. */
  lemma BarPartitionsDay(rows: seq<AttendanceRecord>, users: map<UserId, UserInfo>, scope: Scope, date: int,
                         name: string)
    ensures var bar := BarFor(rows, users, scope, date, name);
            bar.hadir + bar.izin + bar.alpha == Count(rows, users, scope, date, {Present, Late, Absent, Leave, Sick})
  {
    CountSplit(rows, users, scope, date, HadirStatuses, IzinStatuses);
    CountSplit(rows, users, scope, date, HadirStatuses + IzinStatuses, AlphaStatuses);
    assert HadirStatuses + IzinStatuses + AlphaStatuses == {Present, Late, Absent, Leave, Sick};
  }

  /** `GET /api/dashboard/chart/weekly`: one bar per weekday, Monday to Friday of the current WIB week. */
  method WeeklyChart(rows: seq<AttendanceRecord>, users: map<UserId, UserInfo>, role: Option<string>,
                     userId: Option<string>, supervisorId: Option<string>, utcMs: int)
    returns (chart: seq<DayBar>)
    ensures |chart| == 5
    ensures forall i :: 0 <= i < 5 ==>
              chart[i] == BarFor(rows, users, ScopeFor(role, userId, supervisorId),
                                 MondayOf(CivilToday(utcMs)) + i * MsPerDay, DayNames[i])
    ensures forall i :: 0 <= i < 5 ==> Weekday(chart[i].date) == i + 1
    ensures forall i :: 0 <= i < 5 ==> chart[i].date <= CivilToday(utcMs) + 4 * MsPerDay
  {
    var today := CivilToday(utcMs);
    var monday := MondayOf(today);
    var scope := ScopeFor(role, userId, supervisorId);
    MondayOfWeek(today);
    chart := [];
    for i := 0 to 5
      invariant |chart| == i
      invariant forall j :: 0 <= j < i ==> chart[j] == BarFor(rows, users, scope, monday + j * MsPerDay, DayNames[j])
    {
      var date := monday + i * MsPerDay;
      var hadir := Count(rows, users, scope, date, HadirStatuses);
      var izin := Count(rows, users, scope, date, IzinStatuses);
      var alpha := Count(rows, users, scope, date, AlphaStatuses);
      chart := chart + [DayBar(DayNames[i], date, hadir, izin, alpha)];
    }
  }
}
