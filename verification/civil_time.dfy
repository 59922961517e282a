/**
 * Civil time in WIB (Western Indonesia Time, UTC+7) as the attendance server
 * keeps it. An instant is an integer count of milliseconds since the Unix epoch.
 * The server shifts the UTC clock seven hours ahead and then stores the result
 * as if it were UTC, so a stored instant's UTC calendar fields ARE the WIB
 * wall-clock fields: the "fake UTC" convention.
 */
module CivilTime {
  import opened JsText

  const MsPerSecond: int := 1000
  const MsPerMinute: int := 60_000
  const MsPerHour: int := 3_600_000
  const MsPerDay: int := 86_400_000
  /** WIB is seven hours ahead of UTC. */
  const WibOffsetMs: int := 25_200_000

  /** Whole seconds, minutes and hours since the epoch (floor division, as `Date` counts them). */
  function EpochSeconds(t: int): int {
    t / 1000
  }

  function EpochMinutes(t: int): int {
    EpochSeconds(t) / 60
  }

  function EpochHours(t: int): int {
    EpochMinutes(t) / 60
  }

  /** `getUTCHours()` of instant `t`. */
  function UtcHours(t: int): (h: int)
    ensures 0 <= h < 24
  {
    EpochHours(t) % 24
  }

  /** `getUTCMinutes()` of instant `t`. */
  function UtcMinutes(t: int): (m: int)
    ensures 0 <= m < 60
  {
    EpochMinutes(t) % 60
  }

  /** `getUTCSeconds()` of instant `t`. */
  function UtcSeconds(t: int): (s: int)
    ensures 0 <= s < 60
  {
    EpochSeconds(t) % 60
  }

  /** The instant `new Date('YYYY-MM-DDT00:00:00.000Z')` built from `t`'s UTC date fields. */
  function UtcMidnight(t: int): (midnight: int)
    ensures midnight % 86_400_000 == 0
    ensures midnight <= t < midnight + 86_400_000
  {
    EpochHours(t) / 24 * 86_400_000
  }

  /** `getWIBTime()`: the UTC clock moved seven hours ahead. */
  function WibTime(utcMs: int): int {
    utcMs + 25_200_000
  }

  /** Hour of the WIB wall clock at UTC instant `utcMs` (`wibTime.getUTCHours()`). */
  function CivilHour(utcMs: int): (h: int)
    ensures 0 <= h < 24
  {
    UtcHours(WibTime(utcMs))
  }

  /** Minute of the WIB wall clock at UTC instant `utcMs` (`wibTime.getUTCMinutes()`). */
  function CivilMinute(utcMs: int): (m: int)
    ensures 0 <= m < 60
  {
    UtcMinutes(WibTime(utcMs))
  }

  /** Second of the WIB wall clock at UTC instant `utcMs` (`wibTime.getUTCSeconds()`). */
  function CivilSecond(utcMs: int): (s: int)
    ensures 0 <= s < 60
  {
    UtcSeconds(WibTime(utcMs))
  }

  /**
   * The civil day the handlers and `getTodayWIB` use as the dedup key: the
   * WIB date written out as `YYYY-MM-DD` and read back as a UTC midnight.
   */
  function CivilToday(utcMs: int): (today: int)
    ensures today % MsPerDay == 0
    ensures today <= WibTime(utcMs) < today + MsPerDay
  {
    UtcMidnight(WibTime(utcMs))
  }

  /**
   * The `now` the handlers store as `checkIn` / `checkOut`: the WIB date and
   * clock fields written out with `.000Z` and read back, so the milliseconds
   * are dropped.
   */
  function CivilNow(utcMs: int): (now: int)
    ensures now % MsPerSecond == 0
    ensures now <= WibTime(utcMs) < now + MsPerSecond
  {
    var w := WibTime(utcMs);
    var now := CivilToday(utcMs) + CivilHour(utcMs) * 3_600_000 + CivilMinute(utcMs) * 60_000
      + CivilSecond(utcMs) * 1000;
    Decompose(w);
    assert now == w - w % MsPerSecond;
    now
  }

  /** `${hours}:${minutes}`, the two-digit WIB clock the handlers show in messages and payloads. */
  function ClockText(utcMs: int): (s: string)
    ensures |s| == 5 && s[2] == ':'
    ensures AllDigits(s[..2]) && ParseDigits(s[..2]) == CivilHour(utcMs)
    ensures AllDigits(s[3..]) && ParseDigits(s[3..]) == CivilMinute(utcMs)
  {
    var hh, mm := Pad2(CivilHour(utcMs)), Pad2(CivilMinute(utcMs));
    Pad2RoundTrip(CivilHour(utcMs));
    Pad2RoundTrip(CivilMinute(utcMs));
    JoinClockFields(hh, mm);
    hh + ":" + mm
  }

  /** Every instant splits into its midnight, its UTC clock fields and its milliseconds. */
  lemma Decompose(t: int)
    ensures t == UtcMidnight(t) + UtcHours(t) * MsPerHour + UtcMinutes(t) * MsPerMinute
                 + UtcSeconds(t) * MsPerSecond + t % MsPerSecond
  {
  }

  /**
   * The stored `now` is the WIB instant cut down to a whole second, and it
   * lies within the stored `today`.
   */
  lemma CivilNowBounds(utcMs: int)
    ensures CivilNow(utcMs) == WibTime(utcMs) - WibTime(utcMs) % MsPerSecond
    ensures CivilNow(utcMs) % MsPerSecond == 0
    ensures CivilToday(utcMs) <= CivilNow(utcMs) < CivilToday(utcMs) + MsPerDay
    ensures 0 <= CivilHour(utcMs) < 24 && 0 <= CivilMinute(utcMs) < 60
  {
    Decompose(WibTime(utcMs));
  }

  /**
   * Read-back: the UTC fields of the stored `now` are the WIB wall-clock
   * fields, and its UTC midnight is the stored `today`.
   */
  lemma ReadBack(utcMs: int)
    ensures UtcMidnight(CivilNow(utcMs)) == CivilToday(utcMs)
    ensures UtcHours(CivilNow(utcMs)) == CivilHour(utcMs)
    ensures UtcMinutes(CivilNow(utcMs)) == CivilMinute(utcMs)
    ensures UtcSeconds(CivilNow(utcMs)) == CivilSecond(utcMs)
  {
    var w := WibTime(utcMs);
    Decompose(w);
    assert CivilNow(utcMs) == EpochSeconds(w) * 1000;
  }

  /**
   * `today` does not move while the WIB date stays the same: two readings
   * share the dedup key exactly when the later one is before the next WIB
   * midnight, and a later reading never has an earlier key or an earlier `now`.
   */
  lemma TodayStable(u1: int, u2: int)
    requires u1 <= u2
    ensures CivilToday(u1) <= CivilToday(u2)
    ensures CivilNow(u1) <= CivilNow(u2)
    ensures CivilToday(u1) == CivilToday(u2) <==> WibTime(u2) < CivilToday(u1) + MsPerDay
  {
    var w1, w2 := WibTime(u1), WibTime(u2);
    assert EpochSeconds(w1) <= EpochSeconds(w2);
    assert EpochMinutes(w1) <= EpochMinutes(w2);
    assert EpochHours(w1) <= EpochHours(w2);
    assert EpochHours(w1) / 24 <= EpochHours(w2) / 24;
    CivilNowBounds(u1);
    CivilNowBounds(u2);
  }
}
