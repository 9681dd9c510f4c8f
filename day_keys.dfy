/** The day keys the logging handlers store, as integer millisecond arithmetic on ECMAScript
    time values (section 15.9.1 of ECMA-262 5.1). The local time zone is a fixed offset in
    minutes, as `Date.prototype.getTimezoneOffset` reports it (positive west of UTC); daylight
    saving time is not part of the model. */
module DayKeys {

  import opened JsValues

  const MsPerMinute: int := 60000
  const MsPerDay: int := 86400000

  /** The clock and time zone of the server process: `Date.now()` and the local offset. */
  datatype Clock = Clock(now: int, tzOffsetMin: int)

  /** `logDate ? new Date(logDate) : new Date()`: the client's date, already parsed, or now. */
  function Instant(logDate: Option<int>, now: int): int {
    match logDate
    case Some(t) => t
    case None => now
  }

  /** Day(t) = floor(t / msPerDay) (section 15.9.1.2). Dafny's `/` rounds toward negative
      infinity for a positive divisor, so it is the floor. */
  function Day(t: int): int {
    t / MsPerDay
  }

  /** A time value that is the first millisecond of a UTC day. */
  predicate IsDayBoundary(k: int) {
    k % MsPerDay == 0
  }

  /** The day that starts at the boundary k: [k, k + 1 day). */
  predicate InDay(t: int, k: int) {
    k <= t < k + MsPerDay
  }

  /** `d.setUTCHours(0, 0, 0, 0)` on the time value t: MakeDate(Day(t), 0). */
  function UtcMidnight(t: int): (k: int)
    ensures IsDayBoundary(k)
    ensures InDay(t, k)
  {
    Day(t) * MsPerDay
  }

  /** LocalTime(t) with LocalTZA = -offset minutes (section 15.9.1.9). */
  function LocalTime(t: int, tzOffsetMin: int): int {
    t - tzOffsetMin * MsPerMinute
  }

  /** UTC(t), the inverse of LocalTime. */
  function Utc(t: int, tzOffsetMin: int): int {
    t + tzOffsetMin * MsPerMinute
  }

  /** `d.setHours(0, 0, 0, 0)`: the UTC time value of the local midnight that starts t's
      local calendar day. */
  function LocalMidnight(t: int, tzOffsetMin: int): int {
    Utc(UtcMidnight(LocalTime(t, tzOffsetMin)), tzOffsetMin)
  }

  /** `new Date(local.getTime() - local.getTimezoneOffset() * 60000)` applied to the local
      midnight of t: the key log-activity and log-nutrients store. It lies on a UTC day
      boundary, and the wall-clock time of t falls in the day it starts. */
  function LocalDayKey(t: int, tzOffsetMin: int): (k: int)
    ensures IsDayBoundary(k)
    ensures InDay(LocalTime(t, tzOffsetMin), k)
  {
    LocalMidnight(t, tzOffsetMin) - tzOffsetMin * MsPerMinute
  }

  /** A day boundary k is the UTC midnight of exactly the instants of the day it starts. */
  lemma UtcMidnightOfDay(t: int, k: int)
    requires IsDayBoundary(k)
    ensures UtcMidnight(t) == k <==> InDay(t, k)
  {
    var m := k / MsPerDay;
    assert k == m * MsPerDay;
    if InDay(t, k) {
      var q := t / MsPerDay;
      assert q * MsPerDay <= t < q * MsPerDay + MsPerDay;
      assert m * MsPerDay <= t < m * MsPerDay + MsPerDay;
      assert q == m;
    }
  }

  /** The log-weight key: zeroing the UTC time of day gives a boundary no later than t and
      less than one day before it; zeroing again changes nothing. */
  lemma UtcMidnightNormalises(t: int)
    ensures UtcMidnight(t) % MsPerDay == 0
    ensures UtcMidnight(t) <= t && t - UtcMidnight(t) < MsPerDay
    ensures UtcMidnight(UtcMidnight(t)) == UtcMidnight(t)
  {
    UtcMidnightOfDay(UtcMidnight(t), UtcMidnight(t));
  }

  /** Two instants get the same log-weight key exactly when they lie in the same UTC day. */
  lemma SameUtcKeyIffSameDay(t: int, u: int)
    ensures UtcMidnight(t) == UtcMidnight(u) <==> InDay(u, UtcMidnight(t))
  {
    UtcMidnightOfDay(u, UtcMidnight(t));
  }

  /** The local key is the UTC midnight of the local wall-clock time: shifting the local
      midnight back by the offset lands on a UTC day boundary. */
  lemma LocalDayKeyIsUtcMidnightOfLocalTime(t: int, tzOffsetMin: int)
    ensures LocalDayKey(t, tzOffsetMin) == UtcMidnight(LocalTime(t, tzOffsetMin))
    ensures LocalMidnight(t, tzOffsetMin) - LocalDayKey(t, tzOffsetMin) == tzOffsetMin * MsPerMinute
  {
  }

  /** With the server on UTC the two normalisations agree; away from UTC they can put the
      same instant under different days (here: the epoch, one hour west of UTC). */
  lemma KeysAgreeOnlyAtUtc(t: int)
    ensures LocalDayKey(t, 0) == UtcMidnight(t)
    ensures LocalDayKey(0, 60) != UtcMidnight(0)
  {
    assert LocalTime(0, 60) == -3600000;
    assert UtcMidnight(-3600000) == -86400000 by {
      UtcMidnightOfDay(-3600000, -86400000);
    }
  }
}
