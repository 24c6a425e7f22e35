/** Minute-of-day arithmetic of the availability service: strict `HH:MM`
    parsing, clamping, and the conversion of a UTC instant to a local
    weekday and minute of the day. */
module TimeMath {
  import opened Wrappers

  const MsPerMinute: int := 60000
  const MinutesPerDay: int := 1440
  const MsPerDay: int := 86400000
  /** Weekday (Sunday = 0) of day 0 of the epoch, 1970-01-01, a Thursday. */
  const EpochWeekday: int := 4

  datatype TimeError = InvalidTime(text: string)

  predicate IsDigit(c: char) {
    '0' <= c <= '9'
  }

  function DigitValue(c: char): (d: int)
    requires IsDigit(c)
    ensures 0 <= d <= 9
  {
    c as int - '0' as int
  }

  /** The pattern `^([01]\d|2[0-3]):([0-5]\d)$`: 00:00 up to 23:59. */
  predicate IsHhmm(s: string) {
    && |s| == 5
    && (('0' <= s[0] <= '1' && IsDigit(s[1])) || (s[0] == '2' && '0' <= s[1] <= '3'))
    && s[2] == ':'
    && '0' <= s[3] <= '5'
    && IsDigit(s[4])
  }

  /** Parses a strict `HH:MM` into minutes since midnight. */
  function HhmmToMin(s: string): (r: Result<int, TimeError>)
    ensures r.Success? <==> IsHhmm(s)
    ensures r.Failure? ==> r.error == InvalidTime(s)
    ensures r.Success? ==> 0 <= r.value < MinutesPerDay
    ensures r.Success? ==> r.value / 60 == DigitValue(s[0]) * 10 + DigitValue(s[1])
    ensures r.Success? ==> r.value % 60 == DigitValue(s[3]) * 10 + DigitValue(s[4])
  {
    if IsHhmm(s) then
      var h := DigitValue(s[0]) * 10 + DigitValue(s[1]);
      var mm := DigitValue(s[3]) * 10 + DigitValue(s[4]);
      Success(h * 60 + mm)
    else
      Failure(InvalidTime(s))
  }

  function Min(a: int, b: int): int {
    if a <= b then a else b
  }

  function Max(a: int, b: int): int {
    if a >= b then a else b
  }

  /** `Math.max(lo, Math.min(hi, n))`. */
  function Clamp(n: int, lo: int, hi: int): (r: int)
    ensures lo <= hi ==> lo <= r <= hi
    ensures lo <= n <= hi ==> r == n
    ensures lo <= hi && n < lo ==> r == lo
    ensures lo <= hi && hi < n ==> r == hi
  {
    Max(lo, Min(hi, n))
  }

  /** The instant whose UTC reading is the local wall clock; the offset is
      `UTC - local` in minutes, as `Date.getTimezoneOffset()` reports it. */
  function ToLocal(utc: int, tzOffsetMin: int): int {
    utc - tzOffsetMin * MsPerMinute
  }

  /** `getUTCDay()`: Sunday = 0 .. Saturday = 6. */
  function WeekdayOf(ms: int): (d: int)
    ensures 0 <= d < 7
  {
    (ms / MsPerDay + EpochWeekday) % 7
  }

  /** `getUTCHours() * 60 + getUTCMinutes()`: seconds are dropped. */
  function MinuteOfDay(ms: int): (m: int)
    ensures 0 <= m < MinutesPerDay
  {
    (ms % MsPerDay) / MsPerMinute
  }

  function LocalDayOfWeek(utc: int, tzOffsetMin: int): (d: int)
    ensures 0 <= d < 7
  {
    WeekdayOf(ToLocal(utc, tzOffsetMin))
  }

  function LocalMinuteOfDay(utc: int, tzOffsetMin: int): (m: int)
    ensures 0 <= m < MinutesPerDay
  {
    MinuteOfDay(ToLocal(utc, tzOffsetMin))
  }

  /** Half-open interval test on plain numbers: [aStart, aEnd) meets [bStart, bEnd). */
  predicate Overlaps(aStart: int, aEnd: int, bStart: int, bEnd: int) {
    aStart < bEnd && aEnd > bStart
  }

  /** The instant `m` minutes after the start of epoch day `day` reads as
      weekday `(day + 4) % 7` and minute `m` of that day. */
  lemma MidnightPlusMinutes(day: int, m: int)
    requires 0 <= m < MinutesPerDay
    ensures MinuteOfDay(day * MsPerDay + m * MsPerMinute) == m
    ensures WeekdayOf(day * MsPerDay + m * MsPerMinute) == (day + EpochWeekday) % 7
  {
    var t := day * MsPerDay + m * MsPerMinute;
    assert 0 <= m * MsPerMinute < MsPerDay;
    DivModUnique(t, MsPerDay, day, m * MsPerMinute);
    DivModUnique(m * MsPerMinute, MsPerMinute, m, 0);
  }

  /** Adding a whole day moves the weekday on by one and keeps the minute. */
  lemma NextDay(ms: int)
    ensures WeekdayOf(ms + MsPerDay) == (WeekdayOf(ms) + 1) % 7
    ensures MinuteOfDay(ms + MsPerDay) == MinuteOfDay(ms)
  {
    DivModUnique(ms + MsPerDay, MsPerDay, ms / MsPerDay + 1, ms % MsPerDay);
  }

  /** A UTC instant is its day, plus its minute of the day, plus the
      leftover seconds and milliseconds. */
  lemma Decomposition(ms: int)
    ensures ms == (ms / MsPerDay) * MsPerDay + MinuteOfDay(ms) * MsPerMinute + ms % MsPerMinute
  {
    var r := ms % MsPerDay;
    DivModUnique(r, MsPerMinute, r / MsPerMinute, r % MsPerMinute);
    DivModUnique(ms, MsPerMinute, (ms / MsPerDay) * 1440 + r / MsPerMinute, r % MsPerMinute);
  }

  lemma DivModUnique(x: int, d: int, q: int, r: int)
    requires d > 0 && 0 <= r < d && x == q * d + r
    ensures x / d == q && x % d == r
  {
    var q', r' := x / d, x % d;
    assert x == q' * d + r';
    if q' > q {
      MulAtLeast(q' - q, d);
      assert false;
    } else if q' < q {
      MulAtLeast(q - q', d);
      assert false;
    }
  }

  lemma MulAtLeast(k: int, d: int)
    requires k >= 1 && d > 0
    ensures k * d >= d
  {
    assert k * d == (k - 1) * d + d;
  }
}
