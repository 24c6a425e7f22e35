/** The pure helpers of the weekly availability form: the Monday-first
    weekday table, the `HH:MM` rendering of a minute of the day, and the
    default contents of a weekday the business has not stored. */
module AvailabilityPage {
  import opened Wrappers
  import opened TimeMath
  import opened Seqs
  import opened Schedule

  // ---------------------------------------------------------------------
  // Decimal rendering, as `String(n)` and `padStart(2, '0')` do it
  // ---------------------------------------------------------------------

  function DigitChar(d: int): (c: char)
    requires 0 <= d <= 9
    ensures IsDigit(c) && DigitValue(c) == d
  {
    ('0' as int + d) as char
  }

  /** The value of a string of decimal digits. */
  function DecimalValue(s: string): nat
    requires forall i :: 0 <= i < |s| ==> IsDigit(s[i])
  {
    if s == [] then 0 else DecimalValue(s[..|s| - 1]) * 10 + DigitValue(s[|s| - 1])
  }

  /** The decimal digits of a natural number, without leading zeros. */
  function NatToString(n: nat): (r: string)
    ensures 1 <= |r|
    ensures forall i :: 0 <= i < |r| ==> IsDigit(r[i])
    ensures n < 10 <==> |r| == 1
  {
    if n < 10 then [DigitChar(n)] else NatToString(n / 10) + [DigitChar(n % 10)]
  }

  lemma {:induction false} NatToStringRoundTrip(n: nat)
    ensures DecimalValue(NatToString(n)) == n
  {
    if n >= 10 {
      NatToStringRoundTrip(n / 10);
      var s := NatToString(n);
      assert s[..|s| - 1] == NatToString(n / 10);
    }
  }

  /** `String(n)` for an integer: a minus sign before the digits of a negative number. */
  function IntToString(n: int): (r: string)
    ensures n >= 0 ==> r == NatToString(n)
    ensures n < 0 ==> r == "-" + NatToString(-n)
  {
    if n < 0 then "-" + NatToString(-n) else NatToString(n)
  }

  /** `padStart(2, '0')`: zeros in front of a string shorter than two characters. */
  function PadStart2(s: string): (r: string)
    ensures |r| == if |s| < 2 then 2 else |s|
    ensures r[|r| - |s|..] == s
    ensures forall i :: 0 <= i < |r| - |s| ==> r[i] == '0'
  {
    if |s| == 0 then "00" else if |s| == 1 then "0" + s else s
  }

  /** JavaScript's `min % 60`: the remainder takes the sign of the dividend. */
  function TruncRem60(a: int): (r: int)
    ensures -60 < r < 60
    ensures (a - r) % 60 == 0
    ensures a >= 0 ==> 0 <= r
    ensures a <= 0 ==> r <= 0
  {
    if a >= 0 then a % 60 else -((-a) % 60)
  }

  lemma TwoDigits(n: int)
    requires 0 <= n < 100
    ensures PadStart2(IntToString(n)) == [DigitChar(n / 10), DigitChar(n % 10)]
  {
    if n >= 10 {
      assert NatToString(n / 10) == [DigitChar(n / 10)];
    }
  }

  // ---------------------------------------------------------------------
  // minToTime
  // ---------------------------------------------------------------------

  /** Renders a minute of the day as `HH:MM`; `None` stands for a value that
      is not a number, or NaN. The hour is `Math.floor(min / 60)`, which is
      Dafny's `/` for a positive divisor; the minute is JavaScript's truncating `%`. */
  function MinToTime(min: Option<int>): (r: string)
    ensures 5 <= |r|
    ensures min.None? ==> r == "00:00"
  {
    if min.None? then "00:00"
    else
      PadStart2(IntToString(min.value / 60)) + ":" + PadStart2(IntToString(TruncRem60(min.value)))
  }

  /** `HH:MM` with both fields zero-padded to two digits. */
  function Clock(h: int, mm: int): (r: string)
    requires 0 <= h < 100 && 0 <= mm < 100
    ensures |r| == 5 && r[2] == ':'
    ensures forall i :: 0 <= i < 5 && i != 2 ==> IsDigit(r[i])
    ensures DigitValue(r[0]) * 10 + DigitValue(r[1]) == h && DigitValue(r[3]) * 10 + DigitValue(r[4]) == mm
  {
    [DigitChar(h / 10), DigitChar(h % 10), ':', DigitChar(mm / 10), DigitChar(mm % 10)]
  }

  /** A clock reading within a day is a strict `HH:MM` and parses back to its minute. */
  lemma ClockParses(h: int, mm: int)
    requires 0 <= h < 24 && 0 <= mm < 60
    ensures IsHhmm(Clock(h, mm))
    ensures HhmmToMin(Clock(h, mm)) == Success(h * 60 + mm)
  {
    var s := Clock(h, mm);
    assert DigitValue(s[0]) == h / 10 && DigitValue(s[1]) == h % 10;
    assert DigitValue(s[3]) == mm / 10;
    var v := HhmmToMin(s).value;
    assert v / 60 == h && v % 60 == mm;
  }

  /** Below 100 hours, both fields are zero-padded to exactly two digits. */
  lemma MinToTimePadded(m: int)
    requires 0 <= m < 6000
    ensures MinToTime(Some(m)) == Clock(m / 60, m % 60)
  {
    TwoDigits(m / 60);
    TwoDigits(m % 60);
  }

  /** Every minute of a day renders as a time the service parses back to
      the same minute; a missing value renders as midnight. */
  lemma MinToTimeRoundTrip(m: int)
    requires 0 <= m < MinutesPerDay
    ensures IsHhmm(MinToTime(Some(m)))
    ensures HhmmToMin(MinToTime(Some(m))) == Success(m)
    ensures MinToTime(None) == MinToTime(Some(0))
  {
    MinToTimePadded(m);
    MinToTimePadded(0);
    ClockParses(m / 60, m % 60);
  }

  // ---------------------------------------------------------------------
  // The weekday table and the default day
  // ---------------------------------------------------------------------

  /** A row of the weekday table: `getUTCDay()` number and short name. */
  datatype DayLabel = DayLabel(d: int, name: string)

  /** The form lists the week from Monday to Sunday. */
  const Days: seq<DayLabel> := [
    DayLabel(1, "Mon"), DayLabel(2, "Tue"), DayLabel(3, "Wed"), DayLabel(4, "Thu"),
    DayLabel(5, "Fri"), DayLabel(6, "Sat"), DayLabel(0, "Sun")]

  /** Where a weekday sits in the form: Monday at 0, Sunday at 6. */
  function DayPosition(dayOfWeek: int): (i: nat)
    requires 0 <= dayOfWeek < 7
    ensures i < 7
  {
    if dayOfWeek == 0 then 6 else dayOfWeek - 1
  }

  /** Each weekday 0..6 appears exactly once, Monday first and Sunday last. */
  lemma DaysListTheWeek()
    ensures |Days| == 7
    ensures Days[0] == DayLabel(1, "Mon") && Days[6] == DayLabel(0, "Sun")
    ensures forall i :: 0 <= i < |Days| ==> 0 <= Days[i].d < 7 && DayPosition(Days[i].d) == i
    ensures forall d :: 0 <= d < 7 ==> Days[DayPosition(d)].d == d
  {
  }

  /** What the form shows for a weekday with no stored window: Monday to
      Friday enabled, 09:00-17:00 with a 13:00-14:00 break; Saturday
      10:00-14:00 and the weekend disabled and without breaks. */
  function EmptyDay(dayOfWeek: int): DayInput {
    var weekday := 1 <= dayOfWeek <= 5;
    DayInput(
      dayOfWeek,
      weekday,
      Some(if dayOfWeek == 6 then "10:00" else "09:00"),
      Some(if dayOfWeek == 6 then "14:00" else "17:00"),
      Some(if weekday then [BreakInput("13:00", "14:00")] else []))
  }

  /** The default day is enabled exactly on weekdays 1..5, and submitting it
      normalises to its window (10:00-14:00 on Saturday, 09:00-17:00
      otherwise) with the lunch break on weekdays 1..5 and none otherwise. */
  lemma EmptyDayDefaults(dayOfWeek: int)
    ensures EmptyDay(dayOfWeek).enabled <==> 1 <= dayOfWeek <= 5
    ensures NormalizeDay(EmptyDay(dayOfWeek)) == Success(Day(
      dayOfWeek,
      if dayOfWeek == 6 then 600 else 540,
      if dayOfWeek == 6 then 840 else 1020,
      if 1 <= dayOfWeek <= 5 then [Interval(780, 840)] else []))
  {
    var d := EmptyDay(dayOfWeek);
    DefaultWindow(dayOfWeek);
    assert Present(d.start) && Present(d.end);
    if 1 <= dayOfWeek <= 5 {
      LunchBreak();
    } else {
      assert ParseBreaks(d.breaks.GetOr([])) == Success([]);
    }
  }

  /** The default window parses to 10:00-14:00 on Saturday and 09:00-17:00 otherwise. */
  lemma DefaultWindow(dayOfWeek: int)
    ensures ParseTime(EmptyDay(dayOfWeek).start.value) == Success(if dayOfWeek == 6 then 600 else 540)
    ensures ParseTime(EmptyDay(dayOfWeek).end.value) == Success(if dayOfWeek == 6 then 840 else 1020)
  {
    assert HhmmToMin("09:00") == Success(540);
    assert HhmmToMin("10:00") == Success(600);
    assert HhmmToMin("14:00") == Success(840);
    assert HhmmToMin("17:00") == Success(1020);
  }

  /** The default lunch break parses to 13:00-14:00 and meets the default window. */
  lemma LunchBreak()
    ensures ParseBreaks([BreakInput("13:00", "14:00")]) == Success([Interval(780, 840)])
    ensures KeptBreaks([Interval(780, 840)], 540, 1020) == [Interval(780, 840)]
  {
    assert HhmmToMin("13:00") == Success(780);
    assert HhmmToMin("14:00") == Success(840);
    assert Filter([Interval(780, 840)], NonEmptyBreak()) == [Interval(780, 840)];
  }

  // ---------------------------------------------------------------------
  // Showing a stored day in the form
  // ---------------------------------------------------------------------

  function BreakToInput(b: Interval): BreakInput {
    BreakInput(MinToTime(Some(b.startMin)), MinToTime(Some(b.endMin)))
  }

  /** The breaks of a stored day as the form shows them. */
  function BreakInputs(bs: seq<Interval>): (r: seq<BreakInput>)
    ensures |r| == |bs|
  {
    seq(|bs|, i requires 0 <= i < |bs| => BreakToInput(bs[i]))
  }

  /** A stored day as the form shows it: enabled, with its window and
      breaks rendered as `HH:MM`. */
  function LoadedDay(d: Day): (r: DayInput)
    ensures r.dayOfWeek == d.dayOfWeek && r.enabled
    ensures r.breaks.Some? && |r.breaks.value| == |d.breaks|
  {
    DayInput(d.dayOfWeek, true, Some(MinToTime(Some(d.startMin))), Some(MinToTime(Some(d.endMin))),
             Some(BreakInputs(d.breaks)))
  }

  /** Rendered breaks within a day parse back to the same breaks. */
  lemma ParseBreakInputs(bs: seq<Interval>)
    requires forall b :: b in bs ==> WellFormedInterval(b.startMin, b.endMin)
    ensures ParseBreaks(BreakInputs(bs)) == Success(bs)
  {
    var inputs := BreakInputs(bs);
    forall i | 0 <= i < |inputs|
      ensures BreakTextsValid(inputs[i])
      ensures Interval(HhmmToMin(inputs[i].start).value, HhmmToMin(inputs[i].end).value) == bs[i]
    {
      assert bs[i] in bs;
      MinToTimeRoundTrip(bs[i].startMin);
      MinToTimeRoundTrip(bs[i].endMin);
    }
    assert ParseBreaks(inputs).value == bs;
  }

  /** The breaks of a well-formed day all survive the filtering. */
  lemma KeptBreaksOfDay(d: Day)
    requires WellFormedDay(d)
    ensures KeptBreaks(d.breaks, d.startMin, d.endMin) == d.breaks
  {
    forall i | 0 <= i < |d.breaks|
      ensures NonEmptyBreak()(d.breaks[i]) && MeetsWindow(d.startMin, d.endMin)(d.breaks[i])
    {
      assert d.breaks[i] in d.breaks;
    }
    FilterAll(d.breaks, NonEmptyBreak());
    FilterAll(d.breaks, MeetsWindow(d.startMin, d.endMin));
  }

  /** A day input whose window and breaks parse, with the start before the
      end, normalises to the parsed window and the kept breaks. */
  lemma NormalizeParsedDay(input: DayInput, startMin: int, endMin: int, parsed: seq<Interval>)
    requires Present(input.start) && Present(input.end)
    requires ParseTime(input.start.value) == Success(startMin) && ParseTime(input.end.value) == Success(endMin)
    requires startMin < endMin && ParseBreaks(input.breaks.GetOr([])) == Success(parsed)
    ensures NormalizeDay(input) == Success(Day(input.dayOfWeek, startMin, endMin, KeptBreaks(parsed, startMin, endMin)))
  {
  }

  /** Submitting a stored, well-formed day unchanged gives back that same day. */
  lemma LoadedDayRoundTrip(d: Day)
    requires WellFormedDay(d)
    ensures NormalizeDay(LoadedDay(d)) == Success(d)
  {
    var input := LoadedDay(d);
    MinToTimeRoundTrip(d.startMin);
    MinToTimeRoundTrip(d.endMin);
    ParseBreakInputs(d.breaks);
    KeptBreaksOfDay(d);
    NormalizeParsedDay(input, d.startMin, d.endMin, d.breaks);
  }
}
