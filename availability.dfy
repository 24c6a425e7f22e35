/** Whether a booking fits a business's weekly schedule: `isWithinAvailability`
    (local weekday, default-open) and `ensureWithinAvailabilityOrThrow` (UTC). */
module Availability {
  import opened Wrappers
  import opened Model
  import opened TimeMath
  import opened Seqs
  import opened Schedule

  /** Bound of the client-supplied offset from UTC, in minutes (14 hours). */
  const MaxTzOffsetMin := 840

  /** The offset `isWithinAvailability` uses: missing means UTC, then clamped. */
  function EffectiveTz(tzOffsetMin: Option<int>): (r: int)
    ensures -MaxTzOffsetMin <= r <= MaxTzOffsetMin
    ensures tzOffsetMin.None? ==> r == 0
    ensures tzOffsetMin.Some? && -MaxTzOffsetMin <= tzOffsetMin.value <= MaxTzOffsetMin ==> r == tzOffsetMin.value
  {
    Clamp(tzOffsetMin.GetOr(0), -MaxTzOffsetMin, MaxTzOffsetMin)
  }

  /** `days.find(d => d.dayOfWeek === dayOfWeek)`: the first day of that weekday. */
  function FindDay(days: seq<Day>, dayOfWeek: int): (r: Option<Day>)
    ensures r.Some? ==> r.value in days && r.value.dayOfWeek == dayOfWeek
    ensures r.None? <==> forall d :: d in days ==> d.dayOfWeek != dayOfWeek
  {
    if days == [] then None
    else if days[0].dayOfWeek == dayOfWeek then Some(days[0])
    else
      assert days == [days[0]] + days[1..];
      FindDay(days[1..], dayOfWeek)
  }

  /** The minute interval `[startMin, startMin + durationMin)` lies inside the
      day's window and overlaps none of its breaks. */
  predicate FitsDay(day: Day, startMin: int, durationMin: int) {
    && day.startMin <= startMin
    && startMin + durationMin <= day.endMin
    && forall b :: b in day.breaks ==> !Overlaps(startMin, startMin + durationMin, b.startMin, b.endMin)
  }

  /** What `isWithinAvailability` decides for the days a business reports. */
  predicate WithinAvailability(days: seq<Day>, startAt: int, durationMin: int, tzOffsetMin: Option<int>) {
    || days == []
    || (var tz := EffectiveTz(tzOffsetMin);
        var day := FindDay(days, LocalDayOfWeek(startAt, tz));
        day.Some? && FitsDay(day.value, LocalMinuteOfDay(startAt, tz), durationMin))
  }

  /** `isWithinAvailability`: reads the business's schedule, then decides on
      the reported days. */
  method IsWithinAvailability(hours: seq<WorkingHourRow>, breaks: seq<BreakRow>, businessId: UserId,
                              startAt: int, durationMin: int, tzOffsetMin: Option<int>)
    returns (ok: bool)
    ensures HoursOf(hours, businessId) == [] ==> ok
    ensures ok == WithinAvailability(DaysOf(hours, breaks, businessId), startAt, durationMin, tzOffsetMin)
  {
    var state := GetAvailabilityForBusiness(hours, breaks, businessId);
    ok := IsWithinDays(state.days, startAt, durationMin, tzOffsetMin);
  }

  /** The decision of `isWithinAvailability` on the reported days: open when
      there are none, else the local weekday's window and an early exit on
      the first overlapping break. */
  method IsWithinDays(days: seq<Day>, startAt: int, durationMin: int, tzOffsetMin: Option<int>)
    returns (ok: bool)
    ensures days == [] ==> ok
    ensures ok == WithinAvailability(days, startAt, durationMin, tzOffsetMin)
  {
    // A business that never configured a schedule does not block bookings.
    if |days| == 0 {
      return true;
    }
    var tz := EffectiveTz(tzOffsetMin);
    var localStartAt := ToLocal(startAt, tz);
    var dayOfWeek := WeekdayOf(localStartAt);
    var day := FindDay(days, dayOfWeek);
    if day.None? {
      return false;
    }
    var startMin := MinuteOfDay(localStartAt);
    var endMin := startMin + durationMin;
    if startMin < day.value.startMin || endMin > day.value.endMin {
      return false;
    }
    var dayBreaks := day.value.breaks;
    var i := 0;
    while i < |dayBreaks|
      invariant 0 <= i <= |dayBreaks|
      invariant forall k :: 0 <= k < i ==> !Overlaps(startMin, endMin, dayBreaks[k].startMin, dayBreaks[k].endMin)
    {
      var br := dayBreaks[i];
      if startMin < br.endMin && endMin > br.startMin {
        assert br in dayBreaks;
        return false;
      }
      i := i + 1;
    }
    forall b | b in dayBreaks ensures !Overlaps(startMin, endMin, b.startMin, b.endMin) {
      var k :| 0 <= k < |dayBreaks| && dayBreaks[k] == b;
    }
    return true;
  }

  /** The stored window of `(businessId, dayOfWeek)` exists, contains the
      minute interval, and no stored break of that weekday overlaps it. */
  predicate WindowAdmits(hours: seq<WorkingHourRow>, breaks: seq<BreakRow>, businessId: UserId,
                         dayOfWeek: int, startMin: int, durationMin: int)
  {
    && WindowFor(hours, businessId, dayOfWeek).Some?
    && WindowFor(hours, businessId, dayOfWeek).value.startMin <= startMin
    && startMin + durationMin <= WindowFor(hours, businessId, dayOfWeek).value.endMin
    && forall x :: x in breaks && x.businessId == businessId && x.dayOfWeek == dayOfWeek ==>
         !Overlaps(startMin, startMin + durationMin, x.startMin, x.endMin)
  }

  function BreakOnDay(businessId: UserId, dayOfWeek: int): BreakRow -> bool {
    (x: BreakRow) => x.businessId == businessId && x.dayOfWeek == dayOfWeek
  }

  /** `ensureWithinAvailabilityOrThrow`: the UTC weekday and minute, the
      window looked up by its unique key, and the breaks of that weekday;
      `false` is the "Outside availability" error. */
  method EnsureWithinAvailability(hours: seq<WorkingHourRow>, breaks: seq<BreakRow>, businessId: UserId,
                                  startAt: int, durationMin: int)
    returns (ok: bool)
    ensures ok == WindowAdmits(hours, breaks, businessId, WeekdayOf(startAt), MinuteOfDay(startAt), durationMin)
  {
    var dayOfWeek := WeekdayOf(startAt);
    var minutes := MinuteOfDay(startAt);
    var endMinutes := minutes + durationMin;
    var wh := WindowFor(hours, businessId, dayOfWeek);
    if wh.None? {
      return false;
    }
    if minutes < wh.value.startMin || endMinutes > wh.value.endMin {
      return false;
    }
    var dayBreaks := Filter(breaks, BreakOnDay(businessId, dayOfWeek));
    var i := 0;
    while i < |dayBreaks|
      invariant 0 <= i <= |dayBreaks|
      invariant forall k :: 0 <= k < i ==> !Overlaps(minutes, endMinutes, dayBreaks[k].startMin, dayBreaks[k].endMin)
    {
      if Overlaps(minutes, endMinutes, dayBreaks[i].startMin, dayBreaks[i].endMin) {
        assert dayBreaks[i] in dayBreaks;
        return false;
      }
      i := i + 1;
    }
    forall x | x in breaks && x.businessId == businessId && x.dayOfWeek == dayOfWeek
      ensures !Overlaps(minutes, endMinutes, x.startMin, x.endMin)
    {
      assert x in dayBreaks;
      var k :| 0 <= k < |dayBreaks| && dayBreaks[k] == x;
    }
    return true;
  }

  // ---------------------------------------------------------------------
  // From the reported days back to the stored rows
  // ---------------------------------------------------------------------

  /** The day `getAvailabilityForBusiness` reports for a weekday is the stored
      window of that weekday, with exactly the stored breaks of that weekday. */
  lemma FindDayOfStore(hours: seq<WorkingHourRow>, breaks: seq<BreakRow>, businessId: UserId, dayOfWeek: int)
    requires UniqueKeys(hours)
    ensures FindDay(DaysOf(hours, breaks, businessId), dayOfWeek).Some?
        <==> WindowFor(hours, businessId, dayOfWeek).Some?
    ensures FindDay(DaysOf(hours, breaks, businessId), dayOfWeek).Some? ==>
      var d := FindDay(DaysOf(hours, breaks, businessId), dayOfWeek).value;
      var w := WindowFor(hours, businessId, dayOfWeek).value;
      && d.startMin == w.startMin && d.endMin == w.endMin
      && forall iv :: iv in d.breaks <==>
           exists x :: x in breaks && x.businessId == businessId && x.dayOfWeek == dayOfWeek && iv == ToInterval(x)
  {
    var days := DaysOf(hours, breaks, businessId);
    var w := WindowFor(hours, businessId, dayOfWeek);
    if w.Some? {
      DaysOfHasRow(hours, breaks, businessId, w.value);
    }
    var f := FindDay(days, dayOfWeek);
    if f.Some? {
      DaysOfFromRow(hours, breaks, businessId, f.value);
      var row :| row in hours && row.businessId == businessId &&
        f.value == Day(row.dayOfWeek, row.startMin, row.endMin, DayBreaks(SortedBreaks(breaks, businessId), row.dayOfWeek));
      WindowForUnique(hours, row);
      DayBreaksOfStore(breaks, businessId, dayOfWeek);
    }
  }

  /** On a weekday with a stored window, fitting the reported day is fitting the stored rows. */
  lemma FitsDayOfStore(hours: seq<WorkingHourRow>, breaks: seq<BreakRow>, businessId: UserId,
                       dayOfWeek: int, startMin: int, durationMin: int)
    requires UniqueKeys(hours) && WindowFor(hours, businessId, dayOfWeek).Some?
    ensures FindDay(DaysOf(hours, breaks, businessId), dayOfWeek).Some?
    ensures FitsDay(FindDay(DaysOf(hours, breaks, businessId), dayOfWeek).value, startMin, durationMin)
        <==> WindowAdmits(hours, breaks, businessId, dayOfWeek, startMin, durationMin)
  {
    FindDayOfStore(hours, breaks, businessId, dayOfWeek);
    var d := FindDay(DaysOf(hours, breaks, businessId), dayOfWeek).value;
    var endMin := startMin + durationMin;
    if FitsDay(d, startMin, durationMin) {
      forall x | x in breaks && x.businessId == businessId && x.dayOfWeek == dayOfWeek
        ensures !Overlaps(startMin, endMin, x.startMin, x.endMin)
      {
        assert ToInterval(x) in d.breaks;
      }
    }
    if WindowAdmits(hours, breaks, businessId, dayOfWeek, startMin, durationMin) {
      forall iv | iv in d.breaks ensures !Overlaps(startMin, endMin, iv.startMin, iv.endMin) {
        var x :| x in breaks && x.businessId == businessId && x.dayOfWeek == dayOfWeek && iv == ToInterval(x);
      }
    }
  }

  /** `isWithinAvailability` in terms of the stored rows: default-open when
      the business has no windows, otherwise the stored window decides. */
  lemma WithinAvailabilityOfStore(hours: seq<WorkingHourRow>, breaks: seq<BreakRow>, businessId: UserId,
                                  startAt: int, durationMin: int, tzOffsetMin: Option<int>)
    requires UniqueKeys(hours)
    ensures WithinAvailability(DaysOf(hours, breaks, businessId), startAt, durationMin, tzOffsetMin)
        <==> (|| HoursOf(hours, businessId) == []
              || WindowAdmits(hours, breaks, businessId,
                              LocalDayOfWeek(startAt, EffectiveTz(tzOffsetMin)),
                              LocalMinuteOfDay(startAt, EffectiveTz(tzOffsetMin)), durationMin))
  {
    var tz := EffectiveTz(tzOffsetMin);
    var dow := LocalDayOfWeek(startAt, tz);
    var m := LocalMinuteOfDay(startAt, tz);
    FindDayOfStore(hours, breaks, businessId, dow);
    if WindowFor(hours, businessId, dow).Some? {
      FitsDayOfStore(hours, breaks, businessId, dow, m, durationMin);
    }
  }

  /** Once a business has windows, the UTC check `ensureWithinAvailabilityOrThrow`
      agrees with `isWithinAvailability` at offset 0; without windows the former
      always rejects and the latter always accepts. */
  lemma EnsureAgreesAtUtc(hours: seq<WorkingHourRow>, breaks: seq<BreakRow>, businessId: UserId,
                          startAt: int, durationMin: int)
    requires UniqueKeys(hours)
    ensures HoursOf(hours, businessId) != [] ==>
      (WindowAdmits(hours, breaks, businessId, WeekdayOf(startAt), MinuteOfDay(startAt), durationMin)
       <==> WithinAvailability(DaysOf(hours, breaks, businessId), startAt, durationMin, Some(0)))
    ensures HoursOf(hours, businessId) == [] ==>
      && !WindowAdmits(hours, breaks, businessId, WeekdayOf(startAt), MinuteOfDay(startAt), durationMin)
      && WithinAvailability(DaysOf(hours, breaks, businessId), startAt, durationMin, Some(0))
  {
    WithinAvailabilityOfStore(hours, breaks, businessId, startAt, durationMin, Some(0));
    assert ToLocal(startAt, 0) == startAt;
    var w := WindowFor(hours, businessId, WeekdayOf(startAt));
    if w.Some? {
      assert w.value in HoursOf(hours, businessId);
    }
  }
}
