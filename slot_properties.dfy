/** What `getFreeSlots` promises about the slots it returns: each lies in the
    requested range and after `now` plus the grace minute, fits the stored
    window of its day and none of the stored breaks, overlaps no BOOKED
    appointment, and the whole answer is strictly ascending. */
module SlotProperties {
  import opened Wrappers
  import opened Model
  import opened TimeMath
  import opened Seqs
  import opened Overlap
  import opened Schedule
  import opened Availability
  import opened Slots

  // ---------------------------------------------------------------------
  // The walk's lookup tables against the stored rows
  // ---------------------------------------------------------------------

  /** Under the unique (business, weekday) key, the last window row the walk
      keeps for a weekday is the stored window of that weekday. */
  lemma LastWindowOfStore(hours: seq<WorkingHourRow>, businessId: UserId, dayOfWeek: int)
    requires UniqueKeys(hours)
    ensures LastWindow(HoursOf(hours, businessId), dayOfWeek) == WindowFor(hours, businessId, dayOfWeek)
  {
    var rows := HoursOf(hours, businessId);
    var w := WindowFor(hours, businessId, dayOfWeek);
    if w.Some? {
      assert w.value in rows;
      assert LastWindow(rows, dayOfWeek).Some?;
      WindowForUnique(hours, LastWindow(rows, dayOfWeek).value);
    } else {
      forall x | x in rows ensures x.dayOfWeek != dayOfWeek {
        var i :| 0 <= i < |hours| && hours[i] == x;
      }
    }
  }

  /** Missing every break of the weekday in the walk's list is missing every
      stored break row of that business and weekday. */
  lemma BreaksAvoided(breaks: seq<BreakRow>, businessId: UserId, dayOfWeek: int, t: int, tEnd: int)
    requires !HitsBreak(t, tEnd, DayBreaks(BreaksOf(breaks, businessId), dayOfWeek))
    ensures forall x :: x in breaks && x.businessId == businessId && x.dayOfWeek == dayOfWeek ==>
      !Overlaps(t, tEnd, x.startMin, x.endMin)
  {
    var dayBreaks := DayBreaks(BreaksOf(breaks, businessId), dayOfWeek);
    forall x | x in breaks && x.businessId == businessId && x.dayOfWeek == dayOfWeek
      ensures !Overlaps(t, tEnd, x.startMin, x.endMin)
    {
      assert x in BreaksOf(breaks, businessId);
      assert ToInterval(x) in dayBreaks;
      var i :| 0 <= i < |dayBreaks| && dayBreaks[i] == ToInterval(x);
    }
  }

  // ---------------------------------------------------------------------
  // Where a slot of the walk comes from
  // ---------------------------------------------------------------------

  /** `x` lies a whole number of `step`s after `origin`. */
  predicate OnGrid(x: int, origin: int, step: int)
    requires step > 0
  {
    (x - origin) % step == 0
  }

  lemma ModStep(x: int, origin: int, d: int)
    requires d > 0 && OnGrid(x, origin + d, d)
    ensures OnGrid(x, origin, d)
  {
    var a := x - (origin + d);
    assert a == (a / d) * d;
    assert a + d == (a / d + 1) * d;
    DivModUnique(a + d, d, a / d + 1, 0);
  }

  /** A slot of one day is a whole number of steps after `t0`, ends within
      the window, and was offered. */
  lemma {:induction false} DaySlotMinute(q: Query, cursor: int, endMin: int, dayBreaks: seq<Interval>, t0: int, x: int)
    returns (t: int)
    requires q.step > 0 && x in DaySlots(q, cursor, endMin, dayBreaks, t0)
    ensures t0 <= t && OnGrid(t, t0, q.step) && t + q.durationMin <= endMin
    ensures x == cursor + t * MsPerMinute && Offered(q, cursor, t, dayBreaks)
    decreases endMin - q.durationMin - t0
  {
    DaySlotsStep(q, cursor, endMin, dayBreaks, t0);
    if Offered(q, cursor, t0, dayBreaks) && x == cursor + t0 * MsPerMinute {
      t := t0;
      DivModUnique(0, q.step, 0, 0);
    } else {
      t := DaySlotMinute(q, cursor, endMin, dayBreaks, t0 + q.step, x);
      ModStep(t, t0, q.step);
    }
  }

  /** A slot of the walk was found on a day it visited: a whole number of
      days after `cursor` and before the end of the range. */
  lemma {:induction false} RangeSlotDay(q: Query, cursor: int, x: int) returns (c: int)
    requires q.step > 0 && x in RangeSlots(q, cursor)
    ensures cursor <= c < q.to && OnGrid(c, cursor, MsPerDay)
    ensures x in SlotsOfDay(q, c)
    decreases q.to - cursor
  {
    if x in SlotsOfDay(q, cursor) {
      c := cursor;
      DivModUnique(0, MsPerDay, 0, 0);
    } else {
      c := RangeSlotDay(q, cursor + MsPerDay, x);
      ModStep(c, cursor, MsPerDay);
    }
  }

  /** A slot of the day starting at `c`: on the step grid of that weekday's
      window and within it, clear of its breaks and of the fetched bookings,
      and inside `[from, to)`. */
  lemma SlotOfDay(q: Query, c: int, x: int) returns (t: int)
    requires q.step > 0 && x in SlotsOfDay(q, c)
    ensures q.from <= x < q.to && x == c + t * MsPerMinute
    ensures LastWindow(q.windows, LocalDayOfWeek(c, q.tz)).Some?
    ensures var w := LastWindow(q.windows, LocalDayOfWeek(c, q.tz)).value;
      && w.startMin <= t && t + q.durationMin <= w.endMin
      && OnGrid(t, w.startMin, q.step)
    ensures !HitsBreak(t, t + q.durationMin, DayBreaks(q.breaks, LocalDayOfWeek(c, q.tz)))
    ensures !HitsBooked(x, x + q.durationMin * MsPerMinute, q.booked)
  {
    var dow := LocalDayOfWeek(c, q.tz);
    var w := LastWindow(q.windows, dow);
    assert w.Some?;
    t := DaySlotMinute(q, c, w.value.endMin, DayBreaks(q.breaks, dow), w.value.startMin, x);
    assert x + q.durationMin * MsPerMinute == c + (t + q.durationMin) * MsPerMinute;
  }

  /** Every slot of the walk, read against the stored rows it was built
      from: found on a day start `c` (`from` plus whole days, before `to`),
      `t` minutes after it, where `[t, t + durationMin)` is on the step grid
      of the stored window of `c`'s local weekday, inside that window and
      clear of its stored breaks; inside `[from, to)` and clear of the
      fetched bookings. */
  lemma WalkSlotOfStore(hours: seq<WorkingHourRow>, breaks: seq<BreakRow>, businessId: UserId, q: Query, x: int)
    returns (c: int, t: int)
    requires UniqueKeys(hours) && q.step > 0
    requires q.windows == HoursOf(hours, businessId) && q.breaks == BreaksOf(breaks, businessId)
    requires x in RangeSlots(q, q.from)
    ensures q.from <= c < q.to && OnGrid(c, q.from, MsPerDay)
    ensures q.from <= x < q.to && x == c + t * MsPerMinute
    ensures WindowAdmits(hours, breaks, businessId, LocalDayOfWeek(c, q.tz), t, q.durationMin)
    ensures OnGrid(t, WindowFor(hours, businessId, LocalDayOfWeek(c, q.tz)).value.startMin, q.step)
    ensures !HitsBooked(x, x + q.durationMin * MsPerMinute, q.booked)
  {
    c := RangeSlotDay(q, q.from, x);
    t := SlotOfDay(q, c, x);
    var dow := LocalDayOfWeek(c, q.tz);
    LastWindowOfStore(hours, businessId, dow);
    BreaksAvoided(breaks, businessId, dow, t, t + q.durationMin);
  }

  /** Unfolds `FreeSlots`: a returned slot is a slot of the walk over a valid
      range that is later than `now` plus the grace minute. */
  lemma FreeSlotOfWalk(hours: seq<WorkingHourRow>, breaks: seq<BreakRow>, appts: seq<Appointment>, businessId: UserId,
                       range: SlotRange, durationMin: int, slotStepMin: Option<int>, tzOffsetMin: Option<int>,
                       now: int, x: int)
    requires x in FreeSlots(hours, breaks, appts, businessId, range, durationMin, slotStepMin, tzOffsetMin, now)
    ensures RangeStart(range, EffectiveTz(tzOffsetMin)).Some? && RangeEnd(range, EffectiveTz(tzOffsetMin)).Some?
    ensures RangeStart(range, EffectiveTz(tzOffsetMin)).value < RangeEnd(range, EffectiveTz(tzOffsetMin)).value
    ensures x > now + GraceMs
    ensures x in RangeSlots(QueryOf(hours, breaks, appts, businessId, RangeStart(range, EffectiveTz(tzOffsetMin)).value,
                                    RangeEnd(range, EffectiveTz(tzOffsetMin)).value, durationMin, slotStepMin,
                                    tzOffsetMin),
                            RangeStart(range, EffectiveTz(tzOffsetMin)).value)
  {
  }

  // ---------------------------------------------------------------------
  // The slots of `getFreeSlots`
  // ---------------------------------------------------------------------

  /** Every returned slot lies in `[from, to)`, is later than `now` plus the
      grace minute, and starts `t` minutes after a day start `c` of the walk
      (`from` plus whole days) such that `[t, t + durationMin)` is on the step
      grid of the stored window of `c`'s local weekday, lies within it, and
      overlaps none of that weekday's stored breaks. */
  lemma FreeSlotSound(hours: seq<WorkingHourRow>, breaks: seq<BreakRow>, appts: seq<Appointment>, businessId: UserId,
                      range: SlotRange, durationMin: int, slotStepMin: Option<int>, tzOffsetMin: Option<int>,
                      now: int, x: int)
    returns (c: int, t: int)
    requires UniqueKeys(hours)
    requires x in FreeSlots(hours, breaks, appts, businessId, range, durationMin, slotStepMin, tzOffsetMin, now)
    ensures RangeStart(range, EffectiveTz(tzOffsetMin)).Some? && RangeEnd(range, EffectiveTz(tzOffsetMin)).Some?
    ensures RangeStart(range, EffectiveTz(tzOffsetMin)).value <= x < RangeEnd(range, EffectiveTz(tzOffsetMin)).value
    ensures x > now + GraceMs
    ensures RangeStart(range, EffectiveTz(tzOffsetMin)).value <= c < RangeEnd(range, EffectiveTz(tzOffsetMin)).value
    ensures OnGrid(c, RangeStart(range, EffectiveTz(tzOffsetMin)).value, MsPerDay)
    ensures x == c + t * MsPerMinute
    ensures WindowAdmits(hours, breaks, businessId, LocalDayOfWeek(c, EffectiveTz(tzOffsetMin)), t, durationMin)
    ensures OnGrid(t, WindowFor(hours, businessId, LocalDayOfWeek(c, EffectiveTz(tzOffsetMin))).value.startMin,
                   SlotStep(slotStepMin))
  {
    var tz := EffectiveTz(tzOffsetMin);
    FreeSlotOfWalk(hours, breaks, appts, businessId, range, durationMin, slotStepMin, tzOffsetMin, now, x);
    var from, to := RangeStart(range, tz).value, RangeEnd(range, tz).value;
    var q := QueryOf(hours, breaks, appts, businessId, from, to, durationMin, slotStepMin, tzOffsetMin);
    assert q.from == from && q.tz == tz && q.step == SlotStep(slotStepMin);
    c, t := WalkSlotOfStore(hours, breaks, businessId, q, x);
  }

  /** A fetched booking that the walk found clear is clear of the slot. */
  lemma FetchedAvoided(candidates: seq<Appointment>, sMs: int, eMs: int, a: Appointment)
    requires !HitsBooked(sMs, eMs, Ranges(candidates)) && a in candidates
    ensures !(sMs < EndOf(a.startAt, a.durationMin) && eMs > a.startAt)
  {
    var i :| 0 <= i < |candidates| && candidates[i] == a;
    assert Ranges(candidates)[i] == RangeOf(a);
  }

  /** The fetch keeps the bookings starting within one day either side of
      `[from, to)`; with durations of at most one day no other booking can
      reach a slot inside the range. */
  lemma OutsideFetchAvoided(from: int, to: int, x: int, durationMin: int, startAt: int, bookedMin: int)
    requires from <= x < to && durationMin <= MinutesPerDay && bookedMin <= MinutesPerDay
    requires !(from - PrefilterMs <= startAt < to + PrefilterMs)
    ensures !IsOverlapping(x, durationMin, startAt, bookedMin)
  {
    AtMostADay(durationMin);
    AtMostADay(bookedMin);
  }

  lemma AtMostADay(m: int)
    requires m <= MinutesPerDay
    ensures m * MsPerMinute <= MsPerDay
  {
  }

  /** A slot of the walk lies in `[from, to)` and is clear of the fetched bookings. */
  lemma WalkSlotClearOfFetched(q: Query, x: int)
    requires q.step > 0 && x in RangeSlots(q, q.from)
    ensures q.from <= x < q.to && !HitsBooked(x, x + q.durationMin * MsPerMinute, q.booked)
  {
    var c := RangeSlotDay(q, q.from, x);
    var t := SlotOfDay(q, c, x);
  }

  /** Every returned slot overlaps no BOOKED appointment of the business,
      given that the requested duration and every booked duration are at
      most one day. */
  lemma FreeSlotAvoidsBookings(hours: seq<WorkingHourRow>, breaks: seq<BreakRow>, appts: seq<Appointment>,
                               businessId: UserId, range: SlotRange, durationMin: int, slotStepMin: Option<int>,
                               tzOffsetMin: Option<int>, now: int, x: int, a: Appointment)
    requires durationMin <= MinutesPerDay && a.durationMin <= MinutesPerDay
    requires x in FreeSlots(hours, breaks, appts, businessId, range, durationMin, slotStepMin, tzOffsetMin, now)
    requires a in appts && a.businessId == businessId && a.status == BOOKED
    ensures !IsOverlapping(x, durationMin, a.startAt, a.durationMin)
  {
    var tz := EffectiveTz(tzOffsetMin);
    FreeSlotOfWalk(hours, breaks, appts, businessId, range, durationMin, slotStepMin, tzOffsetMin, now, x);
    var from := RangeStart(range, tz).value;
    var to := RangeEnd(range, tz).value;
    var q := QueryOf(hours, breaks, appts, businessId, from, to, durationMin, slotStepMin, tzOffsetMin);
    WalkSlotClearOfFetched(q, x);
    if IsCandidate(a, businessId, from, to) {
      assert a in Filter(appts, CandidateOf(businessId, from, to));
      FetchedAvoided(Filter(appts, CandidateOf(businessId, from, to)), x, x + durationMin * MsPerMinute, a);
    } else {
      OutsideFetchAvoided(from, to, x, durationMin, a.startAt, a.durationMin);
    }
  }

  // ---------------------------------------------------------------------
  // Order
  // ---------------------------------------------------------------------

  predicate StrictlyAscending(s: seq<int>) {
    forall i, j :: 0 <= i < j < |s| ==> s[i] < s[j]
  }

  lemma AscendingConcat(a: seq<int>, b: seq<int>)
    requires StrictlyAscending(a) && StrictlyAscending(b)
    requires forall x, y :: x in a && y in b ==> x < y
    ensures StrictlyAscending(a + b)
  {
    forall i, j | 0 <= i < j < |a + b| ensures (a + b)[i] < (a + b)[j] {
      if j >= |a| && i < |a| {
        assert (a + b)[i] in a && (a + b)[j] in b;
      }
    }
  }

  lemma {:induction false} FilterAscending(s: seq<int>, p: int -> bool)
    requires StrictlyAscending(s)
    ensures StrictlyAscending(Filter(s, p))
  {
    if s != [] {
      FilterAscending(s[1..], p);
      var head := if p(s[0]) then [s[0]] else [];
      forall y | y in Filter(s[1..], p) ensures s[0] < y {
        var j :| 0 <= j < |s[1..]| && s[1..][j] == y;
        assert s[j + 1] == y;
      }
      AscendingConcat(head, Filter(s[1..], p));
    }
  }

  /** One day's slots ascend and lie between the first candidate and the last
      minute at which the duration still fits. */
  lemma {:induction false} DaySlotsAscending(q: Query, cursor: int, endMin: int, dayBreaks: seq<Interval>, t0: int)
    requires q.step > 0
    ensures StrictlyAscending(DaySlots(q, cursor, endMin, dayBreaks, t0))
    ensures forall y :: y in DaySlots(q, cursor, endMin, dayBreaks, t0) ==>
      cursor + t0 * MsPerMinute <= y <= cursor + (endMin - q.durationMin) * MsPerMinute
    decreases endMin - q.durationMin - t0
  {
    if t0 + q.durationMin <= endMin {
      DaySlotsStep(q, cursor, endMin, dayBreaks, t0);
      DaySlotsAscending(q, cursor, endMin, dayBreaks, t0 + q.step);
      var head := if Offered(q, cursor, t0, dayBreaks) then [cursor + t0 * MsPerMinute] else [];
      var rest := DaySlots(q, cursor, endMin, dayBreaks, t0 + q.step);
      forall y | y in rest ensures cursor + t0 * MsPerMinute < y {
        assert cursor + t0 * MsPerMinute < cursor + (t0 + q.step) * MsPerMinute;
      }
      AscendingConcat(head, rest);
    }
  }

  /** With a positive duration and windows inside the day, one day's slots
      ascend and lie within that day. */
  lemma SlotsOfDayAscending(q: Query, cursor: int)
    requires q.step > 0 && q.durationMin > 0
    requires forall w :: w in q.windows ==> 0 <= w.startMin && w.endMin <= MinutesPerDay
    ensures StrictlyAscending(SlotsOfDay(q, cursor))
    ensures forall y :: y in SlotsOfDay(q, cursor) ==> cursor <= y < cursor + MsPerDay
  {
    var w := LastWindow(q.windows, LocalDayOfWeek(cursor, q.tz));
    if w.Some? {
      DaySlotsAscending(q, cursor, w.value.endMin, DayBreaks(q.breaks, LocalDayOfWeek(cursor, q.tz)), w.value.startMin);
      assert 0 <= w.value.startMin * MsPerMinute;
      assert (w.value.endMin - q.durationMin) * MsPerMinute < MsPerDay;
    }
  }

  lemma {:induction false} RangeSlotsAscending(q: Query, cursor: int)
    requires q.step > 0 && q.durationMin > 0
    requires forall w :: w in q.windows ==> 0 <= w.startMin && w.endMin <= MinutesPerDay
    ensures StrictlyAscending(RangeSlots(q, cursor))
    ensures forall y :: y in RangeSlots(q, cursor) ==> cursor <= y
    decreases q.to - cursor
  {
    if cursor < q.to {
      var day, rest := SlotsOfDay(q, cursor), RangeSlots(q, cursor + MsPerDay);
      SlotsOfDayAscending(q, cursor);
      RangeSlotsAscending(q, cursor + MsPerDay);
      assert forall y, z :: y in day && z in rest ==> y < z;
      AscendingConcat(day, rest);
      assert RangeSlots(q, cursor) == day + rest;
    }
  }

  /** The answer of `getFreeSlots` is strictly ascending, given a positive
      duration and stored windows that lie within the day. */
  lemma FreeSlotsAscending(hours: seq<WorkingHourRow>, breaks: seq<BreakRow>, appts: seq<Appointment>,
                           businessId: UserId, range: SlotRange, durationMin: int, slotStepMin: Option<int>,
                           tzOffsetMin: Option<int>, now: int)
    requires durationMin > 0
    requires forall w :: w in hours ==> WellFormedHour(w)
    ensures StrictlyAscending(FreeSlots(hours, breaks, appts, businessId, range, durationMin, slotStepMin,
                                        tzOffsetMin, now))
  {
    var tz := EffectiveTz(tzOffsetMin);
    var from := RangeStart(range, tz);
    var to := RangeEnd(range, tz);
    if from.Some? && to.Some? && from.value < to.value {
      var q := QueryOf(hours, breaks, appts, businessId, from.value, to.value, durationMin, slotStepMin, tzOffsetMin);
      RangeSlotsAscending(q, from.value);
      FilterAscending(RangeSlots(q, from.value), LaterThan(now + GraceMs));
    }
  }

  // ---------------------------------------------------------------------
  // Date mode against `isWithinAvailability`
  // ---------------------------------------------------------------------

  /** A day start of the walk before the end of a one-day range is its start. */
  lemma FirstDayOnly(c: int, from: int)
    requires from <= c < from + MsPerDay && OnGrid(c, from, MsPerDay)
    ensures c == from
  {
    DivModUnique(c - from, MsPerDay, 0, c - from);
  }

  /** At the offset of the range, the local midnight of `epochDay` and the
      instant `t` minutes later both fall on that day's weekday, and the
      later one reads as minute `t`. */
  lemma LocalReadingOfDateSlot(epochDay: int, tz: int, c: int, t: int, x: int)
    requires c == epochDay * MsPerDay + tz * MsPerMinute && x == c + t * MsPerMinute
    requires 0 <= t < MinutesPerDay
    ensures LocalDayOfWeek(c, tz) == (epochDay + EpochWeekday) % 7
    ensures LocalDayOfWeek(x, tz) == (epochDay + EpochWeekday) % 7
    ensures LocalMinuteOfDay(x, tz) == t
  {
    MidnightPlusMinutes(epochDay, 0);
    MidnightPlusMinutes(epochDay, t);
    assert ToLocal(c, tz) == epochDay * MsPerDay + 0 * MsPerMinute;
    assert ToLocal(x, tz) == epochDay * MsPerDay + t * MsPerMinute;
  }

  /** In date mode the walk's only day starts at the client's local midnight,
      so every returned slot is accepted by `isWithinAvailability` with the
      same offset, at the local weekday and minute the walk used. */
  lemma DateSlotWithinAvailability(hours: seq<WorkingHourRow>, breaks: seq<BreakRow>, appts: seq<Appointment>,
                                   businessId: UserId, epochDay: int, durationMin: int, slotStepMin: Option<int>,
                                   tzOffsetMin: Option<int>, now: int, x: int)
    requires UniqueKeys(hours) && forall w :: w in hours ==> WellFormedHour(w)
    requires x in FreeSlots(hours, breaks, appts, businessId, OnDate(Some(epochDay)), durationMin, slotStepMin,
                            tzOffsetMin, now)
    ensures LocalDayOfWeek(x, EffectiveTz(tzOffsetMin)) == (epochDay + EpochWeekday) % 7
    ensures WindowAdmits(hours, breaks, businessId, LocalDayOfWeek(x, EffectiveTz(tzOffsetMin)),
                         LocalMinuteOfDay(x, EffectiveTz(tzOffsetMin)), durationMin)
    ensures WithinAvailability(DaysOf(hours, breaks, businessId), x, durationMin, tzOffsetMin)
  {
    var tz := EffectiveTz(tzOffsetMin);
    var range := OnDate(Some(epochDay));
    var c, t := FreeSlotSound(hours, breaks, appts, businessId, range, durationMin, slotStepMin, tzOffsetMin, now, x);
    var from := RangeStart(range, tz).value;
    assert from == epochDay * MsPerDay + tz * MsPerMinute;
    assert RangeEnd(range, tz).value == from + MsPerDay;
    FirstDayOnly(c, from);
    assert 0 <= t * MsPerMinute < MsPerDay;
    LocalReadingOfDateSlot(epochDay, tz, c, t, x);
    WithinAvailabilityOfStore(hours, breaks, businessId, x, durationMin, tzOffsetMin);
  }

  // ---------------------------------------------------------------------
  // Completeness: every free candidate is offered
  // ---------------------------------------------------------------------

  /** A candidate clear of every stored break of its weekday is clear of the grouped breaks. */
  lemma BreaksClear(q: Query, breaks: seq<BreakRow>, businessId: UserId, dayOfWeek: int, t: int)
    requires q.breaks == BreaksOf(breaks, businessId)
    requires forall x :: x in breaks && x.businessId == businessId && x.dayOfWeek == dayOfWeek ==>
      !Overlaps(t, t + q.durationMin, x.startMin, x.endMin)
    ensures !HitsBreak(t, t + q.durationMin, DayBreaks(q.breaks, dayOfWeek))
  {
    var dayBreaks := DayBreaks(q.breaks, dayOfWeek);
    forall i | 0 <= i < |dayBreaks|
      ensures !Overlaps(t, t + q.durationMin, dayBreaks[i].startMin, dayBreaks[i].endMin)
    {
      assert dayBreaks[i] in dayBreaks;
    }
  }

  /** A candidate that overlaps no BOOKED appointment of the business is clear of the fetched spans. */
  lemma BookedClear(q: Query, appts: seq<Appointment>, businessId: UserId, x: int)
    requires q.booked == Ranges(Filter(appts, CandidateOf(businessId, q.from, q.to)))
    requires forall a :: a in appts && a.businessId == businessId && a.status == BOOKED ==>
      !IsOverlapping(a.startAt, a.durationMin, x, q.durationMin)
    ensures !HitsBooked(x, x + q.durationMin * MsPerMinute, q.booked)
  {
    var fetched := Filter(appts, CandidateOf(businessId, q.from, q.to));
    forall i | 0 <= i < |q.booked|
      ensures !(x < q.booked[i].e && x + q.durationMin * MsPerMinute > q.booked[i].s)
    {
      assert fetched[i] in fetched;
      assert q.booked[i] == RangeOf(fetched[i]);
    }
  }

  /** The candidate checks of the walk, met one by one, make the candidate offered. */
  lemma OfferedWhenClear(q: Query, cursor: int, t: int, x: int, dayBreaks: seq<Interval>)
    requires x == cursor + t * MsPerMinute && q.from <= x < q.to
    requires !HitsBreak(t, t + q.durationMin, dayBreaks)
    requires !HitsBooked(x, x + q.durationMin * MsPerMinute, q.booked)
    ensures Offered(q, cursor, t, dayBreaks)
  {
    assert cursor + (t + q.durationMin) * MsPerMinute == x + q.durationMin * MsPerMinute;
  }

  /** A point on a grid at or after its origin is a whole number of steps after it. */
  lemma GridSteps(x: int, origin: int, step: int) returns (k: nat)
    requires step > 0 && origin <= x && OnGrid(x, origin, step)
    ensures x == origin + k * step
  {
    var n := (x - origin) / step;
    assert x - origin == n * step;
    if n < 0 {
      MulAtLeast(-n, step);
      assert false;
    }
    k := n;
  }

  /** A point on a grid past its origin is on the grid one step later, and no earlier than that step. */
  lemma NextGrid(origin: int, x: int, step: int)
    requires step > 0 && origin < x && OnGrid(x, origin, step)
    ensures origin + step <= x && OnGrid(x, origin + step, step)
  {
    var k := GridSteps(x, origin, step);
    assert k >= 1;
    MulAtLeast(k, step);
    assert x - (origin + step) == (k - 1) * step;
    DivModUnique(x - (origin + step), step, k - 1, 0);
  }


  /** An offered candidate on the step grid from `t0` that still fits the window is among the day's slots. */
  lemma {:induction false} DaySlotsHas(q: Query, cursor: int, endMin: int, dayBreaks: seq<Interval>, t0: int,
                                       t: int, x: int)
    requires q.step > 0 && t0 <= t && OnGrid(t, t0, q.step) && t + q.durationMin <= endMin
    requires x == cursor + t * MsPerMinute && Offered(q, cursor, t, dayBreaks)
    ensures x in DaySlots(q, cursor, endMin, dayBreaks, t0)
    decreases t - t0
  {
    var head := if Offered(q, cursor, t0, dayBreaks) then [cursor + t0 * MsPerMinute] else [];
    var rest := DaySlots(q, cursor, endMin, dayBreaks, t0 + q.step);
    if t == t0 {
      assert x in head;
    } else {
      NextGrid(t0, t, q.step);
      DaySlotsHas(q, cursor, endMin, dayBreaks, t0 + q.step, t, x);
      assert x in rest;
    }
    assert DaySlots(q, cursor, endMin, dayBreaks, t0) == head + rest;
  }


  /** The walk from a day before the end of the range keeps that day's slots ... */
  lemma RangeSlotsKeepDay(q: Query, cursor: int, x: int)
    requires q.step > 0 && cursor < q.to && x in SlotsOfDay(q, cursor)
    ensures x in RangeSlots(q, cursor)
  {
    assert RangeSlots(q, cursor) == SlotsOfDay(q, cursor) + RangeSlots(q, cursor + MsPerDay);
  }

  /** ... and the slots of the walk from the next day on. */
  lemma RangeSlotsKeepRest(q: Query, cursor: int, x: int)
    requires q.step > 0 && cursor < q.to && x in RangeSlots(q, cursor + MsPerDay)
    ensures x in RangeSlots(q, cursor)
  {
    assert RangeSlots(q, cursor) == SlotsOfDay(q, cursor) + RangeSlots(q, cursor + MsPerDay);
  }

  /** A slot of a day the walk from `cursor` visits (whole days after it, before the end of the range) is a slot of the walk. */
  lemma {:induction false} RangeSlotsHas(q: Query, cursor: int, c: int, x: int)
    requires q.step > 0 && cursor <= c < q.to && OnGrid(c, cursor, MsPerDay)
    requires x in SlotsOfDay(q, c)
    ensures x in RangeSlots(q, cursor)
    decreases c - cursor
  {
    if c == cursor {
      RangeSlotsKeepDay(q, c, x);
    } else {
      NextGrid(cursor, c, MsPerDay);
      RangeSlotsHas(q, cursor + MsPerDay, c, x);
      RangeSlotsKeepRest(q, cursor, x);
    }
  }

  /** The converse of `WalkSlotOfStore`: a candidate read against the stored
      rows as that lemma describes it, clear of the fetched bookings, is a slot
      of the walk. */
  lemma WalkHasSlotOfStore(hours: seq<WorkingHourRow>, breaks: seq<BreakRow>, businessId: UserId, q: Query,
                           c: int, t: int, x: int)
    requires UniqueKeys(hours) && q.step > 0
    requires q.windows == HoursOf(hours, businessId) && q.breaks == BreaksOf(breaks, businessId)
    requires q.from <= c < q.to && OnGrid(c, q.from, MsPerDay)
    requires q.from <= x < q.to && x == c + t * MsPerMinute
    requires WindowAdmits(hours, breaks, businessId, LocalDayOfWeek(c, q.tz), t, q.durationMin)
    requires OnGrid(t, WindowFor(hours, businessId, LocalDayOfWeek(c, q.tz)).value.startMin, q.step)
    requires !HitsBooked(x, x + q.durationMin * MsPerMinute, q.booked)
    ensures x in RangeSlots(q, q.from)
  {
    var dow := LocalDayOfWeek(c, q.tz);
    LastWindowOfStore(hours, businessId, dow);
    var w := WindowFor(hours, businessId, dow).value;
    assert LastWindow(q.windows, dow) == Some(w);
    var dayBreaks := DayBreaks(q.breaks, dow);
    BreaksClear(q, breaks, businessId, dow, t);
    OfferedWhenClear(q, c, t, x, dayBreaks);
    DaySlotsHas(q, c, w.endMin, dayBreaks, w.startMin, t, x);
    assert x in SlotsOfDay(q, c);
    RangeSlotsHas(q, q.from, c, x);
  }

  /** The converse of `FreeSlotOfWalk`: a slot of the walk over a valid range
      that is later than `now` plus the grace minute is returned. */
  lemma WalkSlotIsFree(hours: seq<WorkingHourRow>, breaks: seq<BreakRow>, appts: seq<Appointment>, businessId: UserId,
                       range: SlotRange, durationMin: int, slotStepMin: Option<int>, tzOffsetMin: Option<int>,
                       now: int, x: int)
    requires RangeStart(range, EffectiveTz(tzOffsetMin)).Some? && RangeEnd(range, EffectiveTz(tzOffsetMin)).Some?
    requires x > now + GraceMs
    requires x in RangeSlots(QueryOf(hours, breaks, appts, businessId, RangeStart(range, EffectiveTz(tzOffsetMin)).value,
                                     RangeEnd(range, EffectiveTz(tzOffsetMin)).value, durationMin, slotStepMin,
                                     tzOffsetMin),
                             RangeStart(range, EffectiveTz(tzOffsetMin)).value)
    ensures x in FreeSlots(hours, breaks, appts, businessId, range, durationMin, slotStepMin, tzOffsetMin, now)
  {
  }

  /** Every free candidate is returned, the converse of `FreeSlotSound`: an
      instant `x` in `[from, to)`, later than `now` plus the grace minute, that
      starts `t` minutes after a day start `c` of the walk (`from` plus whole
      days, before `to`) such that `[t, t + durationMin)` is on the step grid
      of the stored window of `c`'s local weekday, lies within it and overlaps
      none of that weekday's stored breaks, and that overlaps no BOOKED
      appointment of the business. */
  lemma FreeSlotComplete(hours: seq<WorkingHourRow>, breaks: seq<BreakRow>, appts: seq<Appointment>,
                         businessId: UserId, range: SlotRange, durationMin: int, slotStepMin: Option<int>,
                         tzOffsetMin: Option<int>, now: int, c: int, t: int, x: int)
    requires UniqueKeys(hours)
    requires RangeStart(range, EffectiveTz(tzOffsetMin)).Some? && RangeEnd(range, EffectiveTz(tzOffsetMin)).Some?
    requires RangeStart(range, EffectiveTz(tzOffsetMin)).value <= x < RangeEnd(range, EffectiveTz(tzOffsetMin)).value
    requires x > now + GraceMs
    requires RangeStart(range, EffectiveTz(tzOffsetMin)).value <= c < RangeEnd(range, EffectiveTz(tzOffsetMin)).value
    requires OnGrid(c, RangeStart(range, EffectiveTz(tzOffsetMin)).value, MsPerDay)
    requires x == c + t * MsPerMinute
    requires WindowAdmits(hours, breaks, businessId, LocalDayOfWeek(c, EffectiveTz(tzOffsetMin)), t, durationMin)
    requires OnGrid(t, WindowFor(hours, businessId, LocalDayOfWeek(c, EffectiveTz(tzOffsetMin))).value.startMin,
                    SlotStep(slotStepMin))
    requires forall a :: a in appts && a.businessId == businessId && a.status == BOOKED ==>
      !IsOverlapping(a.startAt, a.durationMin, x, durationMin)
    ensures x in FreeSlots(hours, breaks, appts, businessId, range, durationMin, slotStepMin, tzOffsetMin, now)
  {
    var tz := EffectiveTz(tzOffsetMin);
    var from, to := RangeStart(range, tz).value, RangeEnd(range, tz).value;
    var q := QueryOf(hours, breaks, appts, businessId, from, to, durationMin, slotStepMin, tzOffsetMin);
    assert q.from == from && q.to == to && q.tz == tz && q.durationMin == durationMin;
    assert q.step == SlotStep(slotStepMin);
    BookedClear(q, appts, businessId, x);
    WalkHasSlotOfStore(hours, breaks, businessId, q, c, t, x);
    WalkSlotIsFree(hours, breaks, appts, businessId, range, durationMin, slotStepMin, tzOffsetMin, now, x);
  }

  /** A Monday (epoch day 4, 1970-01-05) with a 09:00-17:00 window, a
      13:00-14:00 break, 60-minute appointments on a 15-minute grid and no
      bookings: 09:00 and 16:00 are offered ... */
  lemma MondayOffers()
    ensures 4 * MsPerDay + 540 * MsPerMinute
      in FreeSlots([WorkingHourRow("b", 1, 540, 1020)], [BreakRow("b", 1, 780, 840)], [], "b", OnDate(Some(4)),
                   60, Some(15), None, 0)
    ensures 4 * MsPerDay + 960 * MsPerMinute
      in FreeSlots([WorkingHourRow("b", 1, 540, 1020)], [BreakRow("b", 1, 780, 840)], [], "b", OnDate(Some(4)),
                   60, Some(15), None, 0)
  {
    MondayOffersAt(540, 4 * MsPerDay + 540 * MsPerMinute);
    MondayOffersAt(960, 4 * MsPerDay + 960 * MsPerMinute);
  }

  /** ... 12:30, which would run into the break, and 16:15, which would run
      past the window, are not. */
  lemma MondayRefuses()
    ensures 4 * MsPerDay + 750 * MsPerMinute
      !in FreeSlots([WorkingHourRow("b", 1, 540, 1020)], [BreakRow("b", 1, 780, 840)], [], "b", OnDate(Some(4)),
                    60, Some(15), None, 0)
    ensures 4 * MsPerDay + 1005 * MsPerMinute
      !in FreeSlots([WorkingHourRow("b", 1, 540, 1020)], [BreakRow("b", 1, 780, 840)], [], "b", OnDate(Some(4)),
                    60, Some(15), None, 0)
  {
    var hours, breaks := [WorkingHourRow("b", 1, 540, 1020)], [BreakRow("b", 1, 780, 840)];
    assert WindowFor(hours, "b", 1) == Some(hours[0]);
    assert breaks[0] in breaks && Overlaps(750, 810, 780, 840);
    OffTheSchedule(hours, breaks, 750, 4 * MsPerDay + 750 * MsPerMinute);
    OffTheSchedule(hours, breaks, 1005, 4 * MsPerDay + 1005 * MsPerMinute);
  }

  /** The offers of `MondayOffers`: a Monday start on the grid whose hour fits the window around the break. */
  lemma MondayOffersAt(m: int, x: int)
    requires (540 <= m && m + 60 <= 780) || (840 <= m && m + 60 <= 1020)
    requires OnGrid(m, 540, 15) && x == 4 * MsPerDay + m * MsPerMinute
    ensures x in FreeSlots([WorkingHourRow("b", 1, 540, 1020)], [BreakRow("b", 1, 780, 840)], [], "b", OnDate(Some(4)),
                           60, Some(15), None, 0)
  {
    var hours, breaks := [WorkingHourRow("b", 1, 540, 1020)], [BreakRow("b", 1, 780, 840)];
    var monday := 4 * MsPerDay;
    assert RangeStart(OnDate(Some(4)), 0) == Some(monday);
    assert LocalDayOfWeek(monday, 0) == 1;
    assert WindowFor(hours, "b", 1) == Some(hours[0]);
    assert OnGrid(monday, monday, MsPerDay);
    FreeSlotComplete(hours, breaks, [], "b", OnDate(Some(4)), 60, Some(15), None, 0, monday, m, x);
  }

  /** The refusals of `MondayRefuses`: a Monday start whose hour does not fit
      the window around the break is not offered. */
  lemma OffTheSchedule(hours: seq<WorkingHourRow>, breaks: seq<BreakRow>, m: int, x: int)
    requires hours == [WorkingHourRow("b", 1, 540, 1020)] && breaks == [BreakRow("b", 1, 780, 840)]
    requires 0 <= m < MinutesPerDay && x == 4 * MsPerDay + m * MsPerMinute
    requires !WindowAdmits(hours, breaks, "b", 1, m, 60)
    ensures x !in FreeSlots(hours, breaks, [], "b", OnDate(Some(4)), 60, Some(15), None, 0)
  {
    if x in FreeSlots(hours, breaks, [], "b", OnDate(Some(4)), 60, Some(15), None, 0) {
      DateSlotWithinAvailability(hours, breaks, [], "b", 4, 60, Some(15), None, 0, x);
      LocalReadingOfDateSlot(4, 0, 4 * MsPerDay, m, x);
      assert false;
    }
  }
}
