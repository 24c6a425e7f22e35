/** `getFreeSlots`: walks the requested range day by day, steps candidate
    minutes through each weekday window, and keeps the candidates that lie in
    the range, avoid the breaks, avoid booked appointments and are far enough
    in the future. */
module Slots {
  import opened Wrappers
  import opened Model
  import opened TimeMath
  import opened Seqs
  import opened Overlap
  import opened Schedule
  import opened Availability

  /** Booked appointments starting up to this long before the range or after
      it are fetched as conflict candidates. */
  const PrefilterMs := MsPerDay
  /** Slots must start more than this long after `now` (clock-skew grace). */
  const GraceMs := 60000

  /** The requested range: explicit instants, or a calendar date (as days since
      the epoch) read as local midnight. `None` is an unparsable input. */
  datatype SlotRange = Between(from: Option<int>, to: Option<int>) | OnDate(epochDay: Option<int>)

  /** The step between candidate minutes: 15 by default, clamped to 5..120. */
  function SlotStep(slotStepMin: Option<int>): (r: int)
    ensures MinSlotStepMin <= r <= MaxSlotStepMin
    ensures slotStepMin.None? ==> r == DefaultSlotStepMin
    ensures slotStepMin.Some? && MinSlotStepMin <= slotStepMin.value <= MaxSlotStepMin ==> r == slotStepMin.value
  {
    Clamp(slotStepMin.GetOr(DefaultSlotStepMin), MinSlotStepMin, MaxSlotStepMin)
  }

  /** Start of the range; in date mode the client's local midnight in UTC. */
  function RangeStart(range: SlotRange, tz: int): Option<int> {
    match range
    case Between(from, _) => from
    case OnDate(day) => if day.Some? then Some(day.value * MsPerDay + tz * MsPerMinute) else None
  }

  /** End of the range; in date mode exactly one day after its start. */
  function RangeEnd(range: SlotRange, tz: int): (r: Option<int>)
    ensures range.OnDate? && RangeStart(range, tz).Some? ==> r == Some(RangeStart(range, tz).value + MsPerDay)
    ensures range.OnDate? && RangeStart(range, tz).None? ==> r.None?
  {
    match range
    case Between(_, to) => to
    case OnDate(day) => if day.Some? then Some(day.value * MsPerDay + tz * MsPerMinute + MsPerDay) else None
  }

  /** A booked appointment as the instant span `[s, e)` it occupies. */
  datatype BookedRange = BookedRange(s: int, e: int)

  /** The booked-appointment query: BOOKED rows of the business starting
      within a day of the range. */
  predicate IsCandidate(a: Appointment, businessId: UserId, from: int, to: int) {
    && a.businessId == businessId
    && a.status == BOOKED
    && from - PrefilterMs <= a.startAt < to + PrefilterMs
  }

  function CandidateOf(businessId: UserId, from: int, to: int): Appointment -> bool {
    (a: Appointment) => IsCandidate(a, businessId, from, to)
  }

  function RangeOf(a: Appointment): BookedRange {
    BookedRange(a.startAt, EndOf(a.startAt, a.durationMin))
  }

  /** `booked.map(a => ({ s, e }))`. */
  function Ranges(appts: seq<Appointment>): (r: seq<BookedRange>)
    ensures |r| == |appts| && forall i :: 0 <= i < |appts| ==> r[i] == RangeOf(appts[i])
  {
    if appts == [] then [] else [RangeOf(appts[0])] + Ranges(appts[1..])
  }

  /** The last window row of a weekday: what the `whByDay` map ends up holding. */
  function LastWindow(rows: seq<WorkingHourRow>, dayOfWeek: int): (r: Option<WorkingHourRow>)
    ensures r.Some? ==> r.value in rows && r.value.dayOfWeek == dayOfWeek
    ensures r.None? <==> forall x :: x in rows ==> x.dayOfWeek != dayOfWeek
  {
    if rows == [] then None
    else if rows[|rows| - 1].dayOfWeek == dayOfWeek then Some(rows[|rows| - 1])
    else
      assert rows == rows[..|rows| - 1] + [rows[|rows| - 1]];
      LastWindow(rows[..|rows| - 1], dayOfWeek)
  }

  /** Everything one walk needs, fixed for its duration. */
  datatype Query = Query(
    from: int, to: int, tz: int, durationMin: int, step: int,
    windows: seq<WorkingHourRow>, breaks: seq<BreakRow>, booked: seq<BookedRange>)

  predicate HitsBreak(t: int, tEnd: int, dayBreaks: seq<Interval>) {
    exists i :: 0 <= i < |dayBreaks| && Overlaps(t, tEnd, dayBreaks[i].startMin, dayBreaks[i].endMin)
  }

  predicate HitsBooked(sMs: int, eMs: int, booked: seq<BookedRange>) {
    exists i :: 0 <= i < |booked| && sMs < booked[i].e && eMs > booked[i].s
  }

  /** Candidate minute `t` of the day starting at `cursor` is offered. */
  predicate Offered(q: Query, cursor: int, t: int, dayBreaks: seq<Interval>) {
    var startAt := cursor + t * MsPerMinute;
    && q.from <= startAt < q.to
    && !HitsBreak(t, t + q.durationMin, dayBreaks)
    && !HitsBooked(startAt, cursor + (t + q.durationMin) * MsPerMinute, q.booked)
  }

  /** The slots of one day from candidate minute `t` on, stepping by `q.step`
      while `t + durationMin` stays within the window's end. */
  function DaySlots(q: Query, cursor: int, endMin: int, dayBreaks: seq<Interval>, t: int): seq<int>
    requires q.step > 0
    decreases endMin - q.durationMin - t
  {
    if t + q.durationMin > endMin then []
    else
      (if Offered(q, cursor, t, dayBreaks) then [cursor + t * MsPerMinute] else [])
      + DaySlots(q, cursor, endMin, dayBreaks, t + q.step)
  }

  /** The slots of the day starting at `cursor`: none without a window for its local weekday. */
  function SlotsOfDay(q: Query, cursor: int): seq<int>
    requires q.step > 0
  {
    var dayOfWeek := LocalDayOfWeek(cursor, q.tz);
    var w := LastWindow(q.windows, dayOfWeek);
    if w.None? then []
    else DaySlots(q, cursor, w.value.endMin, DayBreaks(q.breaks, dayOfWeek), w.value.startMin)
  }

  /** The slots of the days starting at `cursor`, `cursor + 1 day`, ... before `q.to`. */
  function RangeSlots(q: Query, cursor: int): seq<int>
    requires q.step > 0
    decreases q.to - cursor
  {
    if cursor >= q.to then []
    else SlotsOfDay(q, cursor) + RangeSlots(q, cursor + MsPerDay)
  }

  function LaterThan(bound: int): int -> bool {
    (x: int) => x > bound
  }

  /** The walk `getFreeSlots` performs, given its inputs, on a valid range. */
  function QueryOf(hours: seq<WorkingHourRow>, breaks: seq<BreakRow>, appts: seq<Appointment>, businessId: UserId,
                   from: int, to: int, durationMin: int, slotStepMin: Option<int>, tzOffsetMin: Option<int>): (q: Query)
    ensures q.step > 0
  {
    Query(from, to, EffectiveTz(tzOffsetMin), durationMin, SlotStep(slotStepMin),
          HoursOf(hours, businessId), BreaksOf(breaks, businessId),
          Ranges(Filter(appts, CandidateOf(businessId, from, to))))
  }

  /** The result of `getFreeSlots`. */
  function FreeSlots(hours: seq<WorkingHourRow>, breaks: seq<BreakRow>, appts: seq<Appointment>, businessId: UserId,
                     range: SlotRange, durationMin: int, slotStepMin: Option<int>, tzOffsetMin: Option<int>,
                     now: int): seq<int>
  {
    var tz := EffectiveTz(tzOffsetMin);
    var from := RangeStart(range, tz);
    var to := RangeEnd(range, tz);
    if from.None? || to.None? || to.value <= from.value then []
    else
      var q := QueryOf(hours, breaks, appts, businessId, from.value, to.value, durationMin, slotStepMin, tzOffsetMin);
      Filter(RangeSlots(q, from.value), LaterThan(now + GraceMs))
  }

  // ---------------------------------------------------------------------
  // The imperative walk
  // ---------------------------------------------------------------------

  /** The `whByDay` map, built by overwriting per row. */
  method WindowsByDay(rows: seq<WorkingHourRow>) returns (byDay: map<int, Interval>)
    ensures forall d :: d in byDay <==> LastWindow(rows, d).Some?
    ensures forall d :: d in byDay ==> byDay[d] == Interval(LastWindow(rows, d).value.startMin, LastWindow(rows, d).value.endMin)
  {
    byDay := map[];
    var i := 0;
    while i < |rows|
      invariant 0 <= i <= |rows|
      invariant forall d :: d in byDay <==> LastWindow(rows[..i], d).Some?
      invariant forall d :: d in byDay ==>
        byDay[d] == Interval(LastWindow(rows[..i], d).value.startMin, LastWindow(rows[..i], d).value.endMin)
    {
      var wh := rows[i];
      assert rows[..i + 1][..i] == rows[..i];
      byDay := byDay[wh.dayOfWeek := Interval(wh.startMin, wh.endMin)];
      i := i + 1;
    }
    assert rows[..i] == rows;
  }

  /** `for (const b of dayBreaks)`: does some break overlap `[t, tEnd)`? */
  method ScanBreaks(t: int, tEnd: int, dayBreaks: seq<Interval>) returns (inBreak: bool)
    ensures inBreak == HitsBreak(t, tEnd, dayBreaks)
  {
    inBreak := false;
    var j := 0;
    while j < |dayBreaks|
      invariant 0 <= j <= |dayBreaks|
      invariant forall k :: 0 <= k < j ==> !Overlaps(t, tEnd, dayBreaks[k].startMin, dayBreaks[k].endMin)
    {
      if Overlaps(t, tEnd, dayBreaks[j].startMin, dayBreaks[j].endMin) {
        inBreak := true;
        break;
      }
      j := j + 1;
    }
  }

  /** `for (const br of bookedRanges)`: does some booking overlap `[sMs, eMs)`? */
  method ScanBooked(sMs: int, eMs: int, booked: seq<BookedRange>) returns (hasConflict: bool)
    ensures hasConflict == HitsBooked(sMs, eMs, booked)
  {
    hasConflict := false;
    var j := 0;
    while j < |booked|
      invariant 0 <= j <= |booked|
      invariant forall k :: 0 <= k < j ==> !(sMs < booked[k].e && eMs > booked[k].s)
    {
      if sMs < booked[j].e && eMs > booked[j].s {
        hasConflict := true;
        break;
      }
      j := j + 1;
    }
  }

  /** One step of `DaySlots`: the candidate `t`, then the rest of the day. */
  lemma DaySlotsStep(q: Query, cursor: int, endMin: int, dayBreaks: seq<Interval>, t: int)
    requires q.step > 0 && t + q.durationMin <= endMin
    ensures DaySlots(q, cursor, endMin, dayBreaks, t)
         == (if Offered(q, cursor, t, dayBreaks) then [cursor + t * MsPerMinute] else [])
            + DaySlots(q, cursor, endMin, dayBreaks, t + q.step)
  {
  }

  /** The inner `for (let t = ...)` loop over one day's window. */
  method WalkDay(q: Query, cursor: int, startMin: int, endMin: int, dayBreaks: seq<Interval>)
    returns (found: seq<int>)
    requires q.step > 0
    ensures found == DaySlots(q, cursor, endMin, dayBreaks, startMin)
  {
    found := [];
    var t := startMin;
    while t + q.durationMin <= endMin
      invariant found + DaySlots(q, cursor, endMin, dayBreaks, t) == DaySlots(q, cursor, endMin, dayBreaks, startMin)
      decreases endMin - q.durationMin - t
    {
      var tEnd := t + q.durationMin;
      var startAt := cursor + t * MsPerMinute;
      var endAt := cursor + tEnd * MsPerMinute;
      var keep := false;
      if q.from <= startAt < q.to {
        var inBreak := ScanBreaks(t, tEnd, dayBreaks);
        if !inBreak {
          var hasConflict := ScanBooked(startAt, endAt, q.booked);
          keep := !hasConflict;
        }
      }
      assert keep == Offered(q, cursor, t, dayBreaks);
      DaySlotsStep(q, cursor, endMin, dayBreaks, t);
      if keep {
        found := found + [startAt];
      }
      t := t + q.step;
    }
  }

  /** The outer `while (dayCursor < endDay)` loop, given the two lookup maps. */
  method WalkRange(q: Query, whByDay: map<int, Interval>, breaksByDay: map<int, seq<Interval>>)
    returns (all: seq<int>)
    requires q.step > 0
    requires forall d :: d in whByDay <==> LastWindow(q.windows, d).Some?
    requires forall d :: d in whByDay ==>
      whByDay[d] == Interval(LastWindow(q.windows, d).value.startMin, LastWindow(q.windows, d).value.endMin)
    requires GroupedBy(breaksByDay, q.breaks)
    ensures all == RangeSlots(q, q.from)
  {
    all := [];
    var dayCursor := q.from;
    while dayCursor < q.to
      invariant all + RangeSlots(q, dayCursor) == RangeSlots(q, q.from)
      decreases q.to - dayCursor
    {
      var dayOfWeek := LocalDayOfWeek(dayCursor, q.tz);
      var found: seq<int> := [];
      if dayOfWeek in whByDay {
        var wh := whByDay[dayOfWeek];
        var dayBreaks := if dayOfWeek in breaksByDay then breaksByDay[dayOfWeek] else [];
        if dayOfWeek !in breaksByDay {
          DayBreaksNone(q.breaks, dayOfWeek);
        }
        found := WalkDay(q, dayCursor, wh.startMin, wh.endMin, dayBreaks);
      }
      assert found == SlotsOfDay(q, dayCursor);
      assert RangeSlots(q, dayCursor) == found + RangeSlots(q, dayCursor + MsPerDay);
      assert all + found + RangeSlots(q, dayCursor + MsPerDay) == all + RangeSlots(q, dayCursor);
      all := all + found;
      dayCursor := dayCursor + MsPerDay;
    }
  }

  /** `getFreeSlots`; `now` stands for `Date.now()`. */
  method GetFreeSlots(hours: seq<WorkingHourRow>, breaks: seq<BreakRow>, appts: seq<Appointment>, businessId: UserId,
                      range: SlotRange, durationMin: int, slotStepMin: Option<int>, tzOffsetMin: Option<int>, now: int)
    returns (slots: seq<int>)
    ensures slots == FreeSlots(hours, breaks, appts, businessId, range, durationMin, slotStepMin, tzOffsetMin, now)
  {
    var tz := EffectiveTz(tzOffsetMin);
    var fromMs := RangeStart(range, tz);
    var toMs := RangeEnd(range, tz);
    if fromMs.None? || toMs.None? || toMs.value <= fromMs.value {
      return [];
    }
    var q := QueryOf(hours, breaks, appts, businessId, fromMs.value, toMs.value, durationMin, slotStepMin, tzOffsetMin);
    var whByDay := WindowsByDay(q.windows);
    var breaksByDay := GroupBreaks(q.breaks);
    var all := WalkRange(q, whByDay, breaksByDay);
    slots := Filter(all, LaterThan(now + GraceMs));
  }
}
