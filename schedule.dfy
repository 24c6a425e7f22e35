/** The availability store: a business's weekly working windows and breaks.
    Covers the normalisation of the weekly form, the full replacement of the
    business's rows, and the grouping of the stored rows back into days. */
module Schedule {
  import opened Wrappers
  import opened Model
  import opened TimeMath
  import opened Seqs

  /** One break as typed into the weekly form. */
  datatype BreakInput = BreakInput(start: string, end: string)

  /** One weekday of the weekly form; `start`, `end` and `breaks` may be absent. */
  datatype DayInput = DayInput(
    dayOfWeek: int,
    enabled: bool,
    start: Option<string>,
    end: Option<string>,
    breaks: Option<seq<BreakInput>>)

  datatype WeeklyAvailability = WeeklyAvailability(slotStepMin: Option<int>, days: seq<DayInput>)

  /** A break, in minutes since local midnight. */
  datatype Interval = Interval(startMin: int, endMin: int)

  /** One working weekday: its window and its breaks. */
  datatype Day = Day(dayOfWeek: int, startMin: int, endMin: int, breaks: seq<Interval>)

  datatype AvailabilityState = AvailabilityState(slotStepMin: int, days: seq<Day>)

  /** The plain errors the normalisation throws. */
  datatype ScheduleError =
    | BadTime(text: string)
    | MissingStartEnd(dayOfWeek: int)
    | EndNotAfterStart(dayOfWeek: int)

  const DefaultSlotStepMin: int := 15
  const MinSlotStepMin: int := 5
  const MaxSlotStepMin: int := 120

  // ---------------------------------------------------------------------
  // Normalisation of the weekly form
  // ---------------------------------------------------------------------

  function ParseTime(s: string): (r: Result<int, ScheduleError>)
    ensures r.Success? <==> IsHhmm(s)
    ensures r.Success? ==> HhmmToMin(s) == Success(r.value)
    ensures r.Failure? ==> r.error == BadTime(s)
  {
    match HhmmToMin(s)
    case Success(m) => Success(m)
    case Failure(_) => Failure(BadTime(s))
  }

  predicate BreakTextsValid(b: BreakInput) {
    IsHhmm(b.start) && IsHhmm(b.end)
  }

  /** Parses every break, start before end, stopping at the first bad time,
      whose error is the answer. */
  function ParseBreaks(bs: seq<BreakInput>): (r: Result<seq<Interval>, ScheduleError>)
    ensures r.Success? <==> forall i :: 0 <= i < |bs| ==> BreakTextsValid(bs[i])
    ensures r.Success? ==> |r.value| == |bs|
    ensures r.Success? ==> forall i :: 0 <= i < |bs| ==>
      r.value[i] == Interval(HhmmToMin(bs[i].start).value, HhmmToMin(bs[i].end).value)
    ensures r.Failure? ==> exists i :: (0 <= i < |bs| && !BreakTextsValid(bs[i]) &&
      (r.error == BadTime(bs[i].start) || r.error == BadTime(bs[i].end)))
  {
    if bs == [] then Success([])
    else
      var s :- ParseTime(bs[0].start);
      var e :- ParseTime(bs[0].end);
      var rest :- ParseBreaks(bs[1..]);
      Success([Interval(s, e)] + rest)
  }

  /** Break `i` is the first one with a bad time. */
  predicate FirstBadBreak(bs: seq<BreakInput>, i: int)
    requires 0 <= i < |bs|
  {
    !BreakTextsValid(bs[i]) && forall j :: 0 <= j < i ==> BreakTextsValid(bs[j])
  }

  /** A failed parse reports the first bad time of the first break that has one. */
  lemma {:induction false} ParseBreaksFirstBad(bs: seq<BreakInput>)
    requires ParseBreaks(bs).Failure?
    ensures exists i :: (0 <= i < |bs| && FirstBadBreak(bs, i) &&
      ParseBreaks(bs).error == (if IsHhmm(bs[i].start) then BadTime(bs[i].end) else BadTime(bs[i].start)))
  {
    if IsHhmm(bs[0].start) && IsHhmm(bs[0].end) {
      var tail := bs[1..];
      assert ParseBreaks(bs).error == ParseBreaks(tail).error;
      ParseBreaksFirstBad(tail);
      var i :| 0 <= i < |tail| && FirstBadBreak(tail, i) &&
        ParseBreaks(tail).error == (if IsHhmm(tail[i].start) then BadTime(tail[i].end) else BadTime(tail[i].start));
      assert FirstBadBreak(bs, i + 1);
    } else {
      assert FirstBadBreak(bs, 0);
    }
  }

  function NonEmptyBreak(): Interval -> bool {
    (b: Interval) => b.endMin > b.startMin
  }

  function MeetsWindow(startMin: int, endMin: int): Interval -> bool {
    (b: Interval) => Overlaps(b.startMin, b.endMin, startMin, endMin)
  }

  /** Drops empty breaks, then breaks that do not meet the window; the
      survivors are kept as they are, not clipped to the window. */
  function KeptBreaks(bs: seq<Interval>, startMin: int, endMin: int): (r: seq<Interval>)
    ensures forall b :: b in r <==>
      b in bs && b.startMin < b.endMin && Overlaps(b.startMin, b.endMin, startMin, endMin)
  {
    Filter(Filter(bs, NonEmptyBreak()), MeetsWindow(startMin, endMin))
  }

  /** JavaScript truthiness of an optional string. */
  predicate Present(o: Option<string>) {
    o.Some? && o.value != ""
  }

  /** Everything a day needs to be accepted by the normalisation. */
  predicate DayAcceptable(d: DayInput) {
    && Present(d.start) && Present(d.end)
    && IsHhmm(d.start.value) && IsHhmm(d.end.value)
    && HhmmToMin(d.start.value).value < HhmmToMin(d.end.value).value
    && forall i :: 0 <= i < |d.breaks.GetOr([])| ==> BreakTextsValid(d.breaks.GetOr([])[i])
  }

  predicate WellFormedInterval(startMin: int, endMin: int) {
    0 <= startMin < endMin < MinutesPerDay
  }

  /** A normalised day: a valid window, breaks that are valid and meet it. */
  predicate WellFormedDay(d: Day) {
    && WellFormedInterval(d.startMin, d.endMin)
    && forall b :: b in d.breaks ==>
         WellFormedInterval(b.startMin, b.endMin) && Overlaps(b.startMin, b.endMin, d.startMin, d.endMin)
  }

  function NormalizeDay(d: DayInput): (r: Result<Day, ScheduleError>)
    ensures r.Success? <==> DayAcceptable(d)
    ensures r.Success? ==> r.value.dayOfWeek == d.dayOfWeek && WellFormedDay(r.value)
    ensures r.Success? ==> r.value.startMin == HhmmToMin(d.start.value).value
    ensures r.Success? ==> r.value.endMin == HhmmToMin(d.end.value).value
    ensures !Present(d.start) || !Present(d.end) ==> r == Failure(MissingStartEnd(d.dayOfWeek))
    ensures Present(d.start) && Present(d.end) && IsHhmm(d.start.value) && IsHhmm(d.end.value)
      && HhmmToMin(d.end.value).value <= HhmmToMin(d.start.value).value
      ==> r == Failure(EndNotAfterStart(d.dayOfWeek))
  {
    if !Present(d.start) || !Present(d.end) then
      Failure(MissingStartEnd(d.dayOfWeek))
    else
      var startMin :- ParseTime(d.start.value);
      var endMin :- ParseTime(d.end.value);
      if endMin <= startMin then
        Failure(EndNotAfterStart(d.dayOfWeek))
      else
        var parsed :- ParseBreaks(d.breaks.GetOr([]));
        KeptBreaksWellFormed(d.dayOfWeek, startMin, endMin, parsed);
        Success(Day(d.dayOfWeek, startMin, endMin, KeptBreaks(parsed, startMin, endMin)))
  }

  /** Filtering parsed breaks against a valid window gives a well-formed day. */
  lemma KeptBreaksWellFormed(dayOfWeek: int, startMin: int, endMin: int, parsed: seq<Interval>)
    requires WellFormedInterval(startMin, endMin)
    requires forall b :: b in parsed ==> 0 <= b.startMin < MinutesPerDay && 0 <= b.endMin < MinutesPerDay
    ensures WellFormedDay(Day(dayOfWeek, startMin, endMin, KeptBreaks(parsed, startMin, endMin)))
  {
  }

  /** Day `i` is the first one that does not normalise. */
  predicate FirstBadDay(ds: seq<DayInput>, i: int)
    requires 0 <= i < |ds|
  {
    NormalizeDay(ds[i]).Failure? && forall j :: 0 <= j < i ==> NormalizeDay(ds[j]).Success?
  }

  /** Normalises the given days in order, stopping at the first day that fails. */
  function NormalizeAll(ds: seq<DayInput>): (r: Result<seq<Day>, ScheduleError>)
    ensures r.Success? <==> forall i :: 0 <= i < |ds| ==> NormalizeDay(ds[i]).Success?
    ensures r.Success? ==> |r.value| == |ds|
    ensures r.Success? ==> forall i :: 0 <= i < |ds| ==> r.value[i] == NormalizeDay(ds[i]).value
    ensures r.Failure? ==> exists d :: d in ds && NormalizeDay(d) == Failure(r.error)
  {
    if ds == [] then Success([])
    else
      var first, rest := NormalizeDay(ds[0]), NormalizeAll(ds[1..]);
      assert forall i :: 0 < i < |ds| ==> ds[i] == ds[1..][i - 1];
      if first.Failure? then
        assert ds[0] in ds;
        Failure(first.error)
      else if rest.Failure? then
        assert forall d :: d in ds[1..] ==> d in ds;
        Failure(rest.error)
      else
        Success([first.value] + rest.value)
  }

  /** A failed normalisation reports the error of the first day that does not normalise. */
  lemma {:induction false} NormalizeAllFirstBad(ds: seq<DayInput>)
    requires NormalizeAll(ds).Failure?
    ensures exists i :: 0 <= i < |ds| && FirstBadDay(ds, i) && NormalizeDay(ds[i]) == Failure(NormalizeAll(ds).error)
  {
    if NormalizeDay(ds[0]).Success? {
      var tail := ds[1..];
      assert NormalizeAll(ds).error == NormalizeAll(tail).error;
      NormalizeAllFirstBad(tail);
      var i :| 0 <= i < |tail| && FirstBadDay(tail, i) && NormalizeDay(tail[i]) == Failure(NormalizeAll(tail).error);
      assert FirstBadDay(ds, i + 1);
    } else {
      assert FirstBadDay(ds, 0);
    }
  }

  function IsEnabled(): DayInput -> bool {
    (d: DayInput) => d.enabled
  }

  function EnabledDays(days: seq<DayInput>): (r: seq<DayInput>)
    ensures forall d :: d in r <==> d in days && d.enabled
  {
    Filter(days, IsEnabled())
  }


  /** Keeps the enabled days only and normalises each of them, in order. */
  function NormalizeWeek(days: seq<DayInput>): (r: Result<seq<Day>, ScheduleError>)
    ensures r.Success? <==> forall d :: d in days && d.enabled ==> DayAcceptable(d)
    ensures r.Success? ==> forall d :: d in r.value ==> WellFormedDay(d)
    ensures r.Failure? ==> exists e :: e in days && e.enabled && NormalizeDay(e) == Failure(r.error)
  {
    NormalizeAll(EnabledDays(days))
  }

  /** A successful normalisation has one day per enabled input day, in the
      same order. */
  lemma NormalizeWeekDays(days: seq<DayInput>)
    requires NormalizeWeek(days).Success?
    ensures |NormalizeWeek(days).value| == |EnabledDays(days)|
    ensures forall i :: 0 <= i < |EnabledDays(days)| ==>
      NormalizeWeek(days).value[i] == NormalizeDay(EnabledDays(days)[i]).value
  {
    assert NormalizeWeek(days) == NormalizeAll(EnabledDays(days));
  }

  /** The `i`-th normalised day keeps the weekday of the `i`-th enabled day. */
  lemma NormalizeWeekDayAt(days: seq<DayInput>, i: int)
    requires NormalizeWeek(days).Success? && 0 <= i < |EnabledDays(days)|
    ensures i < |NormalizeWeek(days).value|
    ensures NormalizeWeek(days).value[i].dayOfWeek == EnabledDays(days)[i].dayOfWeek
  {
    NormalizeWeekDays(days);
    assert EnabledDays(days)[i] in EnabledDays(days);
  }

  /** Index-wise equal weekdays give the same weekdays both ways. */
  lemma SameWeekdays(ds: seq<DayInput>, r: seq<Day>)
    requires |r| == |ds| && forall i :: 0 <= i < |ds| ==> r[i].dayOfWeek == ds[i].dayOfWeek
    ensures forall e :: e in ds ==> exists d :: d in r && d.dayOfWeek == e.dayOfWeek
    ensures forall d :: d in r ==> exists e :: e in ds && e.dayOfWeek == d.dayOfWeek
  {
    forall e | e in ds ensures exists d :: d in r && d.dayOfWeek == e.dayOfWeek {
      var i :| 0 <= i < |ds| && ds[i] == e;
      assert r[i] in r;
    }
    forall d | d in r ensures exists e :: e in ds && e.dayOfWeek == d.dayOfWeek {
      var i :| 0 <= i < |r| && r[i] == d;
      assert ds[i] in ds;
    }
  }

  /** The weekdays of a successful normalisation are exactly those of the enabled input days. */
  lemma NormalizeWeekWeekdays(days: seq<DayInput>)
    requires NormalizeWeek(days).Success?
    ensures forall e :: e in days && e.enabled ==>
      exists d :: d in NormalizeWeek(days).value && d.dayOfWeek == e.dayOfWeek
    ensures forall d :: d in NormalizeWeek(days).value ==>
      exists e :: e in days && e.enabled && e.dayOfWeek == d.dayOfWeek
  {
    var enabled := EnabledDays(days);
    var r := NormalizeWeek(days).value;
    NormalizeWeekDays(days);
    forall i | 0 <= i < |enabled| ensures r[i].dayOfWeek == enabled[i].dayOfWeek {
      NormalizeWeekDayAt(days, i);
    }
    SameWeekdays(enabled, r);
  }

  // ---------------------------------------------------------------------
  // The two tables
  // ---------------------------------------------------------------------

  predicate SameKey(row: WorkingHourRow, businessId: UserId, dayOfWeek: int) {
    row.businessId == businessId && row.dayOfWeek == dayOfWeek
  }

  /** The database's uniqueness constraint on (businessId, dayOfWeek). */
  predicate UniqueKeys(rows: seq<WorkingHourRow>) {
    forall i, j :: 0 <= i < j < |rows| ==> !SameKey(rows[j], rows[i].businessId, rows[i].dayOfWeek)
  }

  /** The window row stored for a business and weekday (the last such row,
      which is the only one when keys are unique). */
  function WindowFor(rows: seq<WorkingHourRow>, businessId: UserId, dayOfWeek: int): (r: Option<WorkingHourRow>)
    ensures r.Some? ==> r.value in rows && SameKey(r.value, businessId, dayOfWeek)
    ensures r.None? ==> forall i :: 0 <= i < |rows| ==> !SameKey(rows[i], businessId, dayOfWeek)
  {
    if rows == [] then None
    else
      var rest := WindowFor(rows[1..], businessId, dayOfWeek);
      if rest.Some? then rest
      else if SameKey(rows[0], businessId, dayOfWeek) then Some(rows[0])
      else None
  }

  lemma WindowForUnique(rows: seq<WorkingHourRow>, row: WorkingHourRow)
    requires UniqueKeys(rows) && row in rows
    ensures WindowFor(rows, row.businessId, row.dayOfWeek) == Some(row)
  {
    var w := WindowFor(rows, row.businessId, row.dayOfWeek);
    var j :| 0 <= j < |rows| && rows[j] == row;
    assert SameKey(rows[j], row.businessId, row.dayOfWeek);
    var i :| 0 <= i < |rows| && rows[i] == w.value;
    assert i == j;
  }

  /** Under unique keys, which windows exist is decided by which rows exist. */
  lemma WindowForByMembership(a: seq<WorkingHourRow>, b: seq<WorkingHourRow>, businessId: UserId, dayOfWeek: int)
    requires UniqueKeys(a) && UniqueKeys(b)
    requires forall x :: SameKey(x, businessId, dayOfWeek) ==> (x in a <==> x in b)
    ensures WindowFor(a, businessId, dayOfWeek) == WindowFor(b, businessId, dayOfWeek)
  {
    var wa := WindowFor(a, businessId, dayOfWeek);
    if wa.Some? {
      WindowForUnique(b, wa.value);
    } else {
      var wb := WindowFor(b, businessId, dayOfWeek);
      if wb.Some? {
        WindowForUnique(a, wb.value);
      }
    }
  }

  function OfBusiness(businessId: UserId): WorkingHourRow -> bool {
    (r: WorkingHourRow) => r.businessId == businessId
  }

  /** `findMany({ where: { businessId } })` on the window table. */
  function HoursOf(rows: seq<WorkingHourRow>, businessId: UserId): (r: seq<WorkingHourRow>)
    ensures forall x :: x in r <==> x in rows && x.businessId == businessId
  {
    Filter(rows, OfBusiness(businessId))
  }

  function BreakOfBusiness(businessId: UserId): BreakRow -> bool {
    (r: BreakRow) => r.businessId == businessId
  }

  function BreakNotOfBusiness(businessId: UserId): BreakRow -> bool {
    (r: BreakRow) => r.businessId != businessId
  }

  /** `findMany({ where: { businessId } })` on the break table. */
  function BreaksOf(rows: seq<BreakRow>, businessId: UserId): (r: seq<BreakRow>)
    ensures forall x :: x in r <==> x in rows && x.businessId == businessId
  {
    Filter(rows, BreakOfBusiness(businessId))
  }

  function HourRow(businessId: UserId, d: Day): WorkingHourRow {
    WorkingHourRow(businessId, d.dayOfWeek, d.startMin, d.endMin)
  }

  /** Prisma's `upsert` on (businessId, dayOfWeek): updates the row with that
      key in place, or appends a new one. */
  function Upsert(rows: seq<WorkingHourRow>, row: WorkingHourRow): (r: seq<WorkingHourRow>)
    requires UniqueKeys(rows)
    ensures UniqueKeys(r)
    ensures forall x :: x in r <==> x == row || (x in rows && !SameKey(x, row.businessId, row.dayOfWeek))
  {
    if rows == [] then
      [row]
    else if SameKey(rows[0], row.businessId, row.dayOfWeek) then
      UpsertHere(rows, row);
      [row] + rows[1..]
    else
      var rest := Upsert(rows[1..], row);
      UpsertLater(rows, row, rest);
      [rows[0]] + rest
  }

  lemma UpsertHere(rows: seq<WorkingHourRow>, row: WorkingHourRow)
    requires UniqueKeys(rows) && rows != [] && SameKey(rows[0], row.businessId, row.dayOfWeek)
    ensures UniqueKeys([row] + rows[1..])
    ensures forall x :: x in [row] + rows[1..] <==> x == row || (x in rows && !SameKey(x, row.businessId, row.dayOfWeek))
  {
    var r := [row] + rows[1..];
    forall x | x in rows[1..] ensures !SameKey(x, row.businessId, row.dayOfWeek) {
      var j :| 1 <= j < |rows| && rows[j] == x;
    }
    assert rows == [rows[0]] + rows[1..];
    forall i, j | 0 <= i < j < |r| ensures !SameKey(r[j], r[i].businessId, r[i].dayOfWeek) {
      assert r[j] == rows[j];
      if i > 0 {
        assert r[i] == rows[i];
      } else {
        assert r[j] in rows[1..];
      }
    }
  }

  lemma UpsertLater(rows: seq<WorkingHourRow>, row: WorkingHourRow, rest: seq<WorkingHourRow>)
    requires UniqueKeys(rows) && rows != [] && !SameKey(rows[0], row.businessId, row.dayOfWeek)
    requires UniqueKeys(rest)
    requires forall x :: x in rest <==> x == row || (x in rows[1..] && !SameKey(x, row.businessId, row.dayOfWeek))
    ensures UniqueKeys([rows[0]] + rest)
    ensures forall x :: x in [rows[0]] + rest <==> x == row || (x in rows && !SameKey(x, row.businessId, row.dayOfWeek))
  {
    var r := [rows[0]] + rest;
    assert rows == [rows[0]] + rows[1..];
    forall j | 1 <= j < |r| ensures !SameKey(r[j], rows[0].businessId, rows[0].dayOfWeek) {
      assert r[j] in rest;
      if r[j] != row {
        var k :| 1 <= k < |rows| && rows[k] == r[j];
      }
    }
    forall i, j | 0 <= i < j < |r| ensures !SameKey(r[j], r[i].businessId, r[i].dayOfWeek) {
      if i > 0 {
        assert r[i] == rest[i - 1] && r[j] == rest[j - 1];
      }
    }
  }

  /** An upsert leaves the rows of every other business as they were. */
  lemma {:induction false} UpsertOthers(rows: seq<WorkingHourRow>, row: WorkingHourRow, b: UserId)
    requires UniqueKeys(rows) && b != row.businessId
    ensures HoursOf(Upsert(rows, row), b) == HoursOf(rows, b)
  {
    if rows != [] {
      assert rows == [rows[0]] + rows[1..];
      FilterConcat([rows[0]], rows[1..], OfBusiness(b));
      if SameKey(rows[0], row.businessId, row.dayOfWeek) {
        FilterConcat([row], rows[1..], OfBusiness(b));
      } else {
        UpsertOthers(rows[1..], row, b);
        FilterConcat([rows[0]], Upsert(rows[1..], row), OfBusiness(b));
      }
    }
  }

  predicate Kept(x: WorkingHourRow, businessId: UserId, enabledDow: seq<int>) {
    x.businessId != businessId || x.dayOfWeek in enabledDow
  }

  /** `deleteMany` of the business's rows whose weekday is not enabled. */
  function DeleteDisabled(rows: seq<WorkingHourRow>, businessId: UserId, enabledDow: seq<int>): (r: seq<WorkingHourRow>)
    requires UniqueKeys(rows)
    ensures UniqueKeys(r)
    ensures forall x :: x in r <==> x in rows && Kept(x, businessId, enabledDow)
  {
    if rows == [] then []
    else
      var rest := DeleteDisabled(rows[1..], businessId, enabledDow);
      assert rows == [rows[0]] + rows[1..];
      if Kept(rows[0], businessId, enabledDow) then
        DeleteKeeps(rows, rest);
        [rows[0]] + rest
      else
        rest
  }

  lemma DeleteKeeps(rows: seq<WorkingHourRow>, rest: seq<WorkingHourRow>)
    requires UniqueKeys(rows) && rows != [] && UniqueKeys(rest)
    requires forall x :: x in rest ==> x in rows[1..]
    ensures UniqueKeys([rows[0]] + rest)
  {
    var r := [rows[0]] + rest;
    forall i, j | 0 <= i < j < |r| ensures !SameKey(r[j], r[i].businessId, r[i].dayOfWeek) {
      if i > 0 {
        assert r[i] == rest[i - 1] && r[j] == rest[j - 1];
      } else {
        assert r[j] in rows[1..];
        var k :| 1 <= k < |rows| && rows[k] == r[j];
      }
    }
  }

  /** Deleting the business's disabled days leaves other businesses' rows alone. */
  lemma {:induction false} DeleteOthers(rows: seq<WorkingHourRow>, businessId: UserId, enabledDow: seq<int>, b: UserId)
    requires UniqueKeys(rows) && b != businessId
    ensures HoursOf(DeleteDisabled(rows, businessId, enabledDow), b) == HoursOf(rows, b)
  {
    if rows != [] {
      assert rows == [rows[0]] + rows[1..];
      FilterConcat([rows[0]], rows[1..], OfBusiness(b));
      DeleteOthers(rows[1..], businessId, enabledDow, b);
      if Kept(rows[0], businessId, enabledDow) {
        FilterConcat([rows[0]], DeleteDisabled(rows[1..], businessId, enabledDow), OfBusiness(b));
      }
    }
  }

  function ToBreakRows(businessId: UserId, dayOfWeek: int, bs: seq<Interval>): (r: seq<BreakRow>)
    ensures |r| == |bs|
    ensures forall i :: 0 <= i < |bs| ==> r[i] == BreakRow(businessId, dayOfWeek, bs[i].startMin, bs[i].endMin)
  {
    if bs == [] then [] else [BreakRow(businessId, dayOfWeek, bs[0].startMin, bs[0].endMin)] + ToBreakRows(businessId, dayOfWeek, bs[1..])
  }

  /** The `flatMap` of the normalised days into break rows. */
  function BreakRowsOf(businessId: UserId, days: seq<Day>): (r: seq<BreakRow>)
    ensures forall x :: x in r <==> exists d, b :: (d in days && b in d.breaks &&
      x == BreakRow(businessId, d.dayOfWeek, b.startMin, b.endMin))
  {
    if days == [] then []
    else
      var r := ToBreakRows(businessId, days[0].dayOfWeek, days[0].breaks) + BreakRowsOf(businessId, days[1..]);
      assert days == [days[0]] + days[1..];
      forall x | x in r ensures exists d, b :: (d in days && b in d.breaks &&
        x == BreakRow(businessId, d.dayOfWeek, b.startMin, b.endMin))
      {
        if x in ToBreakRows(businessId, days[0].dayOfWeek, days[0].breaks) {
          var i :| 0 <= i < |days[0].breaks| && ToBreakRows(businessId, days[0].dayOfWeek, days[0].breaks)[i] == x;
          assert days[0] in days && days[0].breaks[i] in days[0].breaks;
        }
      }
      forall x | exists d, b :: (d in days && b in d.breaks &&
        x == BreakRow(businessId, d.dayOfWeek, b.startMin, b.endMin))
        ensures x in r
      {
        var d, b :| d in days && b in d.breaks && x == BreakRow(businessId, d.dayOfWeek, b.startMin, b.endMin);
        if d == days[0] {
          var i :| 0 <= i < |d.breaks| && d.breaks[i] == b;
          assert ToBreakRows(businessId, days[0].dayOfWeek, days[0].breaks)[i] == x;
        } else {
          assert d in days[1..];
        }
      }
      r
  }

  /** The last normalised entry for a weekday: the one whose upsert wins. */
  function LastDay(days: seq<Day>, dayOfWeek: int): (r: Option<Day>)
    ensures r.Some? ==> r.value in days && r.value.dayOfWeek == dayOfWeek
    ensures r.None? <==> forall d :: d in days ==> d.dayOfWeek != dayOfWeek
  {
    if days == [] then None
    else if days[|days| - 1].dayOfWeek == dayOfWeek then Some(days[|days| - 1])
    else
      var r := LastDay(days[..|days| - 1], dayOfWeek);
      assert days == days[..|days| - 1] + [days[|days| - 1]];
      r
  }

  function RowOf(businessId: UserId, d: Option<Day>): Option<WorkingHourRow> {
    if d.Some? then Some(HourRow(businessId, d.value)) else None
  }

  predicate WellFormedHour(r: WorkingHourRow) {
    WellFormedInterval(r.startMin, r.endMin)
  }

  predicate WellFormedBreak(r: BreakRow) {
    WellFormedInterval(r.startMin, r.endMin)
  }

  // ---------------------------------------------------------------------
  // Reading the schedule back
  // ---------------------------------------------------------------------

  function DayKey(): WorkingHourRow -> int {
    (r: WorkingHourRow) => r.dayOfWeek
  }

  function BreakStartKey(): BreakRow -> int {
    (r: BreakRow) => r.startMin
  }

  /** The business's window rows `orderBy dayOfWeek asc`. */
  function SortedHours(rows: seq<WorkingHourRow>, businessId: UserId): (r: seq<WorkingHourRow>)
    ensures multiset(r) == multiset(HoursOf(rows, businessId))
    ensures forall i, j :: 0 <= i < j < |r| ==> r[i].dayOfWeek <= r[j].dayOfWeek
  {
    SortBy(HoursOf(rows, businessId), DayKey())
  }

  /** The business's break rows ordered by start minute; after grouping by
      weekday this is the `orderBy [dayOfWeek, startMin]` order. */
  function SortedBreaks(rows: seq<BreakRow>, businessId: UserId): (r: seq<BreakRow>)
    ensures multiset(r) == multiset(BreaksOf(rows, businessId))
    ensures forall i, j :: 0 <= i < j < |r| ==> r[i].startMin <= r[j].startMin
  {
    SortBy(BreaksOf(rows, businessId), BreakStartKey())
  }

  function ToInterval(r: BreakRow): Interval {
    Interval(r.startMin, r.endMin)
  }

  /** The breaks of one weekday, in row order. */
  function DayBreaks(rows: seq<BreakRow>, dayOfWeek: int): (r: seq<Interval>)
    ensures forall b :: b in r <==> exists x :: x in rows && x.dayOfWeek == dayOfWeek && b == ToInterval(x)
  {
    if rows == [] then []
    else
      var r := (if rows[0].dayOfWeek == dayOfWeek then [ToInterval(rows[0])] else []) + DayBreaks(rows[1..], dayOfWeek);
      assert rows == [rows[0]] + rows[1..];
      r
  }

  lemma {:induction false} DayBreaksAppend(rows: seq<BreakRow>, x: BreakRow, dayOfWeek: int)
    ensures DayBreaks(rows + [x], dayOfWeek)
         == DayBreaks(rows, dayOfWeek) + (if x.dayOfWeek == dayOfWeek then [ToInterval(x)] else [])
  {
    if rows == [] {
      assert [x][1..] == [];
    } else {
      var ys := rows + [x];
      var head := if rows[0].dayOfWeek == dayOfWeek then [ToInterval(rows[0])] else [];
      assert ys[0] == rows[0] && ys[1..] == rows[1..] + [x];
      DayBreaksAppend(rows[1..], x, dayOfWeek);
      assert DayBreaks(ys, dayOfWeek) == head + DayBreaks(rows[1..] + [x], dayOfWeek);
      assert DayBreaks(rows, dayOfWeek) == head + DayBreaks(rows[1..], dayOfWeek);
    }
  }

  lemma DayBreaksNone(rows: seq<BreakRow>, dayOfWeek: int)
    requires forall x :: x in rows ==> x.dayOfWeek != dayOfWeek
    ensures DayBreaks(rows, dayOfWeek) == []
  {
  }

  /** The days `getAvailabilityForBusiness` reports: one per stored window,
      ordered by weekday, each with that weekday's breaks ordered by start
      (`DaysOfOrdered` states both orders). */
  function DaysOf(hours: seq<WorkingHourRow>, breaks: seq<BreakRow>, businessId: UserId): (r: seq<Day>)
    ensures |r| == |HoursOf(hours, businessId)|
  {
    var rows := SortedHours(hours, businessId);
    var sortedBreaks := SortedBreaks(breaks, businessId);
    seq(|rows|, i requires 0 <= i < |rows| =>
      Day(rows[i].dayOfWeek, rows[i].startMin, rows[i].endMin, DayBreaks(sortedBreaks, rows[i].dayOfWeek)))
  }

  /** Every reported day is a stored window row of the business, carrying that weekday's breaks. */
  lemma DaysOfFromRow(hours: seq<WorkingHourRow>, breaks: seq<BreakRow>, businessId: UserId, d: Day)
    requires d in DaysOf(hours, breaks, businessId)
    ensures exists w :: (w in hours && w.businessId == businessId &&
      d == Day(w.dayOfWeek, w.startMin, w.endMin, DayBreaks(SortedBreaks(breaks, businessId), w.dayOfWeek)))
  {
    var rows := SortedHours(hours, businessId);
    var i :| 0 <= i < |rows| && DaysOf(hours, breaks, businessId)[i] == d;
    assert rows[i] in multiset(rows);
  }

  /** Every stored window row of the business is reported as a day. */
  lemma DaysOfHasRow(hours: seq<WorkingHourRow>, breaks: seq<BreakRow>, businessId: UserId, w: WorkingHourRow)
    requires w in hours && w.businessId == businessId
    ensures Day(w.dayOfWeek, w.startMin, w.endMin, DayBreaks(SortedBreaks(breaks, businessId), w.dayOfWeek))
      in DaysOf(hours, breaks, businessId)
  {
    var rows := SortedHours(hours, businessId);
    assert w in multiset(HoursOf(hours, businessId));
    assert w in rows;
    var i :| 0 <= i < |rows| && rows[i] == w;
    assert DaysOf(hours, breaks, businessId)[i] in DaysOf(hours, breaks, businessId);
  }

  /** The breaks reported for a weekday are exactly the stored breaks of the business on that weekday. */
  lemma DayBreaksOfStore(breaks: seq<BreakRow>, businessId: UserId, dayOfWeek: int)
    ensures forall iv :: iv in DayBreaks(SortedBreaks(breaks, businessId), dayOfWeek) <==>
      exists x :: x in breaks && x.businessId == businessId && x.dayOfWeek == dayOfWeek && iv == ToInterval(x)
  {
    var sorted := SortedBreaks(breaks, businessId);
    forall x ensures x in sorted <==> x in breaks && x.businessId == businessId {
      assert x in sorted <==> x in multiset(sorted);
    }
  }

  predicate StartsAscending(r: seq<Interval>) {
    forall i, j :: 0 <= i < j < |r| ==> r[i].startMin <= r[j].startMin
  }

  lemma AscendingCons(x: Interval, rest: seq<Interval>)
    requires StartsAscending(rest)
    requires forall b :: b in rest ==> x.startMin <= b.startMin
    ensures StartsAscending([x] + rest)
  {
    var r := [x] + rest;
    forall i, j | 0 <= i < j < |r| ensures r[i].startMin <= r[j].startMin {
      assert r[j] == rest[j - 1];
      if i > 0 {
        assert r[i] == rest[i - 1];
      }
    }
  }

  /** Break rows listed by ascending start minute give each weekday's breaks by ascending start. */
  lemma {:induction false} DayBreaksSorted(rows: seq<BreakRow>, dayOfWeek: int)
    requires forall i, j :: 0 <= i < j < |rows| ==> rows[i].startMin <= rows[j].startMin
    ensures StartsAscending(DayBreaks(rows, dayOfWeek))
  {
    if rows != [] {
      var rest := DayBreaks(rows[1..], dayOfWeek);
      DayBreaksSorted(rows[1..], dayOfWeek);
      if rows[0].dayOfWeek == dayOfWeek {
        forall b | b in rest ensures rows[0].startMin <= b.startMin {
          var x :| x in rows[1..] && x.dayOfWeek == dayOfWeek && b == ToInterval(x);
          var k :| 0 <= k < |rows[1..]| && rows[1..][k] == x;
          assert rows[k + 1] == x;
        }
        AscendingCons(ToInterval(rows[0]), rest);
        assert DayBreaks(rows, dayOfWeek) == [ToInterval(rows[0])] + rest;
      } else {
        assert DayBreaks(rows, dayOfWeek) == [] + rest;
      }
    }
  }

  lemma {:induction false} DayBreaksConcat(a: seq<BreakRow>, c: seq<BreakRow>, dayOfWeek: int)
    ensures DayBreaks(a + c, dayOfWeek) == DayBreaks(a, dayOfWeek) + DayBreaks(c, dayOfWeek)
  {
    if a != [] {
      var head := if a[0].dayOfWeek == dayOfWeek then [ToInterval(a[0])] else [];
      DayBreaksConcat(a[1..], c, dayOfWeek);
      assert (a + c)[0] == a[0] && (a + c)[1..] == a[1..] + c;
      assert DayBreaks(a + c, dayOfWeek) == head + DayBreaks(a[1..] + c, dayOfWeek);
      assert DayBreaks(a, dayOfWeek) == head + DayBreaks(a[1..], dayOfWeek);
    } else {
      assert a + c == c;
    }
  }

  /** Reordering the break rows reorders each weekday's breaks and changes no count. */
  lemma {:induction false} DayBreaksPermutation(a: seq<BreakRow>, c: seq<BreakRow>, dayOfWeek: int)
    requires multiset(a) == multiset(c)
    ensures multiset(DayBreaks(a, dayOfWeek)) == multiset(DayBreaks(c, dayOfWeek))
  {
    if a != [] {
      var x := a[0];
      assert x in multiset(c);
      var k :| 0 <= k < |c| && c[k] == x;
      var others := c[..k] + c[k + 1..];
      assert c == c[..k] + [x] + c[k + 1..];
      PermutationRest(a, c, k);
      DayBreaksPermutation(a[1..], others, dayOfWeek);
      DayBreaksConcat(c[..k] + [x], c[k + 1..], dayOfWeek);
      DayBreaksConcat(c[..k], [x], dayOfWeek);
      DayBreaksConcat(c[..k], c[k + 1..], dayOfWeek);
      DayBreaksConcat([x], a[1..], dayOfWeek);
    }
  }

  /** Each weekday's reported breaks are the business's stored break rows of that weekday,
      each one as many times as it is stored, listed by ascending start. */
  lemma DayBreaksOfStoreCounted(breaks: seq<BreakRow>, businessId: UserId, dayOfWeek: int)
    ensures multiset(DayBreaks(SortedBreaks(breaks, businessId), dayOfWeek))
         == multiset(DayBreaks(BreaksOf(breaks, businessId), dayOfWeek))
    ensures StartsAscending(DayBreaks(SortedBreaks(breaks, businessId), dayOfWeek))
  {
    DayBreaksPermutation(SortedBreaks(breaks, businessId), BreaksOf(breaks, businessId), dayOfWeek);
    DayBreaksSorted(SortedBreaks(breaks, businessId), dayOfWeek);
  }

  /** The reported days are ordered by weekday, and each day's breaks by start. */
  lemma DaysOfOrdered(hours: seq<WorkingHourRow>, breaks: seq<BreakRow>, businessId: UserId)
    ensures var r := DaysOf(hours, breaks, businessId);
      && (forall i, j :: 0 <= i < j < |r| ==> r[i].dayOfWeek <= r[j].dayOfWeek)
      && forall d :: d in r ==> StartsAscending(d.breaks)
  {
    var r := DaysOf(hours, breaks, businessId);
    forall d | d in r ensures StartsAscending(d.breaks) {
      DayBreaksSorted(SortedBreaks(breaks, businessId), d.dayOfWeek);
    }
  }

  function WeekdaysIn(rows: seq<BreakRow>): set<int> {
    set x | x in rows :: x.dayOfWeek
  }

  /** `byDay` maps each weekday that has break rows to those breaks, in row order. */
  predicate GroupedBy(byDay: map<int, seq<Interval>>, rows: seq<BreakRow>) {
    && byDay.Keys == WeekdaysIn(rows)
    && forall d :: d in byDay ==> byDay[d] == DayBreaks(rows, d)
  }

  /** The map the grouping loop builds: each row appended to its weekday's list, in row order. */
  function GroupMap(rows: seq<BreakRow>): map<int, seq<Interval>> {
    if rows == [] then map[]
    else
      var byDay, b := GroupMap(rows[..|rows| - 1]), rows[|rows| - 1];
      byDay[b.dayOfWeek := (if b.dayOfWeek in byDay then byDay[b.dayOfWeek] else []) + [ToInterval(b)]]
  }

  /** The grouping loop's map holds, for each weekday with break rows, exactly that weekday's breaks. */
  lemma {:induction false} GroupMapGrouped(rows: seq<BreakRow>)
    ensures GroupedBy(GroupMap(rows), rows)
  {
    if rows != [] {
      var done, b := rows[..|rows| - 1], rows[|rows| - 1];
      GroupMapGrouped(done);
      var byDay := GroupMap(done);
      GroupStep(done, b, byDay, if b.dayOfWeek in byDay then byDay[b.dayOfWeek] else []);
      assert done + [b] == rows;
    }
  }

  /** Groups break rows by weekday into a map, as the source's loop does. */
  method GroupBreaks(rows: seq<BreakRow>) returns (byDay: map<int, seq<Interval>>)
    ensures byDay == GroupMap(rows)
    ensures GroupedBy(byDay, rows)
  {
    byDay := map[];
    var i := 0;
    while i < |rows|
      invariant 0 <= i <= |rows|
      invariant byDay == GroupMap(rows[..i])
    {
      var b := rows[i];
      var list := if b.dayOfWeek in byDay then byDay[b.dayOfWeek] else [];
      assert rows[..i + 1][..i] == rows[..i];
      byDay := byDay[b.dayOfWeek := list + [ToInterval(b)]];
      i := i + 1;
    }
    assert rows[..i] == rows;
    GroupMapGrouped(rows);
  }

  lemma GroupStep(done: seq<BreakRow>, b: BreakRow, byDay: map<int, seq<Interval>>, list: seq<Interval>)
    requires GroupedBy(byDay, done)
    requires list == if b.dayOfWeek in byDay then byDay[b.dayOfWeek] else []
    ensures GroupedBy(byDay[b.dayOfWeek := list + [ToInterval(b)]], done + [b])
  {
    var m := byDay[b.dayOfWeek := list + [ToInterval(b)]];
    forall x | x in done + [b] ensures x in done || x == b { }
    assert WeekdaysIn(done + [b]) == WeekdaysIn(done) + {b.dayOfWeek};
    forall d | d in m ensures m[d] == DayBreaks(done + [b], d) {
      DayBreaksAppend(done, b, d);
      if d == b.dayOfWeek && b.dayOfWeek !in byDay {
        DayBreaksNone(done, d);
      }
    }
  }

  /** `getAvailabilityForBusiness`: the stored rows grouped back into days. */
  method GetAvailabilityForBusiness(hours: seq<WorkingHourRow>, breaks: seq<BreakRow>, businessId: UserId)
    returns (state: AvailabilityState)
    ensures state == AvailabilityState(DefaultSlotStepMin, DaysOf(hours, breaks, businessId))
  {
    var rows := SortedHours(hours, businessId);
    var sortedBreaks := SortedBreaks(breaks, businessId);
    var breaksByDay := GroupBreaks(sortedBreaks);
    var days := seq(|rows|, i requires 0 <= i < |rows| =>
      Day(rows[i].dayOfWeek, rows[i].startMin, rows[i].endMin,
          if rows[i].dayOfWeek in breaksByDay then breaksByDay[rows[i].dayOfWeek] else []));
    GroupedDays(hours, breaks, businessId, breaksByDay, days);
    state := AvailabilityState(DefaultSlotStepMin, days);
  }

  /** The days built from the window rows sorted by weekday and the grouped breaks are the reported days. */
  lemma GroupedDays(hours: seq<WorkingHourRow>, breaks: seq<BreakRow>, businessId: UserId,
                    breaksByDay: map<int, seq<Interval>>, days: seq<Day>)
    requires GroupedBy(breaksByDay, SortedBreaks(breaks, businessId))
    requires |days| == |SortedHours(hours, businessId)|
    requires forall i :: 0 <= i < |days| ==> var row := SortedHours(hours, businessId)[i];
      days[i] == Day(row.dayOfWeek, row.startMin, row.endMin,
                     if row.dayOfWeek in breaksByDay then breaksByDay[row.dayOfWeek] else [])
    ensures days == DaysOf(hours, breaks, businessId)
  {
    var rows := SortedHours(hours, businessId);
    var sortedBreaks := SortedBreaks(breaks, businessId);
    forall d | d !in breaksByDay ensures DayBreaks(sortedBreaks, d) == [] {
      DayBreaksNone(sortedBreaks, d);
    }
    var expected := DaysOf(hours, breaks, businessId);
    forall i | 0 <= i < |days| ensures days[i] == expected[i] {
      var dow := rows[i].dayOfWeek;
      assert days[i].breaks == DayBreaks(sortedBreaks, dow);
    }
  }

  /** A business whose every weekday has no window has no window rows at all. */
  lemma NoWindowsNoRows(rows: seq<WorkingHourRow>, businessId: UserId)
    requires forall dow :: WindowFor(rows, businessId, dow).None?
    ensures HoursOf(rows, businessId) == []
  {
    forall i | 0 <= i < |rows| ensures !OfBusiness(businessId)(rows[i]) {
      assert !SameKey(rows[i], businessId, rows[i].dayOfWeek) by {
        assert WindowFor(rows, businessId, rows[i].dayOfWeek).None?;
      }
    }
    FilterNone(rows, OfBusiness(businessId));
  }

  /** The weekly-schedule tables. */
  class AvailabilityStore {
    var workingHours: seq<WorkingHourRow>
    var breaks: seq<BreakRow>

    ghost predicate Valid()
      reads this
    {
      && UniqueKeys(workingHours)
      && (forall i :: 0 <= i < |workingHours| ==> WellFormedHour(workingHours[i]))
      && (forall i :: 0 <= i < |breaks| ==> WellFormedBreak(breaks[i]))
    }

    constructor ()
      ensures Valid() && workingHours == [] && breaks == []
    {
      workingHours := [];
      breaks := [];
    }

    /** `setAvailabilityForBusiness`: normalise the weekly form, then replace
        the business's window rows and break rows with it. */
    method SetAvailabilityForBusiness(businessId: UserId, input: WeeklyAvailability)
      returns (r: Result<AvailabilityState, ScheduleError>)
      requires Valid()
      modifies this
      ensures Valid()
      ensures r.Success? <==> NormalizeWeek(input.days).Success?
      ensures r.Failure? ==> NormalizeWeek(input.days) == Failure(r.error)
      ensures r.Failure? ==> workingHours == old(workingHours) && breaks == old(breaks)
      ensures r.Success? ==> forall dow :: (WindowFor(workingHours, businessId, dow)
        == RowOf(businessId, LastDay(NormalizeWeek(input.days).value, dow)))
      ensures r.Success? ==> BreaksOf(breaks, businessId) == BreakRowsOf(businessId, NormalizeWeek(input.days).value)
      ensures forall b :: b != businessId ==> HoursOf(workingHours, b) == HoursOf(old(workingHours), b)
      ensures forall b :: b != businessId ==> BreaksOf(breaks, b) == BreaksOf(old(breaks), b)
      ensures r.Success? ==> r.value == AvailabilityState(
        Clamp(input.slotStepMin.GetOr(DefaultSlotStepMin), MinSlotStepMin, MaxSlotStepMin),
        DaysOf(workingHours, breaks, businessId))
    {
      var normalized := NormalizeWeek(input.days);
      if normalized.Failure? {
        return Failure(normalized.error);
      }
      var slotStepMin := Clamp(input.slotStepMin.GetOr(DefaultSlotStepMin), MinSlotStepMin, MaxSlotStepMin);
      WriteSchedule(businessId, normalized.value);
      var state := GetAvailabilityForBusiness(workingHours, breaks, businessId);
      r := Success(AvailabilityState(slotStepMin, state.days));
    }

    /** The transaction of `setAvailabilityForBusiness`: delete the windows of
        weekdays no longer enabled, upsert one window per enabled day, and
        replace all of the business's breaks. */
    method WriteSchedule(businessId: UserId, days: seq<Day>)
      requires Valid()
      requires forall d :: d in days ==> WellFormedDay(d)
      modifies this
      ensures Valid()
      ensures forall dow :: WindowFor(workingHours, businessId, dow) == RowOf(businessId, LastDay(days, dow))
      ensures BreaksOf(breaks, businessId) == BreakRowsOf(businessId, days)
      ensures forall b :: b != businessId ==> HoursOf(workingHours, b) == HoursOf(old(workingHours), b)
      ensures forall b :: b != businessId ==> BreaksOf(breaks, b) == BreaksOf(old(breaks), b)
    {
      workingHours := UpsertDays(workingHours, businessId, days);
      // Replace the business's breaks.
      ReplaceBreaksWellFormed(breaks, businessId, days);
      breaks := ReplaceBreaks(breaks, businessId, days);
    }
  }

  /** The window half of the transaction of `setAvailabilityForBusiness`:
      delete the windows of weekdays no longer enabled, then upsert one window
      per enabled day. Each weekday's window is then the last given day of
      that weekday, or none; other businesses' rows are untouched. */
  method UpsertDays(current: seq<WorkingHourRow>, businessId: UserId, days: seq<Day>)
    returns (hours: seq<WorkingHourRow>)
    requires UniqueKeys(current) && forall k :: 0 <= k < |current| ==> WellFormedHour(current[k])
    requires forall d :: d in days ==> WellFormedDay(d)
    ensures UniqueKeys(hours) && forall k :: 0 <= k < |hours| ==> WellFormedHour(hours[k])
    ensures forall dow :: WindowFor(hours, businessId, dow) == RowOf(businessId, LastDay(days, dow))
    ensures forall b :: b != businessId ==> HoursOf(hours, b) == HoursOf(current, b)
  {
    // Remove the windows of weekdays that are not enabled.
    var enabledDow := Weekdays(days);
    hours := DeleteDisabled(current, businessId, enabledDow);
    UpsertProgressStart(current, businessId, days, enabledDow);
    ghost var afterDelete := hours;

    // Upsert the enabled days.
    var i := 0;
    while i < |days|
      invariant 0 <= i <= |days|
      invariant UpsertProgress(hours, current, afterDelete, businessId, days, i)
    {
      assert days[i] in days;
      UpsertProgressStep(hours, current, afterDelete, businessId, days, i);
      hours := Upsert(hours, HourRow(businessId, days[i]));
      i := i + 1;
    }
    UpsertProgressDone(hours, current, afterDelete, businessId, days, enabledDow);
  }

  /** The weekdays of the normalised days, in order. */
  function Weekdays(days: seq<Day>): (r: seq<int>)
    ensures |r| == |days| && forall k :: 0 <= k < |days| ==> r[k] == days[k].dayOfWeek
  {
    if days == [] then [] else [days[0].dayOfWeek] + Weekdays(days[1..])
  }

  /** The loop invariant of `SetAvailabilityForBusiness` after upserting the first `i` days. */
  ghost predicate UpsertProgress(hours: seq<WorkingHourRow>, before: seq<WorkingHourRow>, afterDelete: seq<WorkingHourRow>,
                                 businessId: UserId, days: seq<Day>, i: int)
    requires 0 <= i <= |days|
  {
    && UniqueKeys(hours)
    && (forall k :: 0 <= k < |hours| ==> WellFormedHour(hours[k]))
    && (forall b :: b != businessId ==> HoursOf(hours, b) == HoursOf(before, b))
    && (forall dow :: (WindowFor(hours, businessId, dow) ==
          if LastDay(days[..i], dow).Some? then RowOf(businessId, LastDay(days[..i], dow))
          else WindowFor(afterDelete, businessId, dow)))
  }

  lemma UpsertProgressStart(before: seq<WorkingHourRow>, businessId: UserId, days: seq<Day>, enabledDow: seq<int>)
    requires UniqueKeys(before) && forall k :: 0 <= k < |before| ==> WellFormedHour(before[k])
    ensures UpsertProgress(DeleteDisabled(before, businessId, enabledDow), before,
                           DeleteDisabled(before, businessId, enabledDow), businessId, days, 0)
  {
    var hours := DeleteDisabled(before, businessId, enabledDow);
    forall b | b != businessId ensures HoursOf(hours, b) == HoursOf(before, b) {
      DeleteOthers(before, businessId, enabledDow, b);
    }
    forall k | 0 <= k < |hours| ensures WellFormedHour(hours[k]) {
      assert hours[k] in before;
    }
  }

  lemma UpsertProgressStep(hours: seq<WorkingHourRow>, before: seq<WorkingHourRow>, afterDelete: seq<WorkingHourRow>,
                           businessId: UserId, days: seq<Day>, i: int)
    requires 0 <= i < |days| && WellFormedDay(days[i])
    requires UpsertProgress(hours, before, afterDelete, businessId, days, i)
    ensures UniqueKeys(hours)
    ensures UpsertProgress(Upsert(hours, HourRow(businessId, days[i])), before, afterDelete, businessId, days, i + 1)
  {
    var row := HourRow(businessId, days[i]);
    var r := Upsert(hours, row);
    UpsertWindows(hours, row, businessId, days[i].dayOfWeek);
    LastDayStep(days, i);
    forall b | b != businessId ensures HoursOf(r, b) == HoursOf(hours, b) {
      UpsertOthers(hours, row, b);
    }
    forall k | 0 <= k < |r| ensures WellFormedHour(r[k]) {
      assert r[k] in r;
    }
  }

  lemma UpsertProgressDone(hours: seq<WorkingHourRow>, before: seq<WorkingHourRow>, afterDelete: seq<WorkingHourRow>,
                           businessId: UserId, days: seq<Day>, enabledDow: seq<int>)
    requires UniqueKeys(before) && afterDelete == DeleteDisabled(before, businessId, enabledDow)
    requires |enabledDow| == |days| && forall k :: 0 <= k < |days| ==> enabledDow[k] == days[k].dayOfWeek
    requires UpsertProgress(hours, before, afterDelete, businessId, days, |days|)
    ensures UniqueKeys(hours)
    ensures forall k :: 0 <= k < |hours| ==> WellFormedHour(hours[k])
    ensures forall b :: b != businessId ==> HoursOf(hours, b) == HoursOf(before, b)
    ensures forall dow :: WindowFor(hours, businessId, dow) == RowOf(businessId, LastDay(days, dow))
  {
    assert days[..|days|] == days;
    DisabledHaveNoWindow(afterDelete, before, businessId, days, enabledDow);
  }

  /** An upsert sets the window of its own key and leaves every other key's alone. */
  lemma UpsertWindows(rows: seq<WorkingHourRow>, row: WorkingHourRow, businessId: UserId, dayOfWeek: int)
    requires UniqueKeys(rows) && row.businessId == businessId && row.dayOfWeek == dayOfWeek
    ensures forall dow :: (WindowFor(Upsert(rows, row), businessId, dow) ==
      if dow == dayOfWeek then Some(row) else WindowFor(rows, businessId, dow))
  {
    var r := Upsert(rows, row);
    forall dow ensures WindowFor(r, businessId, dow) ==
      if dow == dayOfWeek then Some(row) else WindowFor(rows, businessId, dow)
    {
      if dow == dayOfWeek {
        WindowForUnique(r, row);
      } else {
        WindowForByMembership(r, rows, businessId, dow);
      }
    }
  }

  /** Extending the list of days by one replaces the answer for that day's weekday only. */
  lemma LastDayStep(days: seq<Day>, i: int)
    requires 0 <= i < |days|
    ensures forall dow :: (LastDay(days[..i + 1], dow) ==
      if dow == days[i].dayOfWeek then Some(days[i]) else LastDay(days[..i], dow))
  {
    var p := days[..i + 1];
    assert p[|p| - 1] == days[i];
    assert p[..|p| - 1] == days[..i];
    forall dow ensures LastDay(p, dow) == if dow == days[i].dayOfWeek then Some(days[i]) else LastDay(days[..i], dow) {
      assert LastDay(p, dow) == if p[|p| - 1].dayOfWeek == dow then Some(p[|p| - 1]) else LastDay(p[..|p| - 1], dow);
    }
  }

  /** After deleting the disabled weekdays, a weekday no normalised day has keeps no window. */
  lemma DisabledHaveNoWindow(rows: seq<WorkingHourRow>, before: seq<WorkingHourRow>, businessId: UserId,
                             days: seq<Day>, enabledDow: seq<int>)
    requires UniqueKeys(before) && rows == DeleteDisabled(before, businessId, enabledDow)
    requires |enabledDow| == |days| && forall k :: 0 <= k < |days| ==> enabledDow[k] == days[k].dayOfWeek
    ensures forall dow :: LastDay(days, dow).None? ==> WindowFor(rows, businessId, dow).None?
  {
    forall dow | LastDay(days, dow).None? ensures WindowFor(rows, businessId, dow).None? {
      forall k | 0 <= k < |enabledDow| ensures enabledDow[k] != dow {
        assert days[k] in days;
      }
      forall i | 0 <= i < |rows| ensures !SameKey(rows[i], businessId, dow) {
        assert rows[i] in rows;
      }
    }
  }

  /** The break rows after `setAvailabilityForBusiness`: every row of other
      businesses, then the rows built from the normalised days. */
  function ReplaceBreaks(rows: seq<BreakRow>, businessId: UserId, days: seq<Day>): (r: seq<BreakRow>)
    ensures BreaksOf(r, businessId) == BreakRowsOf(businessId, days)
    ensures forall b :: b != businessId ==> BreaksOf(r, b) == BreaksOf(rows, b)
    ensures forall x :: x in r <==> (x in rows && x.businessId != businessId) || x in BreakRowsOf(businessId, days)
  {
    var kept := Filter(rows, BreakNotOfBusiness(businessId));
    var added := BreakRowsOf(businessId, days);
    FilterConcat(kept, added, BreakOfBusiness(businessId));
    FilterNone(kept, BreakOfBusiness(businessId));
    FreshRowsOfBusiness(businessId, days);
    FilterAll(added, BreakOfBusiness(businessId));
    forall b | b != businessId ensures BreaksOf(kept + added, b) == BreaksOf(rows, b) {
      FilterConcat(kept, added, BreakOfBusiness(b));
      FilterImplied(rows, BreakNotOfBusiness(businessId), BreakOfBusiness(b));
      FilterNone(added, BreakOfBusiness(b));
    }
    kept + added
  }

  lemma FreshRowsOfBusiness(businessId: UserId, days: seq<Day>)
    ensures forall k :: 0 <= k < |BreakRowsOf(businessId, days)| ==> BreakRowsOf(businessId, days)[k].businessId == businessId
  {
    var added := BreakRowsOf(businessId, days);
    forall k | 0 <= k < |added| ensures added[k].businessId == businessId {
      assert added[k] in added;
    }
  }

  /** Replacing the breaks with those of well-formed days keeps every break well-formed. */
  lemma ReplaceBreaksWellFormed(rows: seq<BreakRow>, businessId: UserId, days: seq<Day>)
    requires forall i :: 0 <= i < |rows| ==> WellFormedBreak(rows[i])
    requires forall d :: d in days ==> WellFormedDay(d)
    ensures forall i :: 0 <= i < |ReplaceBreaks(rows, businessId, days)| ==> WellFormedBreak(ReplaceBreaks(rows, businessId, days)[i])
  {
    var r := ReplaceBreaks(rows, businessId, days);
    forall i | 0 <= i < |r| ensures WellFormedBreak(r[i]) {
      if r[i] !in rows {
        var d, b :| d in days && b in d.breaks && r[i] == BreakRow(businessId, d.dayOfWeek, b.startMin, b.endMin);
        assert WellFormedDay(d);
      }
    }
  }
}
