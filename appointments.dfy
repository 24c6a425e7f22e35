/** The booking engine: listing appointments, and creating, rescheduling and
    cancelling them against the appointment table. Each state-changing
    operation is a method of `AppointmentStore` proved against an outcome
    function; the properties the service promises are lemmas about those
    functions and about the table invariant the methods keep. */
module Appointments {
  import opened Wrappers
  import opened Model
  import opened TimeMath
  import opened Seqs
  import opened Overlap
  import opened Schedule
  import opened Availability

  const MinDurationMin: int := 15
  const MaxDurationMin: int := 240

  /** The `durationMin` the caller passed: an integer, or any other number
      (fractional, NaN or infinite). */
  datatype DurationInput = Integer(n: int) | NotInteger

  datatype ErrorCode = VALIDATION_ERROR | CONFLICT | NOT_FOUND | FORBIDDEN

  /** The `ApiError`s the service throws, one per message. */
  datatype ApiError =
    | InvalidStart | StartInPast
    | DurationNotInteger | DurationTooShort | DurationTooLong
    | OutsideAvailability | AlreadyBooked | NotReschedulable
    | NotFound | Forbidden
  {
    function Status(): int {
      match this
      case NotFound => 404
      case Forbidden => 403
      case OutsideAvailability | AlreadyBooked | NotReschedulable => 409
      case _ => 400
    }

    function Code(): (c: ErrorCode)
      ensures c == VALIDATION_ERROR <==> Status() == 400
      ensures c == CONFLICT <==> Status() == 409
      ensures c == NOT_FOUND <==> Status() == 404
      ensures c == FORBIDDEN <==> Status() == 403
    {
      match this
      case NotFound => NOT_FOUND
      case Forbidden => FORBIDDEN
      case OutsideAvailability | AlreadyBooked | NotReschedulable => CONFLICT
      case _ => VALIDATION_ERROR
    }
  }

  /** A validated request: start instant and duration in minutes. */
  datatype Booking = Booking(startAt: int, durationMin: int)

  // ---------------------------------------------------------------------
  // Listing
  // ---------------------------------------------------------------------

  function StartKey(): Appointment -> int {
    (a: Appointment) => a.startAt
  }

  /** `listAppointmentsForUser`'s filter: a client sees the rows it booked,
      any other role the rows of the business with its id. */
  function VisibleTo(user: User): Appointment -> bool {
    (a: Appointment) => if user.role == CLIENT then a.clientId == user.id else a.businessId == user.id
  }

  function ListAppointmentsForUser(rows: seq<Appointment>, user: User): (r: seq<Appointment>)
    ensures SortedBy(r, StartKey())
    ensures forall a :: multiset(r)[a] == (if VisibleTo(user)(a) then multiset(rows)[a] else 0)
    ensures user.role == CLIENT ==> forall a :: a in r <==> a in rows && a.clientId == user.id
    ensures user.role != CLIENT ==> forall a :: a in r <==> a in rows && a.businessId == user.id
  {
    var mine := Filter(rows, VisibleTo(user));
    FilterCounts(rows, VisibleTo(user));
    var r := SortBy(mine, StartKey());
    SameElements(r, mine);
    r
  }

  function Involves(userId: UserId): Appointment -> bool {
    (a: Appointment) => a.clientId == userId || a.businessId == userId
  }

  /** `listMyAppointments`: the rows where the user is the client or the business. */
  function ListMyAppointments(rows: seq<Appointment>, userId: UserId): (r: seq<Appointment>)
    ensures SortedBy(r, StartKey())
    ensures forall a :: multiset(r)[a] == (if Involves(userId)(a) then multiset(rows)[a] else 0)
    ensures forall a :: a in r <==> a in rows && (a.clientId == userId || a.businessId == userId)
  {
    var mine := Filter(rows, Involves(userId));
    FilterCounts(rows, Involves(userId));
    var r := SortBy(mine, StartKey());
    SameElements(r, mine);
    r
  }

  // ---------------------------------------------------------------------
  // Validation
  // ---------------------------------------------------------------------

  /** The three duration checks, in the order the service makes them. */
  function ValidateDuration(durationMin: DurationInput): (r: Result<int, ApiError>)
    ensures r.Success? <==> durationMin.Integer? && MinDurationMin <= durationMin.n <= MaxDurationMin
    ensures r.Success? ==> r.value == durationMin.n
    ensures r.Failure? ==> r.error.Status() == 400
  {
    match durationMin
    case NotInteger => Failure(DurationNotInteger)
    case Integer(n) =>
      if n < MinDurationMin then Failure(DurationTooShort)
      else if n > MaxDurationMin then Failure(DurationTooLong)
      else Success(n)
  }

  /** `createAppointment`'s checks: a valid start, not before `now`, then the duration. */
  function ValidateCreate(startAt: Option<int>, durationMin: DurationInput, now: int): (r: Result<Booking, ApiError>)
    ensures r.Success? <==> && startAt.Some? && now <= startAt.value
                            && durationMin.Integer? && MinDurationMin <= durationMin.n <= MaxDurationMin
    ensures r.Success? ==> r.value == Booking(startAt.value, durationMin.n)
    ensures r.Failure? ==> r.error.Status() == 400
    ensures startAt.None? ==> r == Failure(InvalidStart)
    ensures startAt.Some? && startAt.value < now ==> r == Failure(StartInPast)
  {
    if startAt.None? then Failure(InvalidStart)
    else if startAt.value < now then Failure(StartInPast)
    else
      var d :- ValidateDuration(durationMin);
      Success(Booking(startAt.value, d))
  }

  /** `rescheduleAppointment`'s checks: a valid start (which may lie in the
      past), then the duration. */
  function ValidateReschedule(startAt: Option<int>, durationMin: DurationInput): (r: Result<Booking, ApiError>)
    ensures r.Success? <==> && startAt.Some?
                            && durationMin.Integer? && MinDurationMin <= durationMin.n <= MaxDurationMin
    ensures r.Success? ==> r.value == Booking(startAt.value, durationMin.n)
    ensures r.Failure? ==> r.error.Status() == 400
  {
    if startAt.None? then Failure(InvalidStart)
    else
      var d :- ValidateDuration(durationMin);
      Success(Booking(startAt.value, d))
  }

  // ---------------------------------------------------------------------
  // Conflicts
  // ---------------------------------------------------------------------

  /** A row the conflict scan must respect: BOOKED, of the business, and not
      the appointment being moved. */
  predicate Blocks(a: Appointment, businessId: UserId, except: Option<nat>) {
    && a.businessId == businessId
    && a.status == BOOKED
    && (except.None? || a.id != except.value)
  }

  /** Some blocking row of the table overlaps the requested booking. */
  predicate Conflicts(rows: seq<Appointment>, businessId: UserId, b: Booking, except: Option<nat>) {
    exists i :: 0 <= i < |rows| && Blocks(rows[i], businessId, except)
      && IsOverlapping(rows[i].startAt, rows[i].durationMin, b.startAt, b.durationMin)
  }

  /** The database prefilter: blocking rows starting before the new end. */
  function StartsBefore(businessId: UserId, except: Option<nat>, end: int): Appointment -> bool {
    (a: Appointment) => Blocks(a, businessId, except) && a.startAt < end
  }

  /** What the conflict query returns, ordered by start. */
  function Candidates(rows: seq<Appointment>, businessId: UserId, b: Booking, except: Option<nat>): seq<Appointment> {
    SortBy(Filter(rows, StartsBefore(businessId, except, EndOf(b.startAt, b.durationMin))), StartKey())
  }

  predicate AnyOverlap(candidates: seq<Appointment>, b: Booking) {
    exists i :: 0 <= i < |candidates| && IsOverlapping(candidates[i].startAt, candidates[i].durationMin, b.startAt, b.durationMin)
  }

  /** The `for (const c of candidates)` scan. */
  method ScanConflicts(candidates: seq<Appointment>, b: Booking) returns (conflict: bool)
    ensures conflict == AnyOverlap(candidates, b)
  {
    var i := 0;
    while i < |candidates|
      invariant 0 <= i <= |candidates|
      invariant forall k :: 0 <= k < i ==>
        !IsOverlapping(candidates[k].startAt, candidates[k].durationMin, b.startAt, b.durationMin)
    {
      if IsOverlapping(candidates[i].startAt, candidates[i].durationMin, b.startAt, b.durationMin) {
        return true;
      }
      i := i + 1;
    }
    return false;
  }

  /** The `startAt < newEnd` prefilter hides no overlap: scanning the fetched
      candidates finds a conflict exactly when the whole table has one. */
  lemma PrefilterKeepsConflicts(rows: seq<Appointment>, businessId: UserId, b: Booking, except: Option<nat>)
    ensures AnyOverlap(Candidates(rows, businessId, b, except), b) <==> Conflicts(rows, businessId, b, except)
  {
    if AnyOverlap(Candidates(rows, businessId, b, except), b) {
      CandidateConflictIsReal(rows, businessId, b, except);
    }
    if Conflicts(rows, businessId, b, except) {
      ConflictIsFetched(rows, businessId, b, except);
    }
  }

  lemma CandidateConflictIsReal(rows: seq<Appointment>, businessId: UserId, b: Booking, except: Option<nat>)
    requires AnyOverlap(Candidates(rows, businessId, b, except), b)
    ensures Conflicts(rows, businessId, b, except)
  {
    var fetched := Filter(rows, StartsBefore(businessId, except, EndOf(b.startAt, b.durationMin)));
    var cands := Candidates(rows, businessId, b, except);
    var i :| 0 <= i < |cands| && IsOverlapping(cands[i].startAt, cands[i].durationMin, b.startAt, b.durationMin);
    assert cands[i] in multiset(fetched);
    var j :| 0 <= j < |rows| && rows[j] == cands[i];
    assert Blocks(rows[j], businessId, except);
  }

  lemma ConflictIsFetched(rows: seq<Appointment>, businessId: UserId, b: Booking, except: Option<nat>)
    requires Conflicts(rows, businessId, b, except)
    ensures AnyOverlap(Candidates(rows, businessId, b, except), b)
  {
    var fetched := Filter(rows, StartsBefore(businessId, except, EndOf(b.startAt, b.durationMin)));
    var cands := Candidates(rows, businessId, b, except);
    var j :| 0 <= j < |rows| && Blocks(rows[j], businessId, except)
      && IsOverlapping(rows[j].startAt, rows[j].durationMin, b.startAt, b.durationMin);
    assert rows[j] in fetched;
    SameElements(cands, fetched);
    var i :| 0 <= i < |cands| && cands[i] == rows[j];
  }

  // ---------------------------------------------------------------------
  // The table invariant
  // ---------------------------------------------------------------------

  /** No two BOOKED appointments of one business overlap. */
  predicate NoDoubleBooking(rows: seq<Appointment>) {
    forall i, j :: 0 <= i < j < |rows| && rows[i].status == BOOKED && rows[j].status == BOOKED
      && rows[i].businessId == rows[j].businessId
      ==> !IsOverlapping(rows[i].startAt, rows[i].durationMin, rows[j].startAt, rows[j].durationMin)
  }

  /** Ids are below the next one to hand out (hence distinct, given they are
      handed out in order), every duration passed validation, and no business
      is double-booked. */
  predicate TableValid(rows: seq<Appointment>, nextId: nat) {
    && (forall i :: 0 <= i < |rows| ==> rows[i].id < nextId)
    && (forall i, j :: 0 <= i < j < |rows| ==> rows[i].id != rows[j].id)
    && (forall i :: 0 <= i < |rows| ==> MinDurationMin <= rows[i].durationMin <= MaxDurationMin)
    && NoDoubleBooking(rows)
  }

  /** `findUnique({ where: { id } })`: the position of the row with that id. */
  function FindIndex(rows: seq<Appointment>, id: nat): (r: Option<nat>)
    ensures r.Some? ==> r.value < |rows| && rows[r.value].id == id
    ensures r.None? <==> forall i :: 0 <= i < |rows| ==> rows[i].id != id
  {
    if rows == [] then None
    else if rows[0].id == id then Some(0)
    else
      var rest := FindIndex(rows[1..], id);
      if rest.Some? then Some(rest.value + 1) else None
  }

  /** Appending a validated BOOKED row that conflicts with nothing keeps the invariant. */
  lemma AppendKeepsValid(rows: seq<Appointment>, nextId: nat, a: Appointment)
    requires TableValid(rows, nextId)
    requires a.id == nextId && MinDurationMin <= a.durationMin <= MaxDurationMin
    requires a.status == BOOKED ==> !Conflicts(rows, a.businessId, Booking(a.startAt, a.durationMin), None)
    ensures TableValid(rows + [a], nextId + 1)
  {
    var rs := rows + [a];
    forall i, j | 0 <= i < j < |rs| && rs[i].status == BOOKED && rs[j].status == BOOKED
      && rs[i].businessId == rs[j].businessId
      ensures !IsOverlapping(rs[i].startAt, rs[i].durationMin, rs[j].startAt, rs[j].durationMin)
    {
      if j == |rows| {
        assert Blocks(rows[i], a.businessId, None);
      }
    }
  }

  /** Moving a BOOKED row to a booking that conflicts with no other row
      keeps the invariant. */
  lemma MoveKeepsValid(rows: seq<Appointment>, nextId: nat, k: nat, b: Booking, now: int)
    requires TableValid(rows, nextId) && k < |rows|
    requires MinDurationMin <= b.durationMin <= MaxDurationMin
    requires !Conflicts(rows, rows[k].businessId, b, Some(rows[k].id))
    ensures TableValid(rows[k := rows[k].(startAt := b.startAt, durationMin := b.durationMin, updatedAt := now)], nextId)
  {
    var rs := rows[k := rows[k].(startAt := b.startAt, durationMin := b.durationMin, updatedAt := now)];
    forall i, j | 0 <= i < j < |rs| && rs[i].status == BOOKED && rs[j].status == BOOKED
      && rs[i].businessId == rs[j].businessId
      ensures !IsOverlapping(rs[i].startAt, rs[i].durationMin, rs[j].startAt, rs[j].durationMin)
    {
      if i == k {
        assert Blocks(rows[j], rows[k].businessId, Some(rows[k].id));
        OverlapSymmetric(rs[i].startAt, rs[i].durationMin, rs[j].startAt, rs[j].durationMin);
      } else if j == k {
        assert Blocks(rows[i], rows[k].businessId, Some(rows[k].id));
      }
    }
  }

  /** Cancelling a row keeps the invariant: it only removes a BOOKED row from the pairs. */
  lemma CancelKeepsValid(rows: seq<Appointment>, nextId: nat, k: nat, now: int)
    requires TableValid(rows, nextId) && k < |rows|
    ensures TableValid(rows[k := rows[k].(status := CANCELED, updatedAt := now)], nextId)
  {
    var rs := rows[k := rows[k].(status := CANCELED, updatedAt := now)];
    forall i, j | 0 <= i < j < |rs| && rs[i].status == BOOKED && rs[j].status == BOOKED
      && rs[i].businessId == rs[j].businessId
      ensures !IsOverlapping(rs[i].startAt, rs[i].durationMin, rs[j].startAt, rs[j].durationMin)
    {
      assert rs[i] == rows[i] && rs[j] == rows[j];
    }
  }

  // ---------------------------------------------------------------------
  // The outcomes of the three operations
  // ---------------------------------------------------------------------

  /** What `createAppointment` answers: the first failing check, or the row
      it inserts. */
  function CreateOutcome(rows: seq<Appointment>, nextId: nat, hours: seq<WorkingHourRow>, breaks: seq<BreakRow>,
                         clientId: UserId, businessId: UserId, startAt: Option<int>, durationMin: DurationInput,
                         tzOffsetMin: int, now: int): Result<Appointment, ApiError>
  {
    var b :- ValidateCreate(startAt, durationMin, now);
    if !WithinAvailability(DaysOf(hours, breaks, businessId), b.startAt, b.durationMin, Some(tzOffsetMin)) then
      Failure(OutsideAvailability)
    else if Conflicts(rows, businessId, b, None) then
      Failure(AlreadyBooked)
    else
      Success(Appointment(nextId, clientId, businessId, b.startAt, b.durationMin, BOOKED, now, now))
  }

  /** What `rescheduleAppointment` answers: the first failing check, or the
      moved row. */
  function RescheduleOutcome(rows: seq<Appointment>, hours: seq<WorkingHourRow>, breaks: seq<BreakRow>,
                             id: nat, user: User, startAt: Option<int>, durationMin: DurationInput,
                             tzOffsetMin: Option<int>, now: int): Result<Appointment, ApiError>
  {
    var k := FindIndex(rows, id);
    if k.None? then Failure(NotFound)
    else
      var a := rows[k.value];
      if user.role != CLIENT || a.clientId != user.id then Failure(Forbidden)
      else if a.status != BOOKED then Failure(NotReschedulable)
      else
        var b :- ValidateReschedule(startAt, durationMin);
        if !WithinAvailability(DaysOf(hours, breaks, a.businessId), b.startAt, b.durationMin, tzOffsetMin) then
          Failure(OutsideAvailability)
        else if Conflicts(rows, a.businessId, b, Some(a.id)) then
          Failure(AlreadyBooked)
        else
          Success(a.(startAt := b.startAt, durationMin := b.durationMin, updatedAt := now))
  }

  /** `cancelAppointment`'s permission rule for a BOOKED row. */
  predicate MayCancel(user: User, a: Appointment) {
    || (user.role == CLIENT && a.clientId == user.id)
    || (user.role == BUSINESS && a.businessId == user.id)
  }

  /** What `cancelAppointment` answers: not found, the idempotent update of a
      row that is no longer BOOKED, the permission check, or the cancelled row. */
  function CancelOutcome(rows: seq<Appointment>, id: nat, user: User, now: int): Result<Appointment, ApiError> {
    var k := FindIndex(rows, id);
    if k.None? then Failure(NotFound)
    else
      var a := rows[k.value];
      if a.status != BOOKED then Success(a.(status := CANCELED, updatedAt := now))
      else if !MayCancel(user, a) then Failure(Forbidden)
      else Success(a.(status := CANCELED, updatedAt := now))
  }

  // ---------------------------------------------------------------------
  // What the outcomes promise
  // ---------------------------------------------------------------------

  /** Some BOOKED appointment of the business overlaps the booking. */
  predicate OverlapsBooked(rows: seq<Appointment>, businessId: UserId, b: Booking) {
    exists a :: a in rows && a.businessId == businessId && a.status == BOOKED
      && IsOverlapping(a.startAt, a.durationMin, b.startAt, b.durationMin)
  }

  lemma ConflictsWithoutExclusion(rows: seq<Appointment>, businessId: UserId, b: Booking)
    ensures Conflicts(rows, businessId, b, None) <==> OverlapsBooked(rows, businessId, b)
  {
    if OverlapsBooked(rows, businessId, b) {
      var a :| a in rows && a.businessId == businessId && a.status == BOOKED
        && IsOverlapping(a.startAt, a.durationMin, b.startAt, b.durationMin);
      var i :| 0 <= i < |rows| && rows[i] == a;
      assert Blocks(rows[i], businessId, None);
    }
    if Conflicts(rows, businessId, b, None) {
      var i :| 0 <= i < |rows| && Blocks(rows[i], businessId, None)
        && IsOverlapping(rows[i].startAt, rows[i].durationMin, b.startAt, b.durationMin);
      assert rows[i] in rows;
    }
  }

  /** Create's failures in order: any validation failure is a 400 and wins;
      then a booking outside availability is a 409; then, for a valid
      booking within availability, a 409 "already booked" exactly when some
      BOOKED appointment of the business overlaps it, and success otherwise. */
  lemma CreateErrors(rows: seq<Appointment>, nextId: nat, hours: seq<WorkingHourRow>, breaks: seq<BreakRow>,
                     clientId: UserId, businessId: UserId, startAt: Option<int>, durationMin: DurationInput,
                     tzOffsetMin: int, now: int)
    ensures ValidateCreate(startAt, durationMin, now).Failure? ==>
      && CreateOutcome(rows, nextId, hours, breaks, clientId, businessId, startAt, durationMin, tzOffsetMin, now)
         == Failure(ValidateCreate(startAt, durationMin, now).error)
      && ValidateCreate(startAt, durationMin, now).error.Status() == 400
    ensures ValidateCreate(startAt, durationMin, now).Success? ==>
      var b := ValidateCreate(startAt, durationMin, now).value;
      var r := CreateOutcome(rows, nextId, hours, breaks, clientId, businessId, startAt, durationMin, tzOffsetMin, now);
      && (!WithinAvailability(DaysOf(hours, breaks, businessId), b.startAt, b.durationMin, Some(tzOffsetMin))
          ==> r == Failure(OutsideAvailability) && r.error.Status() == 409)
      && (WithinAvailability(DaysOf(hours, breaks, businessId), b.startAt, b.durationMin, Some(tzOffsetMin)) ==>
          && (r == Failure(AlreadyBooked) <==> OverlapsBooked(rows, businessId, b))
          && (r.Success? <==> !OverlapsBooked(rows, businessId, b)))
  {
    if ValidateCreate(startAt, durationMin, now).Success? {
      ConflictsWithoutExclusion(rows, businessId, ValidateCreate(startAt, durationMin, now).value);
    }
  }

  /** A successful create yields one BOOKED row with the caller's client,
      business, start and duration and the next id, which passed validation,
      lies within availability and overlaps no BOOKED appointment of the business. */
  lemma CreatedBooking(rows: seq<Appointment>, nextId: nat, hours: seq<WorkingHourRow>, breaks: seq<BreakRow>,
                       clientId: UserId, businessId: UserId, startAt: Option<int>, durationMin: DurationInput,
                       tzOffsetMin: int, now: int)
    requires CreateOutcome(rows, nextId, hours, breaks, clientId, businessId, startAt, durationMin, tzOffsetMin, now).Success?
    ensures var a := CreateOutcome(rows, nextId, hours, breaks, clientId, businessId, startAt, durationMin,
                                   tzOffsetMin, now).value;
      && a.id == nextId && a.clientId == clientId && a.businessId == businessId
      && startAt == Some(a.startAt) && durationMin == Integer(a.durationMin)
      && a.status == BOOKED && a.createdAt == now && a.updatedAt == now
      && now <= a.startAt && MinDurationMin <= a.durationMin <= MaxDurationMin
      && WithinAvailability(DaysOf(hours, breaks, businessId), a.startAt, a.durationMin, Some(tzOffsetMin))
      && forall x :: x in rows && x.businessId == businessId && x.status == BOOKED ==>
           !IsOverlapping(x.startAt, x.durationMin, a.startAt, a.durationMin)
  {
    ConflictsWithoutExclusion(rows, businessId, ValidateCreate(startAt, durationMin, now).value);
  }

  /** Reschedule's failures in order: a missing row is a 404; then an actor
      that is not the owning CLIENT is a 403; then a row that is not BOOKED is a 409. */
  lemma RescheduleErrors(rows: seq<Appointment>, hours: seq<WorkingHourRow>, breaks: seq<BreakRow>, id: nat,
                         user: User, startAt: Option<int>, durationMin: DurationInput, tzOffsetMin: Option<int>,
                         now: int)
    ensures (forall i :: 0 <= i < |rows| ==> rows[i].id != id) ==>
      RescheduleOutcome(rows, hours, breaks, id, user, startAt, durationMin, tzOffsetMin, now) == Failure(NotFound)
    ensures forall i :: 0 <= i < |rows| && rows[i].id == id && (forall j :: 0 <= j < i ==> rows[j].id != id) ==>
      var r := RescheduleOutcome(rows, hours, breaks, id, user, startAt, durationMin, tzOffsetMin, now);
      && (user.role != CLIENT || rows[i].clientId != user.id ==> r == Failure(Forbidden) && r.error.Status() == 403)
      && (user.role == CLIENT && rows[i].clientId == user.id && rows[i].status != BOOKED
          ==> r == Failure(NotReschedulable) && r.error.Status() == 409)
      && (user.role == CLIENT && rows[i].clientId == user.id && rows[i].status == BOOKED
          && ValidateReschedule(startAt, durationMin).Failure?
          ==> r == Failure(ValidateReschedule(startAt, durationMin).error))
  {
    forall i | 0 <= i < |rows| && rows[i].id == id && (forall j :: 0 <= j < i ==> rows[j].id != id)
      ensures var r := RescheduleOutcome(rows, hours, breaks, id, user, startAt, durationMin, tzOffsetMin, now);
      && (user.role != CLIENT || rows[i].clientId != user.id ==> r == Failure(Forbidden) && r.error.Status() == 403)
      && (user.role == CLIENT && rows[i].clientId == user.id && rows[i].status != BOOKED
          ==> r == Failure(NotReschedulable) && r.error.Status() == 409)
      && (user.role == CLIENT && rows[i].clientId == user.id && rows[i].status == BOOKED
          && ValidateReschedule(startAt, durationMin).Failure?
          ==> r == Failure(ValidateReschedule(startAt, durationMin).error))
    {
      FindFirst(rows, id, i);
    }
  }

  /** Reschedule's decisions once the row is found, owned by the calling
      client, BOOKED, and the input validates: outside the business's
      availability is a 409; within it, an overlapping BOOKED row of the same
      business other than this one is a 409; otherwise the row moves to the
      requested time. */
  lemma RescheduleChecks(rows: seq<Appointment>, hours: seq<WorkingHourRow>, breaks: seq<BreakRow>, id: nat,
                         user: User, startAt: Option<int>, durationMin: DurationInput, tzOffsetMin: Option<int>,
                         now: int, i: nat)
    requires i < |rows| && rows[i].id == id && forall j :: 0 <= j < i ==> rows[j].id != id
    requires user.role == CLIENT && rows[i].clientId == user.id && rows[i].status == BOOKED
    requires startAt.Some? && durationMin.Integer? && MinDurationMin <= durationMin.n <= MaxDurationMin
    ensures var r := RescheduleOutcome(rows, hours, breaks, id, user, startAt, durationMin, tzOffsetMin, now);
      && (r == Failure(OutsideAvailability)
          <==> !WithinAvailability(DaysOf(hours, breaks, rows[i].businessId), startAt.value, durationMin.n, tzOffsetMin))
      && (r.Failure? ==> r.error.Status() == 409)
    ensures WithinAvailability(DaysOf(hours, breaks, rows[i].businessId), startAt.value, durationMin.n, tzOffsetMin) ==>
      var r := RescheduleOutcome(rows, hours, breaks, id, user, startAt, durationMin, tzOffsetMin, now);
      && (r == Failure(AlreadyBooked)
          <==> exists j :: 0 <= j < |rows| && rows[j].id != id && rows[j].businessId == rows[i].businessId
                 && rows[j].status == BOOKED
                 && IsOverlapping(rows[j].startAt, rows[j].durationMin, startAt.value, durationMin.n))
      && (r.Success? <==> r != Failure(AlreadyBooked))
      && (r.Success? ==> r.value == rows[i].(startAt := startAt.value, durationMin := durationMin.n, updatedAt := now))
  {
    FindFirst(rows, id, i);
    var b := ValidateReschedule(startAt, durationMin).value;
    assert b == Booking(startAt.value, durationMin.n);
  }

  /** `findUnique` finds the first row with the id. */
  lemma {:induction false} FindFirst(rows: seq<Appointment>, id: nat, i: nat)
    requires i < |rows| && rows[i].id == id && forall j :: 0 <= j < i ==> rows[j].id != id
    ensures FindIndex(rows, id) == Some(i)
  {
    if i > 0 {
      FindFirst(rows[1..], id, i - 1);
    }
  }

  /** A successful reschedule moves a BOOKED row of the calling client to a
      validated booking within availability that overlaps no other BOOKED
      appointment of the business; only `startAt`, `durationMin` and
      `updatedAt` change and the row stays BOOKED. */
  lemma RescheduledBooking(rows: seq<Appointment>, hours: seq<WorkingHourRow>, breaks: seq<BreakRow>, id: nat,
                           user: User, startAt: Option<int>, durationMin: DurationInput, tzOffsetMin: Option<int>,
                           now: int)
    requires RescheduleOutcome(rows, hours, breaks, id, user, startAt, durationMin, tzOffsetMin, now).Success?
    ensures FindIndex(rows, id).Some?
    ensures var prev := rows[FindIndex(rows, id).value];
      var a := RescheduleOutcome(rows, hours, breaks, id, user, startAt, durationMin, tzOffsetMin, now).value;
      && user.role == CLIENT && prev.clientId == user.id && prev.status == BOOKED
      && a.id == id && a.clientId == prev.clientId && a.businessId == prev.businessId
      && a.status == BOOKED && a.createdAt == prev.createdAt && a.updatedAt == now
      && startAt == Some(a.startAt) && durationMin == Integer(a.durationMin)
      && MinDurationMin <= a.durationMin <= MaxDurationMin
      && WithinAvailability(DaysOf(hours, breaks, a.businessId), a.startAt, a.durationMin, tzOffsetMin)
      && forall x :: x in rows && x.id != id && x.businessId == a.businessId && x.status == BOOKED ==>
           !IsOverlapping(x.startAt, x.durationMin, a.startAt, a.durationMin)
  {
    var prev := rows[FindIndex(rows, id).value];
    var b := ValidateReschedule(startAt, durationMin).value;
    forall x | x in rows && x.id != id && x.businessId == prev.businessId && x.status == BOOKED
      ensures !IsOverlapping(x.startAt, x.durationMin, b.startAt, b.durationMin)
    {
      var i :| 0 <= i < |rows| && rows[i] == x;
      assert Blocks(rows[i], prev.businessId, Some(prev.id));
    }
  }

  /** Reschedule has no future-start check: whether it succeeds does not
      depend on the current time, which only lands in `updatedAt`. */
  lemma RescheduleIgnoresClock(rows: seq<Appointment>, hours: seq<WorkingHourRow>, breaks: seq<BreakRow>, id: nat,
                               user: User, startAt: Option<int>, durationMin: DurationInput,
                               tzOffsetMin: Option<int>, now1: int, now2: int)
    ensures var r1 := RescheduleOutcome(rows, hours, breaks, id, user, startAt, durationMin, tzOffsetMin, now1);
      var r2 := RescheduleOutcome(rows, hours, breaks, id, user, startAt, durationMin, tzOffsetMin, now2);
      && r1.Success? == r2.Success?
      && (r1.Failure? ==> r1 == r2)
      && (r1.Success? ==> r1.value.(updatedAt := now2) == r2.value)
  {
    var k := FindIndex(rows, id);
    if k.Some? {
      var a := rows[k.value];
      if user.role == CLIENT && a.clientId == user.id && a.status == BOOKED {
        var v := ValidateReschedule(startAt, durationMin);
        if v.Success? {
          var b := v.value;
          if WithinAvailability(DaysOf(hours, breaks, a.businessId), b.startAt, b.durationMin, tzOffsetMin)
             && !Conflicts(rows, a.businessId, b, Some(a.id)) {
            assert RescheduleOutcome(rows, hours, breaks, id, user, startAt, durationMin, tzOffsetMin, now1)
              == Success(a.(startAt := b.startAt, durationMin := b.durationMin, updatedAt := now1));
          }
        }
      }
    }
  }

  /** Cancel: a missing row is a 404; a row that is no longer BOOKED is set
      CANCELED again whoever asks; a BOOKED row is cancelled exactly when the
      caller is its CLIENT or its BUSINESS, and is a 403 otherwise. */
  lemma CancelRules(rows: seq<Appointment>, id: nat, user: User, now: int)
    ensures FindIndex(rows, id).None? ==> CancelOutcome(rows, id, user, now) == Failure(NotFound)
    ensures FindIndex(rows, id).Some? ==>
      var a := rows[FindIndex(rows, id).value];
      var r := CancelOutcome(rows, id, user, now);
      && (a.status != BOOKED ==> r == Success(a.(status := CANCELED, updatedAt := now)))
      && (a.status == BOOKED ==>
           && (r.Success? <==> (user.role == CLIENT && a.clientId == user.id)
                               || (user.role == BUSINESS && a.businessId == user.id))
           && (r.Failure? ==> r == Failure(Forbidden) && r.error.Status() == 403))
  {
  }

  /** An ADMIN can never cancel a BOOKED appointment. */
  lemma AdminCannotCancelBooked(rows: seq<Appointment>, id: nat, user: User, now: int)
    requires user.role == ADMIN
    requires FindIndex(rows, id).Some? && rows[FindIndex(rows, id).value].status == BOOKED
    ensures CancelOutcome(rows, id, user, now) == Failure(Forbidden)
  {
  }

  /** Status moves only from BOOKED to CANCELED: rows keep their ids, a
      CANCELED row stays CANCELED, and only rows appended at the end can be
      new BOOKED rows. */
  predicate StatusStep(before: seq<Appointment>, after: seq<Appointment>) {
    && |before| <= |after|
    && (forall i :: 0 <= i < |before| ==> after[i].id == before[i].id)
    && (forall i :: 0 <= i < |before| && before[i].status == CANCELED ==> after[i].status == CANCELED)
    && (forall i :: |before| <= i < |after| ==> after[i].status == BOOKED)
  }

  lemma CreateStatusStep(rows: seq<Appointment>, nextId: nat, hours: seq<WorkingHourRow>, breaks: seq<BreakRow>,
                         clientId: UserId, businessId: UserId, startAt: Option<int>, durationMin: DurationInput,
                         tzOffsetMin: int, now: int)
    requires CreateOutcome(rows, nextId, hours, breaks, clientId, businessId, startAt, durationMin, tzOffsetMin, now).Success?
    ensures StatusStep(rows, rows + [CreateOutcome(rows, nextId, hours, breaks, clientId, businessId, startAt,
                                                   durationMin, tzOffsetMin, now).value])
  {
  }

  lemma RescheduleStatusStep(rows: seq<Appointment>, hours: seq<WorkingHourRow>, breaks: seq<BreakRow>, id: nat,
                             user: User, startAt: Option<int>, durationMin: DurationInput, tzOffsetMin: Option<int>,
                             now: int)
    requires RescheduleOutcome(rows, hours, breaks, id, user, startAt, durationMin, tzOffsetMin, now).Success?
    ensures FindIndex(rows, id).Some?
    ensures StatusStep(rows, rows[FindIndex(rows, id).value :=
                         RescheduleOutcome(rows, hours, breaks, id, user, startAt, durationMin, tzOffsetMin, now).value])
  {
  }

  lemma CancelStatusStep(rows: seq<Appointment>, id: nat, user: User, now: int)
    requires CancelOutcome(rows, id, user, now).Success?
    ensures FindIndex(rows, id).Some?
    ensures StatusStep(rows, rows[FindIndex(rows, id).value := CancelOutcome(rows, id, user, now).value])
    ensures CancelOutcome(rows, id, user, now).value.status == CANCELED
  {
  }

  /** The outcome of create keeps the table invariant when its row is appended. */
  lemma CreateKeepsValid(rows: seq<Appointment>, nextId: nat, hours: seq<WorkingHourRow>, breaks: seq<BreakRow>,
                         clientId: UserId, businessId: UserId, startAt: Option<int>, durationMin: DurationInput,
                         tzOffsetMin: int, now: int)
    requires TableValid(rows, nextId)
    requires CreateOutcome(rows, nextId, hours, breaks, clientId, businessId, startAt, durationMin, tzOffsetMin, now).Success?
    ensures TableValid(rows + [CreateOutcome(rows, nextId, hours, breaks, clientId, businessId, startAt, durationMin,
                                             tzOffsetMin, now).value], nextId + 1)
  {
    var b := ValidateCreate(startAt, durationMin, now).value;
    AppendKeepsValid(rows, nextId, Appointment(nextId, clientId, businessId, b.startAt, b.durationMin, BOOKED, now, now));
  }

  /** The outcome of reschedule keeps the table invariant when its row replaces the old one. */
  lemma RescheduleKeepsValid(rows: seq<Appointment>, nextId: nat, hours: seq<WorkingHourRow>, breaks: seq<BreakRow>,
                             id: nat, user: User, startAt: Option<int>, durationMin: DurationInput,
                             tzOffsetMin: Option<int>, now: int)
    requires TableValid(rows, nextId)
    requires RescheduleOutcome(rows, hours, breaks, id, user, startAt, durationMin, tzOffsetMin, now).Success?
    ensures FindIndex(rows, id).Some?
    ensures TableValid(rows[FindIndex(rows, id).value :=
                         RescheduleOutcome(rows, hours, breaks, id, user, startAt, durationMin, tzOffsetMin, now).value],
                       nextId)
  {
    var b := ValidateReschedule(startAt, durationMin).value;
    MoveKeepsValid(rows, nextId, FindIndex(rows, id).value, b, now);
  }

  /** The outcome of cancel keeps the table invariant when its row replaces the old one. */
  lemma CancelOutcomeKeepsValid(rows: seq<Appointment>, nextId: nat, id: nat, user: User, now: int)
    requires TableValid(rows, nextId) && CancelOutcome(rows, id, user, now).Success?
    ensures FindIndex(rows, id).Some?
    ensures TableValid(rows[FindIndex(rows, id).value := CancelOutcome(rows, id, user, now).value], nextId)
  {
    CancelKeepsValid(rows, nextId, FindIndex(rows, id).value, now);
  }

  // ---------------------------------------------------------------------
  // The decisions, as the service computes them
  // ---------------------------------------------------------------------

  /** The checks of `createAppointment`, up to the row it would insert. */
  method DecideCreate(rows: seq<Appointment>, nextId: nat, hours: seq<WorkingHourRow>, breaks: seq<BreakRow>,
                      clientId: UserId, businessId: UserId, startAt: Option<int>, durationMin: DurationInput,
                      tzOffsetMin: int, now: int)
    returns (r: Result<Appointment, ApiError>)
    ensures r == CreateOutcome(rows, nextId, hours, breaks, clientId, businessId, startAt, durationMin, tzOffsetMin, now)
  {
    var v := ValidateCreate(startAt, durationMin, now);
    if v.Failure? {
      return Failure(v.error);
    }
    var b := v.value;
    var within := IsWithinAvailability(hours, breaks, businessId, b.startAt, b.durationMin, Some(tzOffsetMin));
    if !within {
      return Failure(OutsideAvailability);
    }
    var conflict := ScanConflicts(Candidates(rows, businessId, b, None), b);
    PrefilterKeepsConflicts(rows, businessId, b, None);
    if conflict {
      return Failure(AlreadyBooked);
    }
    r := Success(Appointment(nextId, clientId, businessId, b.startAt, b.durationMin, BOOKED, now, now));
  }

  /** The checks of `rescheduleAppointment`, up to the moved row. */
  method DecideReschedule(rows: seq<Appointment>, hours: seq<WorkingHourRow>, breaks: seq<BreakRow>, id: nat,
                          user: User, startAt: Option<int>, durationMin: DurationInput, tzOffsetMin: Option<int>,
                          now: int)
    returns (r: Result<Appointment, ApiError>)
    ensures r == RescheduleOutcome(rows, hours, breaks, id, user, startAt, durationMin, tzOffsetMin, now)
  {
    var k := FindIndex(rows, id);
    if k.None? {
      return Failure(NotFound);
    }
    var a := rows[k.value];
    if user.role != CLIENT || a.clientId != user.id {
      return Failure(Forbidden);
    }
    if a.status != BOOKED {
      return Failure(NotReschedulable);
    }
    var v := ValidateReschedule(startAt, durationMin);
    if v.Failure? {
      return Failure(v.error);
    }
    var b := v.value;
    var within := IsWithinAvailability(hours, breaks, a.businessId, b.startAt, b.durationMin, tzOffsetMin);
    if !within {
      return Failure(OutsideAvailability);
    }
    var conflict := ScanConflicts(Candidates(rows, a.businessId, b, Some(a.id)), b);
    PrefilterKeepsConflicts(rows, a.businessId, b, Some(a.id));
    if conflict {
      return Failure(AlreadyBooked);
    }
    r := Success(a.(startAt := b.startAt, durationMin := b.durationMin, updatedAt := now));
  }

  /** The checks of `cancelAppointment`, up to the cancelled row. */
  method DecideCancel(rows: seq<Appointment>, id: nat, user: User, now: int) returns (r: Result<Appointment, ApiError>)
    ensures r == CancelOutcome(rows, id, user, now)
  {
    var k := FindIndex(rows, id);
    if k.None? {
      return Failure(NotFound);
    }
    var a := rows[k.value];
    if a.status != BOOKED {
      // Idempotent: an appointment that is no longer BOOKED is set CANCELED again.
      return Success(a.(status := CANCELED, updatedAt := now));
    }
    var allowed := (user.role == CLIENT && a.clientId == user.id) || (user.role == BUSINESS && a.businessId == user.id);
    if !allowed {
      return Failure(Forbidden);
    }
    r := Success(a.(status := CANCELED, updatedAt := now));
  }

  // ---------------------------------------------------------------------
  // The appointment table
  // ---------------------------------------------------------------------

  class AppointmentStore {
    var rows: seq<Appointment>
    var nextId: nat

    ghost predicate Valid()
      reads this
    {
      TableValid(rows, nextId)
    }

    constructor ()
      ensures Valid() && rows == []
    {
      rows := [];
      nextId := 0;
    }

    /** `createAppointment`: validate, check availability, scan for a
        conflict, then insert one BOOKED row. */
    method CreateAppointment(hours: seq<WorkingHourRow>, breaks: seq<BreakRow>, clientId: UserId, businessId: UserId,
                             startAt: Option<int>, durationMin: DurationInput, tzOffsetMin: int, now: int)
      returns (r: Result<Appointment, ApiError>)
      requires Valid()
      modifies this
      ensures Valid()
      ensures r == CreateOutcome(old(rows), old(nextId), hours, breaks, clientId, businessId, startAt, durationMin,
                                 tzOffsetMin, now)
      ensures r.Success? ==> rows == old(rows) + [r.value] && nextId == old(nextId) + 1
      ensures r.Failure? ==> rows == old(rows) && nextId == old(nextId)
      ensures StatusStep(old(rows), rows)
    {
      r := DecideCreate(rows, nextId, hours, breaks, clientId, businessId, startAt, durationMin, tzOffsetMin, now);
      if r.Success? {
        CreateKeepsValid(rows, nextId, hours, breaks, clientId, businessId, startAt, durationMin, tzOffsetMin, now);
        CreateStatusStep(rows, nextId, hours, breaks, clientId, businessId, startAt, durationMin, tzOffsetMin, now);
        rows := rows + [r.value];
        nextId := nextId + 1;
      }
    }

    /** `rescheduleAppointment`: find the row, check the actor and status,
        validate, check availability, scan for a conflict with any other row,
        then move the row. */
    method RescheduleAppointment(hours: seq<WorkingHourRow>, breaks: seq<BreakRow>, id: nat, user: User,
                                 startAt: Option<int>, durationMin: DurationInput, tzOffsetMin: Option<int>, now: int)
      returns (r: Result<Appointment, ApiError>)
      requires Valid()
      modifies this
      ensures Valid() && nextId == old(nextId)
      ensures r == RescheduleOutcome(old(rows), hours, breaks, id, user, startAt, durationMin, tzOffsetMin, now)
      ensures r.Success? ==> FindIndex(old(rows), id).Some? && rows == old(rows)[FindIndex(old(rows), id).value := r.value]
      ensures r.Failure? ==> rows == old(rows)
      ensures StatusStep(old(rows), rows)
    {
      r := DecideReschedule(rows, hours, breaks, id, user, startAt, durationMin, tzOffsetMin, now);
      if r.Success? {
        RescheduleKeepsValid(rows, nextId, hours, breaks, id, user, startAt, durationMin, tzOffsetMin, now);
        RescheduleStatusStep(rows, hours, breaks, id, user, startAt, durationMin, tzOffsetMin, now);
        rows := rows[FindIndex(rows, id).value := r.value];
      }
    }

    /** `cancelAppointment`: find the row; one that is no longer BOOKED is
        set CANCELED again for anyone; a BOOKED one only for its client or
        its business. */
    method CancelAppointment(id: nat, user: User, now: int) returns (r: Result<Appointment, ApiError>)
      requires Valid()
      modifies this
      ensures Valid() && nextId == old(nextId)
      ensures r == CancelOutcome(old(rows), id, user, now)
      ensures r.Success? ==> FindIndex(old(rows), id).Some? && rows == old(rows)[FindIndex(old(rows), id).value := r.value]
      ensures r.Failure? ==> rows == old(rows)
      ensures StatusStep(old(rows), rows)
    {
      r := DecideCancel(rows, id, user, now);
      if r.Success? {
        CancelOutcomeKeepsValid(rows, nextId, id, user, now);
        CancelStatusStep(rows, id, user, now);
        rows := rows[FindIndex(rows, id).value := r.value];
      }
    }
  }
}
