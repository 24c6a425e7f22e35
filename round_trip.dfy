/** The slot listing and the booking path agree: a slot that `getFreeSlots`
    offers for a date can be booked by `createAppointment` for the slot's
    duration, as long as the booking arrives within the grace minute. */
module RoundTrip {
  import opened Wrappers
  import opened Model
  import opened Overlap
  import opened Schedule
  import opened Availability
  import opened Slots
  import opened SlotProperties
  import opened Appointments

  /** A slot offered on a date, with a duration create accepts and the same
      time-zone offset, passes every check of create: it is not in the past,
      it lies within availability and it overlaps no BOOKED appointment of
      the business, so create answers with the new BOOKED row. */
  lemma OfferedSlotIsBookable(rows: seq<Appointment>, nextId: nat, hours: seq<WorkingHourRow>,
                              breaks: seq<BreakRow>, clientId: UserId, businessId: UserId, epochDay: int,
                              durationMin: int, slotStepMin: Option<int>, tzOffsetMin: int,
                              listedAt: int, bookedAt: int, x: int)
    requires TableValid(rows, nextId)
    requires UniqueKeys(hours) && forall w :: w in hours ==> WellFormedHour(w)
    requires MinDurationMin <= durationMin <= MaxDurationMin
    requires x in FreeSlots(hours, breaks, rows, businessId, OnDate(Some(epochDay)), durationMin, slotStepMin,
                            Some(tzOffsetMin), listedAt)
    requires bookedAt <= listedAt + GraceMs
    ensures var r := CreateOutcome(rows, nextId, hours, breaks, clientId, businessId, Some(x), Integer(durationMin),
                                   tzOffsetMin, bookedAt);
      && r.Success?
      && r.value == Appointment(nextId, clientId, businessId, x, durationMin, BOOKED, bookedAt, bookedAt)
  {
    var range := OnDate(Some(epochDay));
    var _, _ := FreeSlotSound(hours, breaks, rows, businessId, range, durationMin, slotStepMin, Some(tzOffsetMin),
                              listedAt, x);
    DateSlotWithinAvailability(hours, breaks, rows, businessId, epochDay, durationMin, slotStepMin,
                               Some(tzOffsetMin), listedAt, x);
    var b := Booking(x, durationMin);
    assert ValidateCreate(Some(x), Integer(durationMin), bookedAt) == Success(b);
    forall a | a in rows && a.businessId == businessId && a.status == BOOKED
      ensures !IsOverlapping(a.startAt, a.durationMin, x, durationMin)
    {
      var i :| 0 <= i < |rows| && rows[i] == a;
      FreeSlotAvoidsBookings(hours, breaks, rows, businessId, range, durationMin, slotStepMin, Some(tzOffsetMin),
                             listedAt, x, a);
      OverlapSymmetric(x, durationMin, a.startAt, a.durationMin);
    }
    CreateErrors(rows, nextId, hours, breaks, clientId, businessId, Some(x), Integer(durationMin), tzOffsetMin,
                 bookedAt);
  }
}
