# Booking scheduling core in Dafny

This project models the scheduling core of a small appointment-booking
service and proves properties of the model. The core has four parts:

- **Interval overlap.** Two bookings, each a start instant plus a duration in
  minutes, conflict when their half-open spans meet (`Overlap`).
- **Weekly availability store.** A business has one working window per
  weekday, in local minutes of the day, plus breaks. The store parses and
  normalises the weekly form, replaces the business's rows and groups them
  back into days (`TimeMath`, `Schedule`). It also decides whether a booking
  fits the schedule at the client's time-zone offset (`Availability`).
- **Free-slot generator.** `getFreeSlots` walks the requested range day by
  day. On each day it steps candidate minutes through the weekday window. It
  keeps the candidates that lie in the range, miss every break and every
  fetched BOOKED appointment (those starting within a day of the range), and
  start more than a minute from now (`Slots`, `SlotProperties`).
- **Booking engine.** Create, reschedule and cancel run a fixed order of
  checks and then insert or update one row of the appointment table
  (`Appointments`). `RoundTrip` connects the slot listing to create.
- **Form helpers.** The weekly form shows minutes as `HH:MM`, lists weekdays
  Monday first and fills in defaults for an unstored weekday
  (`AvailabilityPage`).

Modelling choices:

- Instants are integer milliseconds since the epoch. Durations and time-zone
  offsets are integer minutes. The offset is `UTC - local`.
- An unparsable instant or date is `None`. A calendar date is its day number
  since the epoch.
- The clock is a `now` parameter.
- The database tables are sequences held by two classes. `AvailabilityStore`
  holds the window rows and break rows. `AppointmentStore` holds the
  appointment rows and the next id.
- Each service call runs as one sequential step.
- Queries take a snapshot of the rows, which is what `findMany` returns.
- `orderBy` is a stable insertion sort (`Seqs.SortBy`).

The loops of the source are methods with loop invariants. Each is proved
equal to a specification function: `GroupBreaks`, `WindowsByDay`,
`ScanBreaks`, `ScanBooked`, `WalkDay`, `WalkRange`, `ScanConflicts`,
`IsWithinDays`, `EnsureWithinAvailability` and `WriteSchedule`'s upsert loop.
The properties are lemmas about those functions.

Where the code and the system's written specification disagree, the model
follows the code:

- `createAppointment` does not check that the business id belongs to a
  BUSINESS user.
- `createAppointment` uses the offset the request supplies, not an offset
  stored for the business. The stored offset is never read on these paths.
- `getFreeSlots` does not cap the requested duration at 240 minutes. Only
  create and reschedule do.
- `cancelAppointment` on a row that is no longer BOOKED writes CANCELED again
  and stamps `updatedAt`. This branch runs before the permission check, for
  any actor. An ADMIN can never cancel a BOOKED appointment.
- `rescheduleAppointment` does not check that the new start is in the future.
- In from/to mode, `getFreeSlots` starts its day cursor at `from` rather than
  at local midnight. Window minutes are then counted from `from`. The model
  keeps this, and the availability guarantee for slots is proved for date
  mode only (`SlotProperties.DateSlotWithinAvailability`).

## Model

| member | source | states |
|---|---|---|
| Overlap.IsOverlapping | src/lib/services/overlap.ts:1-10 | definition of `isOverlapping`: A starts before B ends and A ends after B starts, ends being `start + duration*60000`; its meaning is proved in the lemmas below |
| Overlap.OverlapIsCommonInstant | src/lib/services/overlap.ts:1-10 | for positive durations, `isOverlapping` holds exactly when some instant lies in both spans `[start, start + duration*60000)` |
| Overlap.OverlapSymmetric | src/lib/services/overlap.ts:9 | swapping the two bookings never changes the answer |
| Overlap.TouchingDoNotOverlap | src/lib/services/overlap.ts:7-9 | a booking that ends exactly where the other starts does not conflict, in either order |
| Overlap.SameStartOverlaps | src/lib/services/overlap.ts:9 | two positive-length bookings with the same start always conflict |
| Overlap.AgreesWithMinuteOverlaps | src/lib/services/availability.service.ts:56-58 | on whole-minute instants the millisecond test equals the service's minute-based `overlaps(a, a+da, b, b+db)` |
| Overlap.PartialOverlapExample | src/lib/services/overlap.ts:7-9 | 10:00 for 60 min and 10:30 for 30 min conflict |
| Overlap.TouchingExample | src/lib/services/overlap.ts:7-9 | 10:00 for 60 min and 11:00 for 30 min do not conflict |
| TimeMath.ToLocal | src/lib/services/availability.service.ts:43-45 | definition of `toLocal`: the instant moved back by the offset in minutes, the offset being `UTC - local`; the readings built on it are bounded by `LocalDayOfWeek` and `LocalMinuteOfDay` below |
| TimeMath.Overlaps | src/lib/services/availability.service.ts:56-58 | definition of the service's minute-based `overlaps(aStart, aEnd, bStart, bEnd)`; `Overlap.AgreesWithMinuteOverlaps` ties it to `isOverlapping` |
| TimeMath.HhmmToMin | src/lib/services/availability.service.ts:28-35 | succeeds exactly on `HH:MM` from 00:00 to 23:59; the value lies in 0..1439 and its hour and minute are the two digit pairs; any other text is an error naming it |
| TimeMath.Clamp | src/lib/services/availability.service.ts:37-39 | the result lies in `[lo, hi]`; a value already in range is unchanged; values below or above go to `lo` or `hi` |
| TimeMath.LocalDayOfWeek | src/lib/services/availability.service.ts:47-49 | the weekday of `utc - offset` lies in 0..6 |
| TimeMath.LocalMinuteOfDay | src/lib/services/availability.service.ts:51-54 | the minute of the day of `utc - offset` lies in 0..1439 |
| TimeMath.MidnightPlusMinutes | src/lib/services/availability.service.ts:43-54 | `m` minutes after the start of epoch day `d` reads as weekday `(d + 4) % 7` and minute `m` |
| TimeMath.NextDay | src/lib/services/availability.service.ts:343 | moving an instant on by one day moves its weekday on by one and keeps its minute of the day |
| TimeMath.Decomposition | src/lib/services/availability.service.ts:51-54 | an instant is its day plus its minute of the day plus leftover seconds; seconds are dropped, not rounded |
| Schedule.ParseTime | src/lib/services/availability.service.ts:101-102 | a window time parses exactly when it is a strict `HH:MM`, to the minute `hhmmToMin` gives |
| Schedule.ParseBreaks | src/lib/services/availability.service.ts:107-108 | succeeds exactly when every break time is a strict `HH:MM`; each break parses to its two minutes, in order; a failure names a bad break time |
| Schedule.ParseBreaksFirstBad | src/lib/services/availability.service.ts:107-108 | a failed break parse reports the first bad time (the start, else the end) of the first break that has one |
| Schedule.KeptBreaks | src/lib/services/availability.service.ts:107-112 | a break is kept exactly when it is non-empty and meets the window; kept breaks are not clipped |
| Schedule.NormalizeDay | src/lib/services/availability.service.ts:97-119 | succeeds exactly when start and end are present, parse and start < end, and the breaks parse; the result is a well-formed day with the parsed window; a missing time or an end not after the start gives its own error |
| Schedule.NormalizeAll | src/lib/services/availability.service.ts:97-120 | succeeds exactly when every day normalises; then day `i` of the result normalises input `i`; a failure is the error of some input day |
| Schedule.NormalizeAllFirstBad | src/lib/services/availability.service.ts:97-120 | a failed normalisation reports the error of the first day that does not normalise |
| Schedule.EnabledDays | src/lib/services/availability.service.ts:95 | exactly the enabled days are kept |
| Schedule.NormalizeWeek | src/lib/services/availability.service.ts:95-120 | succeeds exactly when every enabled day is acceptable; every resulting day is well-formed; a failure is the error of an enabled day |
| Schedule.NormalizeWeekDays | src/lib/services/availability.service.ts:95-120 | one normalised day per enabled input day, in the same order |
| Schedule.NormalizeWeekWeekdays | src/lib/services/availability.service.ts:95-120 | the weekdays of the result are exactly those of the enabled input days |
| Schedule.WindowFor | src/lib/services/availability.service.ts:183-185 | the row found under the (business, weekday) key has that key and belongs to the table; none is found exactly when no row has the key |
| Schedule.WindowForUnique | src/lib/services/availability.service.ts:137 | under the unique key every stored row is the one found for its own key |
| Schedule.HoursOf | src/lib/services/availability.service.ts:259 | exactly the window rows of the business |
| Schedule.BreaksOf | src/lib/services/availability.service.ts:260 | exactly the break rows of the business |
| Schedule.SortedHours | src/lib/services/availability.service.ts:62-65 | the business's window rows as a permutation, sorted by weekday |
| Schedule.SortedBreaks | src/lib/services/availability.service.ts:66-69 | the business's break rows as a permutation, sorted by start minute |
| Schedule.DayBreaks | src/lib/services/availability.service.ts:72-77 | an interval is listed exactly when some row of that weekday carries it |
| Schedule.GroupBreaks | src/lib/services/availability.service.ts:72-77 | the loop builds exactly that map, so its keys are exactly the weekdays with break rows, each mapped to that weekday's breaks in row order |
| Schedule.GroupMapGrouped | src/lib/services/availability.service.ts:72-77 | the map built by appending each break row to its weekday's list has a key for exactly the weekdays with break rows, each mapped to that weekday's breaks in row order |
| Schedule.DaysOf | src/lib/services/availability.service.ts:60-89 | the reported days, one per stored window row of the business; the contract gives one day per window row, `DaysOfOrdered` states the weekday order and the per-day break order, and `DaysOfFromRow`, `DaysOfHasRow`, `DayBreaksOfStore` and `DayBreaksOfStoreCounted` state the contents |
| Schedule.GetAvailabilityForBusiness | src/lib/services/availability.service.ts:60-89 | the reported state is slot step 15 with exactly `DaysOf` of the stored rows, so (by `DaysOfOrdered`) the days come ordered by weekday, each carrying that weekday's breaks ordered by start |
| Schedule.DaysOfFromRow | src/lib/services/availability.service.ts:79-84 | every reported day is a stored window row of the business with that weekday's breaks |
| Schedule.DaysOfHasRow | src/lib/services/availability.service.ts:79-84 | every stored window row of the business is reported as a day |
| Schedule.DayBreaksOfStore | src/lib/services/availability.service.ts:66-77 | the breaks reported for a weekday are exactly the business's stored breaks of that weekday |
| Schedule.DaysOfOrdered | src/lib/services/availability.service.ts:62-69 | the reported days are in non-decreasing weekday order (`orderBy dayOfWeek asc`), and every day's breaks are in non-decreasing start order (`orderBy [dayOfWeek, startMin]`) |
| Schedule.DayBreaksSorted | src/lib/services/availability.service.ts:66-77 | grouping break rows listed by ascending start keeps each weekday's breaks in ascending start order |
| Schedule.DayBreaksOfStoreCounted | src/lib/services/availability.service.ts:66-77 | a weekday's reported breaks are, as a multiset, the business's stored break rows of that weekday (a break stored twice is reported twice), in ascending start order |
| Schedule.NoWindowsNoRows | src/lib/services/availability.service.ts:127-132 | a business with no window on any weekday has no window rows at all |
| Schedule.AvailabilityStore.SetAvailabilityForBusiness | src/lib/services/availability.service.ts:91-170 | fails without writing exactly when normalisation fails, with its error; on success each weekday's window row is the last normalised day of that weekday (none if not enabled); the business's break rows are exactly the normalised breaks; other businesses' rows are unchanged; the answer carries the clamped step and the stored days |
| Schedule.DeleteDisabled | src/lib/services/availability.service.ts:126-132 | `deleteMany` of the business's rows whose weekday is not enabled (all of them when none is); exactly the other rows remain and keys stay unique |
| Schedule.Upsert | src/lib/services/availability.service.ts:135-150 | `upsert` on the (business, weekday) key: the result holds the new row and exactly the old rows with another key; keys stay unique |
| Schedule.ReplaceBreaks | src/lib/services/availability.service.ts:152-165 | the business's break rows become exactly the flattened breaks of the given days; other businesses' break rows are unchanged |
| Schedule.UpsertDays | src/lib/services/availability.service.ts:124-150 | deleting the disabled weekdays and then upserting each enabled day leaves unique keys and well-formed rows, makes each weekday's window the last given day of that weekday (none if there is none), and leaves other businesses' rows unchanged |
| Schedule.AvailabilityStore.WriteSchedule | src/lib/services/availability.service.ts:124-166 | deleting disabled weekdays, upserting the enabled days and replacing the breaks leaves exactly the given days' windows and breaks for the business; the row invariants hold and other businesses are untouched |
| Availability.EffectiveTz | src/lib/services/availability.service.ts:364 | the offset used lies in -840..840; a missing offset is 0; an offset in range is used as given |
| Availability.FindDay | src/lib/services/availability.service.ts:367 | the found day is a reported day of the weekday; none is found exactly when no reported day has it |
| Availability.WithinAvailability | src/lib/services/availability.service.ts:354-381 | definition of what `isWithinAvailability` decides on the reported days: true with no days, else the local weekday's day must contain `[m, m + duration)` with no break meeting it; `WithinAvailabilityOfStore` states it against the stored rows |
| Availability.IsWithinAvailability | src/lib/services/availability.service.ts:354-381 | returns true when the business has no windows, and otherwise decides exactly `WithinAvailability` on the reported days |
| Availability.IsWithinDays | src/lib/services/availability.service.ts:362-380 | the early-return loop over breaks decides exactly `WithinAvailability`; no days means true |
| Availability.WithinAvailabilityOfStore | src/lib/services/availability.service.ts:354-381 | a booking is accepted exactly when the business has no windows, or the stored window of the local weekday contains `[m, m + duration)` at the local minute `m` and no stored break of that weekday meets it |
| Availability.FindDayOfStore | src/lib/services/availability.service.ts:366-368 | a reported day exists for a weekday exactly when a window row does; it carries that row's window and exactly that weekday's stored breaks |
| Availability.FitsDayOfStore | src/lib/services/availability.service.ts:370-380 | fitting the reported day is the same as fitting the stored window and breaks |
| Availability.EnsureWithinAvailability | src/lib/services/availability.service.ts:172-203 | accepts exactly when the UTC weekday's stored window contains the booking's UTC minutes and no stored break of that weekday meets them |
| Availability.EnsureAgreesAtUtc | src/lib/services/availability.service.ts:172-203 | once the business has windows, the UTC check agrees with `isWithinAvailability` at offset 0; without windows the UTC check rejects and `isWithinAvailability` accepts |
| Slots.SlotStep | src/lib/services/availability.service.ts:224 | the step lies in 5..120, is 15 when missing and is the given value when in range |
| Slots.RangeStart | src/lib/services/availability.service.ts:239-250 | definition of `from`: the given instant, or for a date `d` the instant `d*86400000 + offset*60000` (local midnight); `None` when unparsable |
| Slots.RangeEnd | src/lib/services/availability.service.ts:251-254 | in date mode the range ends exactly one day after its start |
| Slots.Ranges | src/lib/services/availability.service.ts:287-291 | each booked appointment becomes the span `[start, start + duration*60000)`, in order |
| Slots.LastWindow | src/lib/services/availability.service.ts:275-278 | the window kept for a weekday is a row of that weekday; none exactly when there is no such row |
| Slots.WindowsByDay | src/lib/services/availability.service.ts:275-278 | the loop's map has a key for exactly the weekdays with a window, each mapped to the last such row's window |
| Slots.ScanBreaks | src/lib/services/availability.service.ts:318-325 | the loop finds a break exactly when some break of the day meets `[t, t + duration)` |
| Slots.ScanBooked | src/lib/services/availability.service.ts:330-337 | the loop finds a conflict exactly when some fetched span meets the candidate's span |
| Slots.WalkDay | src/lib/services/availability.service.ts:305-340 | the inner loop collects exactly the offered candidates of the day, in step order |
| Slots.WalkRange | src/lib/services/availability.service.ts:296-344 | the day loop collects exactly the slots of every day from `from` until `to` |
| Slots.FreeSlots | src/lib/services/availability.service.ts:222-352 | definition of the answer of `getFreeSlots`; `FreeSlotSound`, `FreeSlotAvoidsBookings` and `FreeSlotComplete` together characterise it exactly when the slot and booked durations are at most one day (a longer BOOKED appointment starting more than a day before the range is not fetched and does not block) |
| Slots.GetFreeSlots | src/lib/services/availability.service.ts:222-352 | the method returns exactly `FreeSlots`: `[]` for an unparsable or empty range, otherwise the walk's slots later than `now + 60000` |
| SlotProperties.FreeSlotSound | src/lib/services/availability.service.ts:299-351 | every returned slot comes from a valid range and lies in `[from, to)`; it is later than `now + 60000`; it is `t` minutes after a day cursor `from + k days`; the stored window of that cursor's local weekday admits `[t, t + duration)` with no stored break; `t` is on the step grid from the window's start |
| SlotProperties.FreeSlotComplete | src/lib/services/availability.service.ts:296-351 | the converse of `FreeSlotSound`: every instant in `[from, to)` later than `now + 60000`, `t` minutes after a day cursor `from + k days` where `t` is on the step grid of that weekday's stored window, `[t, t + duration)` fits the window and meets no stored break, and that overlaps no BOOKED appointment of the business, is returned |
| SlotProperties.WalkHasSlotOfStore | src/lib/services/availability.service.ts:296-344 | the walk collects every such candidate that misses the fetched spans |
| SlotProperties.DaySlotsHas | src/lib/services/availability.service.ts:305-340 | the inner loop collects every offered candidate on the step grid that still fits the window |
| SlotProperties.RangeSlotsHas | src/lib/services/availability.service.ts:299-344 | the day loop keeps the slots of every day cursor `from + k days` before `to` |
| SlotProperties.BreaksClear | src/lib/services/availability.service.ts:303-325 | a candidate that misses every stored break of its weekday misses the grouped breaks |
| SlotProperties.BookedClear | src/lib/services/availability.service.ts:258-291 | a candidate that overlaps no BOOKED appointment of the business misses every fetched span |
| SlotProperties.MondayOffers | src/lib/services/availability.service.ts:296-351 | on a Monday with a 09:00-17:00 window, a 13:00-14:00 break, 60-minute slots on a 15-minute grid and no bookings, 09:00 and 16:00 are offered |
| SlotProperties.MondayRefuses | src/lib/services/availability.service.ts:305-325 | on that Monday, 12:30 (runs into the break) and 16:15 (runs past the window) are not offered |
| SlotProperties.FreeSlotAvoidsBookings | src/lib/services/availability.service.ts:258-337 | no returned slot overlaps any BOOKED appointment of the business, even one outside the fetched ±1 day window |
| SlotProperties.FreeSlotsAscending | src/lib/services/availability.service.ts:299-351 | the returned slots are strictly ascending |
| SlotProperties.DateSlotWithinAvailability | src/lib/services/availability.service.ts:239-250 | in date mode every returned slot falls on the requested local weekday and passes `isWithinAvailability` with the same offset |
| SlotProperties.LastWindowOfStore | src/lib/services/availability.service.ts:275-278 | with unique keys, the window kept for a weekday is the stored row of that weekday |
| SlotProperties.BreaksAvoided | src/lib/services/availability.service.ts:303-325 | a candidate that misses the grouped breaks misses every stored break of its weekday |
| SlotProperties.FetchedAvoided | src/lib/services/availability.service.ts:287-337 | a candidate that misses every fetched span misses every fetched appointment |
| SlotProperties.OutsideFetchAvoided | src/lib/services/availability.service.ts:261-270 | an appointment of at most a day starting outside the ±1 day fetch window cannot meet a slot of at most a day inside the range |
| SlotProperties.RangeSlotsAscending | src/lib/services/availability.service.ts:299-344 | the walk's slots are strictly ascending and lie from the first cursor onwards |
| Appointments.ListAppointmentsForUser | src/lib/services/appointments.service.ts:18-32 | sorted by start; a CLIENT gets exactly the rows with its client id and any other role the rows with its business id, each as often as stored |
| Appointments.ListMyAppointments | src/lib/services/appointments.service.ts:34-45 | sorted by start; exactly the rows where the user is client or business, each as often as stored |
| Appointments.ValidateDuration | src/lib/services/appointments.service.ts:64-70 | accepts exactly an integer in 15..240; every rejection is a 400 |
| Appointments.ValidateCreate | src/lib/services/appointments.service.ts:56-70 | accepts exactly a present start not before `now` (a start equal to `now` passes) with an integer duration in 15..240; an invalid start and a past start get their own errors; every rejection is a 400 |
| Appointments.ValidateReschedule | src/lib/services/appointments.service.ts:133-143 | accepts exactly a present start with an integer duration in 15..240, with no check against the clock; every rejection is a 400 |
| Appointments.ScanConflicts | src/lib/services/appointments.service.ts:95-99 | the loop reports a conflict exactly when some candidate overlaps the booking |
| Appointments.PrefilterKeepsConflicts | src/lib/services/appointments.service.ts:82-99 | scanning the prefiltered candidates (BOOKED, same business, other id, start before the new end) finds a conflict exactly when some row of the whole table blocks |
| Appointments.CandidateConflictIsReal | src/lib/services/appointments.service.ts:84-99 | a conflict found among the candidates is a real blocking row |
| Appointments.ConflictIsFetched | src/lib/services/appointments.service.ts:84-99 | the `startAt < newEnd` prefilter never hides an overlapping BOOKED row |
| Appointments.ConflictsWithoutExclusion | src/lib/services/appointments.service.ts:84-99 | with no excluded id, a conflict is exactly some BOOKED appointment of the business that overlaps |
| Appointments.FindIndex | src/lib/services/appointments.service.ts:122-123 | the found position holds the id; none exactly when no row has it |
| Appointments.AppendKeepsValid | src/lib/services/appointments.service.ts:101-109 | appending a fresh-id row that conflicts with no BOOKED row keeps ids unique, durations in 15..240 and BOOKED rows of a business pairwise non-overlapping |
| Appointments.MoveKeepsValid | src/lib/services/appointments.service.ts:172-179 | moving a row to a booking that conflicts with no other BOOKED row keeps the table invariant |
| Appointments.CancelKeepsValid | src/lib/services/appointments.service.ts:205-208 | cancelling a row keeps the table invariant |
| Appointments.CreateKeepsValid | src/lib/services/appointments.service.ts:47-111 | a successful create keeps the table invariant with the next id |
| Appointments.RescheduleKeepsValid | src/lib/services/appointments.service.ts:113-180 | a successful reschedule keeps the table invariant |
| Appointments.CancelOutcomeKeepsValid | src/lib/services/appointments.service.ts:182-209 | a successful cancel keeps the table invariant |
| Appointments.CreateOutcome | src/lib/services/appointments.service.ts:47-111 | definition of what `createAppointment` answers; `CreateErrors` and `CreatedBooking` state its cases |
| Appointments.RescheduleOutcome | src/lib/services/appointments.service.ts:113-180 | definition of what `rescheduleAppointment` answers; `RescheduleErrors`, `RescheduleChecks` and `RescheduledBooking` state its cases |
| Appointments.CancelOutcome | src/lib/services/appointments.service.ts:182-209 | definition of what `cancelAppointment` answers; `CancelRules` states its cases |
| Appointments.CreateErrors | src/lib/services/appointments.service.ts:56-99 | any validation failure is a 400 and comes first; then a booking outside availability is a 409; then, for a valid booking within availability, "already booked" exactly when a BOOKED appointment of the business overlaps it, and success exactly when none does |
| Appointments.CreatedBooking | src/lib/services/appointments.service.ts:101-109 | a created row has the next id, the caller's client, business, start and duration, status BOOKED and `now` stamps; it passed validation, lies within availability and overlaps no BOOKED appointment of the business |
| Appointments.RescheduleErrors | src/lib/services/appointments.service.ts:122-143 | a missing id is a 404; then an actor that is not the owning CLIENT is a 403; then a row that is not BOOKED is a 409; then a validation failure is its 400 |
| Appointments.RescheduleChecks | src/lib/services/appointments.service.ts:145-179 | for a found, owned, BOOKED row and a valid input: a 409 "outside availability" exactly when `isWithinAvailability` rejects; within availability, a 409 "already booked" exactly when another BOOKED row of the business overlaps, and otherwise success with the row moved to the new start and duration |
| Appointments.RescheduledBooking | src/lib/services/appointments.service.ts:144-179 | a successful reschedule was asked by the owning CLIENT of a BOOKED row; only start, duration and `updatedAt` change and the row stays BOOKED; the new booking is validated, within availability and overlaps no other BOOKED appointment of the business |
| Appointments.RescheduleIgnoresClock | src/lib/services/appointments.service.ts:133-179 | whether a reschedule succeeds does not depend on the current time, so a past start is accepted; the time only lands in `updatedAt` |
| Appointments.CancelRules | src/lib/services/appointments.service.ts:185-208 | a missing id is a 404; a row that is no longer BOOKED is set CANCELED again for any actor; a BOOKED row is cancelled exactly for its owning CLIENT or owning BUSINESS, and is a 403 otherwise |
| Appointments.AdminCannotCancelBooked | src/lib/services/appointments.service.ts:196-203 | an ADMIN's cancel of a BOOKED appointment is always a 403 |
| Appointments.CreateStatusStep | src/lib/services/appointments.service.ts:101-109 | a successful create keeps every row, id and CANCELED status, and only appends one BOOKED row |
| Appointments.RescheduleStatusStep | src/lib/services/appointments.service.ts:172-179 | a successful reschedule keeps every id and never brings a CANCELED row back |
| Appointments.CancelStatusStep | src/lib/services/appointments.service.ts:188-208 | a successful cancel keeps every id, never brings a CANCELED row back, and leaves the row CANCELED |
| Appointments.DecideCreate | src/lib/services/appointments.service.ts:47-111 | the checks of `createAppointment`, run in order with the conflict loop over the prefiltered candidates, answer exactly `CreateOutcome` |
| Appointments.DecideReschedule | src/lib/services/appointments.service.ts:113-180 | the checks of `rescheduleAppointment`, run in order with the conflict loop excluding the row's own id, answer exactly `RescheduleOutcome` |
| Appointments.DecideCancel | src/lib/services/appointments.service.ts:182-209 | the checks of `cancelAppointment` answer exactly `CancelOutcome` |
| Appointments.AppointmentStore.CreateAppointment | src/lib/services/appointments.service.ts:47-111 | answers `CreateOutcome`; on success appends exactly the new row and advances the id, and otherwise writes nothing; keeps the table invariant and the status transition relation |
| Appointments.AppointmentStore.RescheduleAppointment | src/lib/services/appointments.service.ts:113-180 | answers `RescheduleOutcome`; on success replaces exactly the found row, and otherwise writes nothing; keeps the table invariant and the status transition relation |
| Appointments.AppointmentStore.CancelAppointment | src/lib/services/appointments.service.ts:182-209 | answers `CancelOutcome`; on success replaces exactly the found row, and otherwise writes nothing; keeps the table invariant and the status transition relation |
| RoundTrip.OfferedSlotIsBookable | src/lib/services/availability.service.ts:222-352 | a slot offered for a date, over a valid table, with unique well-formed windows and a duration in 15..240, is accepted by create with the same offset up to a minute later, giving the new BOOKED row |
| AvailabilityPage.MinToTime | src/app/availability/page.tsx:22-27 | a missing value renders as `00:00`; every rendering has at least the five characters of `HH:MM`; the exact rendering is stated by `MinToTimePadded` |
| AvailabilityPage.TruncRem60 | src/app/availability/page.tsx:25 | JavaScript's `% 60`: a remainder strictly between -60 and 60 with the dividend's sign and the same residue |
| AvailabilityPage.PadStart2 | src/app/availability/page.tsx:26 | the result is at least two characters, ends with the input and is padded with zeros only |
| AvailabilityPage.NatToStringRoundTrip | src/app/availability/page.tsx:26 | the decimal digits of a number read back as that number |
| AvailabilityPage.TwoDigits | src/app/availability/page.tsx:26 | a number below 100 is rendered as exactly its two digits |
| AvailabilityPage.MinToTimePadded | src/app/availability/page.tsx:24-26 | below 100 hours, both hour and minute are zero-padded to exactly two digits |
| AvailabilityPage.ClockParses | src/lib/services/availability.service.ts:28-35 | a zero-padded clock reading within a day is a strict `HH:MM` and parses to `h*60 + mm` |
| AvailabilityPage.MinToTimeRoundTrip | src/app/availability/page.tsx:22-27 | every minute 0..1439 renders as a time `hhmmToMin` accepts and parses back to the same minute; a missing value renders like minute 0, `00:00` |
| AvailabilityPage.DaysListTheWeek | src/app/availability/page.tsx:12-20 | seven rows, Monday first and Sunday last, each weekday 0..6 exactly once |
| AvailabilityPage.EmptyDay | src/app/availability/page.tsx:29-40 | definition of the default form day of an unstored weekday; `EmptyDayDefaults` states what it holds |
| AvailabilityPage.EmptyDayDefaults | src/app/availability/page.tsx:29-40 | the default day is enabled exactly on weekdays 1..5; it normalises to 10:00-14:00 on Saturday and 09:00-17:00 otherwise, with one 13:00-14:00 break on weekdays 1..5 and none otherwise |
| AvailabilityPage.LoadedDay | src/app/availability/page.tsx:69-79 | a stored day is shown enabled, on its weekday, with one form break per stored break |
| AvailabilityPage.ParseBreakInputs | src/app/availability/page.tsx:75-78 | breaks rendered as `HH:MM` parse back to the same breaks |
| AvailabilityPage.KeptBreaksOfDay | src/lib/services/availability.service.ts:107-112 | every break of a well-formed day survives the break filtering |
| AvailabilityPage.LoadedDayRoundTrip | src/app/availability/page.tsx:69-79 | submitting a stored, well-formed day unchanged normalises back to that same day |

## Left out

- Database I/O: `findMany`, `findUnique`, `upsert`, `deleteMany`, `createMany`, `create`, `update` and `$transaction` become operations on in-memory sequences. Each service call runs as one step.
- Concurrency: the race safety the create transaction is meant to give is not modelled. Neither is the fact that the reschedule conflict scan and update run outside any transaction.
- Identifiers: UUIDs are natural numbers drawn from a counter. The `include` of client and business in the listings is not modelled.
- Dates and strings: parsing ISO strings, `toISOString` and the `YYYY-MM-DD` pattern are not modelled. Instants are integer milliseconds, a date is an epoch day number and an unparsable value is `None`.
- Non-integer numbers: `Math.trunc` of a fractional offset, a NaN or fractional slot step and fractional minutes in `minToTime` are not modelled. Offsets, steps and minutes are integers.
- `addMinutes` and `isBefore` have no members of their own. `addMinutes` is `Overlap.EndOf`, and `isBefore` is the `now <= startAt` test in `Appointments.ValidateCreate`.
- Not part of this model: route handlers, request schemas, authentication, user management, the stored per-user offset, which these paths never read, and every React component except the three form helpers.
- Schedule.SortedBreaks: orders by start minute only, not by weekday first. The rows are grouped by weekday straight afterwards, so each day's breaks come out in the same order either way.
- SlotProperties.FreeSlotAvoidsBookings: assumes the slot duration and the appointment's duration are each at most one day. `getFreeSlots` fetches only appointments starting within a day of the range, so a longer appointment that starts earlier could be missed. Create and reschedule never store one longer than 240 minutes.
- SlotProperties.FreeSlotsAscending: assumes a positive duration and window rows with `0 <= start < end < 1440`, which `setAvailabilityForBusiness` guarantees.
- SlotProperties.FreeSlotComplete: assumes unique (business, weekday) keys in the window table, which its unique index guarantees; with duplicate keys the walk uses the last row of a weekday while the store reads the first.
- SlotProperties.DateSlotWithinAvailability: proved for date mode only. In from/to mode window minutes are counted from `from`, which need not be local midnight.
- RoundTrip.OfferedSlotIsBookable: stated for date mode and a table that satisfies the appointment invariant.
- AvailabilityPage.MinToTimeRoundTrip: covers minutes 0..1439 only. Negative and larger values render as text `hhmmToMin` rejects.
