/** The persisted entities of the booking engine: users (only their id and
    role matter here), appointments, and the two weekly-schedule tables. */
module Model {

  /** User ids are opaque strings (UUIDs in the database). */
  type UserId = string

  datatype Role = CLIENT | BUSINESS | ADMIN

  /** The authenticated caller, as the identity layer hands it over. */
  datatype User = User(id: UserId, role: Role)

  datatype Status = BOOKED | CANCELED

  /** One row of the appointment table. Instants are milliseconds since the
      Unix epoch (UTC); `id` is the row key the database assigns. */
  datatype Appointment = Appointment(
    id: nat,
    clientId: UserId,
    businessId: UserId,
    startAt: int,
    durationMin: int,
    status: Status,
    createdAt: int,
    updatedAt: int)

  /** One row of the weekly-window table; unique on (businessId, dayOfWeek).
      Minutes are counted from local midnight. */
  datatype WorkingHourRow = WorkingHourRow(businessId: UserId, dayOfWeek: int, startMin: int, endMin: int)

  /** One row of the break table; any number per (businessId, dayOfWeek). */
  datatype BreakRow = BreakRow(businessId: UserId, dayOfWeek: int, startMin: int, endMin: int)
}
