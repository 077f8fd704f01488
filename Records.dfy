/** The stored entities both booking handlers read: facilities and bookings. */
module Records {
  import opened Wrappers

  const PENDING := "pending"
  const CONFIRMED := "confirmed"
  const CANCELLED := "cancelled"

  /** Only pending and confirmed bookings hold their time slot. */
  predicate IsActive(status: string) {
    status == PENDING || status == CONFIRMED
  }

  /** A venue; `hourlyRate` is a nullable decimal column. */
  datatype Facility = Facility(id: int, name: string, hourlyRate: Option<real>, active: bool)

  /** A reservation row. Instants are milliseconds since the epoch; `status`
      is the stored string. */
  datatype Booking = Booking(
    id: int,
    facilityId: int,
    customerName: string,
    customerEmail: string,
    customerPhone: Option<string>,
    eventTitle: string,
    eventDescription: Option<string>,
    start: int,
    end: int,
    totalHours: real,
    hourlyRate: Option<real>,
    totalCost: Option<real>,
    notes: Option<string>,
    status: string)

  /** The facility lookup succeeds and the facility takes bookings. */
  predicate Bookable(facilities: map<int, Facility>, id: int) {
    id in facilities && facilities[id].active
  }
}
