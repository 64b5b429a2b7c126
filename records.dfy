/** Entities of the event backend and the outcomes its services report.

Only the columns that the service layer reads or writes are kept; addresses,
CPF, phone numbers and the createdAt/updatedAt timestamps are left out. Ids
are the database's integer ids. */
module Records {

  datatype Option<+T> = None | Some(value: T)

  /** The application errors a service may throw. `Forbidden` exists in the
      code base (src/errors/forbidden-error.ts) but no modelled service throws it. */
  datatype Error = NotFound | PaymentRequired | Forbidden

  datatype Result<+T> = Ok(value: T) | Err(error: Error)

  /** Outcome of a chain of guard clauses that produces no value. */
  datatype Outcome = Pass | Fail(error: Error)

  /** A user's registration for the event; at most one per user. */
  datatype Enrollment = Enrollment(id: int, userId: int)

  /** A category of ticket and the entitlements it grants. */
  datatype TicketType = TicketType(id: int, name: string, price: int, isRemote: bool, includesHotel: bool)

  datatype TicketStatus = RESERVED | PAID

  datatype Ticket = Ticket(id: int, ticketTypeId: int, enrollmentId: int, status: TicketStatus)

  datatype Hotel = Hotel(id: int, name: string, image: string)

  datatype Room = Room(id: int, name: string, capacity: int, hotelId: int)

  datatype Booking = Booking(id: int, userId: int, roomId: int)

  // The columns the repositories search on, as functions so that a table
  // lookup can be written once for every table.

  function EnrollmentId(e: Enrollment): int { e.id }
  function EnrollmentUser(e: Enrollment): int { e.userId }
  function TypeId(ty: TicketType): int { ty.id }
  function TicketId(t: Ticket): int { t.id }
  function TicketEnrollment(t: Ticket): int { t.enrollmentId }
  function HotelId(h: Hotel): int { h.id }
  function RoomId(r: Room): int { r.id }
  function BookingId(b: Booking): int { b.id }
  function BookingUser(b: Booking): int { b.userId }
}
