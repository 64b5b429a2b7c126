/** A snapshot of the database the services read, the repository lookups on
    it, and the constraints the relational schema enforces on every state. */
module Store {
  import opened Records
  import opened Tables

  /** The tables, each in storage order. `nextTicketId` is the value the
      ticket table's autoincrement id will hand out next. */
  datatype Db = Db(
    enrollments: seq<Enrollment>,
    ticketTypes: seq<TicketType>,
    tickets: seq<Ticket>,
    nextTicketId: int,
    hotels: seq<Hotel>,
    rooms: seq<Room>,
    bookings: seq<Booking>)

  // Repository lookups (Prisma findUnique / findFirst on one column).

  /** The enrollment of a user (`getEnrollment`, `findWithAddressByUserId`). */
  function EnrollmentOf(db: Db, userId: int): Option<Enrollment> {
    FindBy(db.enrollments, EnrollmentUser, userId)
  }

  /** The first ticket of an enrollment (`getTicket`, `findTicketByEnrollmentId`). */
  function TicketOf(db: Db, enrollmentId: int): Option<Ticket> {
    FindBy(db.tickets, TicketEnrollment, enrollmentId)
  }

  /** A ticket type by id (`getType`). */
  function TypeOf(db: Db, typeId: int): Option<TicketType> {
    FindBy(db.ticketTypes, TypeId, typeId)
  }

  /** A hotel by id (`hotelsRepository.getHotelById`). */
  function HotelOf(db: Db, hotelId: int): Option<Hotel> {
    FindBy(db.hotels, HotelId, hotelId)
  }

  /** A room by id: the `Room` relation a booking lookup selects. */
  function RoomOf(db: Db, roomId: int): Option<Room> {
    FindBy(db.rooms, RoomId, roomId)
  }

  /** The booking of a user (`getBookingByUserId` in the booking repository). */
  function BookingOf(db: Db, userId: int): Option<Booking> {
    FindBy(db.bookings, BookingUser, userId)
  }

  /** The repository's ticket insertion: a new row with a fresh id and status
      RESERVED is appended to the ticket table; no other table changes. */
  function InsertTicket(db: Db, ticketTypeId: int, enrollmentId: int): (r: (Db, Ticket))
    ensures r.1.ticketTypeId == ticketTypeId && r.1.enrollmentId == enrollmentId
    ensures r.1.status == RESERVED
    ensures r.1.id == db.nextTicketId && r.0.nextTicketId == db.nextTicketId + 1
    ensures r.0.tickets == db.tickets + [r.1]
    ensures r.0 == db.(tickets := r.0.tickets, nextTicketId := r.0.nextTicketId)
  {
    var t := Ticket(db.nextTicketId, ticketTypeId, enrollmentId, RESERVED);
    (db.(tickets := db.tickets + [t], nextTicketId := db.nextTicketId + 1), t)
  }

  // Foreign keys. A relation that Prisma loads with `include`/`select`
  // is present because the schema requires the referenced row.

  /** Every ticket's TicketType row exists. */
  predicate TicketTypesResolve(db: Db) {
    forall i :: 0 <= i < |db.tickets| ==> HasKey(db.ticketTypes, TypeId, db.tickets[i].ticketTypeId)
  }

  /** Every booking's Room row exists. */
  predicate BookingRoomsResolve(db: Db) {
    forall i :: 0 <= i < |db.bookings| ==> HasKey(db.rooms, RoomId, db.bookings[i].roomId)
  }

  /** Every ticket belongs to an existing enrollment. */
  predicate TicketEnrollmentsResolve(db: Db) {
    forall i :: 0 <= i < |db.tickets| ==> HasKey(db.enrollments, EnrollmentId, db.tickets[i].enrollmentId)
  }

  /** Every ticket id was handed out by the autoincrement counter. */
  predicate TicketIdsIssued(db: Db) {
    forall i :: 0 <= i < |db.tickets| ==> db.tickets[i].id < db.nextTicketId
  }

  /** Every state the database can be in: the relational schema's
      constraints (primary keys, the unique `userId` columns of Enrollment
      and Booking, the foreign keys) and, beside them, the invariant of the
      ticket table's autoincrement counter (`TicketIdsIssued`). */
  predicate Consistent(db: Db) {
    && UniqueBy(db.enrollments, EnrollmentId)
    && UniqueBy(db.enrollments, EnrollmentUser)
    && UniqueBy(db.ticketTypes, TypeId)
    && UniqueBy(db.tickets, TicketId)
    && TicketIdsIssued(db)
    && TicketTypesResolve(db)
    && TicketEnrollmentsResolve(db)
    && UniqueBy(db.hotels, HotelId)
    && UniqueBy(db.rooms, RoomId)
    && UniqueBy(db.bookings, BookingId)
    && UniqueBy(db.bookings, BookingUser)
    && BookingRoomsResolve(db)
  }

  /** Distinct users have distinct enrollments. */
  lemma EnrollmentsDistinct(db: Db, u: int, v: int)
    requires UniqueBy(db.enrollments, EnrollmentId) && UniqueBy(db.enrollments, EnrollmentUser)
    requires u != v && EnrollmentOf(db, u).Some? && EnrollmentOf(db, v).Some?
    ensures EnrollmentOf(db, u).value.id != EnrollmentOf(db, v).value.id
  {
    var eu, ev := EnrollmentOf(db, u).value, EnrollmentOf(db, v).value;
    var i :| 0 <= i < |db.enrollments| && db.enrollments[i] == eu;
    var j :| 0 <= j < |db.enrollments| && db.enrollments[j] == ev;
    assert EnrollmentUser(db.enrollments[i]) != EnrollmentUser(db.enrollments[j]);
    assert i != j;
  }

  /** The insert keeps the schema's constraints and the counter invariant
      whenever both rows it references exist. */
  lemma InsertTicketConsistent(db: Db, ticketTypeId: int, enrollmentId: int)
    requires Consistent(db)
    requires HasKey(db.ticketTypes, TypeId, ticketTypeId)
    requires HasKey(db.enrollments, EnrollmentId, enrollmentId)
    ensures Consistent(InsertTicket(db, ticketTypeId, enrollmentId).0)
    ensures !HasKey(db.tickets, TicketId, InsertTicket(db, ticketTypeId, enrollmentId).1.id)
  {
    var (db', t) := InsertTicket(db, ticketTypeId, enrollmentId);
    assert !HasKey(db.tickets, TicketId, t.id) by {
      forall i | 0 <= i < |db.tickets| ensures TicketId(db.tickets[i]) != t.id {
        assert db.tickets[i].id < db.nextTicketId;
      }
    }
    UniqueAppend(db.tickets, t, TicketId);
    var k :| 0 <= k < |db.ticketTypes| && TypeId(db.ticketTypes[k]) == ticketTypeId;
    var m :| 0 <= m < |db.enrollments| && EnrollmentId(db.enrollments[m]) == enrollmentId;
    forall i | 0 <= i < |db'.tickets|
      ensures HasKey(db'.ticketTypes, TypeId, db'.tickets[i].ticketTypeId)
      ensures HasKey(db'.enrollments, EnrollmentId, db'.tickets[i].enrollmentId)
      ensures db'.tickets[i].id < db'.nextTicketId
    {
      if i == |db.tickets| {
        assert TypeId(db'.ticketTypes[k]) == ticketTypeId;
        assert EnrollmentId(db'.enrollments[m]) == enrollmentId;
      } else {
        assert db'.tickets[i] == db.tickets[i];
      }
    }
  }
}
