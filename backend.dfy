/** The database as a mutable object: one field per table. Reads go through
    `Snapshot()` and the service functions; the ticket purchase is the one
    operation of the modelled services that writes, and it changes the ticket
    table (and its id counter) and nothing else. */
module Backend {
  import opened Records
  import opened Store
  import Tables
  import TicketsService

  class Database {
    var enrollments: seq<Enrollment>
    var ticketTypes: seq<TicketType>
    var tickets: seq<Ticket>
    var nextTicketId: int
    var hotels: seq<Hotel>
    var rooms: seq<Room>
    var bookings: seq<Booking>

    /** The tables' current contents as a value. */
    function Snapshot(): Db
      reads this
    {
      Db(enrollments, ticketTypes, tickets, nextTicketId, hotels, rooms, bookings)
    }

    /** The schema's constraints hold. */
    predicate Valid()
      reads this
    {
      Consistent(Snapshot())
    }

    constructor (initial: Db)
      requires Consistent(initial)
      ensures Valid() && Snapshot() == initial
    {
      enrollments := initial.enrollments;
      ticketTypes := initial.ticketTypes;
      tickets := initial.tickets;
      nextTicketId := initial.nextTicketId;
      hotels := initial.hotels;
      rooms := initial.rooms;
      bookings := initial.bookings;
    }

    /** The repository's `postTicket`: inserts a RESERVED ticket with the
        next autoincrement id. */
    method CreateTicket(ticketTypeId: int, enrollmentId: int) returns (t: Ticket)
      requires Valid()
      // both foreign keys of the new row must resolve, or the database refuses it
      requires Tables.HasKey(ticketTypes, TypeId, ticketTypeId)
      requires Tables.HasKey(enrollments, EnrollmentId, enrollmentId)
      modifies this`tickets, this`nextTicketId
      ensures Valid()
      ensures t == Ticket(old(nextTicketId), ticketTypeId, enrollmentId, RESERVED)
      ensures tickets == old(tickets) + [t]
      ensures nextTicketId == old(nextTicketId) + 1
      ensures (Snapshot(), t) == InsertTicket(old(Snapshot()), ticketTypeId, enrollmentId)
    {
      InsertTicketConsistent(Snapshot(), ticketTypeId, enrollmentId);
      t := Ticket(nextTicketId, ticketTypeId, enrollmentId, RESERVED);
      tickets := tickets + [t];
      nextTicketId := nextTicketId + 1;
    }

    /** The service's `postTicket`: checks the enrollment, then the ticket
        type, then inserts the ticket and returns it merged with its type. */
    method PostTicket(userId: int, ticketTypeId: int) returns (r: Result<TicketsService.TicketView>)
      requires Valid()
      modifies this`tickets, this`nextTicketId
      ensures Valid()
      ensures (r, Snapshot()) == TicketsService.PostTicket(old(Snapshot()), userId, ticketTypeId)
      ensures r.Err? ==> tickets == old(tickets) && nextTicketId == old(nextTicketId)
      ensures r.Ok? ==> tickets == old(tickets) + [r.value.ticket]
      ensures r.Ok? ==> r.value.ticket.status == RESERVED && r.value.ticket.ticketTypeId == ticketTypeId
    {
      var enrollment := EnrollmentOf(Snapshot(), userId);
      if enrollment.None? {
        return Err(NotFound);
      }
      var ticketType := TypeOf(Snapshot(), ticketTypeId);
      if ticketType.None? {
        return Err(NotFound);
      }
      assert Tables.HasKey(enrollments, EnrollmentId, enrollment.value.id) by {
        var m :| 0 <= m < |enrollments| && enrollments[m] == enrollment.value;
        assert EnrollmentId(enrollments[m]) == enrollment.value.id;
      }
      var ticket := CreateTicket(ticketTypeId, enrollment.value.id);
      r := Ok(TicketsService.TicketView(ticket, ticketType));
    }
  }
}
