/** The ticket service: listing ticket types, reading a user's ticket, and
    buying one. Buying is stated here on snapshots (the store before and the
    store after); Backend.Database.PostTicket performs it in place. */
module TicketsService {
  import opened Records
  import opened Tables
  import opened Store
  import HotelsService

  /** A ticket merged with its type record, as the service returns it.
      `getTicket` does not check that the type lookup found a row, so the
      type is optional here; in a consistent store it is always present. */
  datatype TicketView = TicketView(ticket: Ticket, ticketType: Option<TicketType>)

  /** `getTypes`: every stored ticket type, in storage order, none filtered out. */
  function GetTypes(db: Db): (r: seq<TicketType>)
    ensures r == db.ticketTypes
  {
    db.ticketTypes
  }

  /** `getTicket`: the first ticket of the user's enrollment, with its type. */
  function GetTicket(db: Db, userId: int): (r: Result<TicketView>)
    ensures EnrollmentOf(db, userId).None? ==> r == Err(NotFound)
    ensures (EnrollmentOf(db, userId).Some? && TicketOf(db, EnrollmentOf(db, userId).value.id).None?)
            ==> r == Err(NotFound)
    // with an enrollment and a ticket the lookup succeeds, on the enrollment's first ticket
    ensures (EnrollmentOf(db, userId).Some? && TicketOf(db, EnrollmentOf(db, userId).value.id).Some?)
            ==> r.Ok? && r.value.ticket == TicketOf(db, EnrollmentOf(db, userId).value.id).value
    ensures r.Err? ==> r.error == NotFound
    ensures r.Ok? ==> && EnrollmentOf(db, userId).Some?
                      && r.value.ticket in db.tickets
                      && r.value.ticket.enrollmentId == EnrollmentOf(db, userId).value.id
                      && r.value.ticketType == TypeOf(db, r.value.ticket.ticketTypeId)
    ensures r.Ok? && TicketTypesResolve(db) ==>
              r.value.ticketType.Some? && r.value.ticketType.value.id == r.value.ticket.ticketTypeId
  {
    match EnrollmentOf(db, userId)
    case None => Err(NotFound)
    case Some(enrollment) =>
      match TicketOf(db, enrollment.id)
      case None => Err(NotFound)
      case Some(ticket) =>
        assert TicketTypesResolve(db) ==> HasKey(db.ticketTypes, TypeId, ticket.ticketTypeId) by {
          var i :| 0 <= i < |db.tickets| && db.tickets[i] == ticket;
        }
        Ok(TicketView(ticket, TypeOf(db, ticket.ticketTypeId)))
  }

  /** `postTicket`: the outcome for the caller and the store afterwards. */
  function PostTicket(db: Db, userId: int, ticketTypeId: int): (out: (Result<TicketView>, Db))
    ensures EnrollmentOf(db, userId).None? ==> out == (Err(NotFound), db)
    // the enrollment is checked before the ticket type
    ensures (EnrollmentOf(db, userId).Some? && TypeOf(db, ticketTypeId).None?) ==> out == (Err(NotFound), db)
    ensures out.0.Ok? <==> EnrollmentOf(db, userId).Some? && TypeOf(db, ticketTypeId).Some?
    ensures out.0.Err? ==> out.0.error == NotFound && out.1 == db
    ensures out.0.Ok? ==>
              var t := out.0.value.ticket;
              && t.ticketTypeId == ticketTypeId
              && t.enrollmentId == EnrollmentOf(db, userId).value.id
              && t.status == RESERVED
              && t.id == db.nextTicketId
              && out.1.nextTicketId == db.nextTicketId + 1
              && out.0.value.ticketType == TypeOf(db, ticketTypeId)
              && out.1.tickets == db.tickets + [t]
              && out.1 == db.(tickets := out.1.tickets, nextTicketId := out.1.nextTicketId)
  {
    match EnrollmentOf(db, userId)
    case None => (Err(NotFound), db)
    case Some(enrollment) =>
      match TypeOf(db, ticketTypeId)
      case None => (Err(NotFound), db)
      case Some(ticketType) =>
        var (db', ticket) := InsertTicket(db, ticketTypeId, enrollment.id);
        (Ok(TicketView(ticket, Some(ticketType))), db')
  }

  /** A purchase keeps the schema's constraints and the id counter's
      invariant, and the new ticket's id is one no earlier ticket has. */
  lemma PostTicketConsistent(db: Db, userId: int, ticketTypeId: int)
    requires Consistent(db)
    ensures Consistent(PostTicket(db, userId, ticketTypeId).1)
    ensures PostTicket(db, userId, ticketTypeId).0.Ok? ==>
              !HasKey(db.tickets, TicketId, PostTicket(db, userId, ticketTypeId).0.value.ticket.id)
  {
    if PostTicket(db, userId, ticketTypeId).0.Ok? {
      var e := EnrollmentOf(db, userId).value;
      assert HasKey(db.enrollments, EnrollmentId, e.id) by {
        var m :| 0 <= m < |db.enrollments| && db.enrollments[m] == e;
        assert EnrollmentId(db.enrollments[m]) == e.id;
      }
      InsertTicketConsistent(db, ticketTypeId, e.id);
    }
  }

  /** After a purchase, reading the buyer's ticket returns the purchased one
      when the enrollment had no ticket before, and the earlier one
      otherwise: the lookup returns the enrollment's first ticket. */
  lemma PostThenGet(db: Db, userId: int, ticketTypeId: int)
    requires PostTicket(db, userId, ticketTypeId).0.Ok?
    ensures var (r, db') := PostTicket(db, userId, ticketTypeId);
            GetTicket(db', userId) == if GetTicket(db, userId).Ok? then GetTicket(db, userId) else r
  {
    var (r, db') := PostTicket(db, userId, ticketTypeId);
    var e := EnrollmentOf(db, userId).value;
    FindAppend(db.tickets, r.value.ticket, TicketEnrollment, e.id);
  }

  /** A purchase leaves every other user's ticket as it was. */
  lemma PostLeavesOthers(db: Db, userId: int, ticketTypeId: int, other: int)
    requires Consistent(db)
    requires other != userId
    ensures GetTicket(PostTicket(db, userId, ticketTypeId).1, other) == GetTicket(db, other)
  {
    var (r, db') := PostTicket(db, userId, ticketTypeId);
    if r.Ok? && EnrollmentOf(db, other).Some? {
      var e := EnrollmentOf(db, userId).value;
      var o := EnrollmentOf(db, other).value;
      EnrollmentsDistinct(db, userId, other);
      FindAppend(db.tickets, r.value.ticket, TicketEnrollment, o.id);
    }
  }

  /** A ticket just bought is RESERVED, so a user whose first ticket it is
      is refused hotel access with PaymentRequired until it is paid. */
  lemma FreshTicketGrantsNoHotel(db: Db, userId: int, ticketTypeId: int)
    requires Consistent(db)
    requires PostTicket(db, userId, ticketTypeId).0.Ok?
    requires GetTicket(db, userId).Err?
    ensures TicketTypesResolve(PostTicket(db, userId, ticketTypeId).1)
    ensures HotelsService.GetHotels(PostTicket(db, userId, ticketTypeId).1, userId) == Err(PaymentRequired)
  {
    PostTicketConsistent(db, userId, ticketTypeId);
    PostThenGet(db, userId, ticketTypeId);
  }
}
