/** The hotel-access gate: listing hotels, or reading one hotel, is allowed
    only to a user with an enrollment whose ticket is paid, in person, and
    includes a hotel. The checks run in a fixed order and the first that fails
    decides the error. Both operations only read the store: they are
    functions of a snapshot and return no new one. */
module HotelsService {
  import opened Records
  import opened Tables
  import opened Store

  /** The ticket grants hotel access. */
  predicate Eligible(t: Ticket, ty: TicketType) {
    ty.includesHotel && !ty.isRemote && t.status == PAID
  }

  /** Every check before the hotel lookup passes: enrollment, ticket, and an
      eligible ticket of that enrollment. */
  predicate Entitled(db: Db, userId: int) {
    && EnrollmentOf(db, userId).Some?
    && TicketOf(db, EnrollmentOf(db, userId).value.id).Some?
    && var t := TicketOf(db, EnrollmentOf(db, userId).value.id).value;
       TypeOf(db, t.ticketTypeId).Some? && Eligible(t, TypeOf(db, t.ticketTypeId).value)
  }

  /** The guard clauses shared by both operations, in the source's order. */
  function CheckEntitlement(db: Db, userId: int): (r: Outcome)
    requires TicketTypesResolve(db)
    ensures EnrollmentOf(db, userId).None? ==> r == Fail(NotFound)
    ensures EnrollmentOf(db, userId).Some? && TicketOf(db, EnrollmentOf(db, userId).value.id).None?
            ==> r == Fail(NotFound)
    ensures EnrollmentOf(db, userId).Some? && TicketOf(db, EnrollmentOf(db, userId).value.id).Some?
            ==> (r == Pass || r == Fail(PaymentRequired))
    ensures r == Pass <==> Entitled(db, userId)
  {
    match EnrollmentOf(db, userId)
    case None => Fail(NotFound)
    case Some(enrollment) =>
      match TicketOf(db, enrollment.id)
      case None => Fail(NotFound)
      case Some(ticket) =>
        // the TicketType relation is loaded with the ticket
        assert HasKey(db.ticketTypes, TypeId, ticket.ticketTypeId) by {
          var i :| 0 <= i < |db.tickets| && db.tickets[i] == ticket;
        }
        var ticketType := TypeOf(db, ticket.ticketTypeId).value;
        if !ticketType.includesHotel || ticketType.isRemote || ticket.status != PAID then Fail(PaymentRequired)
        else Pass
  }

  /** `getHotels`: the hotel list for an entitled user. */
  function GetHotels(db: Db, userId: int): (r: Result<seq<Hotel>>)
    requires TicketTypesResolve(db)
    ensures EnrollmentOf(db, userId).None? ==> r == Err(NotFound)
    ensures EnrollmentOf(db, userId).Some? && TicketOf(db, EnrollmentOf(db, userId).value.id).None?
            ==> r == Err(NotFound)
    // an ineligible ticket is reported whether or not any hotel exists
    ensures (EnrollmentOf(db, userId).Some? && TicketOf(db, EnrollmentOf(db, userId).value.id).Some?
             && !Entitled(db, userId)) ==> r == Err(PaymentRequired)
    ensures Entitled(db, userId) ==> (r.Err? <==> db.hotels == [])
    ensures Entitled(db, userId) && r.Err? ==> r.error == NotFound
    ensures r.Ok? ==> Entitled(db, userId) && r.value == db.hotels && |r.value| > 0
  {
    match CheckEntitlement(db, userId)
    case Fail(e) => Err(e)
    case Pass =>
      var hotels := db.hotels;
      if |hotels| == 0 then Err(NotFound) else Ok(hotels)
  }

  /** `getHotelById`: one hotel for an entitled user. `hotelId` is the
      route parameter after numeric parsing, `None` when it is not a number. */
  function GetHotelById(db: Db, hotelId: Option<int>, userId: int): (r: Result<Hotel>)
    requires TicketTypesResolve(db)
    // a non-numeric id is refused before the user's records are looked at
    ensures hotelId.None? ==> r == Err(NotFound)
    ensures hotelId.Some? && EnrollmentOf(db, userId).None? ==> r == Err(NotFound)
    ensures (hotelId.Some? && EnrollmentOf(db, userId).Some?
             && TicketOf(db, EnrollmentOf(db, userId).value.id).None?) ==> r == Err(NotFound)
    // an ineligible ticket is reported whether or not the hotel exists
    ensures (hotelId.Some? && EnrollmentOf(db, userId).Some?
             && TicketOf(db, EnrollmentOf(db, userId).value.id).Some?
             && !Entitled(db, userId)) ==> r == Err(PaymentRequired)
    ensures hotelId.Some? && Entitled(db, userId) ==> (r.Err? <==> !HasKey(db.hotels, HotelId, hotelId.value))
    ensures hotelId.Some? && Entitled(db, userId) && r.Err? ==> r.error == NotFound
    ensures r.Ok? ==> hotelId.Some? && Entitled(db, userId) && r.value in db.hotels && r.value.id == hotelId.value
    ensures r.Err? ==> r.error == NotFound || r.error == PaymentRequired
  {
    match hotelId
    case None => Err(NotFound)
    case Some(id) =>
      match CheckEntitlement(db, userId)
      case Fail(e) => Err(e)
      case Pass =>
        match HotelOf(db, id)
        case None => Err(NotFound)
        case Some(hotel) => Ok(hotel)
  }

  /** Both operations apply the same gate: for a numeric id they fail with
      the same error unless the user is entitled, and then they differ only
      in whether the hotel list is non-empty or the requested hotel exists. */
  lemma SameGate(db: Db, hotelId: int, userId: int)
    requires TicketTypesResolve(db)
    ensures !Entitled(db, userId) ==>
      GetHotels(db, userId).Err? && GetHotelById(db, Some(hotelId), userId).Err?
      && GetHotels(db, userId).error == GetHotelById(db, Some(hotelId), userId).error
    ensures Entitled(db, userId) && GetHotelById(db, Some(hotelId), userId).Ok? ==> GetHotels(db, userId).Ok?
  {
    if Entitled(db, userId) && GetHotelById(db, Some(hotelId), userId).Ok? {
      assert GetHotelById(db, Some(hotelId), userId).value in db.hotels;
    }
  }

  /** In a consistent store an entitled user reads exactly the stored hotel
      under each existing id. */
  lemma HotelFound(db: Db, h: Hotel, userId: int)
    requires Consistent(db)
    requires h in db.hotels && Entitled(db, userId)
    ensures GetHotelById(db, Some(h.id), userId) == Ok(h)
  {
    FindUnique(db.hotels, HotelId, h);
  }
}
