/** The booking service: a user's booking, looked up by the user's id. */
module BookingService {
  import opened Records
  import opened Tables
  import opened Store

  /** What the lookup exposes of a booking: its id and its Room row. */
  datatype BookingView = BookingView(id: int, room: Room)

  /** `getBookingByUserId`: the user's booking, or NotFound. */
  function GetBookingByUserId(db: Db, userId: int): (r: Result<BookingView>)
    requires BookingRoomsResolve(db)
    ensures r.Err? <==> !HasKey(db.bookings, BookingUser, userId)
    ensures r.Err? ==> r.error == NotFound
    ensures r.Ok? ==> exists b :: b in db.bookings && b.userId == userId && b.id == r.value.id && b.roomId == r.value.room.id
    ensures r.Ok? ==> r.value.room in db.rooms
  {
    match BookingOf(db, userId)
    case None => Err(NotFound)
    case Some(booking) =>
      assert HasKey(db.rooms, RoomId, booking.roomId) by {
        var i :| 0 <= i < |db.bookings| && db.bookings[i] == booking;
      }
      Ok(BookingView(booking.id, RoomOf(db, booking.roomId).value))
  }

  /** `userId` is unique on bookings, so at most one booking belongs to a
      user and the lookup returns that one, with the room it references. */
  lemma BookingFound(db: Db, b: Booking)
    requires Consistent(db)
    requires b in db.bookings
    ensures forall c :: c in db.bookings && c.userId == b.userId ==> c == b
    ensures GetBookingByUserId(db, b.userId).Ok?
    ensures GetBookingByUserId(db, b.userId).value.id == b.id
    ensures RoomOf(db, b.roomId).Some? && GetBookingByUserId(db, b.userId).value.room == RoomOf(db, b.roomId).value
  {
    FindUnique(db.bookings, BookingUser, b);
    forall c | c in db.bookings && c.userId == b.userId ensures c == b {
      FindUnique(db.bookings, BookingUser, c);
    }
  }
}
