# Event backend service rules in Dafny

This project models the decision logic of a small event-registration backend.
Users enroll in an event, buy a ticket of some ticket type, and may then see
the partner hotels and their own room booking. Its service layer is a set of
guard clauses over records read from the database:

- **Hotel access** (`getHotels`, `getHotelById`). A user may list hotels or read
  one hotel only if all of these hold: the user has an enrollment, the
  enrollment has a ticket, and the ticket's type includes a hotel and is not
  remote, and the ticket is `PAID`. The checks run in a fixed order and the
  first failure decides the error: `NotFound` for a missing enrollment or
  ticket, `PaymentRequired` for an ineligible ticket, and `NotFound` again for
  an empty hotel list or an unknown hotel. `getHotelById` first refuses a
  non-numeric id with `NotFound`.
- **Tickets** (`getTypes`, `getTicket`, `postTicket`). These list the ticket
  types, read the user's ticket merged with its type, and buy a ticket. A
  purchase inserts one `RESERVED` ticket for the user's enrollment.
- **Booking lookup** (`getBookingByUserId`). This returns the user's booking
  (its id and room), or `NotFound`.

Layout:

- `records.dfy` (`Records`): the entities, the errors, `Option`, `Result`.
- `tables.dfy` (`Tables`): a table is the sequence of its rows in storage order.
  `FindBy` is the single-column lookup that Prisma's `findFirst`/`findUnique`
  perform, with lemmas for unique columns and for appending a row.
- `store.dfy` (`Store`): `Db` is a snapshot of all tables. It defines the
  repository lookups, the ticket insertion, and `Consistent`. `Consistent`
  holds the schema's primary-key, unique and foreign-key constraints, and also
  the invariant of the ticket id counter: every ticket id is below the next id
  to be handed out.
- `hotels.dfy`, `tickets.dfy`, `booking.dfy`: the three services as functions
  of a snapshot. A read-only operation returns no new snapshot, so "the store is
  unchanged" holds by construction. `postTicket` returns the outcome together
  with the store afterwards.
- `backend.dfy` (`Backend.Database`): the database as an object with one field
  per table. `PostTicket` changes the ticket table in place. It is proved equal
  to the snapshot function and proved to keep `Consistent`.

An ineligible ticket fails with `PaymentRequired`
(`src/services/hotels-service.ts:10`, `:24`). `Forbidden` is defined in
`src/errors/forbidden-error.ts` but no modelled operation throws it. No
shown service checks room capacity or creates or changes a booking, so neither
is modelled.

Two relations are loaded through the schema's foreign keys: a ticket's
`TicketType` in the hotel gate, and a booking's `Room`. The operations that
dereference them require only that foreign key (`TicketTypesResolve`,
`BookingRoomsResolve`), because the database guarantees it. `getTicket` looks
up the type separately and does not check the result. So `TicketView` holds an
`Option<TicketType>`, and `GetTicket` proves that it is present whenever the
foreign key holds.

## Model

| member | source | states |
|---|---|---|
| `Tables.FirstIndex` | src/repositories/tickets-repository.ts:8-15 | `findFirst` finds the first row whose key matches: no earlier row matches, and None means no row matches |
| `Tables.FindBy` | src/repositories/tickets-repository.ts:24-31 | the row found carries the key and is in the table; None exactly when no row carries the key |
| `Tables.FindUnique` | src/repositories/booking-repository.ts:4-14 | on a unique column the lookup returns the one row that carries the key |
| `Tables.FindAppend` | src/repositories/tickets-repository.ts:8-15 | after a row is appended, a lookup returns the earlier match if one exists, else the new row if it matches, else nothing |
| `Tables.UniqueAppend` | src/repositories/tickets-repository.ts:33-41 | appending a row whose key is fresh keeps the column unique |
| `Store.InsertTicket` | src/repositories/tickets-repository.ts:33-41 | the insert appends exactly one ticket with the given type and enrollment and status RESERVED, takes the next autoincrement id, and changes no other table |
| `Store.EnrollmentsDistinct` | src/repositories/tickets-repository.ts:17-22 | enrollment lookup is by the unique userId, so distinct users have distinct enrollment ids |
| `HotelsService.CheckEntitlement` | src/services/hotels-service.ts:6-10 | NotFound without an enrollment, then NotFound without a ticket, then PaymentRequired unless includesHotel, not remote and PAID; passes exactly when the user is entitled |
| `HotelsService.GetHotels` | src/services/hotels-service.ts:5-15 | NotFound without an enrollment or a ticket; PaymentRequired for an ineligible ticket even when no hotel exists; for an entitled user, NotFound exactly when the hotel list is empty, else the stored list, which is non-empty; success implies entitlement |
| `HotelsService.GetHotelById` | src/services/hotels-service.ts:17-29 | a non-numeric id is NotFound whatever the user's records; otherwise the same gate as the list; for an entitled user, an error exactly when no hotel has the id, and that error is NotFound; a hotel returned is the stored one with that id; never Forbidden |
| `HotelsService.SameGate` | src/services/hotels-service.ts:20-24 | for a numeric id both operations fail with the same error when the user is not entitled |
| `HotelsService.HotelFound` | src/services/hotels-service.ts:26-28 | in a consistent store an entitled user reading an existing hotel's id gets exactly that hotel |
| `TicketsService.GetTypes` | src/services/tickets-service.ts:4-7 | exactly the stored ticket types, in order, none filtered out; never fails |
| `TicketsService.GetTicket` | src/services/tickets-service.ts:9-19 | NotFound without an enrollment (looked up by userId), then NotFound without a ticket; with an enrollment and a ticket it succeeds, returning the enrollment's first ticket (`findFirst`) merged with the type stored under its ticketTypeId, which is present whenever the foreign key holds |
| `TicketsService.PostTicket` | src/services/tickets-service.ts:21-31 | NotFound and no store change without an enrollment, checked before the ticket type; NotFound and no store change for an unknown type; otherwise exactly one RESERVED ticket for the user's enrollment and the given type, with the next autoincrement id, is appended, the counter advances by one, nothing else changes, and the result is that ticket merged with its type |
| `Store.InsertTicketConsistent` | src/repositories/tickets-repository.ts:33-41 | an insert whose ticket type and enrollment both exist keeps the schema's constraints and the id counter's invariant, and the new id is held by no earlier ticket |
| `TicketsService.PostTicketConsistent` | src/services/tickets-service.ts:21-31 | a purchase, which checks the enrollment and the type before inserting, keeps the schema's constraints and the id counter's invariant, and the new ticket's id is held by no earlier ticket |
| `TicketsService.PostThenGet` | src/services/tickets-service.ts:9-31 | after a purchase the buyer reads the purchased ticket if the enrollment had none, otherwise the earlier one |
| `TicketsService.PostLeavesOthers` | src/services/tickets-service.ts:21-31 | a purchase does not change any other user's ticket lookup |
| `TicketsService.FreshTicketGrantsNoHotel` | src/services/hotels-service.ts:8-10 | a user whose first ticket was just bought is refused hotels with PaymentRequired, since the ticket is RESERVED |
| `BookingService.GetBookingByUserId` | src/services/booking-service.ts:4-9 | NotFound exactly when no booking belongs to the user; otherwise the id of a booking of that user and its stored room |
| `BookingService.BookingFound` | src/repositories/booking-repository.ts:4-14 | userId is unique on bookings, so at most one booking matches, and the lookup returns its id and the room it references |
| `Backend.Database.CreateTicket` | src/repositories/tickets-repository.ts:33-41 | given that the referenced ticket type and enrollment exist, the ticket table gains exactly the new RESERVED ticket with the next id, nothing else in the object changes, and `Valid()` is kept |
| `Backend.Database.PostTicket` | src/services/tickets-service.ts:21-31 | in place, the outcome and new tables equal `TicketsService.PostTicket` on the old tables; the ticket table is unchanged on failure and grows by the returned ticket on success; the schema constraints are kept |

## Left out

- HTTP routing, controllers, token authentication and the mapping of errors to
  status codes are not modelled. Outcomes are the `Result`/`Outcome` datatypes.
- `async`/`await` sequencing and concurrent requests are not modelled. Each
  operation is one atomic step on one snapshot.
- The numeric parsing of the hotel id and JavaScript's `isNaN` are not modelled.
  The parsed id is an `Option<int>`, with `None` for "not a number".
- `enrollmentRepository.findWithAddressByUserId` and
  `ticketsRepository.findTicketByEnrollmentId` are not among the shown files.
  They are modelled as `EnrollmentOf` and `TicketOf`, assumed to be the same
  first-match lookups as the ticket repository's `getEnrollment` and
  `getTicket`, with the ticket's type loaded through its foreign key.
- `hotelsRepository.getHotelById` is called at `src/services/hotels-service.ts:26`,
  but the shown `src/repositories/hotels-repository.ts:17-19` exports only
  `getHotels`. It is modelled as `HotelOf`, an assumed lookup of the first hotel
  with the id. Likewise `src/routers/hotels-router.ts:2` imports a
  `getHotelByID` that the shown hotels controller does not define.
- Prisma's `findFirst` without an `orderBy` is taken to return the first row in
  storage order. An enrollment may hold several tickets, because `postTicket`
  does not refuse a second purchase, and the lookups return its first ticket.
- `getHotelById` may return the hotel with related records. Those queries are
  not shown, so the model returns the hotel row.
- `postBooking`, `getRoomById` and `countBookingsByRoom`
  (`src/repositories/booking-repository.ts:16-39`) are called by no modelled
  service. So room capacity and booking creation or change are not modelled.
  Rooms appear only as a booking's `Room` relation.
- `forbiddenError` is defined but thrown by no modelled service.
- The request-body schema for ticket purchase is not modelled. It only requires
  an integer `ticketTypeId`.
- Columns not read by the services are not modelled: addresses, personal data,
  `createdAt`/`updatedAt`, and prices beyond the type record.
- Database failures are not modelled.
- The 32-bit width of database integer ids is not modelled. Ids are unbounded
  `int`s, and the ticket id counter never wraps.
