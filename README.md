# Booking admission for a space-rental site, in Dafny

This project models the booking core of a small web application where users
rent out spaces and book them for date ranges. It covers:

- the bookings table and its repository: list all rows, insert a row, look a
  row up by id, and the conflict query `is_space_booked`;
- the SQL `OVERLAPS` predicate that query uses, as PostgreSQL evaluates it
  (section 9.9 of the PostgreSQL manual, after the overlaps predicate of
  ISO/IEC 9075-2): each pair is swapped so that start <= end, then the pairs
  overlap iff the starts are equal or each start lies strictly before the
  other period's end. Periods are therefore half-open. A zero-length period
  is a single instant;
- the `new_booking` route. It checks availability first: some single window of
  the space must accept the dates. Then it checks that no confirmed booking of
  the space overlaps them. On success it stores one `"pending"` booking;
- the validity gate of `create_availability` and the not-found branch of
  `show_booking`.

Dates are whole day numbers. Tables are sequences of rows in storage order.
Each table carries the next value of its id sequence, because on insert the
database assigns the id, not the caller. Drafts built by the routes carry id
`None`, as the Python objects do.

`Availability.is_date_in_range` and `Availability.is_valid` are passed in as
functions and left uninterpreted. Nothing in the model fixes what "in range"
or "valid" means.

Layout: `wrappers.dfy` (Option), `query.dfy` (SQL `WHERE` as an ordered
filter), `period.dfy` (`OVERLAPS`), `booking_repository.dfy`,
`availability.dfy` (the two repository operations the routes use),
`app.dfy` (the routes), `app_properties.dfy` (properties over requests and
histories) and `scenarios.dfy` (worked examples).

The main design fact is proved in `AppProperties.RouteNeverConflicts`. Start
from a bookings table with no confirmed rows. Then no history of booking
requests and availability declarations ends in `Conflict`. The route only
stores `pending` rows, and the conflict query only counts `confirmed` ones.
`AppProperties.GuardWouldProtectConfirmed` shows the other half: if admitted
bookings were stored as `confirmed`, each admission would preserve "no two
confirmed bookings of one space overlap".

The model follows the code where it differs from the usual reading of the
booking rules:

- Date ranges are often read as closed, with an inclusive overlap test. The
  code uses `OVERLAPS`, which is half-open. `Period.OverlapsIsStricterThanClosed`
  proves the difference: days 3-5 and 5-7 meet when both ends are included,
  but they do not `OVERLAPS`.
- `new_booking` does not check that `start <= end`. `OVERLAPS` swaps a
  reversed pair instead.
- The route redirects after storing the booking and does not return it, so
  `Admitted` carries no value.
- Availability is not a fixed containment test. The code calls
  `is_date_in_range`, whose body is not part of this model.

## Model

| member | source | states |
|---|---|---|
| `Query.Where` | lib/booking_repository.py:53-59 | a `SELECT ... WHERE` returns only rows of the table that satisfy the condition, returns every such row, and its first result is the first satisfying row in storage order |
| `Period.Ordered` | lib/booking_repository.py:57 | before comparing, `OVERLAPS` puts each pair in order: start <= end, same two ends |
| `Period.Overlaps` | lib/booking_repository.py:57 | PostgreSQL's three-way evaluation of `OVERLAPS` equals "starts equal, or each start strictly before the other's end" on the ordered pairs |
| `Period.OverlapsIffShared` | lib/booking_repository.py:57 | `OVERLAPS` holds iff the two periods share an instant, where a period is the half-open range [start, end) or the single instant start when start = end |
| `Period.OverlapsSymmetric` | lib/booking_repository.py:57 | the test is symmetric in its two periods |
| `Period.ReversedIsSwapped` | lib/booking_repository.py:57 | a reversed pair (start > end) gives the same answer as the swapped pair, for either operand |
| `Period.EqualStartsOverlap` | lib/booking_repository.py:57 | equal ordered starts always overlap, zero-length periods included |
| `Period.HalfOpenExamples` | lib/booking_repository.py:57 | [3,5] does not overlap [5,7]; [3,5] overlaps [4,6]; an instant at another period's end does not overlap it |
| `Period.OverlapsIsStricterThanClosed` | lib/booking_repository.py:57 | `OVERLAPS` implies that the inclusive ranges meet, and the converse fails for [3,5] and [5,7] |
| `Bookings.InsertBooking` | lib/booking_repository.py:23-36 | the insert adds exactly one row at the end, with the given user, space, dates and status and the next id of the sequence; earlier rows are unchanged; on a valid table ids stay unique |
| `Bookings.Blocks` | lib/booking_repository.py:55-57 | a row meets the WHERE clause of `is_space_booked` iff it belongs to the space, has status `'confirmed'` and its period shares an instant with the requested one |
| `Bookings.IsSpaceBooked` | lib/booking_repository.py:52-60 | true iff some row has the same space id, status `'confirmed'` and a period that `OVERLAPS` the requested one |
| `Bookings.GetBookingByBookingId` | lib/booking_repository.py:38-50 | None iff no row has that id; otherwise the first row with that id |
| `Bookings.LookupFindsTheRow` | lib/booking_repository.py:38-50 | with unique ids, the lookup of a stored row's id returns exactly that row |
| `Bookings.OnlyConfirmedRowsOfTheSpaceCount` | lib/booking_repository.py:55-56 | a row whose status is not `'confirmed'`, or that belongs to another space, never changes the answer of `is_space_booked`, wherever it is stored |
| `Bookings.BookingRepository.constructor` | lib/booking_repository.py:4-5 | the repository works on the table the connection holds |
| `Bookings.BookingRepository.GetAllBookings` | lib/booking_repository.py:7-21 | one booking per stored row, in storage order, with all six fields copied unchanged |
| `Bookings.BookingRepository.MakeBooking` | lib/booking_repository.py:23-36 | the table afterwards is the insert of the given five fields; nothing is validated or returned; ids stay unique |
| `Availabilities.Find` | app.py:314 | `find(space_id)` returns only windows of that space and every window of that space |
| `Availabilities.FindIgnoresOtherSpaces` | app.py:314 | a window stored for another space, at any position, does not change what `find` returns |
| `Availabilities.InsertWindow` | app.py:274 | `create` stores the window at the end with the next id of the sequence and its space and dates unchanged; on a valid table that id belongs to no earlier window and ids stay unique |
| `Availabilities.AvailabilityRepository.constructor` | app.py:263 | the repository works on the table the connection holds, whose ids are present, unique and below the id sequence |
| `Availabilities.AvailabilityRepository.Create` | app.py:274 | the table afterwards is the insert of the window; the window is returned with its new id; ids stay unique |
| `App.AnyInRange` | app.py:315 | `any` is true iff some single window satisfies `is_date_in_range` for the dates |
| `App.Decide` | app.py:313-321 | NoAvailability iff no window of the space accepts the dates, whatever the bookings are, so availability has priority; Conflict iff some window accepts and some confirmed booking of the space overlaps; Admitted iff some window accepts and no confirmed booking of the space overlaps |
| `App.Book` | app.py:299-327 | new_booking over the two tables: the outcome is `Decide`'s; the bookings table is unchanged unless admitted, and on admission it gains exactly the pending row with the request's fields and the next id; ids stay unique |
| `App.NewBooking` | app.py:299-327 | outcome as `Decide`; on NoAvailability or Conflict the bookings table is unchanged; on Admitted exactly one row is appended with the request's user, space and dates and status `"pending"`, and earlier rows are unchanged |
| `App.CreateAvailability` | app.py:260-275 | a window failing `is_valid` is not stored; otherwise exactly one window is stored and returned with its new id |
| `App.Declare` | app.py:260-275 | create_availability over the availabilities table: Invalid iff the draft fails `is_valid`, and then the table is unchanged; otherwise exactly one window with the next id is appended and returned; ids stay unique |
| `App.ShowBooking` | app.py:288-296 | not found iff no row carries the id; otherwise a stored row with that id |
| `AppProperties.OtherSpacesWindowsIgnored` | app.py:314-315 | windows declared for other spaces never change the outcome |
| `AppProperties.UnconfirmedBookingsIgnored` | app.py:320-321 | pending bookings and bookings of other spaces never change the outcome |
| `AppProperties.NoConflictWithoutConfirmed` | app.py:320-321 | with no confirmed bookings stored, the outcome is never Conflict |
| `AppProperties.Handle` | app.py:260-327 | one request to one of the two write routes (new_booking, create_availability): each route answers in its own kind, changes only its own table and only appends to it |
| `AppProperties.Run` | app.py:260-327 | requests to the two write routes handled one after another, one response each; a history never removes or rewrites a stored row or window |
| `AppProperties.HandleAddsNoConfirmed` | app.py:311 | handling a booking request or an availability declaration stores no confirmed booking |
| `AppProperties.RouteNeverConflicts` | app.py:311-324 | from a table without confirmed bookings, every history of requests through the two write routes yields no Conflict and leaves no confirmed booking |
| `AppProperties.AdmissionKeepsExclusive` | app.py:320-324 | admission keeps "no two confirmed bookings of one space overlap" |
| `AppProperties.GuardWouldProtectConfirmed` | app.py:320-324 | an admitted booking stored as `'confirmed'` would still keep confirmed bookings of one space from overlapping |
| `Scenarios.InsideTheWindowIsAdmitted` | app.py:313-324 | window days 1-10, request 3-5, no bookings: Admitted |
| `Scenarios.PastTheWindowEndIsNoAvailability` | app.py:313-318 | window days 1-10, request 9-12: NoAvailability |
| `Scenarios.OverlappingAConfirmedStayIsConflict` | app.py:313-321 | confirmed stay 3-5, request 4-6 inside the window: Conflict |
| `Scenarios.AfterAConfirmedStayIsAdmitted` | app.py:313-324 | confirmed stay 3-5, requests 6-8 and 5-7: both Admitted (half-open periods) |
| `Scenarios.AcrossAdjacentWindowsIsNoAvailability` | app.py:314-318 | windows 1-5 and 6-10, request 4-7: NoAvailability, because windows are not merged |
| `Scenarios.PendingStayDoesNotBlock` | app.py:320-321 | a pending stay on the same days does not block the request |

## Left out

- Flask routing, templates, redirects, the session and `login_required` (app.py:47-53) are web plumbing. The GET branch of `new_booking`, which only renders a form, is left out for the same reason.
- Registration, login and space creation are left out. They are CRUD over `UserRepository` and `SpaceRepository`, which are not part of this model. Space creation reads the session key `"user.id"`, which is never set (login sets `"user_id"`), so every space gets owner None.
- Date parsing with `strptime` and `int()` on form fields are library calls, so dates are day numbers and ids are integers. A malformed field raises in the source and is not modelled.
- `user_id` is taken from the form as a string and passed to the INSERT unconverted. The model takes it as an integer and does not model the database's coercion or its failure.
- The database connection and the SQL engine are left out. Tables are in-memory sequences in storage order. `SELECT` without `ORDER BY` has no guaranteed order in SQL. NULL columns and storage errors are not modelled.
- `Availabilities.AvailabilityRepository.constructor` requires ids that are present, unique and below the id sequence, as the bookings repository does; lib/availability_repository.py is not part of this model, so this is assumed of its table.
- `Bookings.BookingRepository.constructor` requires ids that are present, unique and below the id sequence. This is what the primary key and its serial sequence give; it is not checked by the source.
- lib/availability.py is not part of this model. `is_date_in_range` and `is_valid` are function parameters. `generate_errors` and the error page it feeds are left out; only the fact that nothing is stored is modelled.
- lib/availability_repository.py is not part of this model. Its `find` is modelled as the windows of the space in storage order, and its `create` as an insert with the next id of the sequence. Its other queries (`all`, `find_by_id`) are not used by the modelled routes.
- lib/booking.py is not part of this model. `show_booking` tests `if not booking`; the model assumes a `Booking` object is always truthy, so only None is "not found".
- The check-then-insert race between concurrent requests is left out. Each request is modelled as one atomic sequential call.
- A `start <= end` validation and a closed-interval overlap test are not modelled as behaviour, because the code does neither (see above).
