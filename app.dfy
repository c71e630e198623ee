/**
 * The booking routes of the web application: admission of a new booking,
 * declaration of an availability window and lookup of one booking. The
 * predicates `Availability.is_date_in_range` and `Availability.is_valid`
 * are not part of this model; they are passed in as functions.
 */
module App {
  import opened Wrappers
  import opened Period
  import opened Bookings
  import opened Availabilities

  /** The three ways new_booking can end for a POSTed request. */
  datatype Outcome = NoAvailability | Conflict | Admitted

  /** The two ways create_availability can end. */
  datatype CreateResult = Invalid | Created(availability: Availability)

  /** The two ways show_booking can end. */
  datatype ShowResult = NotFound | Shown(booking: Booking)

  /** The status every booking made by new_booking carries. */
  const Pending: string := "pending"

  /** is_date_in_range(window, start_date, end_date), left uninterpreted. */
  type InRange = (Availability, int, int) -> bool

  /** The form fields of a booking request. */
  datatype Request = Request(userId: int, spaceId: int, startDate: int, endDate: int)

  /** `any(a.is_date_in_range(start, end) for a in windows)`: some single window accepts the dates. */
  function AnyInRange(windows: seq<Availability>, inRange: InRange, startDate: int, endDate: int): (available: bool)
    ensures available <==> exists i :: 0 <= i < |windows| && inRange(windows[i], startDate, endDate)
  {
    if windows == [] then false
    else inRange(windows[0], startDate, endDate) || AnyInRange(windows[1..], inRange, startDate, endDate)
  }

  /**
   * The decision new_booking takes, over the whole availabilities table and
   * the whole bookings table: availability first, then the confirmed-overlap check.
   */
  function Decide(windows: seq<Availability>, rows: seq<Booking>, inRange: InRange,
                  spaceId: int, startDate: int, endDate: int): (o: Outcome)
    ensures o == NoAvailability <==>
      forall i :: 0 <= i < |windows| && windows[i].spaceId == spaceId ==> !inRange(windows[i], startDate, endDate)
    ensures o == Conflict <==>
      (exists i :: 0 <= i < |windows| && windows[i].spaceId == spaceId && inRange(windows[i], startDate, endDate)) &&
      (exists j :: 0 <= j < |rows| && rows[j].spaceId == spaceId && rows[j].status == Confirmed &&
         Overlaps(rows[j].startDate, rows[j].endDate, startDate, endDate))
    ensures o == Admitted <==>
      (exists i :: 0 <= i < |windows| && windows[i].spaceId == spaceId && inRange(windows[i], startDate, endDate)) &&
      (forall j :: 0 <= j < |rows| && rows[j].spaceId == spaceId && rows[j].status == Confirmed ==>
         !Overlaps(rows[j].startDate, rows[j].endDate, startDate, endDate))
  {
    var found := Find(windows, spaceId);
    var available := AnyInRange(found, inRange, startDate, endDate);
    assert available <==>
      exists i :: 0 <= i < |windows| && windows[i].spaceId == spaceId && inRange(windows[i], startDate, endDate) by {
      if available {
        var k :| 0 <= k < |found| && inRange(found[k], startDate, endDate);
        var i :| 0 <= i < |windows| && windows[i] == found[k];
        assert windows[i].spaceId == spaceId;
      }
      if exists i :: 0 <= i < |windows| && windows[i].spaceId == spaceId && inRange(windows[i], startDate, endDate) {
        var i :| 0 <= i < |windows| && windows[i].spaceId == spaceId && inRange(windows[i], startDate, endDate);
        var k :| 0 <= k < |found| && found[k] == windows[i];
      }
    }
    if !available then NoAvailability
    else if IsSpaceBooked(rows, spaceId, startDate, endDate) then Conflict
    else Admitted
  }

  /** The Booking object new_booking builds before it is stored. */
  function Draft(q: Request): Booking {
    Booking(None, q.userId, q.spaceId, q.startDate, q.endDate, Pending)
  }

  /** new_booking as a function of the two tables: the outcome and the bookings table afterwards. */
  function Book(t: Table, windows: seq<Availability>, inRange: InRange, q: Request): (r: (Outcome, Table))
    ensures r.0 == Decide(windows, t.rows, inRange, q.spaceId, q.startDate, q.endDate)
    ensures r.0 != Admitted ==> r.1 == t
    ensures r.0 == Admitted ==>
      r.1.rows == t.rows + [Booking(Some(t.nextId), q.userId, q.spaceId, q.startDate, q.endDate, Pending)]
    ensures TableValid(t) ==> TableValid(r.1)
  {
    var o := Decide(windows, t.rows, inRange, q.spaceId, q.startDate, q.endDate);
    (o, if o == Admitted then InsertBooking(t, Draft(q)) else t)
  }

  /** new_booking on a POSTed form: two checks with early returns, then one insert. */
  method NewBooking(bookingRepo: BookingRepository, availabilityRepo: AvailabilityRepository,
                    inRange: InRange, userId: int, spaceId: int, startDate: int, endDate: int)
    returns (o: Outcome)
    requires bookingRepo.Valid()
    modifies bookingRepo
    ensures bookingRepo.Valid()
    ensures (o, bookingRepo.Snapshot()) ==
      Book(old(bookingRepo.Snapshot()), availabilityRepo.windows, inRange, Request(userId, spaceId, startDate, endDate))
    ensures o != Admitted ==> bookingRepo.rows == old(bookingRepo.rows)
    ensures o == Admitted ==>
      |bookingRepo.rows| == |old(bookingRepo.rows)| + 1 &&
      bookingRepo.rows[..|old(bookingRepo.rows)|] == old(bookingRepo.rows) &&
      bookingRepo.rows[|old(bookingRepo.rows)|] ==
        Booking(Some(old(bookingRepo.nextId)), userId, spaceId, startDate, endDate, Pending)
  {
    var status := Pending;

    var availabilities := Find(availabilityRepo.windows, spaceId);
    var available := AnyInRange(availabilities, inRange, startDate, endDate);
    if !available {
      return NoAvailability;
    }

    if IsSpaceBooked(bookingRepo.rows, spaceId, startDate, endDate) {
      return Conflict;
    }

    var newBooking := Booking(None, userId, spaceId, startDate, endDate, status);
    bookingRepo.MakeBooking(newBooking);
    return Admitted;
  }

  /** create_availability as a function of the availabilities table. */
  function Declare(t: AvailabilityTable, isValid: Availability -> bool,
                   spaceId: int, availableFrom: int, availableTo: int): (r: (CreateResult, AvailabilityTable))
    ensures r.0 == Invalid <==> !isValid(Availability(None, spaceId, availableFrom, availableTo))
    ensures r.0 == Invalid ==> r.1 == t
    ensures r.0.Created? ==>
      r.0.availability == Availability(Some(t.nextId), spaceId, availableFrom, availableTo) &&
      r.1.windows == t.windows + [r.0.availability]
    ensures AvailabilityTableValid(t) ==> AvailabilityTableValid(r.1)
  {
    var availability := Availability(None, spaceId, availableFrom, availableTo);
    if !isValid(availability) then (Invalid, t)
    else
      var (stored, t') := InsertWindow(t, availability);
      (Created(stored), t')
  }

  /** create_availability: a window that is not valid is not stored. */
  method CreateAvailability(repo: AvailabilityRepository, isValid: Availability -> bool,
                            spaceId: int, availableFrom: int, availableTo: int)
    returns (r: CreateResult)
    requires repo.Valid()
    modifies repo
    ensures repo.Valid()
    ensures (r, repo.Snapshot()) == Declare(old(repo.Snapshot()), isValid, spaceId, availableFrom, availableTo)
    ensures r == Invalid <==> !isValid(Availability(None, spaceId, availableFrom, availableTo))
    ensures r == Invalid ==> repo.windows == old(repo.windows)
    ensures r.Created? ==>
      repo.windows == old(repo.windows) + [r.availability] &&
      r.availability == Availability(Some(old(repo.nextId)), spaceId, availableFrom, availableTo)
  {
    var availability := Availability(None, spaceId, availableFrom, availableTo);
    if !isValid(availability) {
      return Invalid;
    }
    availability := repo.Create(availability);
    return Created(availability);
  }

  /** show_booking: not found exactly when no row carries the id. */
  function ShowBooking(rows: seq<Booking>, bookingId: int): (shown: ShowResult)
    ensures shown == NotFound <==> forall i :: 0 <= i < |rows| ==> rows[i].id != Some(bookingId)
    ensures shown.Shown? ==> shown.booking in rows && shown.booking.id == Some(bookingId)
  {
    var booking := GetBookingByBookingId(rows, bookingId);
    if booking == None then NotFound else Shown(booking.value)
  }
}
