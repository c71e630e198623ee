/**
 * What the booking routes guarantee over single requests and over whole
 * histories of requests.
 */
module AppProperties {
  import opened Period
  import opened Bookings
  import opened Availabilities
  import opened App

  /** A window declared for another space never changes the decision. */
  lemma OtherSpacesWindowsIgnored(before: seq<Availability>, w: Availability, after: seq<Availability>,
                                 rows: seq<Booking>, inRange: InRange,
                                 spaceId: int, startDate: int, endDate: int)
    requires w.spaceId != spaceId
    ensures Decide(before + [w] + after, rows, inRange, spaceId, startDate, endDate) ==
            Decide(before + after, rows, inRange, spaceId, startDate, endDate)
  {
    FindIgnoresOtherSpaces(before, w, after, spaceId);
  }

  /** A pending booking, or any booking of another space, never changes the decision. */
  lemma UnconfirmedBookingsIgnored(windows: seq<Availability>, before: seq<Booking>, x: Booking, after: seq<Booking>,
                                  inRange: InRange, spaceId: int, startDate: int, endDate: int)
    requires x.status != Confirmed || x.spaceId != spaceId
    ensures Decide(windows, before + [x] + after, inRange, spaceId, startDate, endDate) ==
            Decide(windows, before + after, inRange, spaceId, startDate, endDate)
  {
    OnlyConfirmedRowsOfTheSpaceCount(before, x, after, spaceId, startDate, endDate);
  }

  /** No stored booking has status 'confirmed'. */
  predicate NoneConfirmed(rows: seq<Booking>) {
    forall i :: 0 <= i < |rows| ==> rows[i].status != Confirmed
  }

  /** Without confirmed bookings the conflict branch cannot be taken. */
  lemma NoConflictWithoutConfirmed(windows: seq<Availability>, rows: seq<Booking>, inRange: InRange,
                                   spaceId: int, startDate: int, endDate: int)
    requires NoneConfirmed(rows)
    ensures Decide(windows, rows, inRange, spaceId, startDate, endDate) != Conflict
  {
  }

  /** One request to either write route. */
  datatype Event =
    | BookEvent(request: Request)
    | DeclareEvent(spaceId: int, availableFrom: int, availableTo: int)

  datatype Response = Booked(outcome: Outcome) | Declared(result: CreateResult)

  /** The two tables the write routes work on. */
  datatype World = World(bookings: Table, availability: AvailabilityTable)

  /** One request to one write route; each route changes only its own table and only appends to it. */
  function Handle(w: World, inRange: InRange, isValid: Availability -> bool, ev: Event): (r: (Response, World))
    ensures ev.BookEvent? ==> r.0.Booked? && r.1.availability == w.availability
    ensures ev.DeclareEvent? ==> r.0.Declared? && r.1.bookings == w.bookings
    ensures w.bookings.rows <= r.1.bookings.rows && w.availability.windows <= r.1.availability.windows
  {
    match ev
    case BookEvent(q) =>
      var (o, t) := Book(w.bookings, w.availability.windows, inRange, q);
      (Booked(o), w.(bookings := t))
    case DeclareEvent(spaceId, availableFrom, availableTo) =>
      var (c, a) := Declare(w.availability, isValid, spaceId, availableFrom, availableTo);
      (Declared(c), w.(availability := a))
  }

  /** Requests handled one after another, each as one atomic call. */
  function Run(w: World, inRange: InRange, isValid: Availability -> bool, events: seq<Event>): (r: (seq<Response>, World))
    ensures |r.0| == |events|
    // a history never removes or rewrites a stored row or window
    ensures w.bookings.rows <= r.1.bookings.rows && w.availability.windows <= r.1.availability.windows
    decreases |events|
  {
    if events == [] then ([], w)
    else
      var (resp, w1) := Handle(w, inRange, isValid, events[0]);
      var (rest, wn) := Run(w1, inRange, isValid, events[1..]);
      ([resp] + rest, wn)
  }

  /** Handling one request adds no confirmed booking. */
  lemma HandleAddsNoConfirmed(w: World, inRange: InRange, isValid: Availability -> bool, ev: Event)
    requires NoneConfirmed(w.bookings.rows)
    ensures NoneConfirmed(Handle(w, inRange, isValid, ev).1.bookings.rows)
  {
  }

  /**
   * The design gap: starting from a table without confirmed bookings, any
   * history of booking requests and availability declarations never ends in
   * Conflict, because the route only stores 'pending' rows and the conflict
   * query only counts 'confirmed' ones.
   */
  lemma {:induction false} RouteNeverConflicts(w: World, inRange: InRange, isValid: Availability -> bool, events: seq<Event>)
    requires NoneConfirmed(w.bookings.rows)
    ensures forall k :: 0 <= k < |events| ==> Run(w, inRange, isValid, events).0[k] != Booked(Conflict)
    ensures NoneConfirmed(Run(w, inRange, isValid, events).1.bookings.rows)
    decreases |events|
  {
    if events != [] {
      var (resp, w1) := Handle(w, inRange, isValid, events[0]);
      HandleAddsNoConfirmed(w, inRange, isValid, events[0]);
      if events[0].BookEvent? {
        var q := events[0].request;
        NoConflictWithoutConfirmed(w.availability.windows, w.bookings.rows, inRange, q.spaceId, q.startDate, q.endDate);
      }
      RouteNeverConflicts(w1, inRange, isValid, events[1..]);
      var rs := Run(w, inRange, isValid, events).0;
      assert rs == [resp] + Run(w1, inRange, isValid, events[1..]).0;
      forall k | 0 <= k < |events| ensures rs[k] != Booked(Conflict) {
        if k > 0 { assert rs[k] == Run(w1, inRange, isValid, events[1..]).0[k - 1]; }
      }
    }
  }

  /** No two confirmed bookings of one space overlap. */
  predicate Exclusive(rows: seq<Booking>) {
    forall i, j ::
      (0 <= i < j < |rows| && rows[i].spaceId == rows[j].spaceId &&
       rows[i].status == Confirmed && rows[j].status == Confirmed) ==>
      !Overlaps(rows[i].startDate, rows[i].endDate, rows[j].startDate, rows[j].endDate)
  }

  /** An admission through the route keeps the no-double-booking invariant. */
  lemma AdmissionKeepsExclusive(t: Table, windows: seq<Availability>, inRange: InRange, q: Request)
    requires Exclusive(t.rows)
    ensures Exclusive(Book(t, windows, inRange, q).1.rows)
  {
  }

  /**
   * Were admitted bookings stored as 'confirmed' instead, the overlap guard
   * would be enough to keep the no-double-booking invariant.
   */
  lemma GuardWouldProtectConfirmed(t: Table, windows: seq<Availability>, inRange: InRange, q: Request)
    requires Exclusive(t.rows)
    requires Decide(windows, t.rows, inRange, q.spaceId, q.startDate, q.endDate) == Admitted
    ensures Exclusive(InsertBooking(t, Draft(q).(status := Confirmed)).rows)
  {
  }
}
