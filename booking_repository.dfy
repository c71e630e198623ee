/**
 * The bookings table and the repository over it: listing, inserting, lookup
 * by id and the confirmed-overlap query.
 */
module Bookings {
  import opened Wrappers
  import opened Query
  import opened Period

  /** One row of the bookings table; `id` is None until the database assigns one. */
  datatype Booking = Booking(
    id: Option<int>,
    userId: int,
    spaceId: int,
    startDate: int,
    endDate: int,
    status: string)

  /** The only status the conflict query counts. */
  const Confirmed: string := "confirmed"

  /** The table's rows in storage order and the next value of its id sequence. */
  datatype Table = Table(rows: seq<Booking>, nextId: int)

  /**
   * What the primary key and its serial sequence guarantee: every stored row
   * has an id, ids are distinct, and all lie below the next id to be issued.
   */
  predicate TableValid(t: Table) {
    (forall i :: 0 <= i < |t.rows| ==> t.rows[i].id.Some? && t.rows[i].id.value < t.nextId) &&
    (forall i, j :: 0 <= i < j < |t.rows| ==> t.rows[i].id != t.rows[j].id)
  }

  /**
   * The INSERT of make_booking: the five given columns are stored as they are
   * and the database issues the id; any id on `b` is ignored.
   */
  function InsertBooking(t: Table, b: Booking): (t': Table)
    ensures TableValid(t) ==> TableValid(t')
    ensures |t'.rows| == |t.rows| + 1 && t'.rows[..|t.rows|] == t.rows
    ensures t'.nextId > t.nextId
    ensures var row := t'.rows[|t.rows|];
      row.id == Some(t.nextId) && row.userId == b.userId && row.spaceId == b.spaceId &&
      row.startDate == b.startDate && row.endDate == b.endDate && row.status == b.status
  {
    Table(t.rows + [b.(id := Some(t.nextId))], t.nextId + 1)
  }

  /**
   * The WHERE clause of is_space_booked for one row: a confirmed row of the
   * space whose period shares an instant with the requested one.
   */
  predicate Blocks(b: Booking, spaceId: int, startDate: int, endDate: int)
    ensures Blocks(b, spaceId, startDate, endDate) <==>
      b.spaceId == spaceId && b.status == Confirmed &&
      exists d :: During(d, b.startDate, b.endDate) && During(d, startDate, endDate)
  {
    OverlapsIffShared(b.startDate, b.endDate, startDate, endDate);
    b.spaceId == spaceId && b.status == Confirmed &&
    Overlaps(b.startDate, b.endDate, startDate, endDate)
  }

  /** The same WHERE clause as a condition that can be handed to Where. */
  function BlocksFor(spaceId: int, startDate: int, endDate: int): Booking -> bool {
    b => Blocks(b, spaceId, startDate, endDate)
  }

  /**
   * is_space_booked: some row for the space, with status 'confirmed', whose
   * period OVERLAPS the requested one.
   */
  function IsSpaceBooked(rows: seq<Booking>, spaceId: int, startDate: int, endDate: int): (booked: bool)
    ensures booked <==>
      exists i :: 0 <= i < |rows| && rows[i].spaceId == spaceId && rows[i].status == Confirmed &&
        Overlaps(rows[i].startDate, rows[i].endDate, startDate, endDate)
  {
    var selected := Where(rows, BlocksFor(spaceId, startDate, endDate));
    assert selected != [] ==> Blocks(selected[0], spaceId, startDate, endDate) && selected[0] in rows;
    |selected| > 0
  }

  /** get_booking_by_booking_id: the first row with that id, or None. */
  function GetBookingByBookingId(rows: seq<Booking>, bookingId: int): (found: Option<Booking>)
    ensures found == None <==> forall i :: 0 <= i < |rows| ==> rows[i].id != Some(bookingId)
    ensures found.Some? ==>
      exists i :: 0 <= i < |rows| && rows[i] == found.value && rows[i].id == Some(bookingId) &&
        forall j :: 0 <= j < i ==> rows[j].id != Some(bookingId)
  {
    var selected := Where(rows, (b: Booking) => b.id == Some(bookingId));
    if |selected| == 0 then None else Some(selected[0])
  }

  /** With ids unique, the lookup finds the one row carrying the id. */
  lemma LookupFindsTheRow(t: Table, i: int)
    requires TableValid(t) && 0 <= i < |t.rows|
    ensures GetBookingByBookingId(t.rows, t.rows[i].id.value) == Some(t.rows[i])
  {
  }

  /**
   * A row whose status is not 'confirmed', or that belongs to another space,
   * never changes the answer of is_space_booked, wherever it is stored.
   */
  lemma OnlyConfirmedRowsOfTheSpaceCount(
    before: seq<Booking>, x: Booking, after: seq<Booking>,
    spaceId: int, startDate: int, endDate: int)
    requires x.status != Confirmed || x.spaceId != spaceId
    ensures IsSpaceBooked(before + [x] + after, spaceId, startDate, endDate) ==
            IsSpaceBooked(before + after, spaceId, startDate, endDate)
  {
    var p := BlocksFor(spaceId, startDate, endDate);
    assert Where([x], p) == [] by {
      assert [x][1..] == [];
    }
    calc {
      Where(before + [x] + after, p);
      { WhereAppend(before + [x], after, p); }
      Where(before + [x], p) + Where(after, p);
      { WhereAppend(before, [x], p); }
      Where(before, p) + Where(after, p);
      { WhereAppend(before, after, p); }
      Where(before + after, p);
    }
  }

  /** BookingRepository over its bookings table. */
  class BookingRepository {
    var rows: seq<Booking>
    var nextId: int

    ghost predicate Valid()
      reads this
    {
      TableValid(Table(rows, nextId))
    }

    function Snapshot(): Table
      reads this
    {
      Table(rows, nextId)
    }

    /** A repository over the table the connection currently holds. */
    constructor (table: Table)
      requires TableValid(table)
      ensures Valid() && Snapshot() == table
    {
      rows := table.rows;
      nextId := table.nextId;
    }

    /** get_all_bookings: one Booking per stored row, fields copied, in storage order. */
    method GetAllBookings() returns (bookings: seq<Booking>)
      ensures |bookings| == |rows|
      ensures forall i :: 0 <= i < |rows| ==> bookings[i] == rows[i]
    {
      bookings := [];
      for i := 0 to |rows|
        invariant |bookings| == i
        invariant forall k :: 0 <= k < i ==> bookings[k] == rows[k]
      {
        var row := rows[i];
        bookings := bookings + [Booking(row.id, row.userId, row.spaceId, row.startDate, row.endDate, row.status)];
      }
    }

    /** make_booking: inserts the row, validates nothing and returns nothing. */
    method MakeBooking(newBooking: Booking)
      requires Valid()
      modifies this
      ensures Valid()
      ensures Snapshot() == InsertBooking(old(Snapshot()), newBooking)
    {
      rows := rows + [newBooking.(id := Some(nextId))];
      nextId := nextId + 1;
    }
  }
}
