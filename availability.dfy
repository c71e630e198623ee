/**
 * The availabilities table and the two operations of its repository that the
 * booking routes use: select the windows of one space, insert a window.
 */
module Availabilities {
  import opened Wrappers
  import opened Query

  /** One declared window of a space; `id` is None until the database assigns one. */
  datatype Availability = Availability(
    id: Option<int>,
    spaceId: int,
    availableFrom: int,
    availableTo: int)

  /** The table's windows in storage order and the next value of its id sequence. */
  datatype AvailabilityTable = AvailabilityTable(windows: seq<Availability>, nextId: int)

  /**
   * What the primary key and its serial sequence guarantee: every stored
   * window has an id, ids are distinct, and all lie below the next id to be issued.
   */
  predicate AvailabilityTableValid(t: AvailabilityTable) {
    (forall i :: 0 <= i < |t.windows| ==> t.windows[i].id.Some? && t.windows[i].id.value < t.nextId) &&
    (forall i, j :: 0 <= i < j < |t.windows| ==> t.windows[i].id != t.windows[j].id)
  }

  /** The WHERE clause of find: the window belongs to the space. */
  function OfSpace(spaceId: int): Availability -> bool {
    (a: Availability) => a.spaceId == spaceId
  }

  /** find(space_id): the windows declared for that space. */
  function Find(windows: seq<Availability>, spaceId: int): (found: seq<Availability>)
    ensures forall k :: 0 <= k < |found| ==> found[k].spaceId == spaceId && found[k] in windows
    ensures forall i :: 0 <= i < |windows| && windows[i].spaceId == spaceId ==> windows[i] in found
  {
    Where(windows, OfSpace(spaceId))
  }

  /** Declaring a window for one space leaves the windows found for every other space as they were. */
  lemma FindIgnoresOtherSpaces(before: seq<Availability>, w: Availability, after: seq<Availability>, spaceId: int)
    requires w.spaceId != spaceId
    ensures Find(before + [w] + after, spaceId) == Find(before + after, spaceId)
  {
    var p := OfSpace(spaceId);
    assert Where([w], p) == [] by {
      assert [w][1..] == [];
    }
    calc {
      Find(before + [w] + after, spaceId);
      Where(before + [w] + after, p);
      { WhereAppend(before + [w], after, p); }
      Where(before + [w], p) + Where(after, p);
      { WhereAppend(before, [w], p); }
      Where(before, p) + Where(after, p);
      { WhereAppend(before, after, p); }
      Where(before + after, p);
      Find(before + after, spaceId);
    }
  }

  /** The INSERT of create: the window is stored with the id the database issues. */
  function InsertWindow(t: AvailabilityTable, a: Availability): (r: (Availability, AvailabilityTable))
    ensures r.0.id == Some(t.nextId) && r.0.spaceId == a.spaceId &&
      r.0.availableFrom == a.availableFrom && r.0.availableTo == a.availableTo
    ensures r.1.windows == t.windows + [r.0] && r.1.nextId > t.nextId
    // the issued id belongs to no window stored before, and ids stay unique
    ensures AvailabilityTableValid(t) ==>
      AvailabilityTableValid(r.1) && forall i :: 0 <= i < |t.windows| ==> t.windows[i].id != r.0.id
  {
    var stored := a.(id := Some(t.nextId));
    (stored, AvailabilityTable(t.windows + [stored], t.nextId + 1))
  }

  /** AvailabilityRepository over its table. */
  class AvailabilityRepository {
    var windows: seq<Availability>
    var nextId: int

    ghost predicate Valid()
      reads this
    {
      AvailabilityTableValid(AvailabilityTable(windows, nextId))
    }

    function Snapshot(): AvailabilityTable
      reads this
    {
      AvailabilityTable(windows, nextId)
    }

    /** A repository over the table the connection currently holds. */
    constructor (table: AvailabilityTable)
      requires AvailabilityTableValid(table)
      ensures Valid() && Snapshot() == table
    {
      windows := table.windows;
      nextId := table.nextId;
    }

    /** create: inserts the window and returns it carrying its new id. */
    method Create(availability: Availability) returns (created: Availability)
      requires Valid()
      modifies this
      ensures Valid()
      ensures (created, Snapshot()) == InsertWindow(old(Snapshot()), availability)
    {
      created := availability.(id := Some(nextId));
      windows := windows + [created];
      nextId := nextId + 1;
    }
  }
}
