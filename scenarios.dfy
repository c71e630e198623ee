/**
 * Worked booking scenarios. Dates are day numbers. They use
 * inclusive containment of the request in one window as a sample
 * is_date_in_range.
 */
module Scenarios {
  import opened Wrappers
  import opened Bookings
  import opened Availabilities
  import opened App

  function SampleInRange(): InRange {
    (a: Availability, startDate: int, endDate: int) => a.availableFrom <= startDate && endDate <= a.availableTo
  }

  /** One window for space 1, days 1 to 10. */
  function TenDayWindow(): seq<Availability> {
    [Availability(Some(1), 1, 1, 10)]
  }

  /** One confirmed booking of space 1, days 3 to 5. */
  function ConfirmedStay(): seq<Booking> {
    [Booking(Some(1), 7, 1, 3, 5, Confirmed)]
  }

  lemma InsideTheWindowIsAdmitted()
    ensures Decide(TenDayWindow(), [], SampleInRange(), 1, 3, 5) == Admitted
  {
  }

  lemma PastTheWindowEndIsNoAvailability()
    ensures Decide(TenDayWindow(), [], SampleInRange(), 1, 9, 12) == NoAvailability
  {
  }

  lemma OverlappingAConfirmedStayIsConflict()
    ensures Decide(TenDayWindow(), ConfirmedStay(), SampleInRange(), 1, 4, 6) == Conflict
  {
  }

  /** Both a later stay and one starting on the confirmed stay's last day are admitted. */
  lemma AfterAConfirmedStayIsAdmitted()
    ensures Decide(TenDayWindow(), ConfirmedStay(), SampleInRange(), 1, 6, 8) == Admitted
    ensures Decide(TenDayWindow(), ConfirmedStay(), SampleInRange(), 1, 5, 7) == Admitted
  {
  }

  /** One request across two adjacent windows is not covered: windows are not merged. */
  lemma AcrossAdjacentWindowsIsNoAvailability()
    ensures Decide([Availability(Some(1), 1, 1, 5), Availability(Some(2), 1, 6, 10)], [],
                   SampleInRange(), 1, 4, 7) == NoAvailability
  {
  }

  /** A pending booking for the same days does not block a request. */
  lemma PendingStayDoesNotBlock()
    ensures Decide(TenDayWindow(), [Booking(Some(1), 7, 1, 3, 5, Pending)], SampleInRange(), 1, 3, 5) == Admitted
  {
  }
}
