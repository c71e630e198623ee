/**
 * The SQL `OVERLAPS` predicate on two date periods, as PostgreSQL evaluates
 * `(start1, end1) OVERLAPS (start2, end2)` (section 9.9 of the PostgreSQL
 * manual, following the overlaps predicate of ISO/IEC 9075-2). Dates are
 * whole day numbers. NULL operands are not modelled.
 */
module Period {

  /** A period with its two ends swapped when the start lies after the end. */
  function Ordered(start: int, stop: int): (p: (int, int))
    ensures p.0 <= p.1
    ensures p == (start, stop) || p == (stop, start)
  {
    if start <= stop then (start, stop) else (stop, start)
  }

  /**
   * PostgreSQL's evaluation: order each pair, then compare the two starts;
   * the later start must lie strictly before the other period's end, and
   * equal starts always overlap.
   */
  predicate Overlaps(s1: int, e1: int, s2: int, e2: int)
    ensures Overlaps(s1, e1, s2, e2) <==>
      var (a1, b1) := Ordered(s1, e1);
      var (a2, b2) := Ordered(s2, e2);
      a1 == a2 || (a1 < b2 && a2 < b1)
  {
    var (a1, b1) := Ordered(s1, e1);
    var (a2, b2) := Ordered(s2, e2);
    if a1 > a2 then a1 < b2
    else if a2 > a1 then a2 < b1
    else true
  }

  /**
   * The instants a period stands for: the half-open range start <= d < end,
   * or the single instant start when start and end are equal.
   */
  predicate During(d: int, start: int, stop: int) {
    var (a, b) := Ordered(start, stop);
    if a == b then d == a else a <= d < b
  }

  /** OVERLAPS holds exactly when the two periods share an instant. */
  lemma OverlapsIffShared(s1: int, e1: int, s2: int, e2: int)
    ensures Overlaps(s1, e1, s2, e2) <==> exists d :: During(d, s1, e1) && During(d, s2, e2)
  {
    var (a1, b1) := Ordered(s1, e1);
    var (a2, b2) := Ordered(s2, e2);
    if Overlaps(s1, e1, s2, e2) {
      var d := if a1 <= a2 then a2 else a1;
      assert During(d, s1, e1) && During(d, s2, e2);
    }
  }

  /** OVERLAPS does not depend on the order of its two operands. */
  lemma OverlapsSymmetric(s1: int, e1: int, s2: int, e2: int)
    ensures Overlaps(s1, e1, s2, e2) == Overlaps(s2, e2, s1, e1)
  {
  }

  /** A reversed pair is treated as if its ends were swapped. */
  lemma ReversedIsSwapped(s1: int, e1: int, s2: int, e2: int)
    ensures Overlaps(s1, e1, s2, e2) == Overlaps(e1, s1, s2, e2)
    ensures Overlaps(s1, e1, s2, e2) == Overlaps(s1, e1, e2, s2)
  {
  }

  /** Periods with equal (ordered) starts overlap, even when both are instants. */
  lemma EqualStartsOverlap(s1: int, e1: int, s2: int, e2: int)
    requires Ordered(s1, e1).0 == Ordered(s2, e2).0
    ensures Overlaps(s1, e1, s2, e2)
  {
  }

  /** The periods are half-open: touching end to start is not an overlap. */
  lemma HalfOpenExamples()
    ensures !Overlaps(3, 5, 5, 7)
    ensures Overlaps(3, 5, 4, 6)
    ensures Overlaps(5, 5, 5, 9)
    ensures !Overlaps(5, 5, 3, 5)
    ensures Overlaps(7, 3, 4, 4)
  {
  }

  /**
   * An inclusive reading of date ranges (both end days taken): OVERLAPS
   * implies that the inclusive ranges meet, but not conversely.
   */
  predicate ClosedIntersect(s1: int, e1: int, s2: int, e2: int) {
    var (a1, b1) := Ordered(s1, e1);
    var (a2, b2) := Ordered(s2, e2);
    a1 <= b2 && a2 <= b1
  }

  lemma OverlapsIsStricterThanClosed(s1: int, e1: int, s2: int, e2: int)
    ensures Overlaps(s1, e1, s2, e2) ==> ClosedIntersect(s1, e1, s2, e2)
    ensures ClosedIntersect(3, 5, 5, 7) && !Overlaps(3, 5, 5, 7)
  {
  }
}
