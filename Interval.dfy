/** Half-open time intervals [start, end) over millisecond instants. */
module Interval {

  /** The overlap test used both for slot marking and for the creation
      conflict query: the two intervals share at least one instant. */
  predicate Overlaps(aStart: int, aEnd: int, bStart: int, bEnd: int) {
    aStart < bEnd && aEnd > bStart
  }

  /** Instant `t` lies in the half-open interval [start, end). */
  ghost predicate Covers(start: int, end: int, t: int) {
    start <= t < end
  }

  /** The overlap test agrees with its meaning: two intervals overlap exactly
      when some instant lies in both. */
  lemma OverlapsIffSharedInstant(aStart: int, aEnd: int, bStart: int, bEnd: int)
    requires aStart < aEnd && bStart < bEnd
    ensures Overlaps(aStart, aEnd, bStart, bEnd) <==>
            exists t :: Covers(aStart, aEnd, t) && Covers(bStart, bEnd, t)
  {
    if Overlaps(aStart, aEnd, bStart, bEnd) {
      var t := if aStart < bStart then bStart else aStart;
      assert Covers(aStart, aEnd, t) && Covers(bStart, bEnd, t);
    }
  }

  /** Overlap does not depend on which interval is named first. */
  lemma OverlapsSymmetric(aStart: int, aEnd: int, bStart: int, bEnd: int)
    ensures Overlaps(aStart, aEnd, bStart, bEnd) == Overlaps(bStart, bEnd, aStart, aEnd)
  {
  }

  /** Intervals that only touch at an end point do not overlap. */
  lemma TouchingDoesNotOverlap(aStart: int, aEnd: int, bStart: int, bEnd: int)
    requires aEnd == bStart || aStart == bEnd
    ensures !Overlaps(aStart, aEnd, bStart, bEnd)
  {
  }
}
