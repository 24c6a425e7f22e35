/** The appointment-level interval test: two bookings, each given by a start
    instant (milliseconds) and a duration in minutes, conflict when their
    half-open spans [start, start + duration) intersect. */
module Overlap {
  import opened TimeMath

  /** The end instant of a booking: start plus duration in milliseconds. */
  function EndOf(start: int, durationMin: int): int {
    start + durationMin * MsPerMinute
  }

  predicate IsOverlapping(aStart: int, aDurationMin: int, bStart: int, bDurationMin: int) {
    aStart < EndOf(bStart, bDurationMin) && EndOf(aStart, aDurationMin) > bStart
  }

  /** Instant `t` lies inside the half-open span of a booking. */
  predicate Covers(start: int, durationMin: int, t: int) {
    start <= t < EndOf(start, durationMin)
  }

  /** For real (positive-length) bookings the test means exactly that some
      instant is covered by both. */
  lemma OverlapIsCommonInstant(aStart: int, aDurationMin: int, bStart: int, bDurationMin: int)
    requires aDurationMin > 0 && bDurationMin > 0
    ensures IsOverlapping(aStart, aDurationMin, bStart, bDurationMin)
        <==> exists t :: Covers(aStart, aDurationMin, t) && Covers(bStart, bDurationMin, t)
  {
    if IsOverlapping(aStart, aDurationMin, bStart, bDurationMin) {
      var t := Max(aStart, bStart);
      assert Covers(aStart, aDurationMin, t) && Covers(bStart, bDurationMin, t);
    }
  }

  lemma OverlapSymmetric(aStart: int, aDurationMin: int, bStart: int, bDurationMin: int)
    ensures IsOverlapping(aStart, aDurationMin, bStart, bDurationMin)
        == IsOverlapping(bStart, bDurationMin, aStart, aDurationMin)
  {
  }

  /** Back-to-back bookings (one ends exactly where the other starts) do not
      conflict, in either order. */
  lemma TouchingDoNotOverlap(aStart: int, aDurationMin: int, bStart: int, bDurationMin: int)
    requires EndOf(aStart, aDurationMin) == bStart
    ensures !IsOverlapping(aStart, aDurationMin, bStart, bDurationMin)
    ensures !IsOverlapping(bStart, bDurationMin, aStart, aDurationMin)
  {
  }

  /** Two positive-length bookings at the same instant always conflict. */
  lemma SameStartOverlaps(start: int, aDurationMin: int, bDurationMin: int)
    requires aDurationMin > 0 && bDurationMin > 0
    ensures IsOverlapping(start, aDurationMin, start, bDurationMin)
  {
  }

  /** On whole-minute instants the millisecond test agrees with the
      minute-based `Overlaps` of the availability service. */
  lemma AgreesWithMinuteOverlaps(aMin: int, aDurationMin: int, bMin: int, bDurationMin: int)
    ensures IsOverlapping(aMin * MsPerMinute, aDurationMin, bMin * MsPerMinute, bDurationMin)
        == Overlaps(aMin, aMin + aDurationMin, bMin, bMin + bDurationMin)
  {
  }

  /** 2026-01-01T10:00:00Z. */
  const TenOClock: int := 1767261600000

  /** 10:00 for 60 min against 10:30 for 30 min: a conflict. */
  lemma PartialOverlapExample()
    ensures IsOverlapping(TenOClock, 60, TenOClock + 30 * MsPerMinute, 30)
  {
  }

  /** 10:00 for 60 min against 11:00 for 30 min: no conflict. */
  lemma TouchingExample()
    ensures !IsOverlapping(TenOClock, 60, TenOClock + 60 * MsPerMinute, 30)
  {
  }
}
