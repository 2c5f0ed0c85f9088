/**
 * ClosedRange.swift over integer bounds: the width of a closed range and the
 * ranges obtained by shifting it or by moving one of its bounds.  Forming
 * `lower ... upper` traps unless `lower <= upper`, which the preconditions
 * carry.
 */
module ClosedRanges {

  /** `lower ... upper`. */
  datatype IntRange = IntRange(lower: int, upper: int)
  {
    predicate Valid()
    {
      lower <= upper
    }
  }

  /** `width`: the distance from the lower bound to the upper one. */
  function Width(r: IntRange): (w: int)
    ensures r.lower + w == r.upper
    ensures r.Valid() <==> w >= 0
  {
    r.upper - r.lower
  }

  /** `offset(by:)`: both bounds advanced by `n`. */
  function Offset(r: IntRange, n: int): (s: IntRange)
    requires r.Valid()
    ensures s.Valid() && s.lower == r.lower + n && Width(s) == Width(r)
  {
    IntRange(r.lower + n, r.upper + n)
  }

  /** `appendingUpperBound(by:)`: the upper bound advanced by `n`, the lower kept. */
  function AppendingUpperBound(r: IntRange, n: int): (s: IntRange)
    requires r.upper + n >= r.lower
    ensures s.Valid() && s.lower == r.lower && Width(s) == Width(r) + n
  {
    IntRange(r.lower, r.upper + n)
  }

  /** `appendingLowerBound(by:)`: the lower bound moved back by `n`, the upper kept. */
  function AppendingLowerBound(r: IntRange, n: int): (s: IntRange)
    requires r.lower - n <= r.upper
    ensures s.Valid() && s.upper == r.upper && Width(s) == Width(r) + n
  {
    IntRange(r.lower - n, r.upper)
  }

  /** Shifting by `n` and then by `-n` gives the range back. */
  lemma OffsetRoundTrip(r: IntRange, n: int)
    requires r.Valid()
    ensures Offset(Offset(r, n), -n) == r
  {
  }

  /** Shifts compose: by `a` then by `b` is by `a + b`. */
  lemma OffsetsCompose(r: IntRange, a: int, b: int)
    requires r.Valid()
    ensures Offset(Offset(r, a), b) == Offset(r, a + b)
  {
  }

  /** Growing the upper bound by `n` and then by `-n` gives the range back. */
  lemma AppendingUpperBoundRoundTrip(r: IntRange, n: int)
    requires r.Valid() && r.upper + n >= r.lower
    ensures AppendingUpperBound(AppendingUpperBound(r, n), -n) == r
  {
  }

  /** Growing the lower bound by `n` and then by `-n` gives the range back. */
  lemma AppendingLowerBoundRoundTrip(r: IntRange, n: int)
    requires r.Valid() && r.lower - n <= r.upper
    ensures AppendingLowerBound(AppendingLowerBound(r, n), -n) == r
  {
  }

  /** Growing both ends by non-negative amounts adds the amounts to the width, in either order. */
  lemma AppendingBothBounds(r: IntRange, a: int, b: int)
    requires r.Valid() && a >= 0 && b >= 0
    ensures Width(AppendingLowerBound(AppendingUpperBound(r, a), b)) == Width(r) + a + b
    ensures AppendingLowerBound(AppendingUpperBound(r, a), b) == AppendingUpperBound(AppendingLowerBound(r, b), a)
  {
  }
}
