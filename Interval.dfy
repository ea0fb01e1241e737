/**
 * A closed numeric interval [low, high] of unsigned 32-bit bounds, and the
 * ordering the original hands to std::sort.
 */
module Intervals {
  import opened Common

  datatype Interval = Interval(low: u32, high: u32)

  /** The default constructor: both bounds zero. */
  function DefaultInterval(): (r: Interval)
    ensures r.low == 0 && r.high == 0
  {
    Interval(0, 0)
  }

  /** The two-argument constructor keeps the bounds exactly as given. */
  function MakeInterval(low: u32, high: u32): (r: Interval)
    ensures r.low == low && r.high == high
  {
    Interval(low, high)
  }

  /** operator<: both bounds strictly smaller. */
  predicate Less(a: Interval, b: Interval)
  {
    a.low < b.low && a.high < b.high
  }

  predicate Normalised(a: Interval)
  {
    a.low <= a.high
  }

  predicate Contains(a: Interval, x: int)
  {
    a.low <= x <= a.high
  }

  /** No common point. */
  predicate Disjoint(a: Interval, b: Interval)
  {
    a.high < b.low || b.high < a.low
  }

  lemma LessIrreflexive(a: Interval)
    ensures !Less(a, a)
  {}

  lemma LessAsymmetric(a: Interval, b: Interval)
    ensures Less(a, b) ==> !Less(b, a)
  {}

  lemma LessTransitive(a: Interval, b: Interval, c: Interval)
    ensures Less(a, b) && Less(b, c) ==> Less(a, c)
  {}

  /**
   * On normalised, disjoint intervals operator< is total and agrees with the
   * order of the lower bounds.
   */
  lemma LessTotalOnDisjoint(a: Interval, b: Interval)
    requires Normalised(a) && Normalised(b) && Disjoint(a, b)
    ensures Less(a, b) || Less(b, a)
    ensures Less(a, b) <==> a.low < b.low
  {}

  /**
   * Overlapping intervals can be mutually incomparable while a third interval
   * is comparable with only one of them: [0,10] and [5,6] are incomparable, and
   * so are [5,6] and [1,11], but [0,10] < [1,11]. So incomparability is not
   * transitive and operator< is not a strict weak ordering.
   */
  lemma LessNotStrictWeak()
    ensures var a, b, c := Interval(0, 10), Interval(5, 6), Interval(1, 11);
      !Less(a, b) && !Less(b, a) && !Less(b, c) && !Less(c, b) && Less(a, c)
  {}
}
