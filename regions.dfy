/** Intervals of the real line, used as the region tables that each special
    function's ordered comparison chain is checked against. */
module Regions {

  datatype Bound = Unbounded | Open(v: real) | Closed(v: real)

  /** An interval given by its lower and upper bound. */
  datatype Interval = Interval(lo: Bound, hi: Bound)

  predicate AboveLower(b: Bound, x: real)
  {
    match b
    case Unbounded => true
    case Open(a) => a < x
    case Closed(a) => a <= x
  }

  predicate BelowUpper(b: Bound, x: real)
  {
    match b
    case Unbounded => true
    case Open(a) => x < a
    case Closed(a) => x <= a
  }

  predicate Contains(iv: Interval, x: real)
  {
    AboveLower(iv.lo, x) && BelowUpper(iv.hi, x)
  }

  /** The single point a, as a closed interval. */
  function Point(a: real): (iv: Interval)
    ensures forall x :: Contains(iv, x) <==> x == a
  {
    Interval(Closed(a), Closed(a))
  }

  /** Whether x lies in one of the intervals of a region (a region may be a union). */
  predicate AnyContains(ivs: seq<Interval>, x: real)
  {
    |ivs| > 0 && (Contains(ivs[0], x) || AnyContains(ivs[1..], x))
  }

  /** A region of two intervals contains x when one of them does. */
  lemma AnyContainsTwo(ivs: seq<Interval>, x: real)
    requires |ivs| == 2
    ensures AnyContains(ivs, x) <==> Contains(ivs[0], x) || Contains(ivs[1], x)
  {
    assert AnyContains(ivs, x) <==> Contains(ivs[0], x) || AnyContains(ivs[1..], x);
    assert AnyContains(ivs[1..], x) <==> Contains(ivs[1..][0], x) || AnyContains(ivs[1..][1..], x);
    assert ivs[1..][0] == ivs[1];
    assert !AnyContains(ivs[1..][1..], x);
  }
}
