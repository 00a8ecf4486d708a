/** What the two partition schemes share (src/partitions/mod.rs): the
    subinterval a value is digitised to, its width and midpoint, the error a
    malformed partition is rejected with, and the query values. */
module Partitions {
  import opened Wrappers
  import opened Bounds
  import opened Intervals

  /** A query value. The library compares values with `PartialOrd`, so a value
      may be incomparable with every breakpoint (a NaN); such a value is
      `Unordered`. */
  datatype Sample = Ordered(x: real) | Unordered

  /** Rejection of a declarative partition, carrying its breakpoints. */
  datatype PartitionError = IllFormedBounds(breakpoints: seq<real>)

  /** The `index`-th cell of a partition. Its interval is always closed on the
      left with a union-kind right side (see `Shaped`). */
  datatype SubInterval = SubInterval(index: nat, interval: Interval)

  /** The shape every subinterval has: a `Closed` left side and an
      `OpenOrClosed` right side. */
  predicate Shaped(s: SubInterval)
  {
    s.interval.left.Closed? && s.interval.right.OpenOrClosed?
  }

  /** Right value minus left value, whatever the right side's tag. */
  function Width(s: SubInterval): (r: real)
    requires Shaped(s)
    ensures Value(s.interval.right) == Some(s.interval.left.v + r)
    ensures r > 0.0 ==> Includes(s.interval, s.interval.left.v)
  {
    Unwrap(s.interval.right) - s.interval.left.v
  }

  /** Halfway between the left and the right value, whatever the right tag. */
  function Midpoint(s: SubInterval): (r: real)
    requires Shaped(s)
    ensures r - s.interval.left.v == Unwrap(s.interval.right) - r
    ensures Width(s) > 0.0 ==> Includes(s.interval, r)
    ensures Width(s) == 0.0 && s.interval.right.isOpen ==> !Includes(s.interval, r)
  {
    (s.interval.left.v + Unwrap(s.interval.right)) / 2.0
  }

  /** Width and midpoint read only the right value, never its tag. */
  lemma {:induction false} IgnoreRightTag(index: nat, left: real, right: real)
    ensures Width(SubInterval(index, Interval(Closed(left), OpenOrClosed(true, right))))
         == Width(SubInterval(index, Interval(Closed(left), OpenOrClosed(false, right))))
         == right - left
    ensures Midpoint(SubInterval(index, Interval(Closed(left), OpenOrClosed(true, right))))
         == Midpoint(SubInterval(index, Interval(Closed(left), OpenOrClosed(false, right))))
         == (left + right) / 2.0
  {
  }
}
