/** `Interval` of src/lib.rs: a left and a right bound, its constructors,
    intersection, union-closure, containment and degeneracy. */
module Intervals {
  import opened Wrappers
  import opened Bounds
  import opened Validation

  /** An immutable pair of bounds. Building it with the datatype constructor
      directly is `new_unchecked`: nothing is validated. */
  datatype Interval = Interval(left: Bound, right: Bound)

  // ---------------------------------------------------------------------
  // Membership
  // ---------------------------------------------------------------------

  /** Membership by kind pair, with every pair covered and each side compared
      the way its kind demands: closed sides with `<=`/`>=`, open sides with
      strict comparisons, absent sides not at all. It agrees with testing the
      two sides separately. */
  predicate Includes(i: Interval, x: real)
    ensures Includes(i, x) <==> LeftAdmits(i.left, x) && RightAdmits(i.right, x)
  {
    match i.left
    case NoBound => (
      match i.right
      case NoBound => true
      case Open(r) => x < r
      case Closed(r) => x <= r
      case OpenOrClosed(isOpen, r) => if isOpen then x < r else x <= r)
    case Open(l) => (
      match i.right
      case NoBound => x > l
      case Open(r) => x > l && x < r
      case Closed(r) => x > l && x <= r
      case OpenOrClosed(isOpen, r) => x > l && (if isOpen then x < r else x <= r))
    case Closed(l) => (
      match i.right
      case NoBound => x >= l
      case Open(r) => x >= l && x < r
      case Closed(r) => x >= l && x <= r
      case OpenOrClosed(isOpen, r) => x >= l && (if isOpen then x < r else x <= r))
    case OpenOrClosed(isOpenL, l) => (
      (if isOpenL then x > l else x >= l) &&
      match i.right
      case NoBound => true
      case Open(r) => x < r
      case Closed(r) => x <= r
      case OpenOrClosed(isOpen, r) => if isOpen then x < r else x <= r)
  }

  /** The kind pairs that have a `Contains` impl: every pair except a
      union-kind pair, and except `NoBound` on the left with `Closed` on the
      right, whose impl was written for the closed-closed interval type. */
  predicate HasContains(i: Interval)
  {
    !(i.left.NoBound? && i.right.Closed?) && !(i.left.OpenOrClosed? && i.right.OpenOrClosed?)
  }

  /** A concrete (open or closed) left side with an open union-kind right side:
      the pairs whose right-hand test is written `val > r`. */
  predicate ReversedRightTest(i: Interval)
  {
    (i.left.Open? || i.left.Closed?) && i.right.OpenOrClosed? && i.right.isOpen
  }

  /** `contains` as written, one rule per kind pair. It agrees with membership
      except on the pairs of `ReversedRightTest`, where it accepts exactly the
      values that the left side admits and that lie above the right limit. */
  function Contains(i: Interval, x: real): (r: bool)
    requires HasContains(i)
    ensures !ReversedRightTest(i) ==> (r <==> Includes(i, x))
    ensures ReversedRightTest(i) ==> (r <==> LeftAdmits(i.left, x) && x > i.right.v)
  {
    match i.left
    case NoBound => (
      match i.right
      case NoBound => true
      case Open(r) => x < r
      case Closed(_) => false
      case OpenOrClosed(isOpen, r) => if isOpen then x < r else x <= r)
    case Open(l) => (
      match i.right
      case NoBound => x > l
      case Open(r) => x > l && x < r
      case Closed(r) => x > l && x <= r
      case OpenOrClosed(isOpen, r) => x > l && (if isOpen then x > r else x <= r))
    case Closed(l) => (
      match i.right
      case NoBound => x >= l
      case Open(r) => x >= l && x < r
      case Closed(r) => x >= l && x <= r
      case OpenOrClosed(isOpen, r) => x >= l && (if isOpen then x > r else x <= r))
    case OpenOrClosed(isOpenL, l) => (
      match i.right
      case NoBound => if isOpenL then x > l else x >= l
      case Open(r) => x < r && (if isOpenL then x > l else x >= l)
      case Closed(r) => x <= r && (if isOpenL then x > l else x >= l)
      case OpenOrClosed(_, _) => false)
  }

  /** Degenerate: both sides closed at the same value. */
  predicate IsDegenerate(i: Interval)
    ensures IsDegenerate(i) <==> IsClosed(i.left) && IsClosed(i.right) && i.left.v == i.right.v
  {
    match (Value(i.left), Value(i.right))
    case (Some(l), Some(r)) => IsClosed(i.left) && IsClosed(i.right) && l == r
    case _ => false
  }

  /** Interval equality: the left sides are equal and the right sides are
      equal, across kinds. Equal intervals contain the same values. */
  predicate IntervalEq(a: Interval, b: Interval)
    ensures IntervalEq(a, b) <==> Concrete(a.left) == Concrete(b.left) && Concrete(a.right) == Concrete(b.right)
    ensures IntervalEq(a, b) ==> forall x :: Includes(a, x) == Includes(b, x)
  {
    Eq(a.left, b.left) && Eq(a.right, b.right)
  }

  // ---------------------------------------------------------------------
  // Construction
  // ---------------------------------------------------------------------

  /** Validated construction: Ok with exactly the given bounds when they
      validate, otherwise the validation error carrying them. */
  function New(left: Bound, right: Bound): (r: Result<Interval, ValidationError>)
    ensures r.Ok? <==> Validate(left, right).Ok?
    ensures r.Ok? ==> r.value == Interval(left, right)
    ensures r.Err? ==> r.error == DecreasingBounds(left, right)
  {
    match Validate(left, right)
    case Ok((l, r)) => Ok(Interval(l, r))
    case Err(e) => Err(e)
  }

  function Unbounded(): (r: Interval)
    ensures forall x :: Includes(r, x)
  {
    Interval(NoBound, NoBound)
  }

  function LeftBounded(left: Bound): (r: Interval)
    ensures forall x :: Includes(r, x) <==> LeftAdmits(left, x)
  {
    Interval(left, NoBound)
  }

  function RightBounded(right: Bound): (r: Interval)
    ensures forall x :: Includes(r, x) <==> RightAdmits(right, x)
  {
    Interval(NoBound, right)
  }

  function LeftOpen(left: real): (r: Interval)
    ensures forall x :: Includes(r, x) <==> left < x
  {
    Interval(Open(left), NoBound)
  }

  function LeftClosed(left: real): (r: Interval)
    ensures forall x :: Includes(r, x) <==> left <= x
  {
    Interval(Closed(left), NoBound)
  }

  function RightOpen(right: real): (r: Interval)
    ensures forall x :: Includes(r, x) <==> x < right
  {
    Interval(NoBound, Open(right))
  }

  function RightClosed(right: real): (r: Interval)
    ensures forall x :: Includes(r, x) <==> x <= right
  {
    Interval(NoBound, Closed(right))
  }

  function OpenUnchecked(left: real, right: real): (r: Interval)
    ensures forall x :: Includes(r, x) <==> left < x < right
  {
    Interval(Open(left), Open(right))
  }

  function ClosedUnchecked(left: real, right: real): (r: Interval)
    ensures forall x :: Includes(r, x) <==> left <= x <= right
  {
    Interval(Closed(left), Closed(right))
  }

  function LcroUnchecked(left: real, right: real): (r: Interval)
    ensures forall x :: Includes(r, x) <==> left <= x < right
  {
    Interval(Closed(left), Open(right))
  }

  function LorcUnchecked(left: real, right: real): (r: Interval)
    ensures forall x :: Includes(r, x) <==> left < x <= right
  {
    Interval(Open(left), Closed(right))
  }

  /** Validated open interval: rejected unless `left < right`. */
  function OpenInterval(left: real, right: real): (r: Result<Interval, ValidationError>)
    ensures r.Ok? <==> left < right
    ensures r.Ok? ==> r.value == OpenUnchecked(left, right)
    ensures r.Err? ==> r.error == DecreasingBounds(Open(left), Open(right))
  {
    New(Open(left), Open(right))
  }

  /** Validated closed interval: equal ends are accepted. */
  function ClosedInterval(left: real, right: real): (r: Result<Interval, ValidationError>)
    ensures r.Ok? <==> left <= right
    ensures r.Ok? ==> r.value == ClosedUnchecked(left, right)
    ensures r.Err? ==> r.error == DecreasingBounds(Closed(left), Closed(right))
  {
    New(Closed(left), Closed(right))
  }

  /** Validated left-closed, right-open interval. */
  function Lcro(left: real, right: real): (r: Result<Interval, ValidationError>)
    ensures r.Ok? <==> left < right
    ensures r.Ok? ==> r.value == LcroUnchecked(left, right)
    ensures r.Err? ==> r.error == DecreasingBounds(Closed(left), Open(right))
  {
    New(Closed(left), Open(right))
  }

  /** Validated left-open, right-closed interval. */
  function Lorc(left: real, right: real): (r: Result<Interval, ValidationError>)
    ensures r.Ok? <==> left < right
    ensures r.Ok? ==> r.value == LorcUnchecked(left, right)
    ensures r.Err? ==> r.error == DecreasingBounds(Open(left), Closed(right))
  {
    New(Open(left), Closed(right))
  }

  /** The single-point interval `[x, x]`. */
  function Degenerate(x: real): (r: Interval)
    ensures IsDegenerate(r)
    ensures forall y :: Includes(r, y) <==> y == x
  {
    Interval(Closed(x), Closed(x))
  }

  // ---------------------------------------------------------------------
  // Set operations
  // ---------------------------------------------------------------------

  /** Pinch each side, then validate: the result holds exactly the common
      values, and it is absent exactly when there are none. */
  function Intersect(a: Interval, b: Interval): (r: Option<Interval>)
    ensures r.Some? ==> r.value == Interval(PinchLeft(a.left, b.left), PinchRight(a.right, b.right))
    ensures r.Some? ==> forall x :: Includes(r.value, x) <==> Includes(a, x) && Includes(b, x)
    ensures r.None? <==> forall x :: !(Includes(a, x) && Includes(b, x))
  {
    var left := PinchLeft(a.left, b.left);
    var right := PinchRight(a.right, b.right);
    ValidIffInhabited(left, right);
    match New(left, right)
    case Ok(i) => CommonValue(a, b); Some(i)
    case Err(_) => None
  }

  /** A value both operands hold, when their pinched bounds validate. */
  lemma CommonValue(a: Interval, b: Interval)
    requires Validate(PinchLeft(a.left, b.left), PinchRight(a.right, b.right)).Ok?
    ensures exists x :: Includes(a, x) && Includes(b, x)
  {
    var x := Inhabitant(PinchLeft(a.left, b.left), PinchRight(a.right, b.right));
    assert Includes(a, x) && Includes(b, x);
  }

  /** Unroll each side and add the limit points, without validation: both
      sides of the result are closed or absent, and it holds every value of
      either operand. */
  function UnionClosure(a: Interval, b: Interval): (r: Interval)
    ensures r.left.NoBound? || r.left.Closed?
    ensures r.right.NoBound? || r.right.Closed?
    ensures forall x :: Includes(a, x) || Includes(b, x) ==> Includes(r, x)
  {
    Interval(WithLimitPoint(UnrollLeft(a.left, b.left)), WithLimitPoint(UnrollRight(a.right, b.right)))
  }
}
