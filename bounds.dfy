/** The bound kinds of `src/bounds/` and their algebra.

    The library gives every kind its own type (`NoBound`, `Open`, `Closed`
    and the dynamic union `OpenOrClosed`) and picks the kind of a combined
    bound at compile time through associated types. Here the four kinds are
    the constructors of one datatype, and the kind a combinator returns is the
    constructor of its result. Values are exact reals: the library only ever
    compares them. */
module Bounds {
  import opened Wrappers

  /** One side of an interval. `OpenOrClosed` is the union kind whose tag
      `isOpen` is only known at run time. */
  datatype Bound = NoBound | Open(v: real) | Closed(v: real) | OpenOrClosed(isOpen: bool, v: real)

  // ---------------------------------------------------------------------
  // Meaning of a bound: which values it lets through on each side. These are
  // the reference definitions the combinators below are proved against.
  // ---------------------------------------------------------------------

  /** `x` lies on the inner side of `b` when `b` is a lower (left) bound. */
  predicate LeftAdmits(b: Bound, x: real)
  {
    match b
    case NoBound => true
    case Open(v) => x > v
    case Closed(v) => x >= v
    case OpenOrClosed(isOpen, v) => if isOpen then x > v else x >= v
  }

  /** `x` lies on the inner side of `b` when `b` is an upper (right) bound. */
  predicate RightAdmits(b: Bound, x: real)
  {
    match b
    case NoBound => true
    case Open(v) => x < v
    case Closed(v) => x <= v
    case OpenOrClosed(isOpen, v) => if isOpen then x < v else x <= v
  }

  // ---------------------------------------------------------------------
  // The `Bound` trait: value, is_open, is_closed, with_limit_point.
  // ---------------------------------------------------------------------

  /** The limit value, absent exactly for `NoBound`. */
  function Value(b: Bound): (r: Option<real>)
    ensures r.None? <==> b.NoBound?
    ensures r.Some? ==> r.value == b.v
  {
    match b
    case NoBound => None
    case Open(v) => Some(v)
    case Closed(v) => Some(v)
    case OpenOrClosed(_, v) => Some(v)
  }

  /** An open bound is one that excludes its own limit value. */
  predicate IsOpen(b: Bound)
    ensures IsOpen(b) <==> !b.NoBound? && !LeftAdmits(b, b.v) && !RightAdmits(b, b.v)
  {
    match b
    case NoBound => false
    case Open(_) => true
    case Closed(_) => false
    case OpenOrClosed(isOpen, _) => isOpen
  }

  /** A closed bound is one that includes its own limit value. */
  predicate IsClosed(b: Bound)
    ensures IsClosed(b) <==> !b.NoBound? && LeftAdmits(b, b.v) && RightAdmits(b, b.v)
  {
    match b
    case NoBound => false
    case Open(_) => false
    case Closed(_) => true
    case OpenOrClosed(isOpen, _) => !isOpen
  }

  /** The bound with its limit point added: `NoBound` stays, every other kind
      becomes `Closed` at the same value. */
  function WithLimitPoint(b: Bound): (r: Bound)
    ensures r.NoBound? || r.Closed?
    ensures Value(r) == Value(b)
    ensures forall x :: LeftAdmits(r, x) <==> LeftAdmits(b, x) || Value(b) == Some(x)
    ensures forall x :: RightAdmits(r, x) <==> RightAdmits(b, x) || Value(b) == Some(x)
  {
    match b
    case NoBound => b
    case Open(v) => Closed(v)
    case Closed(_) => b
    case OpenOrClosed(_, v) => Closed(v)
  }

  // ---------------------------------------------------------------------
  // `OpenOrClosed`: unwrap, the `From` conversions, and the concrete kind a
  // tag stands for (how mixed.rs dispatches).
  // ---------------------------------------------------------------------

  /** The payload of a union bound, whatever its tag. */
  function Unwrap(b: Bound): (r: real)
    requires b.OpenOrClosed?
    ensures Value(b) == Some(r)
  {
    match b
    case OpenOrClosed(_, v) => v
  }

  /** `.into()` to the union kind: `Open` and `Closed` become the matching
      tag, a union bound is unchanged. */
  function Wrap(b: Bound): (r: Bound)
    requires !b.NoBound?
    ensures r.OpenOrClosed?
    ensures Value(r) == Value(b) && IsOpen(r) == IsOpen(b)
    ensures forall x :: LeftAdmits(r, x) == LeftAdmits(b, x) && RightAdmits(r, x) == RightAdmits(b, x)
  {
    match b
    case Open(v) => OpenOrClosed(true, v)
    case Closed(v) => OpenOrClosed(false, v)
    case OpenOrClosed(_, _) => b
  }

  /** The concrete kind a union bound's tag selects; other kinds unchanged. */
  function Concrete(b: Bound): (r: Bound)
    ensures !r.OpenOrClosed?
    ensures Value(r) == Value(b) && IsOpen(r) == IsOpen(b)
    ensures forall x :: LeftAdmits(r, x) == LeftAdmits(b, x) && RightAdmits(r, x) == RightAdmits(b, x)
  {
    match b
    case OpenOrClosed(isOpen, v) => if isOpen then Open(v) else Closed(v)
    case _ => b
  }

  /** Number of union-kind operands; the dispatch in mixed.rs lowers it. */
  function Tagged(a: Bound, b: Bound): nat
  {
    (if a.OpenOrClosed? then 1 else 0) + (if b.OpenOrClosed? then 1 else 0)
  }

  // ---------------------------------------------------------------------
  // Pinch: the tighter of two bounds on the same side (intersection).
  // A union operand is dispatched on its own tag first (the receiver's, then
  // the argument's), the concrete rule applied, and the result re-wrapped.
  // ---------------------------------------------------------------------

  /** Left pinch: the result admits exactly what both operands admit. */
  function PinchLeft(a: Bound, b: Bound): (r: Bound)
    ensures forall x :: LeftAdmits(r, x) <==> LeftAdmits(a, x) && LeftAdmits(b, x)
    ensures r.NoBound? <==> a.NoBound? && b.NoBound?
    ensures a.OpenOrClosed? || b.OpenOrClosed? ==> r.OpenOrClosed?
    ensures a.Open? && b.Open? ==> r.Open?
    ensures a.Closed? && b.Closed? ==> r.Closed?
    ensures (a.Open? && b.Closed?) || (a.Closed? && b.Open?) ==> r.OpenOrClosed?
    ensures a.NoBound? && !b.OpenOrClosed? ==> r == b
    ensures b.NoBound? && !a.OpenOrClosed? ==> r == a
    decreases Tagged(a, b)
  {
    match a
    case OpenOrClosed(_, _) => Wrap(PinchLeft(Concrete(a), b))
    case NoBound => (
      match b
      case OpenOrClosed(_, _) => Wrap(PinchLeft(a, Concrete(b)))
      case _ => b)
    case Open(x) => (
      match b
      case NoBound => a
      case Open(y) => if x >= y then a else b
      case Closed(y) => if x >= y then OpenOrClosed(true, x) else OpenOrClosed(false, y)
      case OpenOrClosed(_, _) => Wrap(PinchLeft(a, Concrete(b))))
    case Closed(x) => (
      match b
      case NoBound => a
      case Open(y) => if x > y then OpenOrClosed(false, x) else OpenOrClosed(true, y)
      case Closed(y) => if x >= y then a else b
      case OpenOrClosed(_, _) => Wrap(PinchLeft(a, Concrete(b))))
  }

  /** Right pinch: the result admits exactly what both operands admit. */
  function PinchRight(a: Bound, b: Bound): (r: Bound)
    ensures forall x :: RightAdmits(r, x) <==> RightAdmits(a, x) && RightAdmits(b, x)
    ensures r.NoBound? <==> a.NoBound? && b.NoBound?
    ensures a.OpenOrClosed? || b.OpenOrClosed? ==> r.OpenOrClosed?
    ensures a.Open? && b.Open? ==> r.Open?
    ensures a.Closed? && b.Closed? ==> r.Closed?
    ensures (a.Open? && b.Closed?) || (a.Closed? && b.Open?) ==> r.OpenOrClosed?
    ensures a.NoBound? && !b.OpenOrClosed? ==> r == b
    ensures b.NoBound? && !a.OpenOrClosed? ==> r == a
    decreases Tagged(a, b)
  {
    match a
    case OpenOrClosed(_, _) => Wrap(PinchRight(Concrete(a), b))
    case NoBound => (
      match b
      case OpenOrClosed(_, _) => Wrap(PinchRight(a, Concrete(b)))
      case _ => b)
    case Open(x) => (
      match b
      case NoBound => a
      case Open(y) => if x <= y then a else b
      case Closed(y) => if x <= y then OpenOrClosed(true, x) else OpenOrClosed(false, y)
      case OpenOrClosed(_, _) => Wrap(PinchRight(a, Concrete(b))))
    case Closed(x) => (
      match b
      case NoBound => a
      case Open(y) => if x < y then OpenOrClosed(false, x) else OpenOrClosed(true, y)
      case Closed(y) => if x <= y then a else b
      case OpenOrClosed(_, _) => Wrap(PinchRight(a, Concrete(b))))
  }

  // ---------------------------------------------------------------------
  // Unroll: the looser of two bounds on the same side (union-closure).
  // `NoBound` absorbs every kind, the union kind included, before any
  // dispatch on tags.
  // ---------------------------------------------------------------------

  /** Left unroll: the result admits exactly what either operand admits. */
  function UnrollLeft(a: Bound, b: Bound): (r: Bound)
    ensures forall x :: LeftAdmits(r, x) <==> LeftAdmits(a, x) || LeftAdmits(b, x)
    ensures r.NoBound? <==> a.NoBound? || b.NoBound?
    ensures !r.NoBound? && (a.OpenOrClosed? || b.OpenOrClosed?) ==> r.OpenOrClosed?
    ensures a.Open? && b.Open? ==> r.Open?
    ensures a.Closed? && b.Closed? ==> r.Closed?
    ensures (a.Open? && b.Closed?) || (a.Closed? && b.Open?) ==> r.OpenOrClosed?
    decreases Tagged(a, b)
  {
    match a
    case NoBound => NoBound
    case OpenOrClosed(_, _) => (
      match b
      case NoBound => NoBound
      case _ => Wrap(UnrollLeft(Concrete(a), b)))
    case Open(x) => (
      match b
      case NoBound => NoBound
      case Open(y) => if x <= y then a else b
      case Closed(y) => if x < y then OpenOrClosed(true, x) else OpenOrClosed(false, y)
      case OpenOrClosed(_, _) => Wrap(UnrollLeft(a, Concrete(b))))
    case Closed(x) => (
      match b
      case NoBound => NoBound
      case Open(y) => if x <= y then OpenOrClosed(false, x) else OpenOrClosed(true, y)
      case Closed(y) => if x <= y then a else b
      case OpenOrClosed(_, _) => Wrap(UnrollLeft(a, Concrete(b))))
  }

  /** Right unroll: the result admits exactly what either operand admits. */
  function UnrollRight(a: Bound, b: Bound): (r: Bound)
    ensures forall x :: RightAdmits(r, x) <==> RightAdmits(a, x) || RightAdmits(b, x)
    ensures r.NoBound? <==> a.NoBound? || b.NoBound?
    ensures !r.NoBound? && (a.OpenOrClosed? || b.OpenOrClosed?) ==> r.OpenOrClosed?
    ensures a.Open? && b.Open? ==> r.Open?
    ensures a.Closed? && b.Closed? ==> r.Closed?
    ensures (a.Open? && b.Closed?) || (a.Closed? && b.Open?) ==> r.OpenOrClosed?
    decreases Tagged(a, b)
  {
    match a
    case NoBound => NoBound
    case OpenOrClosed(_, _) => (
      match b
      case NoBound => NoBound
      case _ => Wrap(UnrollRight(Concrete(a), b)))
    case Open(x) => (
      match b
      case NoBound => NoBound
      case Open(y) => if x >= y then a else b
      case Closed(y) => if x > y then OpenOrClosed(true, x) else OpenOrClosed(false, y)
      case OpenOrClosed(_, _) => Wrap(UnrollRight(a, Concrete(b))))
    case Closed(x) => (
      match b
      case NoBound => NoBound
      case Open(y) => if x >= y then OpenOrClosed(false, x) else OpenOrClosed(true, y)
      case Closed(y) => if x >= y then a else b
      case OpenOrClosed(_, _) => Wrap(UnrollRight(a, Concrete(b))))
  }

  // ---------------------------------------------------------------------
  // Equality across kinds (the `PartialEq` impls of every bound file).
  // ---------------------------------------------------------------------

  /** Two bounds are equal when they are the same kind and value, or one is
      the union kind whose tag selects the other's kind, at the same value. */
  predicate Eq(a: Bound, b: Bound)
    ensures Eq(a, b) <==> Concrete(a) == Concrete(b)
  {
    match a
    case NoBound => b.NoBound?
    case Open(x) => (
      match b
      case Open(y) => x == y
      case OpenOrClosed(isOpen, y) => isOpen && x == y
      case _ => false)
    case Closed(x) => (
      match b
      case Closed(y) => x == y
      case OpenOrClosed(isOpen, y) => !isOpen && x == y
      case _ => false)
    case OpenOrClosed(isOpen, x) => (
      match b
      case NoBound => false
      case Open(y) => isOpen && x == y
      case Closed(y) => !isOpen && x == y
      case OpenOrClosed(isOpen', y) => isOpen == isOpen' && x == y)
  }
}
