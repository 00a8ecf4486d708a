/** Ordering validation of a left/right bound pair (`validate` and the
    `ValidateBounds` impls of src/bounds/mod.rs): the one place that decides
    whether two bounds form a legal interval. */
module Validation {
  import opened Wrappers
  import opened Bounds

  datatype ValidationError = DecreasingBounds(left: Bound, right: Bound)

  /** Accepts a pair touching `NoBound`; otherwise rejects when the left value
      exceeds the right one, or equals it while either side is open. The
      accepted or rejected pair is handed back unchanged. */
  function Validate(l: Bound, r: Bound): (res: Result<(Bound, Bound), ValidationError>)
    ensures res.Ok? <==>
      l.NoBound? || r.NoBound? || (if IsClosed(l) && IsClosed(r) then l.v <= r.v else l.v < r.v)
    ensures res.Ok? ==> res.value == (l, r)
    ensures res.Err? ==> res.error == DecreasingBounds(l, r)
  {
    var invalid :=
      match l
      case NoBound => false
      case Closed(x) => (
        match r
        case NoBound => false
        case Closed(y) => x > y
        case Open(y) => x >= y
        case OpenOrClosed(isOpen, y) => if isOpen then x >= y else x > y)
      case Open(x) => (
        match r
        case NoBound => false
        case Closed(y) => x >= y
        case Open(y) => x >= y
        case OpenOrClosed(_, y) => x >= y)
      case OpenOrClosed(isOpen, x) => (
        match r
        case NoBound => false
        case Closed(y) => if isOpen then x >= y else x > y
        case Open(y) => x >= y
        case OpenOrClosed(isOpen', y) => if isOpen || isOpen' then x >= y else x > y);
    if invalid then Err(DecreasingBounds(l, r)) else Ok((l, r))
  }

  /** Over a dense order, a pair validates exactly when some value lies
      inside both bounds. */
  lemma {:induction false} ValidIffInhabited(l: Bound, r: Bound)
    ensures Validate(l, r).Ok? <==> exists x :: LeftAdmits(l, x) && RightAdmits(r, x)
  {
    if Validate(l, r).Ok? {
      var x := Inhabitant(l, r);
      assert LeftAdmits(l, x) && RightAdmits(r, x);
    }
  }

  /** A value inside an accepted pair: just inside the left bound, or just
      inside the right bound when the left is absent. */
  lemma Inhabitant(l: Bound, r: Bound) returns (x: real)
    requires Validate(l, r).Ok?
    ensures LeftAdmits(l, x) && RightAdmits(r, x)
  {
    if l.NoBound? && r.NoBound? {
      x := 0.0;
    } else if l.NoBound? {
      x := r.v - 1.0;
    } else if r.NoBound? {
      x := l.v + 1.0;
    } else if IsClosed(l) && IsClosed(r) {
      x := l.v;
    } else {
      x := (l.v + r.v) / 2.0;
    }
  }

  /** The validation tests of src/bounds/mod.rs, at 0 against -1, 0 and 1. */
  lemma {:induction false} ValidateExamples()
    ensures forall b: Bound :: Validate(NoBound, b).Ok? && Validate(b, NoBound).Ok?
    ensures Validate(Closed(0.0), Closed(0.0)).Ok? && Validate(Closed(0.0), Closed(-1.0)).Err?
    ensures Validate(Open(0.0), Open(0.0)).Err? && Validate(Open(0.0), Open(1.0)).Ok?
    ensures Validate(Closed(0.0), Open(0.0)).Err? && Validate(Open(0.0), Closed(0.0)).Err?
    ensures Validate(OpenOrClosed(false, 0.0), Closed(0.0)).Ok?
    ensures Validate(Closed(0.0), OpenOrClosed(true, 0.0)).Err?
    ensures Validate(OpenOrClosed(false, 0.0), OpenOrClosed(true, 0.0)).Err?
    ensures Validate(OpenOrClosed(true, 0.0), OpenOrClosed(false, 1.0)).Ok?
  {
  }
}
