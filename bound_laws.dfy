/** Laws of the bound algebra: cross-kind equality is equality of the
    admitted value sets, pinch and unroll commute, associate and select one
    of their operands, and the union kind only changes the tag of a result. */
module BoundLaws {
  import opened Wrappers
  import opened Bounds

  /** Equal bounds admit the same values, and over a dense order the converse
      holds on each side: the admitted set determines the bound up to `Eq`. */
  lemma {:induction false} EqIffSameSets(a: Bound, b: Bound)
    ensures Eq(a, b) <==> (forall x :: LeftAdmits(a, x) == LeftAdmits(b, x))
    ensures Eq(a, b) <==> (forall x :: RightAdmits(a, x) == RightAdmits(b, x))
  {
    if !Eq(a, b) {
      var w := Separator(a, b);
      assert LeftAdmits(a, w.0) != LeftAdmits(b, w.0);
      assert RightAdmits(a, w.1) != RightAdmits(b, w.1);
    }
  }

  /** A value on each side that one bound admits and the other does not. */
  lemma Separator(a: Bound, b: Bound) returns (w: (real, real))
    requires !Eq(a, b)
    ensures LeftAdmits(a, w.0) != LeftAdmits(b, w.0)
    ensures RightAdmits(a, w.1) != RightAdmits(b, w.1)
  {
    var ca, cb := Concrete(a), Concrete(b);
    if ca.NoBound? {
      w := (cb.v - 1.0, cb.v + 1.0);
    } else if cb.NoBound? {
      w := (ca.v - 1.0, ca.v + 1.0);
    } else if ca.v != cb.v {
      var m := (ca.v + cb.v) / 2.0;
      w := (m, m);
    } else {
      w := (ca.v, ca.v);
    }
  }

  /** The two pinches and the two unrolls do not depend on operand order. */
  lemma {:induction false} Commute(a: Bound, b: Bound)
    ensures PinchLeft(a, b) == PinchLeft(b, a)
    ensures PinchRight(a, b) == PinchRight(b, a)
    ensures UnrollLeft(a, b) == UnrollLeft(b, a)
    ensures UnrollRight(a, b) == UnrollRight(b, a)
    decreases Tagged(a, b)
  {
    if a.OpenOrClosed? || b.OpenOrClosed? {
      Dispatch(a, b);
      Dispatch(b, a);
      Commute(Concrete(a), Concrete(b));
    }
  }

  /** With a union-kind operand on either side, each combinator is the
      concrete-kind rule for the operands' tags, re-wrapped as a union bound. */
  lemma {:induction false} Dispatch(a: Bound, b: Bound)
    ensures a.OpenOrClosed? || b.OpenOrClosed? ==>
      PinchLeft(a, b) == Wrap(PinchLeft(Concrete(a), Concrete(b))) &&
      PinchRight(a, b) == Wrap(PinchRight(Concrete(a), Concrete(b)))
    ensures (a.OpenOrClosed? || b.OpenOrClosed?) && !a.NoBound? && !b.NoBound? ==>
      UnrollLeft(a, b) == Wrap(UnrollLeft(Concrete(a), Concrete(b))) &&
      UnrollRight(a, b) == Wrap(UnrollRight(Concrete(a), Concrete(b)))
  {
  }

  /** On two present bounds, pinch keeps the inner value and unroll the
      outer one, whatever the kinds. */
  lemma {:induction false} Values(a: Bound, b: Bound)
    requires !a.NoBound? && !b.NoBound?
    ensures PinchLeft(a, b).v == (if a.v >= b.v then a.v else b.v)
    ensures PinchRight(a, b).v == (if a.v <= b.v then a.v else b.v)
    ensures UnrollLeft(a, b).v == (if a.v <= b.v then a.v else b.v)
    ensures UnrollRight(a, b).v == (if a.v >= b.v then a.v else b.v)
  {
    Dispatch(a, b);
  }

  /** Pinch and unroll each return one of their operands, up to the tag. */
  lemma {:induction false} Selects(a: Bound, b: Bound)
    ensures Eq(PinchLeft(a, b), a) || Eq(PinchLeft(a, b), b)
    ensures Eq(PinchRight(a, b), a) || Eq(PinchRight(a, b), b)
    ensures Eq(UnrollLeft(a, b), a) || Eq(UnrollLeft(a, b), b)
    ensures Eq(UnrollRight(a, b), a) || Eq(UnrollRight(a, b), b)
  {
    SelectsLeft(a, b);
    SelectsRight(a, b);
  }

  /** The left half of `Selects`. */
  lemma {:induction false} SelectsLeft(a: Bound, b: Bound)
    ensures Eq(PinchLeft(a, b), a) || Eq(PinchLeft(a, b), b)
    ensures Eq(UnrollLeft(a, b), a) || Eq(UnrollLeft(a, b), b)
  {
    var pl, ul := PinchLeft(a, b), UnrollLeft(a, b);
    NestedTotal(a, b);
    if LeftNested(a, b) {
      EqIffSameSets(pl, a); EqIffSameSets(ul, b);
    } else {
      EqIffSameSets(pl, b); EqIffSameSets(ul, a);
    }
  }

  /** The right half of `Selects`. */
  lemma {:induction false} SelectsRight(a: Bound, b: Bound)
    ensures Eq(PinchRight(a, b), a) || Eq(PinchRight(a, b), b)
    ensures Eq(UnrollRight(a, b), a) || Eq(UnrollRight(a, b), b)
  {
    var pr, ur := PinchRight(a, b), UnrollRight(a, b);
    NestedTotal(a, b);
    if RightNested(a, b) {
      EqIffSameSets(pr, a); EqIffSameSets(ur, b);
    } else {
      EqIffSameSets(pr, b); EqIffSameSets(ur, a);
    }
  }

  /** Whether everything `a` admits as a left bound `b` admits too. */
  ghost predicate LeftNested(a: Bound, b: Bound)
  {
    forall x :: LeftAdmits(a, x) ==> LeftAdmits(b, x)
  }

  /** Whether everything `a` admits as a right bound `b` admits too. */
  ghost predicate RightNested(a: Bound, b: Bound)
  {
    forall x :: RightAdmits(a, x) ==> RightAdmits(b, x)
  }

  /** Admitted sets on one side are totally ordered by inclusion. */
  lemma {:induction false} NestedTotal(a: Bound, b: Bound)
    ensures LeftNested(a, b) || LeftNested(b, a)
    ensures RightNested(a, b) || RightNested(b, a)
  {
  }

  /** Repeated pinching or unrolling may be grouped either way. */
  lemma {:induction false} Associate(a: Bound, b: Bound, c: Bound)
    ensures Eq(PinchLeft(PinchLeft(a, b), c), PinchLeft(a, PinchLeft(b, c)))
    ensures Eq(PinchRight(PinchRight(a, b), c), PinchRight(a, PinchRight(b, c)))
    ensures Eq(UnrollLeft(UnrollLeft(a, b), c), UnrollLeft(a, UnrollLeft(b, c)))
    ensures Eq(UnrollRight(UnrollRight(a, b), c), UnrollRight(a, UnrollRight(b, c)))
  {
    EqIffSameSets(PinchLeft(PinchLeft(a, b), c), PinchLeft(a, PinchLeft(b, c)));
    EqIffSameSets(PinchRight(PinchRight(a, b), c), PinchRight(a, PinchRight(b, c)));
    EqIffSameSets(UnrollLeft(UnrollLeft(a, b), c), UnrollLeft(a, UnrollLeft(b, c)));
    EqIffSameSets(UnrollRight(UnrollRight(a, b), c), UnrollRight(a, UnrollRight(b, c)));
  }

  /** `NoBound` is the identity of pinch and absorbs unroll, on both sides and
      in both operand orders; its limit point is itself. */
  lemma {:induction false} NoBoundLaws(b: Bound)
    ensures PinchLeft(NoBound, b) == b && PinchLeft(b, NoBound) == b
    ensures PinchRight(NoBound, b) == b && PinchRight(b, NoBound) == b
    ensures UnrollLeft(NoBound, b) == NoBound && UnrollLeft(b, NoBound) == NoBound
    ensures UnrollRight(NoBound, b) == NoBound && UnrollRight(b, NoBound) == NoBound
    ensures WithLimitPoint(NoBound) == NoBound
    ensures Value(NoBound) == None && !IsOpen(NoBound) && !IsClosed(NoBound)
    ensures !b.NoBound? ==> !Eq(NoBound, b) && !Eq(b, NoBound)
  {
    match b
    case OpenOrClosed(_, _) =>
      assert PinchLeft(NoBound, b) == Wrap(PinchLeft(NoBound, Concrete(b)));
      assert PinchRight(NoBound, b) == Wrap(PinchRight(NoBound, Concrete(b)));
    case _ =>
  }

  /** The documented examples of the `Pinch` and `Unroll` traits, with
      `Closed(1)` as receiver and `Open(2)` as argument. */
  lemma TraitDocExamples()
    ensures Eq(PinchLeft(Closed(1.0), Open(2.0)), Open(2.0))
    ensures Eq(PinchRight(Closed(1.0), Open(2.0)), Closed(1.0))
    ensures Eq(UnrollLeft(Closed(1.0), Open(2.0)), Closed(1.0))
    ensures Eq(UnrollRight(Closed(1.0), Open(2.0)), Open(2.0))
  {
  }

  /** Ties between an open and a closed bound at the same value: pinch keeps
      the open one (the point is excluded), unroll keeps the closed one. */
  lemma {:induction false} Ties(x: real)
    ensures PinchLeft(Open(x), Closed(x)) == OpenOrClosed(true, x) == PinchLeft(Closed(x), Open(x))
    ensures PinchRight(Open(x), Closed(x)) == OpenOrClosed(true, x) == PinchRight(Closed(x), Open(x))
    ensures UnrollLeft(Open(x), Closed(x)) == OpenOrClosed(false, x) == UnrollLeft(Closed(x), Open(x))
    ensures UnrollRight(Open(x), Closed(x)) == OpenOrClosed(false, x) == UnrollRight(Closed(x), Open(x))
  {
  }

  /** Accessors of the union kind follow its tag, and its limit point is the
      concrete `Closed` bound at its value. */
  lemma {:induction false} UnionAccessors(isOpen: bool, x: real)
    ensures IsOpen(OpenOrClosed(isOpen, x)) == isOpen
    ensures IsClosed(OpenOrClosed(isOpen, x)) == !isOpen
    ensures Value(OpenOrClosed(isOpen, x)) == Some(x) == Some(Unwrap(OpenOrClosed(isOpen, x)))
    ensures WithLimitPoint(OpenOrClosed(isOpen, x)) == Closed(x)
    ensures WithLimitPoint(Open(x)) == Closed(x) == WithLimitPoint(Closed(x))
  {
  }
}
