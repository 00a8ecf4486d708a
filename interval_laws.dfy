/** Laws of interval intersection and union-closure, degeneracy, and the
    `contains` rule on the kind pairs where it tests the right side backwards. */
module IntervalLaws {
  import opened Wrappers
  import opened Bounds
  import opened BoundLaws
  import opened Validation
  import opened Intervals

  /** Validated construction succeeds exactly for a non-empty interval. */
  lemma {:induction false} NewIffNonEmpty(l: Bound, r: Bound)
    ensures New(l, r).Ok? <==> exists x :: Includes(Interval(l, r), x)
  {
    if New(l, r).Ok? {
      var x := Inhabitant(l, r);
      assert Includes(Interval(l, r), x);
    }
    if x :| Includes(Interval(l, r), x) {
      ValidIffInhabited(l, r);
    }
  }

  /** Intersection does not depend on operand order, result kinds included. */
  lemma {:induction false} IntersectCommutes(a: Interval, b: Interval)
    ensures Intersect(a, b) == Intersect(b, a)
  {
    Commute(a.left, b.left);
    Commute(a.right, b.right);
  }

  /** The unbounded interval is the identity of intersection: the other
      operand comes back unchanged when it is valid, and nothing otherwise. */
  lemma {:induction false} IntersectUnbounded(i: Interval)
    ensures Intersect(Unbounded(), i) == (if Validate(i.left, i.right).Ok? then Some(i) else None)
    ensures Intersect(i, Unbounded()) == Intersect(Unbounded(), i)
  {
    NoBoundLaws(i.left);
    NoBoundLaws(i.right);
  }

  /** Intersecting an interval with itself gives an equal interval when it is
      non-empty and nothing when it is empty. */
  lemma {:induction false} IntersectIdempotent(a: Interval)
    ensures Intersect(a, a).Some? <==> Validate(a.left, a.right).Ok?
    ensures Intersect(a, a).Some? ==> IntervalEq(Intersect(a, a).value, a)
  {
    EqIffSameSets(PinchLeft(a.left, a.left), a.left);
    EqIffSameSets(PinchRight(a.right, a.right), a.right);
    ValidIffInhabited(a.left, a.right);
  }

  /** Union-closure does not depend on operand order. */
  lemma {:induction false} UnionClosureCommutes(a: Interval, b: Interval)
    ensures UnionClosure(a, b) == UnionClosure(b, a)
  {
    Commute(a.left, b.left);
    Commute(a.right, b.right);
  }

  /** The unbounded interval absorbs union-closure. */
  lemma {:induction false} UnionClosureUnbounded(i: Interval)
    ensures UnionClosure(Unbounded(), i) == Unbounded() == UnionClosure(i, Unbounded())
  {
    NoBoundLaws(i.left);
    NoBoundLaws(i.right);
  }

  /** The union-closure of a valid interval with anything is valid. */
  lemma {:induction false} UnionClosureValid(a: Interval, b: Interval)
    requires Validate(a.left, a.right).Ok?
    ensures Validate(UnionClosure(a, b).left, UnionClosure(a, b).right).Ok?
  {
    var x := Inhabitant(a.left, a.right);
    assert Includes(UnionClosure(a, b), x);
    ValidIffInhabited(UnionClosure(a, b).left, UnionClosure(a, b).right);
  }

  /** For two bounded intervals the union-closure is the closed hull from the
      smaller left value to the larger right value. */
  lemma {:induction false} UnionClosureHull(a: Interval, b: Interval)
    requires !a.left.NoBound? && !a.right.NoBound? && !b.left.NoBound? && !b.right.NoBound?
    ensures UnionClosure(a, b) == ClosedUnchecked(
      if a.left.v <= b.left.v then a.left.v else b.left.v,
      if a.right.v >= b.right.v then a.right.v else b.right.v)
  {
    Values(a.left, b.left);
    Values(a.right, b.right);
  }

  /** Union-closure is the least interval with closed or absent sides that
      holds both operands, provided both are non-empty. */
  lemma {:induction false} UnionClosureLeast(a: Interval, b: Interval, c: Interval)
    requires Validate(a.left, a.right).Ok? && Validate(b.left, b.right).Ok?
    requires c.left.NoBound? || c.left.Closed?
    requires c.right.NoBound? || c.right.Closed?
    requires forall x :: Includes(a, x) || Includes(b, x) ==> Includes(c, x)
    ensures forall x :: Includes(UnionClosure(a, b), x) ==> Includes(c, x)
  {
    LeastLeft(a, b, c);
    LeastRight(a, b, c);
  }

  /** The left half of `UnionClosureLeast`. */
  lemma LeastLeft(a: Interval, b: Interval, c: Interval)
    requires Validate(a.left, a.right).Ok? && Validate(b.left, b.right).Ok?
    requires c.left.NoBound? || c.left.Closed?
    requires forall x :: Includes(a, x) || Includes(b, x) ==> Includes(c, x)
    ensures forall x :: LeftAdmits(UnionClosure(a, b).left, x) ==> LeftAdmits(c.left, x)
  {
    var ul := UnrollLeft(a.left, b.left);
    Selects(a.left, b.left);
    if c.left.Closed? && (ul.NoBound? || ul.v < c.left.v) {
      var s := if Eq(ul, a.left) then a else b;
      assert Value(Concrete(ul)) == Value(ul) && Value(Concrete(s.left)) == Value(s.left);
      var y := Below(s, c.left.v);
      assert false;
    }
  }

  /** The right half of `UnionClosureLeast`. */
  lemma LeastRight(a: Interval, b: Interval, c: Interval)
    requires Validate(a.left, a.right).Ok? && Validate(b.left, b.right).Ok?
    requires c.right.NoBound? || c.right.Closed?
    requires forall x :: Includes(a, x) || Includes(b, x) ==> Includes(c, x)
    ensures forall x :: RightAdmits(UnionClosure(a, b).right, x) ==> RightAdmits(c.right, x)
  {
    var ur := UnrollRight(a.right, b.right);
    Selects(a.right, b.right);
    if c.right.Closed? && (ur.NoBound? || ur.v > c.right.v) {
      var s := if Eq(ur, a.right) then a else b;
      assert Value(Concrete(ur)) == Value(ur) && Value(Concrete(s.right)) == Value(s.right);
      var y := Above(s, c.right.v);
      assert false;
    }
  }

  /** A non-empty interval whose left side is absent or below `q` holds a
      value below `q`. */
  lemma Below(a: Interval, q: real) returns (y: real)
    requires Validate(a.left, a.right).Ok?
    requires a.left.NoBound? || a.left.v < q
    ensures Includes(a, y) && y < q
  {
    var z := Inhabitant(a.left, a.right);
    if z < q {
      y := z;
    } else if a.left.NoBound? {
      y := q - 1.0;
    } else {
      y := (a.left.v + q) / 2.0;
    }
  }

  /** A non-empty interval whose right side is absent or above `q` holds a
      value above `q`. */
  lemma Above(a: Interval, q: real) returns (y: real)
    requires Validate(a.left, a.right).Ok?
    requires a.right.NoBound? || a.right.v > q
    ensures Includes(a, y) && y > q
  {
    var z := Inhabitant(a.left, a.right);
    if z > q {
      y := z;
    } else if a.right.NoBound? {
      y := q + 1.0;
    } else {
      y := (a.right.v + q) / 2.0;
    }
  }

  /** An interval holds exactly one value exactly when it is degenerate. */
  lemma {:induction false} DegenerateIffSinglePoint(i: Interval)
    ensures IsDegenerate(i) <==> exists x :: SinglePoint(i, x)
  {
    if IsDegenerate(i) {
      assert SinglePoint(i, i.left.v);
    }
    if x :| SinglePoint(i, x) {
      assert Includes(i, x);
      var lo := if i.left.NoBound? then x - 1.0 else (i.left.v + x) / 2.0;
      var hi := if i.right.NoBound? then x + 1.0 else (i.right.v + x) / 2.0;
      assert Includes(i, lo) ==> lo == x;
      assert Includes(i, hi) ==> hi == x;
    }
  }

  /** `i` holds `x` and nothing else. */
  ghost predicate SinglePoint(i: Interval, x: real)
  {
    forall v :: Includes(i, v) <==> v == x
  }

  /** On a concrete left side with an open union-kind right side, `contains`
      as written rejects an interior value and accepts one beyond the right
      limit: `[0, 2)` with the right side built as a union bound. */
  lemma ContainsReversedRight()
    ensures ReversedRightTest(Interval(Closed(0.0), OpenOrClosed(true, 2.0)))
    ensures Includes(Interval(Closed(0.0), OpenOrClosed(true, 2.0)), 1.0)
    ensures !Contains(Interval(Closed(0.0), OpenOrClosed(true, 2.0)), 1.0)
    ensures !Includes(Interval(Closed(0.0), OpenOrClosed(true, 2.0)), 3.0)
    ensures Contains(Interval(Closed(0.0), OpenOrClosed(true, 2.0)), 3.0)
  {
  }

  /** On every such pair `contains` as written accepts no interior value
      at all, and accepts every admitted value beyond the right limit. */
  lemma {:induction false} ContainsReversedRightDisjoint(i: Interval, x: real)
    requires HasContains(i) && ReversedRightTest(i)
    ensures Includes(i, x) ==> !Contains(i, x)
    ensures LeftAdmits(i.left, x) && x > i.right.v ==> Contains(i, x) && !Includes(i, x)
  {
  }

  /** The interval kinds without any `contains`: a right-closed interval (its
      impl was written for the closed interval type) and a union-kind pair. */
  lemma {:induction false} ContainsMissing(x: real)
    ensures !HasContains(RightClosed(x))
    ensures !HasContains(Interval(OpenOrClosed(false, x), OpenOrClosed(true, x)))
    ensures HasContains(ClosedUnchecked(x, x)) && HasContains(Unbounded())
  {
  }

  /** Intersection results taken from the crate's intersection tests, with
      `[0, 1]` on one side. */
  lemma IntersectExamples()
    ensures Intersect(ClosedUnchecked(0.0, 1.0), ClosedUnchecked(-2.0, -1.0)).None?
    ensures Intersect(ClosedUnchecked(0.0, 1.0), ClosedUnchecked(-1.0, 0.0)) == Some(Degenerate(0.0))
    ensures Intersect(ClosedUnchecked(0.0, 1.0), ClosedUnchecked(0.5, 1.5)) == Some(ClosedUnchecked(0.5, 1.0))
    ensures Intersect(ClosedUnchecked(0.0, 1.0), OpenUnchecked(-1.0, 0.0)).None?
    ensures Intersect(ClosedUnchecked(0.0, 1.0), OpenUnchecked(1.0, 2.0)).None?
  {
  }

  /** Intersections of `[0, 1]` with open intervals from the crate's
      intersection tests, compared with the cross-kind equality. */
  lemma IntersectOpenExamples()
    ensures IntervalEq(Intersect(ClosedUnchecked(0.0, 1.0), OpenUnchecked(-0.5, 0.5)).value, LcroUnchecked(0.0, 0.5))
    ensures IntervalEq(Intersect(ClosedUnchecked(0.0, 1.0), OpenUnchecked(0.0, 1.0)).value, OpenUnchecked(0.0, 1.0))
    ensures IntervalEq(Intersect(ClosedUnchecked(0.0, 1.0), OpenUnchecked(0.5, 1.5)).value, LorcUnchecked(0.5, 1.0))
  {
  }

  /** Union-closure results taken from the crate's union-closure tests. */
  lemma UnionClosureExamples()
    ensures UnionClosure(ClosedUnchecked(0.0, 1.0), OpenUnchecked(-2.0, -1.0)) == ClosedUnchecked(-2.0, 1.0)
    ensures UnionClosure(ClosedUnchecked(0.0, 1.0), LorcUnchecked(0.5, 1.5)) == ClosedUnchecked(0.0, 1.5)
    ensures UnionClosure(ClosedUnchecked(0.0, 1.0), LeftOpen(0.5)) == LeftClosed(0.0)
    ensures UnionClosure(OpenUnchecked(0.0, 1.0), RightOpen(2.0)) == RightClosed(2.0)
    ensures UnionClosure(ClosedUnchecked(0.0, 1.0), LeftClosed(-1.0)) == LeftClosed(-1.0)
  {
  }

  /** The documented degeneracy examples: `[0, 0]` is degenerate, `(0, 0)` is
      not. */
  lemma DegenerateExamples()
    ensures IsDegenerate(ClosedUnchecked(0.0, 0.0))
    ensures !IsDegenerate(OpenUnchecked(0.0, 0.0))
    ensures !IsDegenerate(Interval(Closed(0.0), OpenOrClosed(true, 0.0)))
    ensures IsDegenerate(Interval(OpenOrClosed(false, 1.0), Closed(1.0)))
  {
  }
}
