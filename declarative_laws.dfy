/** Laws of the declarative partition: the cells of strictly ascending
    breakpoints are disjoint and a value's index names the one cell holding
    it; the search finds nothing below the first breakpoint and, as written,
    never ends above the last; the cells and the length as written leave the
    last breakpoint out. */
module DeclarativeLaws {
  import opened Wrappers
  import opened Bounds
  import opened Intervals
  import opened Partitions
  import opened DeclarativePartition

  /** Construction examples: ordered breakpoints (repeats allowed) are
      accepted, out-of-order ones rejected with the breakpoints. */
  lemma NewExamples()
    ensures DeclarativePartition.New([0.0, 5.0, 10.0]) == Ok(Declarative([0.0, 5.0, 10.0]))
    ensures DeclarativePartition.New([0.0, 5.0, 5.0, 10.0]).Ok?
    ensures DeclarativePartition.New([0.0, 10.0, 5.0]) == Err(IllFormedBounds([0.0, 10.0, 5.0]))
  {
  }

  /** The documented example: over breakpoints `[0, 5, 10]` the values 1 and
      3 fall in cell 0 and the values 6, 9 and 10 in cell 1. */
  lemma DigitiseDocExamples()
    ensures Digitise(Declarative([0.0, 5.0, 10.0]), Ordered(1.0)).value.index == 0
    ensures Digitise(Declarative([0.0, 5.0, 10.0]), Ordered(3.0)).value.index == 0
    ensures Digitise(Declarative([0.0, 5.0, 10.0]), Ordered(6.0)).value.index == 1
    ensures Digitise(Declarative([0.0, 5.0, 10.0]), Ordered(9.0)).value.index == 1
    ensures Digitise(Declarative([0.0, 5.0, 10.0]), Ordered(10.0)).value.index == 1
    ensures Digitise(Declarative([0.0, 5.0, 10.0]), Ordered(-1.0)).None?
    ensures Digitise(Declarative([0.0, 5.0, 10.0]), Unordered).None?
  {
  }

  /** A search window whose breakpoints all lie above the value finds
      nothing: every pass keeps the lower half. */
  lemma {:induction false} SearchBelow(p: seq<real>, x: real, low: nat, high: nat)
    requires low <= high < |p|
    requires forall j :: low <= j <= high ==> x < p[j]
    ensures SearchFrom(p, Ordered(x), low, high).None?
    decreases high - low
  {
    if low < high {
      var middle := (low + high) / 2;
      assert Probe(p, Ordered(x), low, high) == Narrow(low, middle);
      SearchBelow(p, x, low, middle);
    }
  }

  /** Over ordered breakpoints, a value below the first one has no index. */
  lemma {:induction false} IndexBelowFirst(d: Declarative, x: real)
    requires |d.breakpoints| >= 2 && AdjacentOrdered(d.breakpoints)
    requires x < d.breakpoints[0]
    ensures Index(d, Ordered(x)).None?
  {
    SearchBelow(d.breakpoints, x, 0, |d.breakpoints| - 1);
  }

  /** Over ordered breakpoints, with the value above the last one, a pass of
      the search over a window ending at the last breakpoint narrows it to
      its upper half and still ends there with `low < high`: the loop, which
      has no check for this case, never returns. `[0, 5, 10]` with 11 reaches
      the window `[1, 2]`, which narrows to itself. */
  lemma {:induction false} SearchNeverEndsAbove(p: seq<real>, x: real, low: nat)
    requires AdjacentOrdered(p) && low + 1 < |p| && x > p[|p| - 1]
    ensures Probe(p, Ordered(x), low, |p| - 1) == Narrow((low + |p| - 1) / 2, |p| - 1)
    ensures (low + |p| - 1) / 2 < |p| - 1
    ensures Probe([0.0, 5.0, 10.0], Ordered(11.0), 0, 2) == Narrow(1, 2)
    ensures Probe([0.0, 5.0, 10.0], Ordered(11.0), 1, 2) == Narrow(1, 2)
  {
    var middle := (low + |p| - 1) / 2;
    assert p[middle] <= p[|p| - 1] && p[middle + 1] <= p[|p| - 1];
  }

  /** Cells of strictly ascending breakpoints do not overlap. */
  lemma {:induction false} CellsDisjoint(d: Declarative, j: nat, k: nat, x: real)
    requires StrictlyAscending(d.breakpoints) && j + 1 < |d.breakpoints| && k + 1 < |d.breakpoints|
    requires Includes(Subinterval(d, j).value.interval, x) && Includes(Subinterval(d, k).value.interval, x)
    ensures j == k
  {
  }

  /** Over strictly ascending breakpoints, cell `k` holds `x` exactly when
      `x` is indexed to `k`. */
  lemma {:induction false} IndexIffIncludes(d: Declarative, k: nat, x: real)
    requires StrictlyAscending(d.breakpoints) && k + 1 < |d.breakpoints|
    ensures Includes(Subinterval(d, k).value.interval, x) <==> Index(d, Ordered(x)) == Some(k)
  {
    var p := d.breakpoints;
    var s := Digitise(d, Ordered(x));
    if Includes(Subinterval(d, k).value.interval, x) {
      assert p[0] <= p[k] && p[k + 1] <= p[|p| - 1];
      CellsDisjoint(d, s.value.index, k, x);
    }
  }

  /** Over strictly ascending breakpoints every cell is reached: breakpoint
      `p[k]` is indexed to `k`, and the last breakpoint to the last cell. */
  lemma {:induction false} EveryCellReached(d: Declarative, k: nat)
    requires StrictlyAscending(d.breakpoints) && k + 1 < |d.breakpoints|
    ensures Index(d, Ordered(d.breakpoints[k])) == Some(k)
    ensures Index(d, Ordered(d.breakpoints[|d.breakpoints| - 1])) == Some(Len(d) - 1)
  {
    IndexIffIncludes(d, k, d.breakpoints[k]);
  }

  /** The cells as written are all open on the right, so over ordered
      breakpoints the last breakpoint lies in none of them, although it is
      indexed to the last one: `[0, 5, 10]` digitises 10 to `[5, 10)`. */
  lemma {:induction false} LastBreakpointUncovered(d: Declarative, k: nat)
    requires AdjacentOrdered(d.breakpoints) && k + 1 < |d.breakpoints|
    ensures !Includes(SubintervalAsWritten(d, k).value.interval, d.breakpoints[|d.breakpoints| - 1])
    ensures DigitiseAsWritten(Declarative([0.0, 5.0, 10.0]), Ordered(10.0))
         == Some(SubInterval(1, Interval(Closed(5.0), OpenOrClosed(true, 10.0))))
    ensures !Includes(DigitiseAsWritten(Declarative([0.0, 5.0, 10.0]), Ordered(10.0)).value.interval, 10.0)
  {
    assert d.breakpoints[k + 1] <= d.breakpoints[|d.breakpoints| - 1];
  }

  /** `len` as written is one short: the last breakpoint is indexed to
      `LenAsWritten`, not below it; `Len` counts that cell. */
  lemma {:induction false} LenAsWrittenShort(d: Declarative)
    requires |d.breakpoints| >= 2
    ensures Index(d, Ordered(d.breakpoints[|d.breakpoints| - 1])) == Some(LenAsWritten(d))
    ensures LenAsWritten(d) == Len(d) - 1
    ensures LenAsWritten(Declarative([0.0, 5.0, 10.0])) == 1
    ensures Index(Declarative([0.0, 5.0, 10.0]), Ordered(6.0)) == Some(1)
  {
  }
}
