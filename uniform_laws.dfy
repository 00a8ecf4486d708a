/** Laws of the uniform partition: the cells tile `[left, right]`, a value's
    index names the one cell that holds it, and the cells as written miss the
    values they are handed for. */
module UniformLaws {
  import opened Wrappers
  import opened Bounds
  import opened Intervals
  import opened Partitions
  import opened UniformPartition

  /** Index results from the crate's tests (five cells over `[0, 5]`) and from
      the documentation example (five cells over `[0, 1]`). */
  lemma IndexExamples()
    ensures Index(Uniform(5, 0.0, 5.0), Ordered(-1.0)).None?
    ensures Index(Uniform(5, 0.0, 5.0), Ordered(6.0)).None?
    ensures Index(Uniform(5, 0.0, 5.0), Ordered(0.0)) == Some(0)
    ensures Index(Uniform(5, 0.0, 5.0), Ordered(1.0)) == Some(1)
    ensures Index(Uniform(5, 0.0, 5.0), Ordered(2.0)) == Some(2)
    ensures Index(Uniform(5, 0.0, 5.0), Ordered(3.0)) == Some(3)
    ensures Index(Uniform(5, 0.0, 5.0), Ordered(4.0)) == Some(4)
    ensures Index(Uniform(5, 0.0, 5.0), Ordered(5.0)) == Some(4)
    ensures Index(Uniform(5, 0.0, 1.0), Ordered(0.2)) == Some(1)
    ensures Index(Uniform(5, 0.0, 1.0), Ordered(0.7)) == Some(3)
    ensures Index(Uniform(5, 0.0, 1.0), Unordered).None?
  {
  }

  /** With five cells over `[0, 5]` the value 3 is indexed to cell 3, but
      `subinterval` as written hands back `[0, 1)`, which does not hold 3;
      the corrected cell `[3, 4)` does. */
  lemma SubintervalAsWrittenMisses()
    ensures Index(Uniform(5, 0.0, 5.0), Ordered(3.0)) == Some(3)
    ensures DigitiseAsWritten(Uniform(5, 0.0, 5.0), Ordered(3.0))
         == Some(SubInterval(3, Interval(Closed(0.0), OpenOrClosed(true, 1.0))))
    ensures !Includes(DigitiseAsWritten(Uniform(5, 0.0, 5.0), Ordered(3.0)).value.interval, 3.0)
    ensures Digitise(Uniform(5, 0.0, 5.0), Ordered(3.0))
         == Some(SubInterval(3, Interval(Closed(3.0), OpenOrClosed(true, 4.0))))
  {
  }

  /** Two cells that hold the same value are the same cell. */
  lemma {:induction false} CellUnique(u: Uniform, j: nat, k: nat, x: real)
    requires u.size > 0 && u.left < u.right
    requires InCell(u, j, x) && InCell(u, k, x)
    ensures j == k
  {
    var w, d := PartitionWidth(u), x - u.left;
    assert j as real * w <= d < (j + 1) as real * w;
    assert k as real * w <= d < (k + 1) as real * w;
    CancelLt(k as real, (j + 1) as real, w);
    CancelLt(j as real, (k + 1) as real, w);
  }

  /** A strict inequality between multiples of a positive width is one
      between the factors. */
  lemma CancelLt(a: real, b: real, w: real)
    requires w > 0.0 && a * w < b * w
    ensures a < b
  {
    if a >= b {
      ScaleLe(b, a, w);
    }
  }

  /** Over a non-degenerate span, the `k`-th cell holds `x` exactly when `x`
      is indexed to `k`: every value of `[left, right]` lies in one cell only. */
  lemma {:induction false} IndexIffIncludes(u: Uniform, k: nat, x: real)
    requires 0 < u.size && u.left < u.right && k < u.size
    ensures Includes(Subinterval(u, k).value.interval, x) <==> Index(u, Ordered(x)) == Some(k)
  {
    var w := PartitionWidth(u);
    if Includes(Subinterval(u, k).value.interval, x) {
      ScaleLe(0.0, k as real, w);
      ScaleLe((k + 1) as real, u.size as real, w);
      assert InCell(u, k, x) || x == u.right;
      if x < u.right {
        CellUnique(u, Index(u, Ordered(x)).value, k, x);
      } else if k + 1 < u.size {
        BeforeRight(u, k, x);
        assert false;
      }
    }
  }

  /** A value in a cell other than the last lies below `right`. */
  lemma BeforeRight(u: Uniform, k: nat, x: real)
    requires 0 < u.size && u.left < u.right && k + 1 < u.size
    requires InCell(u, k, x)
    ensures x < u.right
  {
    var w := PartitionWidth(u);
    ScaleLt((k + 1) as real, u.size as real, w);
  }

  /** The corrected cells tile the span: the first starts at `left`, each ends
      where the next starts, and the last ends at `right`. */
  lemma {:induction false} SubintervalsTile(u: Uniform, k: nat)
    requires k + 1 < u.size
    ensures Subinterval(u, 0).value.interval.left == Closed(u.left)
    ensures Subinterval(u, u.size - 1).value.interval.right == OpenOrClosed(false, u.right)
    ensures Subinterval(u, k).value.interval.right == OpenOrClosed(true, Subinterval(u, k + 1).value.interval.left.v)
  {
    var w := PartitionWidth(u);
    assert (u.size - 1 + 1) as real * w == u.right - u.left;
  }

  /** Every value of a closed interval is digitised by its `linspace`, and no
      value outside it is. */
  lemma {:induction false} LinspaceCovers(i: Interval, n: nat, x: real)
    requires i.left.Closed? && i.right.Closed? && n > 0
    ensures Digitise(Linspace(i, n), Ordered(x)).Some? <==> Includes(i, x)
  {
    var u := Linspace(i, n);
    assert Index(u, Ordered(x)).Some? <==> u.left <= x <= u.right;
  }
}
