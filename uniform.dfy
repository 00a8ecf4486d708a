/** The uniform partition of src/partitions/uniform.rs: `size` cells of equal
    width between `left` and `right`, indexed by the floor of the offset over
    the width, and `linspace`, which builds one from a closed interval
    (src/lib.rs). Arithmetic is exact. */
module UniformPartition {
  import opened Wrappers
  import opened Bounds
  import opened Intervals
  import opened Partitions

  datatype Uniform = Uniform(size: nat, left: real, right: real)

  /** `linspace`: the uniform partition of a closed interval into `n` cells. */
  function Linspace(i: Interval, n: nat): (u: Uniform)
    requires i.left.Closed? && i.right.Closed?
    ensures u.size == n
    ensures forall x :: Includes(i, x) <==> u.left <= x <= u.right
  {
    Uniform(n, i.left.v, i.right.v)
  }

  /** The width of one cell: `size` of them span the partition exactly. */
  function PartitionWidth(u: Uniform): (w: real)
    requires u.size > 0
    ensures w * u.size as real == u.right - u.left
    ensures u.left < u.right ==> w > 0.0
  {
    (u.right - u.left) / u.size as real
  }

  /** The number of cells: that many widths span the partition. */
  function Len(u: Uniform): (r: nat)
    ensures u.size > 0 ==> r as real * PartitionWidth(u) == u.right - u.left
  {
    u.size
  }

  /** `x` lies in the `k`-th half-open cell `[left + k*w, left + (k+1)*w)`. */
  predicate InCell(u: Uniform, k: nat, x: real)
    requires u.size > 0
  {
    k as real * PartitionWidth(u) <= x - u.left < (k + 1) as real * PartitionWidth(u)
  }

  /** The cell of a value: none outside `[left, right]` or for an unordered
      value, the last cell for `right` itself, and otherwise the cell whose
      half-open span holds it. */
  function Index(u: Uniform, v: Sample): (r: Option<nat>)
    requires u.size > 0
    ensures r.Some? <==> v.Ordered? && u.left <= v.x <= u.right
    ensures r.Some? ==> r.value < Len(u)
    ensures r.Some? && v.x == u.right ==> r.value == u.size - 1
    ensures r.Some? && v.x < u.right ==> InCell(u, r.value, v.x)
  {
    match v
    case Unordered => None
    case Ordered(x) =>
      if x < u.left || x > u.right then None
      else if x == u.right then Some(u.size - 1)
      else
        var w := PartitionWidth(u);
        FloorBracket(x - u.left, w, u.size);
        Some(((x - u.left) / w).Floor as nat)
  }

  /** `k` is the floor of `d / w` when `d` lies in `[k*w, (k+1)*w)`, and below
      `n` when `d` is below `n*w`. */
  lemma FloorBracket(d: real, w: real, n: nat)
    requires w > 0.0 && 0.0 <= d < n as real * w
    ensures 0 <= (d / w).Floor < n
    ensures (d / w).Floor as real * w <= d < ((d / w).Floor + 1) as real * w
  {
    var q := d / w;
    var k := q.Floor;
    assert q * w == d;
    ScaleLe(k as real, q, w);
    ScaleLt(q, (k + 1) as real, w);
    assert d < (k + 1) as real * w;
    if k >= n {
      ScaleLe(n as real, k as real, w);
      ScaleLe(n as real * w, k as real * w, 1.0);
    }
  }

  lemma ScaleLe(a: real, b: real, w: real)
    requires a <= b && w > 0.0
    ensures a * w <= b * w
  {
  }

  lemma ScaleLt(a: real, b: real, w: real)
    requires a < b && w > 0.0
    ensures a * w < b * w
  {
  }

  /** `subinterval` as written: cell `k` below `size` is returned with the
      partition's own left edge and one width to its right, so every index
      gets the first cell's span; only the right tag depends on `k`. */
  function SubintervalAsWritten(u: Uniform, k: nat): (r: Option<SubInterval>)
    ensures r.Some? <==> k < Len(u)
    ensures r.Some? ==> r.value.index == k && Shaped(r.value)
    ensures r.Some? ==> r.value.interval.left == Closed(u.left) && Width(r.value) == PartitionWidth(u)
    ensures r.Some? ==> (r.value.interval.right.isOpen <==> k + 1 < u.size)
  {
    if k < u.size then
      var width := PartitionWidth(u);
      Some(SubInterval(k, Interval(
        Closed(u.left),
        if k == u.size - 1 then OpenOrClosed(false, u.left + width) else OpenOrClosed(true, u.left + width))))
    else
      None
  }

  /** `subinterval` with the `k`-th cell's own edges: closed at
      `left + k*width`, and at `left + (k+1)*width` open except for the last
      cell, which is closed at `right`. It holds exactly the cell's values. */
  function Subinterval(u: Uniform, k: nat): (r: Option<SubInterval>)
    ensures r.Some? <==> k < Len(u)
    ensures r.Some? ==> r.value.index == k && Shaped(r.value) && Width(r.value) == PartitionWidth(u)
    ensures r.Some? ==> (r.value.interval.right.isOpen <==> k + 1 < u.size)
    ensures r.Some? ==> forall x ::
      Includes(r.value.interval, x) <==> InCell(u, k, x) || (k + 1 == u.size && u.left <= x == u.right)
  {
    if k < u.size then
      var width := PartitionWidth(u);
      var lo := u.left + k as real * width;
      var hi := u.left + (k + 1) as real * width;
      assert k + 1 == u.size ==> hi == u.right;
      assert u.left <= u.right ==> lo <= hi by {
        if u.left < u.right { ScaleLt(k as real, (k + 1) as real, width); }
      }
      Some(SubInterval(k, Interval(
        Closed(lo),
        if k == u.size - 1 then OpenOrClosed(false, hi) else OpenOrClosed(true, hi))))
    else
      None
  }

  /** `digitise` over the corrected cells: a subinterval exactly when the value
      has an index, carrying that index and holding the value. */
  function Digitise(u: Uniform, v: Sample): (r: Option<SubInterval>)
    requires u.size > 0
    ensures r.Some? <==> Index(u, v).Some?
    ensures r.Some? ==> r.value.index == Index(u, v).value && Includes(r.value.interval, v.x)
  {
    match Index(u, v)
    case None => None
    case Some(k) => Subinterval(u, k)
  }

  /** `digitise` over the cells as written: the same index, but the cell handed
      back is always the first cell's span. */
  function DigitiseAsWritten(u: Uniform, v: Sample): (r: Option<SubInterval>)
    requires u.size > 0
    ensures r.Some? <==> Index(u, v).Some?
    ensures r.Some? ==> r.value.index == Index(u, v).value && r.value.interval.left == Closed(u.left)
  {
    match Index(u, v)
    case None => None
    case Some(k) => SubintervalAsWritten(u, k)
  }
}
