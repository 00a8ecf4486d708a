/** The declarative partition of src/partitions/declarative.rs: explicit
    breakpoints `p[0] <= ... <= p[N-1]`, cell `k` spanning `p[k]` to
    `p[k+1]`, and a binary search over adjacent pairs to find a value's cell. */
module DeclarativePartition {
  import opened Wrappers
  import opened Bounds
  import opened Intervals
  import opened Partitions

  datatype Declarative = Declarative(breakpoints: seq<real>)

  // ---------------------------------------------------------------------
  // Construction and size
  // ---------------------------------------------------------------------

  /** The check of `new`: every adjacent pair, from the front, is in order.
      It holds exactly when every pair of breakpoints is in order. */
  predicate AdjacentOrdered(p: seq<real>)
    ensures AdjacentOrdered(p) <==> forall i, j :: 0 <= i <= j < |p| ==> p[i] <= p[j]
    decreases |p|
  {
    if |p| < 2 then true
    else
      assert forall i :: 0 <= i < |p| - 1 ==> p[1..][i] == p[i + 1];
      p[0] <= p[1] && AdjacentOrdered(p[1..])
  }

  /** Breakpoints that strictly increase, so that no cell is empty. */
  predicate StrictlyAscending(p: seq<real>)
  {
    forall i, j :: 0 <= i < j < |p| ==> p[i] < p[j]
  }

  /** Validated construction: the breakpoints unchanged when they are in
      order, otherwise the error carrying them. */
  function New(p: seq<real>): (r: Result<Declarative, PartitionError>)
    ensures r.Ok? <==> forall i, j :: 0 <= i <= j < |p| ==> p[i] <= p[j]
    ensures r.Ok? ==> r.value == Declarative(p)
    ensures r.Err? ==> r.error == IllFormedBounds(p)
  {
    if AdjacentOrdered(p) then Ok(Declarative(p)) else Err(IllFormedBounds(p))
  }

  /** `len` as written: two fewer than the breakpoints, one short of the
      number of cells. */
  function LenAsWritten(d: Declarative): (r: int)
    ensures r == Len(d) - 1
  {
    |d.breakpoints| - 2
  }

  /** The number of cells `N` breakpoints delimit, `N - 1`: every index a
      value can get lies below it, and the last of them is the cell closed at
      the last breakpoint. */
  function Len(d: Declarative): (r: int)
    ensures |d.breakpoints| >= 2 ==>
      1 <= r < |d.breakpoints| &&
      Subinterval(d, r - 1).value.interval.right == OpenOrClosed(false, d.breakpoints[|d.breakpoints| - 1])
  {
    |d.breakpoints| - 1
  }

  // ---------------------------------------------------------------------
  // Binary search over adjacent pairs
  // ---------------------------------------------------------------------

  /** What one pass of the search loop does with the window `[low, high]`. */
  datatype Step = Found(k: nat) | Missing | Narrow(low: nat, high: nat)

  /** One pass of the loop: compare the value with `p[middle]` and
      `p[middle + 1]`. An unordered value stops the search; a value inside
      `[p[middle], p[middle + 1])` or equal to `p[middle + 1]` is found; any
      other value narrows the window to one side of `middle`. */
  function Probe(p: seq<real>, v: Sample, low: nat, high: nat): (s: Step)
    requires low < high < |p|
    ensures s.Missing? <==> v.Unordered?
    ensures s.Found? ==> v.Ordered? && low <= s.k <= high && p[s.k] <= v.x
    ensures s.Found? && p[s.k] != v.x ==> s.k < high && v.x < p[s.k + 1]
    ensures s.Narrow? ==> low <= s.low <= s.high <= high
    ensures s.Narrow? && p[low] <= v.x ==> p[s.low] <= v.x
    ensures s.Narrow? && v.x <= p[high] ==> v.x <= p[s.high] && s.high - s.low < high - low
    ensures s.Narrow? && p[low] <= v.x <= p[high] ==> s.low < s.high
  {
    var middle := (low + high) / 2;
    match v
    case Unordered => Missing
    case Ordered(x) =>
      if p[middle] <= x then
        if p[middle + 1] > x then Found(middle)
        else if p[middle + 1] == x then Found(middle + 1)
        else Narrow(middle, high)
      else
        Narrow(low, middle)
  }

  /** The search from window `[low, high]`, while the value is unordered or
      at most `p[high]` (the loop need not end otherwise). A found index has
      its breakpoint at or below the value, and the value below the next
      breakpoint unless it equals its own; an ordered value at or above
      `p[low]` is always found; an unordered one never is. */
  function SearchFrom(p: seq<real>, v: Sample, low: nat, high: nat): (r: Option<nat>)
    requires low <= high < |p|
    requires v.Unordered? || v.x <= p[high]
    ensures r.Some? ==> v.Ordered? && low <= r.value <= high && p[r.value] <= v.x
    ensures r.Some? && p[r.value] != v.x ==> r.value < high && v.x < p[r.value + 1]
    ensures v.Ordered? && p[low] <= v.x && low < high ==> r.Some?
    ensures v.Unordered? ==> r.None?
    decreases high - low
  {
    if low < high then
      match Probe(p, v, low, high)
      case Found(k) => Some(k)
      case Missing => None
      case Narrow(l, h) => SearchFrom(p, v, l, h)
    else
      None
  }

  /** The search over all breakpoints. */
  function Search(p: seq<real>, v: Sample): Option<nat>
    requires |p| >= 1
    requires v.Unordered? || v.x <= p[|p| - 1]
  {
    SearchFrom(p, v, 0, |p| - 1)
  }

  /** One pass of the search, in the terms of the loop's own comparisons with
      `p[middle]` and `p[middle + 1]`: an unordered value ends it with
      nothing, a value in `[p[middle], p[middle + 1])` or equal to
      `p[middle + 1]` with that index, and any other value continues from the
      half of the window that can still hold it. */
  lemma SearchStep(p: seq<real>, v: Sample, low: nat, high: nat)
    requires low < high < |p|
    requires v.Unordered? || v.x <= p[high]
    ensures v.Unordered? ==> SearchFrom(p, v, low, high).None?
    ensures var m := (low + high) / 2;
      v.Ordered? && p[m] <= v.x && p[m + 1] > v.x ==> SearchFrom(p, v, low, high) == Some(m)
    ensures var m := (low + high) / 2;
      v.Ordered? && p[m] <= v.x && p[m + 1] == v.x ==> SearchFrom(p, v, low, high) == Some(m + 1)
    ensures var m := (low + high) / 2;
      v.Ordered? && p[m] <= v.x && p[m + 1] < v.x ==> SearchFrom(p, v, low, high) == SearchFrom(p, v, m, high)
    ensures var m := (low + high) / 2;
      v.Ordered? && p[m] > v.x ==> SearchFrom(p, v, low, high) == SearchFrom(p, v, low, m)
  {
  }

  /** `binary_search`: the loop over `low` and `high`, returning the same
      answer as `Search`. */
  method BinarySearch(p: seq<real>, v: Sample) returns (r: Option<nat>)
    requires |p| >= 1
    requires v.Unordered? || v.x <= p[|p| - 1]
    ensures r == Search(p, v)
  {
    var low: nat := 0;
    var high: nat := |p| - 1;
    while low < high
      invariant low <= high < |p|
      invariant v.Unordered? || v.x <= p[high]
      invariant SearchFrom(p, v, low, high) == Search(p, v)
      decreases high - low
    {
      var middle := (low + high) / 2;
      SearchStep(p, v, low, high);
      match v {
        case Unordered =>
          return None;
        case Ordered(x) =>
          if p[middle] <= x {
            if p[middle + 1] > x {
              return Some(middle);
            } else if p[middle + 1] == x {
              return Some(middle + 1);
            } else {
              low := middle;
            }
          } else {
            high := middle;
          }
      }
    }
    return None;
  }

  // ---------------------------------------------------------------------
  // Index, subinterval, digitise
  // ---------------------------------------------------------------------

  /** The cell of a value: the last cell for the last breakpoint itself,
      nothing above it or for an unordered value, otherwise the search. Every
      value from `p[0]` to `p[N-1]` gets an index, every index lies below the
      number of cells, and below the last breakpoint the indexed breakpoint is
      at or below the value and the next one above it, unless the value equals
      the indexed breakpoint. */
  function Index(d: Declarative, v: Sample): (r: Option<nat>)
    requires |d.breakpoints| >= 2
    ensures r.Some? ==> v.Ordered? && r.value < Len(d)
    ensures r.Some? && v.x != d.breakpoints[|d.breakpoints| - 1] ==>
      d.breakpoints[r.value] <= v.x && (v.x < d.breakpoints[r.value + 1] || v.x == d.breakpoints[r.value])
    ensures v.Ordered? && d.breakpoints[0] <= v.x <= d.breakpoints[|d.breakpoints| - 1] ==> r.Some?
    ensures v.Unordered? || v.x > d.breakpoints[|d.breakpoints| - 1] ==> r.None?
    ensures v.Ordered? && v.x == d.breakpoints[|d.breakpoints| - 1] ==> r == Some(|d.breakpoints| - 2)
  {
    var p := d.breakpoints;
    if v.Ordered? && v.x == p[|p| - 1] then Some(|p| - 2)
    else if v.Ordered? && v.x > p[|p| - 1] then None
    else Search(p, v)
  }

  /** `subinterval` as written: `[p[k], p[k+1])` for every `k` it can be
      called with. Its closed branch needs `k == N - 1`, where `p[k + 1]`
      lies past the breakpoints, so it never yields a cell. */
  function SubintervalAsWritten(d: Declarative, k: nat): (r: Option<SubInterval>)
    requires k + 1 < |d.breakpoints|
    ensures r.Some? && r.value.index == k && Shaped(r.value)
    ensures forall x :: Includes(r.value.interval, x) <==> d.breakpoints[k] <= x < d.breakpoints[k + 1]
  {
    var p := d.breakpoints;
    Some(SubInterval(k, Interval(Closed(p[k]), OpenOrClosed(true, p[k + 1]))))
  }

  /** `subinterval` with the last cell closed on the right, so that it holds
      the last breakpoint. */
  function Subinterval(d: Declarative, k: nat): (r: Option<SubInterval>)
    requires k + 1 < |d.breakpoints|
    ensures r.Some? && r.value.index == k && Shaped(r.value)
    ensures forall x :: Includes(r.value.interval, x) <==>
      d.breakpoints[k] <= x < d.breakpoints[k + 1] ||
      (k + 2 == |d.breakpoints| && d.breakpoints[k] <= x == d.breakpoints[k + 1])
  {
    var p := d.breakpoints;
    Some(SubInterval(k, Interval(
      Closed(p[k]),
      if k + 2 == |p| then OpenOrClosed(false, p[k + 1]) else OpenOrClosed(true, p[k + 1]))))
  }

  /** `digitise` over the corrected cells: a subinterval exactly when the value
      has an index, carrying that index; over strictly ascending breakpoints
      it holds the value. */
  function Digitise(d: Declarative, v: Sample): (r: Option<SubInterval>)
    requires |d.breakpoints| >= 2
    ensures r.Some? <==> Index(d, v).Some?
    ensures r.Some? ==> r.value.index == Index(d, v).value
    ensures r.Some? && StrictlyAscending(d.breakpoints) ==> Includes(r.value.interval, v.x)
  {
    match Index(d, v)
    case None => None
    case Some(k) => Subinterval(d, k)
  }

  /** `digitise` over the cells as written. */
  function DigitiseAsWritten(d: Declarative, v: Sample): (r: Option<SubInterval>)
    requires |d.breakpoints| >= 2
    ensures r.Some? <==> Index(d, v).Some?
    ensures r.Some? ==> r.value.index == Index(d, v).value
  {
    match Index(d, v)
    case None => None
    case Some(k) => SubintervalAsWritten(d, k)
  }
}
