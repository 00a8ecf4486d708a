# intervals — a verified Dafny model of the bound algebra and partitions

This project models the core of the Rust crate `intervals`. It covers:

- **Bound kinds.** These are `NoBound`, `Open(v)`, `Closed(v)` and the run-time union kind `OpenOrClosed`. Each kind has `value`, `is_open`, `is_closed` and `with_limit_point`. The *pinch* combinators give the tighter of two bounds and are used by intersection. The *unroll* combinators give the looser one and are used by union-closure. Bounds also have cross-kind equality.
- **Ordering validation** of a left/right bound pair.
- **Intervals.** This covers validated and unchecked construction, `intersect`, `union_closure`, `contains`, `is_degenerate` and interval equality.
- **Two partitions.** `Uniform` has `size` equal-width cells. `Declarative` has explicit breakpoints and a binary search. Both share `index`, `subinterval`, `digitise`, and the `width`/`midpoint` of a subinterval.

Modules, one per file:

| module | file | models |
|---|---|---|
| `Wrappers` | wrappers.dfy | `Option` and `Result` |
| `Bounds` | bounds.dfy | src/bounds/{no_bound,open,closed,mixed}.rs: the `Bound` datatype, accessors, pinch, unroll, equality |
| `BoundLaws` | bound_laws.dfy | laws of the bound algebra |
| `Validation` | validation.dfy | `validate` and the `ValidateBounds` impls of src/bounds/mod.rs |
| `Intervals` | intervals.dfy | `Interval` in src/lib.rs |
| `IntervalLaws` | interval_laws.dfy | laws of intersection, union-closure, containment and degeneracy |
| `Partitions` | partitions.dfy | src/partitions/mod.rs: `SubInterval`, `width`, `midpoint`, `PartitionError` |
| `UniformPartition`, `UniformLaws` | uniform.dfy, uniform_laws.dfy | src/partitions/uniform.rs and `linspace` |
| `DeclarativePartition`, `DeclarativeLaws` | declarative.dfy, declarative_laws.dfy | src/partitions/declarative.rs |

Design choices:

- **Bound kinds.** The crate gives every bound kind its own type and picks the kind of a combined bound through associated types. Here the kinds are the constructors of one `Bound` datatype. The kind a combinator returns is the constructor of its result.
- **Combinator dispatch.** Pinch and unroll follow the crate's per-pair impls one branch at a time, tie-breaking included. A union-kind operand is dispatched on its own tag first: the receiver's tag, then the argument's. The concrete rule is applied and the result is re-wrapped with `Wrap`, the `From` conversion.
- **Values.** Values are exact reals. The crate compares them and, in the partitions, adds, subtracts and divides them.
- **Reference semantics.** What a bound means is fixed by `LeftAdmits`/`RightAdmits`: which values it lets through as a left or a right side. `Includes` applies the same per-side tests to a whole interval, with every kind pair covered.
- **Query values.** A partition query is a `Sample`: `Ordered(x)` or `Unordered`. `Unordered` stands for a value that `partial_cmp` cannot order, such as a NaN. The crate answers `None` for it in `binary_search`.
- **`binary_search`.** It is a method with a `while` loop, proved to return what the recursive function `Search` defines. `Index` is a function and uses `Search`.

Where the crate's code and its documented intent disagree, the model keeps the code as written in an "as written" member and proves the discrepancy. It also gives the corrected member, which the rest of the model uses; see "## Findings". Five behaviours are affected:

- the right-hand test of `contains` for an open union-kind right side;
- the missing `contains` impls;
- the edges of a uniform subinterval;
- the last declarative cell and the length of a declarative partition;
- `binary_search` over ascending breakpoints, which never returns for a value above the last breakpoint. `Probe`, `SearchFrom` and `BinarySearch` are its loop as written, `SearchNeverEndsAbove` exhibits the stall, and `Index` answers `None` there instead.

## Model

| member | source | states |
|---|---|---|
| Bounds.Value | src/bounds/mod.rs:12-13 | the value is absent exactly for `NoBound`, and otherwise it is the bound's limit |
| Bounds.IsOpen | src/bounds/mod.rs:15-16 | a bound is open exactly when it is present and admits its own limit on neither side |
| Bounds.IsClosed | src/bounds/mod.rs:18-19 | a bound is closed exactly when it is present and admits its own limit on both sides |
| Bounds.WithLimitPoint | src/bounds/mod.rs:21-22 | the result is `NoBound` or `Closed`, with the same value; on each side it admits the operand's values plus the limit |
| Bounds.Unwrap | src/bounds/mixed.rs:18-24 | the payload of a union bound is its value, whatever the tag |
| Bounds.Wrap | src/bounds/mixed.rs:26-32 | conversion to the union kind keeps the value, the openness and the admitted values on both sides |
| Bounds.Concrete | src/bounds/mixed.rs:138-155 | the kind a union tag selects is never the union kind, and it keeps the value, the openness and the admitted values |
| Bounds.PinchLeft | src/bounds/mod.rs:43-59 | the left pinch admits exactly what both operands admit; it is `NoBound` only when both are, and a lone `NoBound` operand gives back the other concrete operand; two open operands give `Open`, two closed ones `Closed`, an open and a closed one the union kind, and a union operand a union result |
| Bounds.PinchRight | src/bounds/mod.rs:61-73 | the right pinch admits exactly what both operands admit, as a right side; the same result kinds as the left pinch: `Open` from two open, `Closed` from two closed, the union kind from an open and a closed or from a union operand, the other operand beside `NoBound` |
| Bounds.UnrollLeft | src/bounds/mod.rs:76-99 | the left unroll admits exactly what either operand admits; it is `NoBound` when either operand is; two open operands give `Open`, two closed ones `Closed`, an open and a closed one the union kind, and a present result with a union operand is a union bound |
| Bounds.UnrollRight | src/bounds/mod.rs:101-113 | the right unroll admits exactly what either operand admits, as a right side; the same result kinds as the left unroll: `Open` from two open, `Closed` from two closed, the union kind from an open and a closed or, when present, from a union operand |
| Bounds.Eq | src/bounds/mixed.rs:223-243 | two bounds are equal exactly when the kinds their tags select agree and the values agree |
| BoundLaws.EqIffSameSets | src/bounds/closed.rs:113-129 | two bounds are equal exactly when they admit the same values as left sides, and exactly when they do as right sides |
| BoundLaws.Commute | src/bounds/closed.rs:44-111 | pinch and unroll do not depend on operand order, on either side, result kinds included |
| BoundLaws.Dispatch | src/bounds/mixed.rs:92-220 | with a union operand, pinch and unroll are the concrete-kind rule for the tags, re-wrapped; for unroll this holds when neither operand is `NoBound` |
| BoundLaws.Values | src/bounds/open.rs:44-110 | on two present bounds, the pinches keep the inner value (max on the left, min on the right) and the unrolls the outer one |
| BoundLaws.Selects | src/bounds/closed.rs:65-111 | each pinch and each unroll equals one of its two operands up to the union tag |
| BoundLaws.Associate | src/bounds/mod.rs:43-113 | repeated pinching or unrolling on one side may be grouped either way, up to equality |
| BoundLaws.NoBoundLaws | src/bounds/no_bound.rs:23-105 | `NoBound` leaves a pinch partner unchanged in both orders, absorbs unroll, has no value, is neither open nor closed, keeps itself as its limit point, and is unequal, in both orders, to every present bound of every kind and value |
| BoundLaws.TraitDocExamples | src/bounds/mod.rs:49-111 | `Closed(1)` with `Open(2)`: the left pinch is `Open(2)`, the right pinch `Closed(1)`, the left unroll `Closed(1)`, the right unroll `Open(2)` |
| BoundLaws.Ties | src/bounds/open.rs:57-110 | on a tie between an open and a closed bound, pinch yields the open bound and unroll the closed one, in both orders |
| BoundLaws.UnionAccessors | src/bounds/mixed.rs:18-64 | the accessors of a union bound follow its tag; its value is its payload; `with_limit_point` of a union, open or closed bound is `Closed` at the same value |
| Validation.Validate | src/bounds/mod.rs:158-304 | accepted when either side is `NoBound`, or with `l <= r` when both sides are closed, or with `l < r` otherwise; the pair is returned unchanged, and `DecreasingBounds` carries it on rejection |
| Validation.ValidIffInhabited | src/bounds/mod.rs:132-137 | a pair validates exactly when some value lies inside both bounds |
| Validation.ValidateExamples | src/bounds/mod.rs:310-392 | any pair with `NoBound` validates; some of the crate's accepted and rejected pairs, those with 0 on the left and -1, 0 or 1 on the right |
| Intervals.Includes | src/lib.rs:406-418 | membership by kind pair is exactly "the left side admits and the right side admits" |
| Intervals.Contains | src/lib.rs:421-537 | `contains` as written agrees with membership, except with a concrete left side and an open union right side, where it accepts exactly the admitted values above the right limit |
| Intervals.IsDegenerate | src/lib.rs:337-357 | degenerate exactly when both sides are closed at the same value |
| Intervals.IntervalEq | src/lib.rs:82-91 | equal exactly when both sides are equal across kinds; equal intervals hold the same values |
| Intervals.New | src/lib.rs:101-104 | Ok exactly when validation accepts, with exactly the given bounds; otherwise `DecreasingBounds` carrying them |
| Intervals.Unbounded | src/lib.rs:200-207 | holds every value |
| Intervals.LeftBounded | src/lib.rs:116-124 | holds exactly the values the left bound admits |
| Intervals.RightBounded | src/lib.rs:146-154 | holds exactly the values the right bound admits |
| Intervals.LeftOpen | src/lib.rs:126-134 | holds exactly the values above `left` |
| Intervals.LeftClosed | src/lib.rs:136-144 | holds exactly the values at or above `left` |
| Intervals.RightOpen | src/lib.rs:156-164 | holds exactly the values below `right` |
| Intervals.RightClosed | src/lib.rs:166-174 | holds exactly the values at or below `right` |
| Intervals.OpenUnchecked | src/lib.rs:216-219 | holds exactly the values strictly between the ends |
| Intervals.ClosedUnchecked | src/lib.rs:228-231 | holds exactly the values between the ends, ends included |
| Intervals.LcroUnchecked | src/lib.rs:194-197 | holds exactly `left <= x < right` |
| Intervals.LorcUnchecked | src/lib.rs:182-185 | holds exactly `left < x <= right` |
| Intervals.OpenInterval | src/lib.rs:210-214 | Ok exactly when `left < right`, with the open interval; otherwise the error carrying both bounds |
| Intervals.ClosedInterval | src/lib.rs:222-226 | Ok exactly when `left <= right`, with the closed interval; otherwise the error carrying both bounds |
| Intervals.Lcro | src/lib.rs:188-192 | Ok exactly when `left < right`, with `[left, right)`; otherwise the error carrying both bounds |
| Intervals.Lorc | src/lib.rs:176-180 | Ok exactly when `left < right`, with `(left, right]`; otherwise the error carrying both bounds |
| Intervals.Degenerate | src/lib.rs:234-238 | degenerate, and holds exactly the one value |
| Intervals.Intersect | src/lib.rs:275-289 | when present, the result is the pinched pair and holds exactly the common values; it is absent exactly when the operands share no value |
| Intervals.UnionClosure | src/lib.rs:305-319 | both sides are closed or absent, and the result holds every value of either operand |
| IntervalLaws.NewIffNonEmpty | src/lib.rs:101-104 | validated construction succeeds exactly for a non-empty interval |
| IntervalLaws.IntersectCommutes | tests/intersection.rs:21-35 | intersection does not depend on operand order |
| IntervalLaws.IntersectUnbounded | tests/intersection.rs:38-52 | intersection with the unbounded interval, in either order, gives back a valid operand unchanged, and nothing for an invalid one |
| IntervalLaws.IntersectIdempotent | tests/intersection.rs:55-67 | an interval intersected with itself is present exactly when it is valid, and is then equal to it |
| IntervalLaws.UnionClosureCommutes | tests/union_closure.rs:21-35 | union-closure does not depend on operand order |
| IntervalLaws.UnionClosureUnbounded | tests/union_closure.rs:55-69 | the unbounded interval absorbs union-closure in both orders |
| IntervalLaws.UnionClosureValid | src/lib.rs:305-319 | the union-closure of a valid interval with any interval validates, although it is never re-validated |
| IntervalLaws.UnionClosureHull | tests/union_closure.rs:37-52 | for two bounded intervals of any kinds, the union-closure is `Closed[min left, max right]` |
| IntervalLaws.UnionClosureLeast | src/lib.rs:292-319 | for two non-empty intervals, every interval with closed or absent sides that holds both of them also holds their union-closure |
| IntervalLaws.DegenerateIffSinglePoint | src/lib.rs:337-357 | an interval is degenerate exactly when it holds exactly one value |
| IntervalLaws.ContainsReversedRight | src/lib.rs:495-504 | on `[0, 2)` with a union right side, `contains` as written rejects the member 1 and accepts the non-member 3 |
| IntervalLaws.ContainsReversedRightDisjoint | src/lib.rs:484-504 | on every such interval, `contains` as written accepts no member, and it accepts every value the left side admits above the right limit |
| IntervalLaws.ContainsMissing | src/lib.rs:455-459 | right-closed intervals and union-kind pairs have no `contains`; closed and unbounded intervals do |
| IntervalLaws.IntersectExamples | tests/intersection.rs:55-80 | `[0, 1]` against `[-2, -1]`, `[-1, 0]`, `[0.5, 1.5]`, `(-1, 0)` and `(1, 2)` gives none, `[0, 0]`, `[0.5, 1]`, none and none |
| IntervalLaws.IntersectOpenExamples | tests/intersection.rs:69-80 | `[0, 1]` against `(-0.5, 0.5)`, `(0, 1)` and `(0.5, 1.5)` gives `[0, 0.5)`, `(0, 1)` and `(0.5, 1]` |
| IntervalLaws.UnionClosureExamples | tests/union_closure.rs:72-190 | the crate's union-closures of `[0, 1]` and `(0, 1)` with open, half-open and half-bounded intervals |
| IntervalLaws.DegenerateExamples | src/lib.rs:341-346 | `[0, 0]` is degenerate, and `(0, 0)` and `[0, 0)` are not; a union-kind closed left side counts as closed |
| Partitions.Width | src/partitions/mod.rs:40-50 | the right value is the left value plus the width, whatever the right tag; a positive width puts the left end inside |
| Partitions.Midpoint | src/partitions/mod.rs:52-63 | the midpoint is as far from the left value as from the right value; it is inside for a positive width and outside for an empty right-open cell |
| Partitions.IgnoreRightTag | src/partitions/mod.rs:40-63 | width and midpoint are the same for an open and a closed right side: `right - left` and `(left + right) / 2` |
| UniformPartition.Linspace | src/lib.rs:248-257 | `n` cells spanning exactly the values of the closed interval |
| UniformPartition.Len | src/partitions/uniform.rs:47 | the number of cells, `size`: that many cell widths span `right - left`; every index lies below it (`Index`) and exactly the indices below it have a subinterval (`Subinterval`, `SubintervalAsWritten`) |
| UniformPartition.PartitionWidth | src/partitions/uniform.rs:37-41 | `size` widths span `right - left` exactly, and the width is positive over a non-degenerate span |
| UniformPartition.Index | src/partitions/uniform.rs:49-64 | present exactly for an ordered value in `[left, right]`, and then below `len`; `right` maps to the last cell; any other value maps to the cell whose half-open span holds it |
| UniformPartition.SubintervalAsWritten | src/partitions/uniform.rs:66-84 | present exactly below `len`; carries `k`; is always `[left, left + width]`; only the right tag depends on `k` |
| UniformPartition.Subinterval | src/partitions/uniform.rs:66-84 | present exactly below `len`, with index `k` and one width; holds exactly the `k`-th cell's values, and `right` itself for the last cell |
| UniformPartition.Digitise | src/partitions/mod.rs:98-100 | present exactly when the index is, carrying that index and holding the value |
| UniformPartition.DigitiseAsWritten | src/partitions/mod.rs:98-100 | present exactly when the index is, carrying that index, with the partition's own left edge |
| UniformLaws.IndexExamples | src/partitions/uniform.rs:101-118 | the crate's indices for five cells over `[0, 5]` and the documented ones over `[0, 1]` |
| UniformLaws.SubintervalAsWrittenMisses | src/partitions/uniform.rs:70-79 | 3 is indexed to cell 3 of `[0, 5]`, but the cell as written is `[0, 1)` and does not hold it; the corrected cell `[3, 4)` does |
| UniformLaws.CellUnique | src/partitions/uniform.rs:60-63 | two half-open cells that hold the same value are the same cell |
| UniformLaws.IndexIffIncludes | src/partitions/uniform.rs:49-84 | over a non-degenerate span, cell `k` holds `x` exactly when `x` is indexed to `k` |
| UniformLaws.SubintervalsTile | src/partitions/uniform.rs:66-84 | the first cell starts at `left`, each cell ends where the next starts, and the last ends closed at `right` |
| UniformLaws.LinspaceCovers | src/lib.rs:248-257 | a value is digitised by `linspace` of a closed interval exactly when the interval holds it |
| DeclarativePartition.AdjacentOrdered | src/partitions/declarative.rs:12 | every adjacent pair is in order exactly when every pair is |
| DeclarativePartition.New | src/partitions/declarative.rs:11-17 | Ok exactly for ordered breakpoints, and then unchanged; otherwise `IllFormedBounds` carrying them |
| DeclarativePartition.Probe | src/partitions/declarative.rs:78-97 | a pass stops exactly for an unordered value; a found index has its breakpoint at or below the value, with the value below the next unless equal; a narrowed window stays within the old one, keeps the value inside it, and shrinks |
| DeclarativePartition.SearchFrom | src/partitions/declarative.rs:71-101 | a found index lies in the window with its breakpoint at or below the value, and the value below the next breakpoint unless it equals its own; every ordered value at or above `p[low]` is found; no unordered value is |
| DeclarativePartition.SearchStep | src/partitions/declarative.rs:78-97 | one pass of the loop, by its own comparisons with `p[middle]` and `p[middle + 1]`, ends or continues the search exactly as `SearchFrom` does |
| DeclarativePartition.BinarySearch | src/partitions/declarative.rs:71-101 | the `while` loop over `low` and `high` returns exactly `Search`, for an unordered value or one at most the last breakpoint |
| DeclarativePartition.LenAsWritten | src/partitions/declarative.rs:27 | `len` as written is one less than the number of cells `Len`; `LenAsWrittenShort` shows the last breakpoint indexed to it |
| DeclarativePartition.Len | src/partitions/declarative.rs:27 | the corrected count `N - 1`: every index lies below it (`Index`), and cell `Len - 1` is the one closed at the last breakpoint, to which `EveryCellReached` indexes that breakpoint |
| DeclarativePartition.Index | src/partitions/declarative.rs:29-35 | present only for ordered values and then below `Len`; present for every value from `p[0]` to `p[N-1]`; absent above `p[N-1]` and for unordered values; `p[N-1]` maps to `N-2`; otherwise `p[k] <= x < p[k+1]` or `x == p[k]` |
| DeclarativePartition.SubintervalAsWritten | src/partitions/declarative.rs:37-49 | every reachable cell is `[p[k], p[k+1])` with index `k` |
| DeclarativePartition.Subinterval | src/partitions/declarative.rs:37-49 | cell `k` holds `[p[k], p[k+1])`, and the last cell holds `p[N-1]` too |
| DeclarativePartition.Digitise | src/partitions/mod.rs:98-100 | present exactly when the index is, carrying it; over strictly ascending breakpoints the cell holds the value |
| DeclarativePartition.DigitiseAsWritten | src/partitions/mod.rs:98-100 | present exactly when the index is, carrying it |
| DeclarativeLaws.NewExamples | src/partitions/declarative.rs:11-17 | `[0, 5, 10]` and `[0, 5, 5, 10]` are accepted; `[0, 10, 5]` is rejected with its breakpoints |
| DeclarativeLaws.DigitiseDocExamples | src/partitions/mod.rs:90-96 | over `[0, 5, 10]`, 1 and 3 go to cell 0; 6, 9 and 10 go to cell 1; -1 and unordered values get nothing |
| DeclarativeLaws.SearchBelow | src/partitions/declarative.rs:75-101 | a window whose breakpoints all lie above the value finds nothing |
| DeclarativeLaws.IndexBelowFirst | src/partitions/declarative.rs:29-35 | over ordered breakpoints, a value below `p[0]` has no index |
| DeclarativeLaws.SearchNeverEndsAbove | src/partitions/declarative.rs:78-91 | above the last breakpoint, every pass over a window ending at `N-1` narrows to its upper half, which still has `low < high`; `[0, 5, 10]` with 11 narrows `[1, 2]` to itself |
| DeclarativeLaws.CellsDisjoint | src/partitions/declarative.rs:37-49 | over strictly ascending breakpoints, two cells that hold the same value are the same cell |
| DeclarativeLaws.IndexIffIncludes | src/partitions/declarative.rs:29-49 | over strictly ascending breakpoints, cell `k` holds `x` exactly when `x` is indexed to `k` |
| DeclarativeLaws.EveryCellReached | src/partitions/declarative.rs:29-35 | over strictly ascending breakpoints, `p[k]` is indexed to `k`, and `p[N-1]` to the last cell, `Len - 1` |
| DeclarativeLaws.LastBreakpointUncovered | src/partitions/declarative.rs:37-49 | no cell as written holds the last breakpoint, although it is indexed; `[0, 5, 10]` digitises 10 to `[5, 10)` |
| DeclarativeLaws.LenAsWrittenShort | src/partitions/declarative.rs:27 | `len` as written is one less than the number of cells: the last breakpoint is indexed to `len` itself |

## Left out

- Display formatting (`BoundDisplay`, and `Display` for intervals, partitions and `PartitionError`): string output only.
- Serde derives and `cfg_attr` attributes: external serialization.
- The `Bounded`, `ProperBound` and `Sealed` marker traits, and the associated result types `Left`, `Right`, `WithLimit`, `IntersectionOf` and `UnionClosureOf`. They exist at the type level only; the kind of a result is the constructor of the `Bound` it returns.
- `Interval::unit()`: it needs the `Zero` and `One` numeric traits and is `[0, 1]`, which `ClosedUnchecked(0.0, 1.0)` builds.
- `Declarative::new_unchecked`, `iter` and the `Index` impl: the first is the datatype constructor, the others are library glue.
- The crate's demo program `test.rs`: printing only, no logic.
- Floating-point arithmetic: values are exact reals. Rounding in `partition_width` and `index` of `Uniform` is not modelled. The `NumCast` conversion to `usize`, with its failure on values it cannot represent, becomes the floor of a non-negative real.
- NaN: only a NaN query value is modelled, as `Unordered`. A NaN breakpoint or a NaN bound value is not.
- UniformPartition.Index and UniformPartition.PartitionWidth: require `size > 0`. With zero cells the crate divides by zero and computes `size - 1` on a `usize`.
- DeclarativePartition.Index: requires at least two breakpoints. With one, the crate answers `None` for every value except the breakpoint itself, where `N - 2` underflows; with none, `self.0[N - 1]` underflows `N - 1` first. The model does not cover the one-breakpoint `None` answers.
- DeclarativePartition.LenAsWritten: with fewer than two breakpoints, which `new` accepts, it returns -2 or -1. The crate's `usize` subtraction `N - 2` panics there in a debug build and wraps in a release build.
- DeclarativePartition.Len: with no breakpoints it returns -1, where there is no cell count to give; its contract speaks only of two or more breakpoints.
- DeclarativePartition.Subinterval and DeclarativePartition.SubintervalAsWritten: require `k + 1 < N`. The crate does no range check and panics on `p[k + 1]` for `k = N - 1`.
- DeclarativePartition.BinarySearch: requires the value to be unordered or at most the last breakpoint. Above it, over ascending breakpoints, the crate's loop never returns (see `SearchNeverEndsAbove`); `Index` answers `None` there before searching.
- DeclarativePartition.Index: above the last breakpoint it answers `None` for any breakpoints. Over breakpoints that are not ascending, which `new_unchecked` accepts, the crate's search can instead return a cell or fail to return: with `[0, 10, 5]` and 7 it returns `Some(0)`. The model does not follow the search there.
- DeclarativeLaws.IndexIffIncludes and DeclarativePartition.Digitise: the cell holds the value only over strictly ascending breakpoints. With repeated breakpoints the crate can index a value to an empty cell `[p, p)`.
- UniformLaws.IndexIffIncludes: requires `left < right`. Over a degenerate span every cell is empty except the last.

## Findings

| source | as written | input that shows it | evidently intended | confidence | as-written member | corrected member |
|---|---|---|---|---|---|---|
| src/lib.rs:484-504 | with an open union-kind right side, `contains` tests `val > r` | `[0, 2)` with the right side `OpenOrClosed::Open(2)`: 1 is rejected and 3 accepted | `val < r`, as for every other open right side | not executed | IntervalLaws.ContainsReversedRightDisjoint | Intervals.Includes |
| src/lib.rs:455-459 | the `(NoBound, Closed)` `contains` impl is written for the closed-closed interval type, and no impl covers a union-kind pair | `Interval::right_closed(1.0).contains(0.0)` and a pair of two `OpenOrClosed` sides have no `contains` | an impl for every kind pair, right-closed intervals testing `val <= r` | not executed | IntervalLaws.ContainsMissing | Intervals.Includes |
| src/partitions/uniform.rs:66-84 | every subinterval spans `[left, left + width]` | five cells over `[0, 5]`: 3 is indexed to 3 and digitised to `[0, 1)` | cell `k` spans `[left + k*width, left + (k+1)*width]` | not executed | UniformLaws.SubintervalAsWrittenMisses | UniformLaws.IndexIffIncludes |
| src/partitions/declarative.rs:37-49 | the right side is closed only for `k == N - 1`, where `p[k + 1]` is out of range, so every cell is right-open | `[0, 5, 10]` digitises 10 to `[5, 10)`, which does not hold 10 | the last cell `k == N - 2` is closed on the right | not executed | DeclarativeLaws.LastBreakpointUncovered | DeclarativeLaws.IndexIffIncludes |
| src/partitions/declarative.rs:27 | `len` is `N - 2` | `[0, 5, 10]`: `len` is 1, but 10 is indexed to 1 | `N - 1` cells | not executed | DeclarativeLaws.LenAsWrittenShort | DeclarativeLaws.EveryCellReached |
| src/partitions/declarative.rs:71-101 | over ascending breakpoints, no exit for a value above the last breakpoint | `[0, 5, 10]` with 11: the window `[1, 2]` narrows to itself forever | `None` above the last breakpoint, for ascending breakpoints | not executed | DeclarativeLaws.SearchNeverEndsAbove | DeclarativePartition.Index |
