/**
 * Python's slice normalisation, `slice.indices(len)`, and the `range` it
 * yields. Every slicing operation of the containers goes through these.
 */
module Slices {
  import opened Results

  /** A Python slice object: each part may be missing (`None`). */
  datatype Slice = Slice(start: Option<int>, stop: Option<int>, step: Option<int>)

  /** A Python `range(start, stop, step)`. */
  datatype Range = Range(start: int, stop: int, step: int)

  /** `slice.indices` raises ValueError for a zero step; callers never pass one. */
  predicate NonZeroStep(s: Slice) {
    s.step != Some(0)
  }

  /** The normalised bounds a range for a sequence of length `len` satisfies. */
  ghost predicate Normalized(r: Range, len: nat) {
    || (r.step > 0 && 0 <= r.start <= len && 0 <= r.stop <= len)
    || (r.step < 0 && -1 <= r.start <= len - 1 && -1 <= r.stop <= len - 1)
  }

  /**
   * One bound of `slice.indices`: a missing bound takes `default`, a negative
   * one has `len` added, and the result is clamped to [lower, upper].
   */
  function Adjust(bound: Option<int>, len: nat, lower: int, upper: int, default: int): (v: int)
    requires lower <= 0 && lower <= upper && lower <= default <= upper
    ensures lower <= v <= upper
    ensures bound.None? ==> v == default
    ensures bound.Some? && 0 <= bound.value <= upper ==> v == bound.value
    ensures bound.Some? && bound.value > upper ==> v == upper
    ensures bound.Some? && bound.value < 0 && lower <= bound.value + len <= upper ==> v == bound.value + len
    ensures bound.Some? && bound.value < 0 && bound.value + len < lower ==> v == lower
    ensures bound.Some? && bound.value < 0 && bound.value + len > upper ==> v == upper
  {
    match bound
    case None => default
    case Some(x) =>
      var y := if x < 0 then x + len else x;
      if y < lower then lower else if y > upper then upper else y
  }

  /** `slice.indices(len)`: the (start, stop, step) of the positions a slice selects. */
  function Indices(s: Slice, len: nat): (r: Range)
    requires NonZeroStep(s)
    ensures r.step != 0 && Normalized(r, len)
    ensures r.step == s.step.GetOr(1)
    ensures s.start.None? ==> r.start == if r.step > 0 then 0 else len - 1
    ensures s.stop.None? ==> r.stop == if r.step > 0 then len else -1
  {
    var step := s.step.GetOr(1);
    if step > 0 then
      Range(Adjust(s.start, len, 0, len, 0), Adjust(s.stop, len, 0, len, len), step)
    else
      Range(Adjust(s.start, len, -1, len - 1, len - 1), Adjust(s.stop, len, -1, len - 1, -1), step)
  }

  /** `len(range(start, stop, step))`, as CPython computes it. */
  function Count(r: Range): (n: nat)
    requires r.step != 0
    ensures r.step > 0 ==> (n == 0 <==> r.stop <= r.start)
    ensures r.step < 0 ==> (n == 0 <==> r.start <= r.stop)
    ensures r.step == 1 ==> n == if r.start < r.stop then r.stop - r.start else 0
  {
    if r.step > 0 then
      (if r.start < r.stop then (r.stop - r.start - 1) / r.step + 1 else 0)
    else
      (if r.start > r.stop then (r.start - r.stop - 1) / (-r.step) + 1 else 0)
  }

  /** The j-th element of a range. */
  function Nth(r: Range, j: int): int {
    r.start + j * r.step
  }

  lemma MulMonotone(a: int, b: int, s: int)
    requires a <= b && 0 <= s
    ensures a * s <= b * s
  {
    assert b * s - a * s == (b - a) * s;
  }

  /** For d >= 1 and s >= 1, j < (d - 1) / s + 1 exactly when j * s < d. */
  lemma FloorCount(d: int, s: int, j: int)
    requires 1 <= d && 1 <= s && 0 <= j
    ensures j < (d - 1) / s + 1 <==> j * s < d
  {
    var q, m := (d - 1) / s, (d - 1) % s;
    assert d - 1 == q * s + m && 0 <= m < s;
    if j <= q {
      MulMonotone(j, q, s);
    } else {
      MulMonotone(q + 1, j, s);
      assert (q + 1) * s == q * s + s;
    }
  }

  /**
   * The reference meaning of `range`: the j-th element exists exactly when it
   * has not yet reached `stop` in the direction of `step`.
   */
  lemma RangeMembers(r: Range, j: int)
    requires r.step != 0 && 0 <= j
    ensures j < Count(r) <==> (if r.step > 0 then Nth(r, j) < r.stop else Nth(r, j) > r.stop)
  {
    if r.step > 0 {
      MulMonotone(0, j, r.step);
      if r.start < r.stop {
        FloorCount(r.stop - r.start, r.step, j);
      }
    } else {
      MulMonotone(0, j, -r.step);
      assert j * r.step == -(j * -r.step);
      if r.start > r.stop {
        FloorCount(r.start - r.stop, -r.step, j);
      }
    }
  }

  /** Every position a normalised range selects is a valid index. */
  lemma RangeWithin(r: Range, len: nat, j: int)
    requires r.step != 0 && Normalized(r, len) && 0 <= j < Count(r)
    ensures 0 <= Nth(r, j) < len
  {
    RangeMembers(r, j);
    if r.step > 0 {
      MulMonotone(0, j, r.step);
    } else {
      MulMonotone(0, j, -r.step);
      assert j * r.step == -(j * -r.step);
    }
  }

  /** `xs[s]`: the elements at the positions the slice selects, in order. */
  function SliceOf<T>(xs: seq<T>, s: Slice): (ys: seq<T>)
    requires NonZeroStep(s)
    ensures |ys| == Count(Indices(s, |xs|))
  {
    var r := Indices(s, |xs|);
    seq(Count(r), j requires 0 <= j < Count(r) => RangeWithin(r, |xs|, j); xs[Nth(r, j)])
  }

  /** `xs[i:k]` with 0 <= i <= k <= len(xs) is the contiguous subsequence. */
  lemma ContiguousSlice<T>(xs: seq<T>, i: int, k: int)
    requires 0 <= i <= k <= |xs|
    ensures SliceOf(xs, Slice(Some(i), Some(k), None)) == xs[i..k]
  {
    var r := Indices(Slice(Some(i), Some(k), None), |xs|);
    assert r == Range(i, k, 1);
    var ys := SliceOf(xs, Slice(Some(i), Some(k), None));
    assert |ys| == k - i;
    forall j | 0 <= j < k - i
      ensures ys[j] == xs[i..k][j]
    {
      assert Nth(r, j) == i + j;
    }
  }

  /**
   * Where a bound of a unit-step slice lands in a sequence of length `len`:
   * counted from the end when negative, and never outside [0, len].
   */
  function UnitBound(bound: Option<int>, len: nat, default: nat): int {
    match bound
    case None => default
    case Some(x) =>
      if x < 0 then (if x + len < 0 then 0 else x + len)
      else (if x > len then len else x)
  }

  /**
   * `xs[i:k]` for any bounds, negative, missing or past either end: the
   * contiguous run between the two landing positions, or empty when they cross.
   */
  lemma UnitSlice<T>(xs: seq<T>, i: Option<int>, k: Option<int>)
    ensures var a, b := UnitBound(i, |xs|, 0), UnitBound(k, |xs|, |xs|);
      SliceOf(xs, Slice(i, k, None)) == if a <= b then xs[a..b] else []
  {
    var a, b := UnitBound(i, |xs|, 0), UnitBound(k, |xs|, |xs|);
    var r := Indices(Slice(i, k, None), |xs|);
    assert r == Range(a, b, 1);
    if a <= b {
      ContiguousSlice(xs, a, b);
      assert Indices(Slice(Some(a), Some(b), None), |xs|) == r;
    }
  }

  /** `xs[:]` is a copy of the whole sequence. */
  lemma WholeSlice<T>(xs: seq<T>)
    ensures SliceOf(xs, Slice(None, None, None)) == xs
  {
    ContiguousSlice(xs, 0, |xs|);
    assert Indices(Slice(None, None, None), |xs|) == Indices(Slice(Some(0), Some(|xs|), None), |xs|);
  }

  /** `xs[::-1]` is the sequence in reverse order. */
  lemma ReversedSlice<T>(xs: seq<T>)
    ensures var ys := SliceOf(xs, Slice(None, None, Some(-1)));
      |ys| == |xs| && forall j :: 0 <= j < |xs| ==> ys[j] == xs[|xs| - 1 - j]
  {
    var r := Indices(Slice(None, None, Some(-1)), |xs|);
    assert r == Range(|xs| - 1, -1, -1);
    forall j | 0 <= j < |xs|
      ensures Nth(r, j) == |xs| - 1 - j
    {
    }
  }

  /** The slice `[1:5]` of the thirteen-element sample vector is [7, 0, 5, 0]. */
  lemma SampleSlice()
    ensures SliceOf([0, 7, 0, 5, 0, 6, 0, 0, 0, 4, 13, 0, 0], Slice(Some(1), Some(5), None)) == [7, 0, 5, 0]
  {
    var xs := [0, 7, 0, 5, 0, 6, 0, 0, 0, 4, 13, 0, 0];
    ContiguousSlice(xs, 1, 5);
    assert xs[1..5] == [7, 0, 5, 0];
  }
}
