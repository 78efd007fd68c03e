/**
 The neighbour search of `estimate_bias` (src/lib.rs:311-335): locate
 the raw estimate in the sorted reference vector, take a clamped
 window of at most six entries on either side, shrink it to the six
 entries nearest to the estimate, and average their bias values.
 Values are exact reals.
 */
module Bias {

  /** Number of neighbours averaged. */
  const K: nat := 6

  predicate Sorted(v: seq<real>) {
    forall i, j :: 0 <= i < j < |v| ==> v[i] <= v[j]
  }

  /** Distance between a reference point and the estimate. */
  function Dist(a: real, e: real): (d: real)
    ensures d >= 0.0
    ensures d == a - e || d == e - a
  {
    if a >= e then a - e else e - a
  }

  /** `n` splits `v` into entries below `e` and entries at or above `e`. */
  predicate SplitsAt(v: seq<real>, e: real, n: nat) {
    && n <= |v|
    && (forall i :: 0 <= i < n ==> v[i] < e)
    && (forall i :: n <= i < |v| ==> v[i] >= e)
  }

  /** How many entries of `v` lie below `e`: the reference value of the partition point. */
  function CountBelow(v: seq<real>, e: real): (n: nat)
    ensures n <= |v|
  {
    if v == [] then 0 else (if v[|v| - 1] < e then 1 else 0) + CountBelow(v[..|v| - 1], e)
  }

  /** In a sorted vector the entries below `e` are exactly the first `CountBelow(v, e)`. */
  lemma {:induction false} CountBelowSplits(v: seq<real>, e: real)
    requires Sorted(v)
    ensures SplitsAt(v, e, CountBelow(v, e))
  {
    if v != [] {
      var init := v[..|v| - 1];
      CountBelowSplits(init, e);
      var n := CountBelow(init, e);
      if v[|v| - 1] < e {
        assert forall i :: 0 <= i < |init| ==> init[i] < e by {
          forall i | 0 <= i < |init|
            ensures init[i] < e
          {
            assert init[i] == v[i] <= v[|v| - 1];
          }
        }
        SplitUnique(init, e, n, |init|);
      }
    }
  }

  /** There is only one split point. */
  lemma SplitUnique(v: seq<real>, e: real, n: nat, m: nat)
    requires SplitsAt(v, e, n) && SplitsAt(v, e, m)
    ensures n == m
  {
    var i := if n < m then n else m;
    if i < |v| {
      assert (i < n <==> v[i] < e) && (i < m <==> v[i] < e);
    }
  }

  /**
   `estimate_vector.partition_point(|&x| x < estimate)` by binary
   search: the first index whose entry is not below `e`.
   */
  method PartitionPoint(v: seq<real>, e: real) returns (pp: nat)
    requires Sorted(v)
    ensures SplitsAt(v, e, pp)
    ensures pp == CountBelow(v, e)
  {
    var lo, hi := 0, |v|;
    while lo < hi
      invariant 0 <= lo <= hi <= |v|
      invariant forall i :: 0 <= i < lo ==> v[i] < e
      invariant forall i :: hi <= i < |v| ==> v[i] >= e
      decreases hi - lo
    {
      var mid := lo + (hi - lo) / 2;
      if v[mid] < e {
        lo := mid + 1;
      } else {
        hi := mid;
      }
    }
    pp := lo;
    CountBelowSplits(v, e);
    SplitUnique(v, e, pp, CountBelow(v, e));
  }

  /** The half-open index range `[lo, hi)` of candidate neighbours. */
  datatype Window = Window(lo: nat, hi: nat)

  /**
   The clamped window around the partition point: `pp - 6` (or 0)
   up to `min(pp + 6, len)`. It holds at least six indices whenever
   the vector does.
   */
  function InitialWindow(pp: nat, len: nat): (w: Window)
    requires pp <= len
    ensures w.lo <= pp <= w.hi <= len
    ensures pp - K <= w.lo && w.hi <= pp + K
    ensures w.lo == 0 || w.lo == pp - K
    ensures w.hi == len || w.hi == pp + K
    ensures len >= K ==> w.hi - w.lo >= K
  {
    var lo := if pp > K then pp - K else 0;
    var hi := if pp + K < len then pp + K else len;
    Window(lo, hi)
  }

  /**
   One step of the two-pointer shrink: drop the lower end when
   `2e - v[lo] > v[hi-1]` (it is the farther one), else the upper end.
   */
  function Step(v: seq<real>, e: real, w: Window): (r: Window)
    requires w.lo < w.hi <= |v|
    ensures r.hi - r.lo == w.hi - w.lo - 1
    ensures w.lo <= r.lo && r.hi <= w.hi
  {
    if 2.0 * e - v[w.lo] > v[w.hi - 1] then Window(w.lo + 1, w.hi) else Window(w.lo, w.hi - 1)
  }

  /** The shrink loop: step until the window holds exactly six indices. */
  function Shrink(v: seq<real>, e: real, w: Window): (r: Window)
    requires w.lo + K <= w.hi <= |v|
    ensures r.hi - r.lo == K
    ensures w.lo <= r.lo && r.hi <= w.hi
    decreases w.hi - w.lo
  {
    if w.hi - w.lo == K then w else Shrink(v, e, Step(v, e, w))
  }

  /** `r` is an index of window `w`. */
  predicate InWindow(w: Window, r: int) {
    w.lo <= r < w.hi
  }

  /**
   `inner` lies within `outer`, and every index of `outer` left out of
   `inner` is at least as far from `e` as every index kept in `inner`.
   */
  ghost predicate KeepsNearest(v: seq<real>, e: real, outer: Window, inner: Window) {
    && outer.lo <= inner.lo && inner.hi <= outer.hi <= |v|
    && forall r, k ::
         (InWindow(outer, r) && !InWindow(inner, r) && InWindow(inner, k))
         ==> Dist(v[k], e) <= Dist(v[r], e)
  }

  /** The endpoint one step drops is a farthest point of the window. */
  lemma StepKeepsNearest(v: seq<real>, e: real, w: Window)
    requires Sorted(v)
    requires w.lo < w.hi <= |v|
    ensures KeepsNearest(v, e, w, Step(v, e, w))
  {
    var lo, hi := w.lo, w.hi;
    var dropped := if 2.0 * e - v[lo] > v[hi - 1] then lo else hi - 1;
    forall k | InWindow(Step(v, e, w), k)
      ensures Dist(v[k], e) <= Dist(v[dropped], e)
    {
      assert v[lo] <= v[k] <= v[hi - 1];
    }
  }

  lemma KeepsNearestTransitive(v: seq<real>, e: real, a: Window, b: Window, c: Window)
    requires KeepsNearest(v, e, a, b) && KeepsNearest(v, e, b, c)
    ensures KeepsNearest(v, e, a, c)
  {
  }

  /**
   Every index the shrink drops is at least as far from `e` as every
   index it keeps: the result holds six nearest neighbours of `e`
   among the starting window.
   */
  lemma {:induction false} ShrinkKeepsNearest(v: seq<real>, e: real, w: Window)
    requires Sorted(v)
    requires w.lo + K <= w.hi <= |v|
    ensures KeepsNearest(v, e, w, Shrink(v, e, w))
    decreases w.hi - w.lo
  {
    if w.hi - w.lo > K {
      var w' := Step(v, e, w);
      StepKeepsNearest(v, e, w);
      ShrinkKeepsNearest(v, e, w');
      KeepsNearestTransitive(v, e, w, w', Shrink(v, e, w'));
    }
  }

  /** The six indices whose bias values are averaged. */
  function BiasWindow(v: seq<real>, e: real): (w: Window)
    requires |v| >= K
    ensures w.hi - w.lo == K && w.hi <= |v|
    ensures CountBelow(v, e) - K <= w.lo && w.hi <= CountBelow(v, e) + K
  {
    Shrink(v, e, InitialWindow(CountBelow(v, e), |v|))
  }

  /** Sum of a sequence of reals, added first to last. */
  function Sum(s: seq<real>): real {
    if s == [] then 0.0 else Sum(s[..|s| - 1]) + s[|s| - 1]
  }

  /** `estimate_bias`: the mean bias of the six nearest reference points. */
  function EstimateBias(v: seq<real>, bias: seq<real>, e: real): real
    requires |v| >= K && |bias| == |v|
  {
    var w := BiasWindow(v, e);
    Sum(bias[w.lo..w.hi]) / K as real
  }

  /**
   Every bias value averaged comes from an index within six places of
   the partition point, in bounds, and nearest to `e` among the clamped
   window.
   */
  lemma BiasWindowSpec(v: seq<real>, e: real)
    requires Sorted(v) && |v| >= K
    ensures var pp, w := CountBelow(v, e), BiasWindow(v, e);
      && SplitsAt(v, e, pp)
      && w.hi - w.lo == K
      && w.hi <= |v|
      && pp - K <= w.lo && w.hi <= pp + K
      && KeepsNearest(v, e, InitialWindow(pp, |v|), w)
  {
    CountBelowSplits(v, e);
    ShrinkKeepsNearest(v, e, InitialWindow(CountBelow(v, e), |v|));
  }

  /**
   The partition point finds the nearest neighbours: the six averaged
   indices are nearest to `e` among the whole sorted vector, not only
   among the clamped window around the partition point.
   */
  lemma BiasWindowNearest(v: seq<real>, e: real)
    requires Sorted(v) && |v| >= K
    ensures KeepsNearest(v, e, Window(0, |v|), BiasWindow(v, e))
  {
    BiasWindowSpec(v, e);
    var pp, w := CountBelow(v, e), BiasWindow(v, e);
    var w0 := InitialWindow(pp, |v|);
    forall r, k | InWindow(Window(0, |v|), r) && !InWindow(w, r) && InWindow(w, k)
      ensures Dist(v[k], e) <= Dist(v[r], e)
    {
      if r < w0.lo && k >= pp {
        assert !InWindow(w, w0.lo);
        assert v[r] <= v[w0.lo];
      } else if r >= w0.hi && k < pp {
        assert !InWindow(w, w0.hi - 1);
        assert v[w0.hi - 1] <= v[r];
      }
    }
  }

  /**
   The loop `while max - min != 6` of `estimate_bias`, started from the
   clamped window around the partition point `pp`.
   */
  method ShrinkLoop(v: seq<real>, e: real, pp: nat) returns (min: nat, max: nat)
    requires |v| >= K && pp <= |v|
    ensures max - min == K && max <= |v|
    ensures pp - K <= min && max <= pp + K
    ensures Window(min, max) == Shrink(v, e, InitialWindow(pp, |v|))
  {
    min := if pp > K then pp - K else 0;
    max := if pp + K < |v| then pp + K else |v|;
    ghost var start := Window(min, max);
    assert start == InitialWindow(pp, |v|);
    while max - min != K
      invariant start.lo <= min && min + K <= max <= start.hi <= |v|
      invariant Shrink(v, e, Window(min, max)) == Shrink(v, e, start)
      decreases max - min
    {
      var minVal, maxVal := v[min], v[max - 1];
      if 2.0 * e - minVal > maxVal {
        min := min + 1;
      } else {
        max := max - 1;
      }
    }
  }

  /** `(min..max).map(|i| bias_vector[i]).sum()`. */
  method SumRange(bias: seq<real>, min: nat, max: nat) returns (sum: real)
    requires min <= max <= |bias|
    ensures sum == Sum(bias[min..max])
  {
    sum := 0.0;
    var i := min;
    while i < max
      invariant min <= i <= max
      invariant sum == Sum(bias[min..i])
    {
      assert bias[min..i + 1][..i - min] == bias[min..i];
      sum := sum + bias[i];
      i := i + 1;
    }
  }

  /**
   `estimate_bias` as the source runs it: binary search, the shrink
   loop, and the mean over `min..max`.
   */
  method ComputeBias(v: seq<real>, bias: seq<real>, e: real) returns (b: real)
    requires Sorted(v) && |v| >= K && |bias| == |v|
    ensures b == EstimateBias(v, bias, e)
  {
    var pp := PartitionPoint(v, e);
    var min, max := ShrinkLoop(v, e, pp);
    var sum := SumRange(bias, min, max);
    b := sum / K as real;
  }
}
