/**
 `Registers::estimate` (src/lib.rs:166-185) over exact reals. The
 natural logarithm and the per-precision constant tables are
 parameters: `ln` stands for `f64::ln`, `Tables` for one row of
 `THRESHOLD_DATA`, `RAW_ESTIMATE_DATA` and `BIAS_DATA`.
 */
module Estimator {
  import opened Bits
  import opened Store
  import opened Bias
  import opened Insertion

  /** The constant data for one precision. */
  datatype Tables = Tables(threshold: real, rawEstimates: seq<real>, biases: seq<real>)

  /** The raw-estimate vector is sorted (it feeds `partition_point`) and parallel to the biases. */
  predicate ValidTables(t: Tables) {
    Sorted(t.rawEstimates) && |t.rawEstimates| >= K && |t.biases| == |t.rawEstimates|
  }

  /** `get_alpha` (src/lib.rs:290-299). */
  function Alpha(p: nat): (a: real)
    requires ValidPrecision(p)
    ensures 0.6 < a < 0.75
  {
    match p
    case 4 => 0.673
    case 5 => 0.697
    case 6 => 0.709
    case _ =>
      Pow2Monotone(4, p);
      assert Pow2(4) == 16;
      AlphaBounds(Pow2(p) as real);
      0.7213 / (1.0 + 1.079 / Pow2(p) as real)
  }

  lemma AlphaBounds(m: real)
    requires m >= 16.0
    ensures 0.6 < 0.7213 / (1.0 + 1.079 / m) < 0.75
  {
    var d := 1.079 / m;
    assert d * m == 1.079;
    assert 0.0 < d <= 0.07;
    var a := 0.7213 / (1.0 + d);
    assert a * (1.0 + d) == 0.7213;
  }

  /** `2^-r`. */
  function PowNeg(r: nat): (x: real)
    ensures 0.0 < x <= 1.0
    ensures x == 1.0 <==> r == 0
  {
    1.0 / Pow2(r) as real
  }

  /** `sum of 2^-reg` over all registers: at most one per register, and exactly that only when all are zero. */
  function HarmonicSum(regs: seq<Byte>): (s: real)
    ensures |regs| > 0 ==> s > 0.0
    ensures s <= |regs| as real
    ensures s == |regs| as real <==> forall i :: 0 <= i < |regs| ==> regs[i] == 0
  {
    if regs == [] then 0.0 else HarmonicSum(regs[..|regs| - 1]) + PowNeg(regs[|regs| - 1])
  }

  /** A register-wise larger store has a smaller harmonic sum. */
  lemma {:induction false} HarmonicSumAntitone(a: seq<Byte>, b: seq<Byte>)
    requires Le(a, b)
    ensures HarmonicSum(b) <= HarmonicSum(a)
    decreases |a|
  {
    if a != [] {
      var n := |a| - 1;
      assert Le(a[..n], b[..n]);
      HarmonicSumAntitone(a[..n], b[..n]);
      PowNegAntitone(a[n], b[n]);
    }
  }

  lemma PowNegAntitone(r: nat, s: nat)
    requires r <= s
    ensures PowNeg(s) <= PowNeg(r)
  {
    Pow2Monotone(r, s);
    RatioAtLeast(1.0, Pow2(r) as real, Pow2(s) as real);
  }

  /** `alpha * M^2 / sum`, for `0 < sum <= M`: never below `alpha * M`. */
  function RawFormula(alpha: real, m: nat, s: real): (e: real)
    requires 0.0 < s <= m as real && alpha > 0.0
    ensures e >= alpha * m as real
  {
    var mr := m as real;
    assert (m * m) as real == mr * mr;
    RatioAtLeast(alpha * mr * mr, s, mr);
    assert alpha * mr * mr / mr == alpha * mr;
    alpha * (m * m) as real / s
  }

  /** A smaller sum gives a larger raw estimate. */
  lemma RawFormulaAntitone(alpha: real, m: nat, s: real, s': real)
    requires 0.0 < s' <= s <= m as real && alpha > 0.0
    ensures RawFormula(alpha, m, s) <= RawFormula(alpha, m, s')
  {
    RatioAtLeast(alpha * (m * m) as real, s', s);
  }

  lemma RatioAtLeast(c: real, s: real, m: real)
    requires 0.0 < s <= m && c >= 0.0
    ensures c / s >= c / m
  {
    assert c / s - c / m == c * (m - s) / (s * m);
  }

  /** The raw HyperLogLog estimate `alpha * M^2 / sum of 2^-reg`. */
  function RawEstimate(p: nat, regs: seq<Byte>): (e: real)
    requires Sized(p, regs)
    ensures e >= Alpha(p) * RegisterCount(p) as real
  {
    RawFormula(Alpha(p), RegisterCount(p), HarmonicSum(regs))
  }

  /** Raising registers never lowers the raw estimate. */
  lemma RawEstimateMonotone(p: nat, a: seq<Byte>, b: seq<Byte>)
    requires Sized(p, a) && Le(a, b)
    ensures RawEstimate(p, a) <= RawEstimate(p, b)
  {
    HarmonicSumAntitone(a, b);
    RawFormulaAntitone(Alpha(p), RegisterCount(p), HarmonicSum(a), HarmonicSum(b));
  }

  /** Inserting a hash never lowers the raw estimate. */
  lemma InsertNeverLowersRawEstimate(p: nat, regs: seq<Byte>, x: U64)
    requires Sized(p, regs)
    ensures RawEstimate(p, regs) <= RawEstimate(p, Insert(p, regs, x))
  {
    InsertMonotone(p, regs, x);
    RawEstimateMonotone(p, regs, Insert(p, regs, x));
  }

  /**
   The estimate: linear counting while some register is zero and its
   value is within the threshold; otherwise the raw estimate, corrected
   by the neighbour bias when it is at most `5 * M`.
   */
  function Estimate(p: nat, regs: seq<Byte>, t: Tables, ln: real -> real): (e: real)
    requires Sized(p, regs) && ValidTables(t)
    ensures (forall i :: 0 <= i < |regs| ==> regs[i] == 0) && ln(1.0) == 0.0 && t.threshold >= 0.0
      ==> e == 0.0
    ensures CountZeros(regs) == 0 && RawEstimate(p, regs) > (5 * |regs|) as real
      ==> e == RawEstimate(p, regs)
  {
    var zeros := CountZeros(regs);
    var m := RegisterCount(p) as real;
    DivSelf(m);
    if zeros > 0 && m * ln(m / zeros as real) <= t.threshold then
      m * ln(m / zeros as real)
    else
      var raw := RawEstimate(p, regs);
      if raw <= (5 * |regs|) as real then raw - EstimateBias(t.rawEstimates, t.biases, raw)
      else raw
  }

  lemma DivSelf(m: real)
    requires m > 0.0
    ensures m / m == 1.0
  {
  }

  /** After `clear` the estimate is exactly zero. */
  lemma ClearedEstimateIsZero(p: nat, regs: seq<Byte>, t: Tables, ln: real -> real)
    requires Sized(p, regs) && ValidTables(t)
    requires ln(1.0) == 0.0 && t.threshold >= 0.0
    ensures Estimate(p, Clear(regs), t, ln) == 0.0
  {
  }
}
