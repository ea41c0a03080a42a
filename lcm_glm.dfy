/**
 * The LCM sigma schedule of `lcm_glm.h`: a 50-step Karras reference schedule (rho 7)
 * built in sigma space, from which `n` evenly spaced entries are picked by rounding,
 * followed by a final 0.
 *
 * Floating point is modelled as exact real arithmetic. `std::pow` is a parameter, and
 * so is the schedule's `t_to_sigma`, which this schedule never calls. `std::round` of
 * the non-negative index position is `floor(x + 1/2)`.
 */
module LcmGlm {
  import opened Common
  import Resolution

  /** `original_inference_steps`. */
  const OriginalInferenceSteps: nat := 50

  /** `rho` of the Karras reference. */
  const Rho: real := 7.0

  /** Entry `i` of the Karras reference between `sigma_max` (i = 0) and `sigma_min` (i = 49). */
  function KarrasEntry(pow: (real, real) -> real, sigmaMin: real, sigmaMax: real, i: nat): real
  {
    KarrasPoint(pow, pow(sigmaMin, 1.0 / Rho), pow(sigmaMax, 1.0 / Rho), i)
  }

  /** `(max_inv_rho + i / (N - 1) * (min_inv_rho - max_inv_rho))^rho`. */
  function KarrasPoint(pow: (real, real) -> real, minInvRho: real, maxInvRho: real, i: nat): real
  {
    pow(maxInvRho + (i as real / (OriginalInferenceSteps as real - 1.0)) * (minInvRho - maxInvRho), Rho)
  }

  /** The reference schedule `original_sigmas`. */
  function KarrasReference(pow: (real, real) -> real, sigmaMin: real, sigmaMax: real): (r: seq<real>)
    ensures |r| == OriginalInferenceSteps
    ensures forall i :: 0 <= i < |r| ==> r[i] == KarrasEntry(pow, sigmaMin, sigmaMax, i)
  {
    seq(OriginalInferenceSteps, i requires 0 <= i => KarrasEntry(pow, sigmaMin, sigmaMax, i))
  }

  /** `std::round` of a non-negative real: the nearest integer, halves rounded up. */
  function RoundHalfUp(x: real): int
  {
    (x + 0.5).Floor
  }

  /** The reference index of output step `i` of `n >= 2`: `round(i * 49 / (n - 1))`, clamped to [0, 49]. */
  function SampleIndex(i: nat, n: nat): (idx: int)
    requires n >= 2
    ensures 0 <= idx < OriginalInferenceSteps
  {
    var stepSize := (OriginalInferenceSteps - 1) as real / (n - 1) as real;
    ClampTo(RoundHalfUp(stepSize * i as real), 0, OriginalInferenceSteps - 1)
  }

  /** What `get_sigmas` returns. */
  function Sigmas(pow: (real, real) -> real, n: nat, sigmaMin: real, sigmaMax: real, tToSigma: real -> real): (r: seq<real>)
    ensures n == 0 ==> r == []
    ensures n >= 1 ==> |r| == n + 1 && r[n] == 0.0
  {
    if n == 0 then []
    else
      var reference := KarrasReference(pow, sigmaMin, sigmaMax);
      if n == 1 then [reference[0], 0.0]
      else seq(n, i requires 0 <= i < n => reference[SampleIndex(i, n)]) + [0.0]
  }

  /**
   * `get_sigmas`: fill the reference by index, then push the sampled entries and the
   * final zero. `n` is a `uint32_t`.
   */
  method GetSigmas(pow: (real, real) -> real, n: nat, sigmaMin: real, sigmaMax: real, tToSigma: real -> real)
    returns (result: seq<real>)
    requires n < 0x1_0000_0000
    ensures result == Sigmas(pow, n, sigmaMin, sigmaMax, tToSigma)
  {
    if n == 0 {
      return [];
    }
    var minInvRho := pow(sigmaMin, 1.0 / Rho);
    var maxInvRho := pow(sigmaMax, 1.0 / Rho);
    var originalSigmas := new real[OriginalInferenceSteps];
    var i: nat := 0;
    while i < OriginalInferenceSteps
      invariant 0 <= i <= OriginalInferenceSteps
      invariant forall k :: 0 <= k < i ==> originalSigmas[k] == KarrasEntry(pow, sigmaMin, sigmaMax, k)
    {
      originalSigmas[i] := KarrasPoint(pow, minInvRho, maxInvRho, i);
      i := i + 1;
    }
    ghost var reference := KarrasReference(pow, sigmaMin, sigmaMax);
    assert originalSigmas[..] == reference;
    result := [];
    if n == 1 {
      result := result + [originalSigmas[0]];
      result := result + [0.0];
      return;
    }
    var stepSize := (OriginalInferenceSteps - 1) as real / (n - 1) as real;
    var j := 0;
    while j < n
      invariant 0 <= j <= n
      invariant |result| == j
      invariant forall k :: 0 <= k < j ==> result[k] == reference[SampleIndex(k, n)]
    {
      var idx := RoundHalfUp(stepSize * j as real);
      idx := Max(0, Min(OriginalInferenceSteps - 1, idx));
      assert idx == SampleIndex(j, n);
      assert originalSigmas[idx] == reference[idx];
      result := result + [originalSigmas[idx]];
      j := j + 1;
    }
    result := result + [0.0];
    assert result == Sigmas(pow, n, sigmaMin, sigmaMax, tToSigma);
  }

  // ---------------------------------------------------------------------------
  // Properties of the index selection

  /** The rounded position as an integer quotient: `floor(a / d + 1/2) == (2a + d) / (2d)`. */
  lemma RoundIsQuotient(a: int, d: int)
    requires a >= 0 && d > 0
    ensures RoundHalfUp(a as real / d as real) == (2 * a + d) / (2 * d)
  {
    var q := (2 * a + d) / (2 * d);
    var x := a as real / d as real + 0.5;
    assert q * (2 * d) <= 2 * a + d < (q + 1) * (2 * d);
    assert x * (2 * d) as real == (2 * a + d) as real;
    assert (q as real) * (2 * d) as real <= x * (2 * d) as real;
    assert x * (2 * d) as real < (q + 1) as real * (2 * d) as real;
    assert q as real <= x < (q + 1) as real;
  }

  /** The index before clamping is `(98 i + n - 1) / (2 (n - 1))`, already inside [0, 49] for `i < n`. */
  lemma {:induction false} SampleIndexIsQuotient(i: nat, n: nat)
    requires n >= 2 && i < n
    ensures SampleIndex(i, n) == (98 * i + (n - 1)) / (2 * (n - 1))
  {
    var d := n - 1;
    var stepSize := 49.0 / d as real;
    assert stepSize * i as real == (49 * i) as real / d as real;
    RoundIsQuotient(49 * i, d);
    assert 2 * (49 * i) + d == 98 * i + d;
    var q := (98 * i + d) / (2 * d);
    assert 0 <= q by {
      assert 98 * i + d >= 0;
    }
    assert q <= 49 by {
      assert 98 * i <= 98 * d;
      assert 98 * i + d < 50 * (2 * d);
      DivUpper(98 * i + d, 2 * d, 50);
    }
  }

  /** A quotient below `k` times the divisor is below `k`. */
  lemma DivUpper(a: int, d: int, k: int)
    requires a >= 0 && d > 0 && a < k * d
    ensures a / d < k
  {
    Resolution.DivFloor(a, d);
    Resolution.MulLtCancel(a / d, k, d);
  }

  /** The first step takes the start of the reference and the last step its end. */
  lemma SampleIndexEndpoints(n: nat)
    requires n >= 2
    ensures SampleIndex(0, n) == 0 && SampleIndex(n - 1, n) == OriginalInferenceSteps - 1
  {
    SampleIndexIsQuotient(0, n);
    SampleIndexIsQuotient(n - 1, n);
    var d := n - 1;
    assert 98 * d + d == 49 * (2 * d) + d;
    assert (98 * d + d) / (2 * d) == 49;
    assert d / (2 * d) == 0;
  }

  /** Later steps never take an earlier reference entry. */
  lemma SampleIndexMonotone(i: nat, j: nat, n: nat)
    requires n >= 2 && i <= j < n
    ensures SampleIndex(i, n) <= SampleIndex(j, n)
  {
    SampleIndexIsQuotient(i, n);
    SampleIndexIsQuotient(j, n);
    DivMonotone(98 * i + (n - 1), 98 * j + (n - 1), 2 * (n - 1));
  }

  lemma DivMonotone(a: int, b: int, d: int)
    requires 0 <= a <= b && d > 0
    ensures a / d <= b / d
  {
    Resolution.DivFloor(a, d);
    Resolution.DivFloor(b, d);
    assert (a / d) * d < (b / d + 1) * d;
    Resolution.MulLtCancel(a / d, b / d + 1, d);
  }

  // ---------------------------------------------------------------------------
  // Properties of the schedule

  predicate NonIncreasing(s: seq<real>)
  {
    forall i, j :: 0 <= i <= j < |s| ==> s[i] >= s[j]
  }

  /** A single step takes exactly the first reference entry and then 0. */
  lemma SingleStep(pow: (real, real) -> real, sigmaMin: real, sigmaMax: real, tToSigma: real -> real)
    ensures Sigmas(pow, 1, sigmaMin, sigmaMax, tToSigma) == [KarrasEntry(pow, sigmaMin, sigmaMax, 0), 0.0]
  {
  }

  /** The schedule starts with the reference's first entry and its step before 0 is the reference's last. */
  lemma ScheduleEndpoints(pow: (real, real) -> real, n: nat, sigmaMin: real, sigmaMax: real, tToSigma: real -> real)
    requires n >= 2
    ensures Sigmas(pow, n, sigmaMin, sigmaMax, tToSigma)[0] == KarrasEntry(pow, sigmaMin, sigmaMax, 0)
    ensures Sigmas(pow, n, sigmaMin, sigmaMax, tToSigma)[n - 1] ==
      KarrasEntry(pow, sigmaMin, sigmaMax, OriginalInferenceSteps - 1)
  {
    SampleIndexEndpoints(n);
  }

  /** A non-increasing, non-negative reference gives a non-increasing schedule. */
  lemma ScheduleNonIncreasing(pow: (real, real) -> real, n: nat, sigmaMin: real, sigmaMax: real, tToSigma: real -> real)
    requires NonIncreasing(KarrasReference(pow, sigmaMin, sigmaMax))
    requires forall i :: 0 <= i < OriginalInferenceSteps ==> KarrasEntry(pow, sigmaMin, sigmaMax, i) >= 0.0
    ensures NonIncreasing(Sigmas(pow, n, sigmaMin, sigmaMax, tToSigma))
  {
    var r := Sigmas(pow, n, sigmaMin, sigmaMax, tToSigma);
    var reference := KarrasReference(pow, sigmaMin, sigmaMax);
    if n >= 2 {
      forall i, j | 0 <= i <= j < |r| ensures r[i] >= r[j] {
        if j == n {
          assert r[i] == reference[SampleIndex(i, n)] || r[i] == 0.0;
        } else {
          SampleIndexMonotone(i, j, n);
          assert r[i] == reference[SampleIndex(i, n)] && r[j] == reference[SampleIndex(j, n)];
        }
      }
    } else if n == 1 {
      assert r == [reference[0], 0.0];
    }
  }

  /** The schedule never reads `t_to_sigma`. */
  lemma IgnoresTToSigma(pow: (real, real) -> real, n: nat, sigmaMin: real, sigmaMax: real, f: real -> real, g: real -> real)
    ensures Sigmas(pow, n, sigmaMin, sigmaMax, f) == Sigmas(pow, n, sigmaMin, sigmaMax, g)
  {
  }

  /** `pow` is monotone in its base for non-negative bases and a given positive exponent. */
  ghost predicate PowMonotone(pow: (real, real) -> real, e: real)
  {
    forall a: real, b: real {:trigger pow(a, e), pow(b, e)} :: 0.0 <= a <= b ==> pow(a, e) <= pow(b, e)
  }

  ghost predicate PowNonNegative(pow: (real, real) -> real, e: real)
  {
    forall a: real {:trigger pow(a, e)} :: 0.0 <= a ==> pow(a, e) >= 0.0
  }

  /**
   * The reference runs from `sigma_max` down to `sigma_min`: with a `pow` that is
   * monotone and non-negative on non-negative bases (as `std::pow` is for exponents
   * 1/7 and 7), and `0 <= sigma_min <= sigma_max`, it is non-increasing and non-negative.
   */
  lemma KarrasReferenceNonIncreasing(pow: (real, real) -> real, sigmaMin: real, sigmaMax: real)
    requires 0.0 <= sigmaMin <= sigmaMax
    requires PowMonotone(pow, 1.0 / Rho) && PowNonNegative(pow, 1.0 / Rho)
    requires PowMonotone(pow, Rho) && PowNonNegative(pow, Rho)
    ensures NonIncreasing(KarrasReference(pow, sigmaMin, sigmaMax))
    ensures forall i :: 0 <= i < OriginalInferenceSteps ==> KarrasEntry(pow, sigmaMin, sigmaMax, i) >= 0.0
  {
    var lo := pow(sigmaMin, 1.0 / Rho);
    var hi := pow(sigmaMax, 1.0 / Rho);
    assert 0.0 <= lo <= hi;
    var reference := KarrasReference(pow, sigmaMin, sigmaMax);
    forall i: nat | i < OriginalInferenceSteps
      ensures 0.0 <= Base(lo, hi, i) && KarrasEntry(pow, sigmaMin, sigmaMax, i) == pow(Base(lo, hi, i), Rho)
    {
      BaseInRange(lo, hi, i);
    }
    forall i, j | 0 <= i <= j < |reference| ensures reference[i] >= reference[j] {
      BaseDecreasing(lo, hi, i, j);
      assert reference[i] == pow(Base(lo, hi, i), Rho);
      assert reference[j] == pow(Base(lo, hi, j), Rho);
    }
  }

  /** The base of entry `i`: `hi + i / 49 * (lo - hi)`. */
  function Base(lo: real, hi: real, i: nat): real
  {
    hi + (i as real / (OriginalInferenceSteps as real - 1.0)) * (lo - hi)
  }

  lemma BaseInRange(lo: real, hi: real, i: nat)
    requires 0.0 <= lo <= hi && i < OriginalInferenceSteps
    ensures lo <= Base(lo, hi, i) <= hi
  {
    var t := i as real / 49.0;
    assert 0.0 <= t <= 1.0;
    assert Base(lo, hi, i) == hi - t * (hi - lo);
    RealMulNonNeg(t, hi - lo);
    RealMulNonNeg(1.0 - t, hi - lo);
    assert (1.0 - t) * (hi - lo) == (hi - lo) - t * (hi - lo);
  }

  lemma RealMulNonNeg(a: real, b: real)
    requires a >= 0.0 && b >= 0.0
    ensures a * b >= 0.0
  {
  }

  lemma BaseDecreasing(lo: real, hi: real, i: nat, j: nat)
    requires 0.0 <= lo <= hi && i <= j < OriginalInferenceSteps
    ensures Base(lo, hi, i) >= Base(lo, hi, j) >= 0.0
  {
    BaseInRange(lo, hi, j);
    var s, t := i as real / 49.0, j as real / 49.0;
    assert s <= t;
    assert s * (hi - lo) <= t * (hi - lo);
  }
}
