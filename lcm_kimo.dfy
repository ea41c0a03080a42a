/**
 * The alternative LCM sigma schedule of `lcm_kimo.h`: `n` timesteps linearly spaced
 * from `TIMESTEPS - 1` down to 0, each mapped through the model's `t_to_sigma`,
 * followed by a final 0.
 *
 * `TIMESTEPS`, `linear_space` and `t_to_sigma` are defined outside this schedule and
 * are parameters; `sigma_min` and `sigma_max` are accepted and never read.
 */
module LcmKimo {
  import LcmGlm

  /**
   * What `get_sigmas` returns. For `n >= 2`, `linear_space` must give at least `n`
   * values, as the loop reads the first `n` of them.
   */
  function Sigmas(n: nat, sigmaMin: real, sigmaMax: real, tToSigma: real -> real,
                  timesteps: int, linearSpace: (real, real, nat) -> seq<real>): (r: seq<real>)
    requires n >= 2 ==> |linearSpace((timesteps - 1) as real, 0.0, n)| >= n
    ensures n == 0 ==> r == [0.0]
    ensures n >= 1 ==> |r| == n + 1 && r[n] == 0.0
  {
    if n == 0 then [0.0]
    else if n == 1 then [tToSigma((timesteps - 1) as real), 0.0]
    else
      var ts := linearSpace((timesteps - 1) as real, 0.0, n);
      seq(n, i requires 0 <= i < n => tToSigma(ts[i])) + [0.0]
  }

  /** `get_sigmas`: the two special cases, then one `t_to_sigma` per timestep and the final zero. */
  method GetSigmas(n: nat, sigmaMin: real, sigmaMax: real, tToSigma: real -> real,
                   timesteps: int, linearSpace: (real, real, nat) -> seq<real>) returns (result: seq<real>)
    requires n < 0x1_0000_0000
    requires n >= 2 ==> |linearSpace((timesteps - 1) as real, 0.0, n)| >= n
    ensures result == Sigmas(n, sigmaMin, sigmaMax, tToSigma, timesteps, linearSpace)
  {
    result := [];
    if n == 0 {
      result := result + [0.0];
      return;
    }
    if n == 1 {
      result := result + [tToSigma((timesteps - 1) as real)];
      result := result + [0.0];
      return;
    }
    var ts := linearSpace((timesteps - 1) as real, 0.0, n);
    var i := 0;
    while i < n
      invariant 0 <= i <= n
      invariant |result| == i
      invariant forall k :: 0 <= k < i ==> result[k] == tToSigma(ts[k])
    {
      result := result + [tToSigma(ts[i])];
      i := i + 1;
    }
    result := result + [0.0];
  }

  /** A single step is the sigma of the last training timestep, then 0. */
  lemma SingleStep(sigmaMin: real, sigmaMax: real, tToSigma: real -> real,
                   timesteps: int, linearSpace: (real, real, nat) -> seq<real>)
    ensures Sigmas(1, sigmaMin, sigmaMax, tToSigma, timesteps, linearSpace) == [tToSigma((timesteps - 1) as real), 0.0]
  {
  }

  /** For `n >= 2`, step `i` is the sigma of the `i`-th linearly spaced timestep. */
  lemma StepIsMappedTimestep(n: nat, sigmaMin: real, sigmaMax: real, tToSigma: real -> real,
                             timesteps: int, linearSpace: (real, real, nat) -> seq<real>, i: nat)
    requires n >= 2 && |linearSpace((timesteps - 1) as real, 0.0, n)| >= n && i < n
    ensures Sigmas(n, sigmaMin, sigmaMax, tToSigma, timesteps, linearSpace)[i] ==
      tToSigma(linearSpace((timesteps - 1) as real, 0.0, n)[i])
  {
  }

  /** `sigma_min` and `sigma_max` have no effect on the schedule. */
  lemma IgnoresSigmaRange(n: nat, tToSigma: real -> real, timesteps: int, linearSpace: (real, real, nat) -> seq<real>,
                          min1: real, max1: real, min2: real, max2: real)
    requires n >= 2 ==> |linearSpace((timesteps - 1) as real, 0.0, n)| >= n
    ensures Sigmas(n, min1, max1, tToSigma, timesteps, linearSpace) == Sigmas(n, min2, max2, tToSigma, timesteps, linearSpace)
  {
  }

  /**
   * The two LCM schedules disagree on zero steps: this one returns `[0.0]`, the
   * Karras-based one an empty list. From one step on, both have `n + 1` entries ending in 0.
   */
  lemma SchedulesDisagreeOnZeroSteps(pow: (real, real) -> real, sigmaMin: real, sigmaMax: real, tToSigma: real -> real,
                                     timesteps: int, linearSpace: (real, real, nat) -> seq<real>)
    ensures Sigmas(0, sigmaMin, sigmaMax, tToSigma, timesteps, linearSpace) == [0.0]
    ensures LcmGlm.Sigmas(pow, 0, sigmaMin, sigmaMax, tToSigma) == []
    ensures |Sigmas(0, sigmaMin, sigmaMax, tToSigma, timesteps, linearSpace)| != |LcmGlm.Sigmas(pow, 0, sigmaMin, sigmaMax, tToSigma)|
  {
  }

  /** From one step on, both schedules have the same length and end in 0. */
  lemma SchedulesAgreeOnShape(pow: (real, real) -> real, n: nat, sigmaMin: real, sigmaMax: real, tToSigma: real -> real,
                              timesteps: int, linearSpace: (real, real, nat) -> seq<real>)
    requires n >= 1 && (n >= 2 ==> |linearSpace((timesteps - 1) as real, 0.0, n)| >= n)
    ensures |Sigmas(n, sigmaMin, sigmaMax, tToSigma, timesteps, linearSpace)| == |LcmGlm.Sigmas(pow, n, sigmaMin, sigmaMax, tToSigma)|
    ensures Sigmas(n, sigmaMin, sigmaMax, tToSigma, timesteps, linearSpace)[n] == LcmGlm.Sigmas(pow, n, sigmaMin, sigmaMax, tToSigma)[n] == 0.0
  {
  }
}
