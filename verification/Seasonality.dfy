// src/analytics/derivedFacets.ts: the twelve monthly multipliers, before rounding.
module Seasonality {
  import opened Numbers

  function SumTo(v: seq<real>, n: nat): real
    requires n <= |v|
  {
    if n == 0 then 0.0 else SumTo(v, n - 1) + v[n - 1]
  }

  function Normalized(raw: seq<real>): (v: seq<real>)
    requires |raw| == 12 && SumTo(raw, 12) != 0.0
    ensures |v| == 12
  {
    seq(12, i requires 0 <= i < 12 => raw[i] / SumTo(raw, 12) * 12.0)
  }

  function SquaredDeviations(v: seq<real>, mean: real, n: nat): real
    requires n <= |v|
  {
    if n == 0 then 0.0 else SquaredDeviations(v, mean, n - 1) + (v[n - 1] - mean) * (v[n - 1] - mean)
  }

  function Variance(v: seq<real>): real
    requires |v| == 12
  {
    SquaredDeviations(v, SumTo(v, 12) / 12.0, 12) / 12.0
  }

  /** The first index of the largest value and the first index of the smallest. */
  ghost predicate IsPeakAndTrough(v: seq<real>, peak: nat, trough: nat) {
    && peak < |v| && trough < |v|
    && (forall i :: 0 <= i < |v| ==> v[i] <= v[peak] && (i < peak ==> v[i] < v[peak]))
    && (forall i :: 0 <= i < |v| ==> v[trough] <= v[i] && (i < trough ==> v[trough] < v[i]))
  }

  method PeakAndTrough(v: seq<real>) returns (peakMonth: nat, troughMonth: nat)
    requires |v| == 12
    ensures IsPeakAndTrough(v, peakMonth, troughMonth)
  {
    // The running values start from the infinities, so the first month always beats them.
    peakMonth, troughMonth := 0, 0;
    for i := 0 to 12
      invariant peakMonth < 12 && troughMonth < 12
      invariant i > 0 ==> IsPeakAndTrough(v[..i], peakMonth, troughMonth)
    {
      ghost var before, next := v[..i], v[..i + 1];
      assert forall j :: 0 <= j < i ==> next[j] == before[j];
      if i == 0 || v[i] > v[peakMonth] {
        peakMonth := i;
      }
      if i == 0 || v[i] < v[troughMonth] {
        troughMonth := i;
      }
    }
    assert v[..12] == v;
  }

  lemma {:induction false} ScaledSum(raw: seq<real>, v: seq<real>, k: real, n: nat)
    requires |v| == |raw| && n <= |v| && k != 0.0 && forall i :: 0 <= i < |v| ==> v[i] == raw[i] / k * 12.0
    ensures SumTo(v, n) == SumTo(raw, n) / k * 12.0
  {
    if n > 0 {
      ScaledSum(raw, v, k, n - 1);
      Spread(SumTo(raw, n - 1), raw[n - 1], k);
    }
  }

  lemma Spread(a: real, b: real, k: real)
    requires k != 0.0
    ensures a / k * 12.0 + b / k * 12.0 == (a + b) / k * 12.0
  {}

  /** The normalised profile averages exactly 1. */
  lemma MeanIsOne(raw: seq<real>)
    requires |raw| == 12 && SumTo(raw, 12) != 0.0
    ensures SumTo(Normalized(raw), 12) / 12.0 == 1.0
  {
    ScaledSum(raw, Normalized(raw), SumTo(raw, 12), 12);
  }

  lemma OneMore(k: real, x: real)
    ensures (k + 1.0) * x == k * x + x
  {}

  lemma {:induction false} SumBetween(v: seq<real>, low: real, high: real, n: nat)
    requires n <= |v| && forall i :: 0 <= i < |v| ==> low <= v[i] <= high
    ensures n as real * low <= SumTo(v, n) <= n as real * high
  {
    if n > 0 {
      SumBetween(v, low, high, n - 1);
      OneMore(n as real - 1.0, low);
      OneMore(n as real - 1.0, high);
    }
  }

  lemma BetweenTerm(v: real, low: real, high: real)
    requires low <= v <= high
    ensures (v - 1.0) * (v - 1.0) <= (high - 1.0) * (1.0 - low) + (high + low - 2.0) * (v - 1.0)
  {
    MulNonNegative(high - v, v - low);
    assert (high - v) * (v - low) == (high - 1.0) * (1.0 - low) + (high + low - 2.0) * (v - 1.0) - (v - 1.0) * (v - 1.0);
  }

  lemma {:induction false} DeviationsBetween(v: seq<real>, low: real, high: real, n: nat)
    requires n <= |v| && forall i :: 0 <= i < |v| ==> low <= v[i] <= high
    ensures SquaredDeviations(v, 1.0, n) <= Bound(low, high, n, SumTo(v, n))
  {
    hide Bound;
    NothingBound(low, high);
    if n > 0 {
      DeviationsBetween(v, low, high, n - 1);
      BetweenTerm(v[n - 1], low, high);
      BoundStep(low, high, n, SumTo(v, n - 1), v[n - 1]);
    }
  }

  function Bound(low: real, high: real, n: nat, sum: real): real {
    n as real * ((high - 1.0) * (1.0 - low)) + (high + low - 2.0) * (sum - n as real)
  }

  lemma NothingBound(low: real, high: real)
    ensures Bound(low, high, 0, 0.0) == 0.0
  {}

  lemma BoundStep(low: real, high: real, n: nat, sum: real, v: real)
    requires n > 0
    ensures Bound(low, high, n, sum + v) ==
            Bound(low, high, n - 1, sum) + (high - 1.0) * (1.0 - low) + (high + low - 2.0) * (v - 1.0)
  {}

  /** The trough is at most 1, the peak at least 1, and the variance at most (peak-1)(1-trough). */
  lemma ProfileShape(raw: seq<real>, peak: nat, trough: nat)
    requires |raw| == 12 && SumTo(raw, 12) != 0.0 && IsPeakAndTrough(Normalized(raw), peak, trough)
    ensures var v := Normalized(raw);
            v[trough] <= 1.0 <= v[peak] && 0.0 <= Variance(v) <= (v[peak] - 1.0) * (1.0 - v[trough])
  {
    var v := Normalized(raw);
    MeanIsOne(raw);
    SumBetween(v, v[trough], v[peak], 12);
    DeviationsBetween(v, v[trough], v[peak], 12);
    DeviationsNonNegative(v, 12);
    BoundAtMean(v[trough], v[peak]);
    hide Bound, SquaredDeviations;
    assert Variance(v) == SquaredDeviations(v, 1.0, 12) / 12.0;
  }

  lemma BoundAtMean(low: real, high: real)
    ensures Bound(low, high, 12, 12.0) == 12.0 * ((high - 1.0) * (1.0 - low))
  {}

  lemma {:induction false} DeviationsNonNegative(v: seq<real>, n: nat)
    requires n <= |v|
    ensures SquaredDeviations(v, 1.0, n) >= 0.0
  {
    if n > 0 {
      DeviationsNonNegative(v, n - 1);
      var d := v[n - 1] - 1.0;
      assert d * d >= 0.0;
    }
  }
}
