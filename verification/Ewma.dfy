/** How the smoothed round-trip times behave over whole sample histories. */
module Ewma {
  import opened Bytes
  import opened Matrix

  /** The entry after a history of samples, taken at the given instants. */
  function Track(samples: seq<(Nanos, Nanos)>): Option<LatencyEntry> {
    if samples == [] then None
    else
      var (rtt, now) := samples[|samples| - 1];
      Some(Observe(Track(samples[..|samples| - 1]), rtt, now))
  }

  /** Smoothing never leaves the range of the truncated samples, and jitter never exceeds its width. */
  lemma {:induction false} StaysInHull(samples: seq<(Nanos, Nanos)>, lo: nat, hi: nat)
    requires samples != []
    requires forall i :: 0 <= i < |samples| ==> lo <= WholeMicros(samples[i].0) <= hi
    ensures var e := Track(samples).value;
            lo <= WholeMicros(e.smoothedRtt) <= hi && WholeMicros(e.jitter) <= hi - lo && e.samples == |samples|
    decreases |samples|
  {
    var n := |samples| - 1;
    if n > 0 {
      StaysInHull(samples[..n], lo, hi);
      var e := Track(samples[..n]).value;
      var smoothed, r := WholeMicros(e.smoothedRtt), WholeMicros(samples[n].0);
      EwmaBetween(smoothed, r, lo, hi);
      EwmaBetween(WholeMicros(e.jitter), AbsDiff(r, smoothed), 0, hi - lo);
    }
  }

  lemma EwmaBetween(x: nat, r: nat, lo: nat, hi: nat)
    requires lo <= x <= hi && lo <= r <= hi
    ensures lo <= Ewma(x, r) <= hi
  {
  }

  /** The smoothing as it is meant, without rounding: an eighth of each new sample. */
  ghost function Mean(samples: seq<(Nanos, Nanos)>): real
    requires samples != []
  {
    var n := |samples| - 1;
    var sample := (samples[n].0 / 1000) as real;
    if n == 0 then sample else 0.875 * Mean(samples[..n]) + 0.125 * sample
  }

  /** Over any history rounding down loses less than 7 us of it in all. */
  lemma {:induction false} TracksMean(samples: seq<(Nanos, Nanos)>)
    requires samples != []
    ensures Mean(samples) - 7.0 <= (Track(samples).value.smoothedRtt / 1000) as real <= Mean(samples)
    decreases |samples|
  {
    var n := |samples| - 1;
    if n > 0 {
      TracksMean(samples[..n]);
      var e := Track(samples[..n]);
      ObserveSamples(e, samples[n].0, samples[n].1);
    } else {
      assert Track(samples[..0]) == None;
    }
  }

  /** Samples of at least 1 us, below 2^64 us, keep the router's weight at least 1. */
  lemma WeightStaysPositive(samples: seq<(Nanos, Nanos)>)
    requires samples != []
    requires forall i :: 0 <= i < |samples| ==> 1 <= WholeMicros(samples[i].0) <= U64_MAX
    ensures Micros(Track(samples).value.smoothedRtt) >= 1
  {
    StaysInHull(samples, 1, U64_MAX);
  }

  /** The whole-microsecond value after `n` further samples equal to `r`. */
  function Steady(x: nat, r: nat, n: nat): nat {
    if n == 0 then x else Ewma(Steady(x, r, n - 1), r)
  }

  /** That is what the matrix entry holds after the same samples. */
  lemma {:induction false} SteadyIsTracked(samples: seq<(Nanos, Nanos)>, more: seq<(Nanos, Nanos)>, rtt: Nanos)
    requires samples != [] && forall i :: 0 <= i < |more| ==> more[i].0 == rtt
    ensures WholeMicros(Track(samples + more).value.smoothedRtt)
         == Steady(WholeMicros(Track(samples).value.smoothedRtt), WholeMicros(rtt), |more|)
    decreases |more|
  {
    if more == [] {
      assert samples + more == samples;
    } else {
      var less := more[..|more| - 1];
      SteadyIsTracked(samples, less, rtt);
      assert (samples + more)[..|samples + more| - 1] == samples + less;
    }
  }

  function Pow(b: nat, n: nat): nat {
    if n == 0 then 1 else b * Pow(b, n - 1)
  }

  /** Repeating one sample moves nothing exactly inside the dead band of 7 us below it. */
  lemma DeadBand(x: nat, r: nat)
    ensures Ewma(x, r) == x <==> x <= r <= x + 7
  {
  }

  /** From above, the excess shrinks by the factor 7/8 a step, but for what rounding down adds (at most 7 us in
      all), and reaches 0. */
  lemma {:induction false} DecaysFromAbove(x: nat, r: nat, n: nat)
    requires x >= r
    ensures r <= Steady(x, r, n) <= x
    ensures Pow(8, n) * (Steady(x, r, n) - r) <= Pow(7, n) * (x - r)
    ensures Pow(7, n) * (x - r + 7) <= Pow(8, n) * (Steady(x, r, n) - r + 7)
    ensures n >= x - r ==> Steady(x, r, n) == r
    ensures Steady(x, r, n) - r <= (if n <= x - r then x - r - n else 0)
  {
    if n > 0 {
      DecaysFromAbove(x, r, n - 1);
      var e, e' := Steady(x, r, n - 1) - r, Steady(x, r, n) - r;
      assert 8 * e' <= 7 * e && 7 * (e + 7) <= 8 * (e' + 7);
      ScaledStep(Pow(8, n - 1), Pow(7, n - 1), e, e', x - r);
      ScaledBack(Pow(8, n - 1), Pow(7, n - 1), e + 7, e' + 7, x - r + 7);
    }
  }

  /** From below, the shortfall shrinks no faster. */
  lemma {:induction false} ClimbsNoFaster(x: nat, r: nat, n: nat)
    requires x <= r
    ensures x <= Steady(x, r, n) <= r
    ensures Pow(7, n) * (r - x) <= Pow(8, n) * (r - Steady(x, r, n))
  {
    if n > 0 {
      ClimbsNoFaster(x, r, n - 1);
      var d, d' := r - Steady(x, r, n - 1), r - Steady(x, r, n);
      assert 7 * d <= 8 * d';
      ScaledBack(Pow(8, n - 1), Pow(7, n - 1), d, d', r - x);
    }
  }

  /** From more than 7 us below, the shortfall beyond 7 us shrinks by that factor at least, and stops there. */
  lemma {:induction false} ClimbsFromBelow(x: nat, r: nat, n: nat)
    requires x + 7 <= r
    ensures x <= Steady(x, r, n) <= r - 7
    ensures Pow(8, n) * (r - 7 - Steady(x, r, n)) <= Pow(7, n) * (r - 7 - x)
    ensures Pow(7, n) * (r - x) <= Pow(8, n) * (r - Steady(x, r, n))
    ensures n >= r - 7 - x ==> Steady(x, r, n) == r - 7
    ensures r - 7 - Steady(x, r, n) <= (if n <= r - 7 - x then r - 7 - x - n else 0)
  {
    ClimbsNoFaster(x, r, n);
    if n > 0 {
      ClimbsFromBelow(x, r, n - 1);
      var e, e' := r - 7 - Steady(x, r, n - 1), r - 7 - Steady(x, r, n);
      assert 8 * e' <= 7 * e;
      ScaledStep(Pow(8, n - 1), Pow(7, n - 1), e, e', r - 7 - x);
    }
  }

  lemma ScaledStep(p8: nat, p7: nat, e: nat, e': nat, e0: nat)
    requires 8 * e' <= 7 * e && p8 * e <= p7 * e0
    ensures 8 * p8 * e' <= 7 * p7 * e0
  {
    assert p8 * (8 * e') <= p8 * (7 * e) by {
      MulMonotone(p8, 8 * e', 7 * e);
    }
    assert p8 * (8 * e') == 8 * p8 * e';
    assert p8 * (7 * e) == 7 * (p8 * e);
    assert 7 * (p7 * e0) == 7 * p7 * e0;
  }

  lemma ScaledBack(p8: nat, p7: nat, e: nat, e': nat, e0: nat)
    requires 7 * e <= 8 * e' && p7 * e0 <= p8 * e
    ensures 7 * p7 * e0 <= 8 * p8 * e'
  {
    assert p8 * (7 * e) <= p8 * (8 * e') by {
      MulMonotone(p8, 7 * e, 8 * e');
    }
    assert p8 * (8 * e') == 8 * p8 * e';
    assert p8 * (7 * e) == 7 * (p8 * e);
    assert 7 * (p7 * e0) == 7 * p7 * e0;
  }

  lemma MulMonotone(k: nat, a: nat, b: nat)
    requires a <= b
    ensures k * a <= k * b
  {
  }
}
