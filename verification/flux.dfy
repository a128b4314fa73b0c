/** Positive spectral flux: the sum, over bands, of the energy INCREASES
    from the previous frame's spectrum to the current one.  The offline
    analyzer weights band `b` of `n` by `1 + b/n` (high-frequency content);
    the microphone detector applies that weight to its spectrum instead and
    sums unweighted differences.  Decreases are discarded in both. */
module Flux {

  /** Weight of band `b` among `bands`: `1 + b/bands` when high-frequency
      weighting is on, `1` otherwise. */
  function BandWeight(b: nat, bands: nat, hfc: bool): (w: real)
    requires b < bands
    ensures 1.0 <= w < 2.0
    ensures !hfc ==> w == 1.0
  {
    if hfc then 1.0 + b as real / bands as real else 1.0
  }

  /** None of the first `n` bands rose above the previous spectrum. */
  predicate NoRise(cur: seq<real>, prev: seq<real>, n: nat)
    requires |cur| == |prev|
    requires n <= |cur|
  {
    n == 0 || (cur[n - 1] <= prev[n - 1] && NoRise(cur, prev, n - 1))
  }

  /** `NoRise` is the band-by-band comparison. */
  lemma {:induction false} NoRiseAll(cur: seq<real>, prev: seq<real>, n: nat)
    requires |cur| == |prev|
    requires n <= |cur|
    ensures NoRise(cur, prev, n) <==> forall b :: 0 <= b < n ==> cur[b] <= prev[b]
  {
    if n > 0 {
      NoRiseAll(cur, prev, n - 1);
    }
  }

  /** Flux accumulated over the first `n` bands. */
  function PartialFlux(cur: seq<real>, prev: seq<real>, n: nat, hfc: bool): (r: real)
    requires |cur| == |prev|
    requires n <= |cur|
    ensures r >= 0.0
    ensures r == 0.0 <==> NoRise(cur, prev, n)
  {
    if n == 0 then 0.0
    else
      var b := n - 1;
      PartialFlux(cur, prev, b, hfc) + Contribution(cur, prev, b, hfc)
  }

  /** What band `b` adds to the flux: its weighted rise, or nothing. */
  function Contribution(cur: seq<real>, prev: seq<real>, b: nat, hfc: bool): (c: real)
    requires |cur| == |prev|
    requires b < |cur|
    ensures c >= 0.0
    ensures c > 0.0 <==> cur[b] > prev[b]
  {
    var diff := cur[b] - prev[b];
    var w := BandWeight(b, |cur|, hfc);
    if diff > 0.0 then
      assert diff * w >= diff by {
        assert diff * (w - 1.0) >= 0.0;
      }
      diff * w
    else 0.0
  }

  /** The spectral flux of one frame. */
  function SpectralFlux(cur: seq<real>, prev: seq<real>, hfc: bool): (r: real)
    requires |cur| == |prev|
    ensures r >= 0.0
    ensures r == 0.0 <==> NoRise(cur, prev, |cur|)
  {
    PartialFlux(cur, prev, |cur|, hfc)
  }

  /** The flux of a frame is zero exactly when no band rose. */
  lemma SpectralFluxZero(cur: seq<real>, prev: seq<real>, hfc: bool)
    requires |cur| == |prev|
    ensures SpectralFlux(cur, prev, hfc) == 0.0 <==> forall b :: 0 <= b < |cur| ==> cur[b] <= prev[b]
  {
    NoRiseAll(cur, prev, |cur|);
  }

  /** High-frequency weighting never lowers the flux and at most doubles it:
      the weighted and unweighted detectors agree on which frames have any
      flux at all. */
  lemma {:induction false} WeightingBounds(cur: seq<real>, prev: seq<real>, n: nat)
    requires |cur| == |prev|
    requires n <= |cur|
    ensures PartialFlux(cur, prev, n, false) <= PartialFlux(cur, prev, n, true)
    ensures PartialFlux(cur, prev, n, true) <= 2.0 * PartialFlux(cur, prev, n, false)
  {
    if n > 0 {
      var b := n - 1;
      WeightingBounds(cur, prev, b);
      ContributionWeighting(cur, prev, b);
    }
  }

  lemma ContributionWeighting(cur: seq<real>, prev: seq<real>, b: nat)
    requires |cur| == |prev|
    requires b < |cur|
    ensures Contribution(cur, prev, b, false) <= Contribution(cur, prev, b, true)
    ensures Contribution(cur, prev, b, true) <= 2.0 * Contribution(cur, prev, b, false)
  {
    var diff := cur[b] - prev[b];
    var w := BandWeight(b, |cur|, true);
    if diff > 0.0 {
      assert diff * (w - 1.0) >= 0.0;
      assert diff * (2.0 - w) >= 0.0;
    }
  }

  /** An unchanged spectrum has zero flux. */
  lemma SteadySpectrumHasNoFlux(cur: seq<real>, hfc: bool)
    ensures SpectralFlux(cur, cur, hfc) == 0.0
  {
    NoRiseAll(cur, cur, |cur|);
  }
}
