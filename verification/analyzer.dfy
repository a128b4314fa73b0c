/** The offline onset analyzer (Assets/AudioOnsetAnalyzer.cs): downmix to
    mono, cut 1024-sample frames every 512 samples, take the positive,
    high-frequency-weighted spectral flux of each frame, compare it with a
    centred mean-plus-1.4-std-dev threshold, pick local maxima at least
    60 ms apart, merge onsets that are still too close, and estimate a tempo
    from the median inter-onset interval.

    The Hann window (`hann`), the Goertzel band magnitude (`band`) and the
    square root (`sqrt`) are parameters: nothing here depends on their values. */
module OnsetAnalyzer {
  import opened Stats
  import Flux
  import Sorting

  const FFTSize: nat := 1024
  const HopSize: nat := 512
  /** Number of magnitude bands per frame (`FFTSize / 2`). */
  const Bands: nat := 512
  const ThresholdMultiplier: real := 1.4
  /** Minimum onset spacing, in seconds. */
  const MinOnsetInterval: real := 0.06

  // ------------------------------------------------------------------
  // Downmix
  // ------------------------------------------------------------------

  /** Reference downmix: the mean of the first `c` samples, then the rest;
      a trailing partial frame is dropped. */
  function Downmix(samples: seq<real>, c: nat): (mono: seq<real>)
    requires c >= 1
    ensures |mono| == |samples| / c
    decreases |samples|
  {
    if |samples| < c then
      DivUnique(|samples|, c, 0);
      []
    else
      var rest := Downmix(samples[c..], c);
      DivUnique(|samples|, c, (|samples| - c) / c + 1);
      [Mean(samples[..c])] + rest
  }

  /** Element `i` of the downmix is the mean of the `c` interleaved samples
      of frame `i`. */
  lemma {:induction false} DownmixElement(samples: seq<real>, c: nat, i: int)
    requires c >= 1
    requires 0 <= i < |Downmix(samples, c)|
    ensures (i + 1) * c <= |samples|
    ensures Downmix(samples, c)[i] == Mean(samples[i * c .. (i + 1) * c])
    decreases |samples|
  {
    if i == 0 {
      assert samples[0 * c .. (0 + 1) * c] == samples[..c];
    } else {
      var rest := samples[c..];
      DownmixElement(rest, c, i - 1);
      var lo := (i - 1) * c;
      MulMonotone(0, i - 1, c);
      assert i * c == c + lo && (i + 1) * c == c + (lo + c);
      SliceOfSuffix(samples, c, lo, lo + c);
    }
  }

  /** A slice of a suffix is the shifted slice of the whole. */
  lemma SliceOfSuffix(s: seq<real>, c: int, lo: int, hi: int)
    requires 0 <= c <= |s|
    requires 0 <= lo <= hi <= |s| - c
    ensures s[c..][lo .. hi] == s[c + lo .. c + hi]
  {
  }

  /** The downmix loop: a mono input is returned as it is, otherwise every
      frame of `channels` interleaved samples is averaged. */
  method ToMono(samples: seq<real>, channels: int) returns (mono: seq<real>)
    requires channels >= 1
    ensures channels == 1 ==> mono == samples
    ensures mono == Downmix(samples, channels)
  {
    if channels == 1 {
      MonoDownmixIsIdentity(samples);
      return samples;
    }
    mono := [];
    var pos := 0;
    while pos + channels <= |samples|
      invariant 0 <= pos <= |samples|
      invariant mono + Downmix(samples[pos..], channels) == Downmix(samples, channels)
      decreases |samples| - pos
    {
      var sum := SumRange(samples, pos, pos + channels);
      ghost var rest := samples[pos..];
      assert rest[..channels] == samples[pos .. pos + channels];
      assert rest[channels..] == samples[pos + channels..];
      assert Downmix(rest, channels) == [sum / channels as real] + Downmix(samples[pos + channels..], channels);
      assert (mono + [sum / channels as real]) + Downmix(samples[pos + channels..], channels)
          == mono + Downmix(rest, channels);
      mono := mono + [sum / channels as real];
      pos := pos + channels;
    }
    assert Downmix(samples[pos..], channels) == [];
  }

  /** With one channel the downmix is the identity. */
  lemma {:induction false} MonoDownmixIsIdentity(samples: seq<real>)
    ensures Downmix(samples, 1) == samples
    decreases |samples|
  {
    if |samples| > 0 {
      MonoDownmixIsIdentity(samples[1..]);
      var one := samples[..1];
      assert one[..0] == [];
      assert Sum(one) == samples[0];
      assert Mean(one) == samples[0];
      assert Downmix(samples, 1) == [Mean(one)] + Downmix(samples[1..], 1);
      assert samples == [samples[0]] + samples[1..];
    }
  }

  /** The inner accumulation loop of the downmix. */
  method SumRange(samples: seq<real>, lo: int, hi: int) returns (sum: real)
    requires 0 <= lo <= hi <= |samples|
    ensures sum == Sum(samples[lo .. hi])
  {
    sum := 0.0;
    var j := lo;
    while j < hi
      invariant lo <= j <= hi
      invariant sum == Sum(samples[lo .. j])
    {
      assert samples[lo .. j + 1][..j - lo] == samples[lo .. j];
      sum := sum + samples[j];
      j := j + 1;
    }
  }

  /** `c` copies of `v`. */
  function Repeat(v: real, c: nat): (s: seq<real>)
    ensures |s| == c
    ensures forall j :: 0 <= j < c ==> s[j] == v
  {
    seq(c, _ => v)
  }

  /** Up-mix: every mono sample written out on `c` identical channels. */
  function Interleave(m: seq<real>, c: nat): (s: seq<real>)
    ensures |s| == |m| * c
  {
    if |m| == 0 then [] else Repeat(m[0], c) + Interleave(m[1..], c)
  }

  /** Round trip: downmixing a signal whose channels are all identical gives
      back the mono signal. */
  lemma {:induction false} DownmixOfInterleave(m: seq<real>, c: nat)
    requires c >= 1
    ensures Downmix(Interleave(m, c), c) == m
    decreases |m|
  {
    if |m| > 0 {
      var s := Interleave(m, c);
      DownmixOfInterleave(m[1..], c);
      assert s[..c] == Repeat(m[0], c);
      assert s[c..] == Interleave(m[1..], c);
      MeanConstant(Repeat(m[0], c), m[0]);
    }
  }

  // ------------------------------------------------------------------
  // Framing and spectral flux
  // ------------------------------------------------------------------

  /** Number of frames analysed for `len` mono samples: C#'s
      `(len - 1024) / 512 + 1` with truncating division, a negative count
      meaning no frame at all. */
  function FrameCount(len: nat): (n: nat)
    ensures n == 0 <==> len <= HopSize
    ensures HopSize < len <= FFTSize ==> n == 1
    ensures len >= FFTSize ==> n == (len - FFTSize) / HopSize + 1
    ensures forall f :: 0 <= f < n ==> f * HopSize < len
    ensures len >= FFTSize ==> (n - 1) * HopSize + FFTSize <= len
    ensures n > 0 ==> len < (n - 1) * HopSize + FFTSize + HopSize
  {
    var k := TruncDiv(len - FFTSize, HopSize) + 1;
    if k < 0 then 0 else k
  }

  /** Frame `f`: the windowed samples from `f * 512`, zero past the end. */
  function Frame(samples: seq<real>, hann: nat -> real, f: nat): seq<real>
  {
    seq(FFTSize, i requires 0 <= i < FFTSize => if f * HopSize + i < |samples| then samples[f * HopSize + i] * hann(i) else 0.0)
  }

  /** Inputs of at least one full frame are never zero-padded; shorter inputs
      that still get a frame have exactly `len` real samples in it. */
  lemma {:induction false} FramePadding(samples: seq<real>, hann: nat -> real, f: nat)
    requires f < FrameCount(|samples|)
    ensures |samples| >= FFTSize ==>
              forall i :: 0 <= i < FFTSize ==> Frame(samples, hann, f)[i] == samples[f * HopSize + i] * hann(i)
    ensures |samples| < FFTSize ==>
              f == 0 && forall i :: |samples| <= i < FFTSize ==> Frame(samples, hann, f)[i] == 0.0
  {
  }

  /** The magnitude spectrum of a frame, one value per band. */
  function Spectrum(frame: seq<real>, band: (seq<real>, nat) -> real): (s: seq<real>)
    ensures |s| == Bands
  {
    seq(Bands, b requires 0 <= b < Bands => band(frame, b))
  }

  /** The spectrum frame `f` is compared with: the previous frame's, or all
      zeros for the first frame. */
  function PrevSpectrum(samples: seq<real>, hann: nat -> real, band: (seq<real>, nat) -> real, f: nat): (s: seq<real>)
    ensures |s| == Bands
  {
    if f == 0 then Zeros(Bands) else Spectrum(Frame(samples, hann, f - 1), band)
  }

  /** The flux of frame `f`. */
  function FluxAt(samples: seq<real>, hann: nat -> real, band: (seq<real>, nat) -> real, f: nat): real
  {
    Flux.SpectralFlux(Spectrum(Frame(samples, hann, f), band), PrevSpectrum(samples, hann, band, f), true)
  }

  /** The band loop of one frame: rises weighted by `1 + b / bands`. */
  method WeightedFlux(cur: seq<real>, prev: seq<real>) returns (r: real)
    requires |cur| == |prev|
    ensures r == Flux.SpectralFlux(cur, prev, true)
  {
    r := 0.0;
    for b := 0 to |cur|
      invariant r == Flux.PartialFlux(cur, prev, b, true)
    {
      var diff := cur[b] - prev[b];
      if diff > 0.0 {
        r := r + diff * Flux.BandWeight(b, |cur|, true);
      }
    }
  }

  /** The flux of every analysed frame, in order. */
  function FluxSeries(samples: seq<real>, hann: nat -> real, band: (seq<real>, nat) -> real): (flux: seq<real>)
    ensures |flux| == FrameCount(|samples|)
    ensures forall f :: 0 <= f < |flux| ==> flux[f] == FluxAt(samples, hann, band, f)
    ensures forall f :: 0 <= f < |flux| ==> flux[f] >= 0.0
    ensures |flux| > 0 ==> flux[0] == Flux.SpectralFlux(Spectrum(Frame(samples, hann, 0), band), Zeros(Bands), true)
  {
    seq(FrameCount(|samples|), f requires 0 <= f < FrameCount(|samples|) => FluxAt(samples, hann, band, f))
  }

  /** One flux value per frame, every one non-negative. */
  method ComputeSpectralFlux(samples: seq<real>, hann: nat -> real, band: (seq<real>, nat) -> real)
    returns (flux: seq<real>)
    ensures flux == FluxSeries(samples, hann, band)
    ensures |flux| == FrameCount(|samples|)
    ensures forall f :: 0 <= f < |flux| ==> flux[f] == FluxAt(samples, hann, band, f)
    ensures forall f :: 0 <= f < |flux| ==> flux[f] >= 0.0
  {
    var n := FrameCount(|samples|);
    var prev := Zeros(Bands);
    flux := [];
    for f := 0 to n
      invariant |flux| == f
      invariant prev == PrevSpectrum(samples, hann, band, f)
      invariant forall g :: 0 <= g < f ==> flux[g] == FluxAt(samples, hann, band, g)
    {
      var cur := Spectrum(Frame(samples, hann, f), band);
      var frameFlux := WeightedFlux(cur, prev);
      flux := flux + [frameFlux];
      prev := cur;
    }
  }

  // ------------------------------------------------------------------
  // Adaptive threshold
  // ------------------------------------------------------------------

  /** Width, in frames, of the threshold window (about 250 ms, at least 10). */
  function WindowSize(sampleRate: int): (w: int)
    requires sampleRate > 0
    ensures w >= 10
  {
    MaxInt(10, sampleRate / HopSize / 4)
  }

  /** The window `[start, end)` around frame `i` of `n`: never empty, always
      containing `i`, and never wider than `w`. */
  function Window(i: int, n: int, w: int): (r: (int, int))
    requires 0 <= i < n
    requires w >= 2
    ensures 0 <= r.0 <= i < r.1 <= n
    ensures r.1 - r.0 <= w
  {
    (MaxInt(0, i - w / 2), MinInt(n, i + w / 2))
  }

  /** The threshold of frame `i`: at least the window mean plus `1.4 * 0.001`. */
  function LocalThreshold(flux: seq<real>, i: int, w: int, sqrt: real -> real): (t: real)
    requires 0 <= i < |flux|
    requires w >= 2
    ensures t >= Mean(flux[Window(i, |flux|, w).0 .. Window(i, |flux|, w).1])
                 + ThresholdMultiplier * SpreadFloor
  {
    var win := Window(i, |flux|, w);
    AdaptiveThreshold(flux[win.0 .. win.1], ThresholdMultiplier, sqrt)
  }

  function Thresholds(flux: seq<real>, sampleRate: int, sqrt: real -> real): (t: seq<real>)
    requires sampleRate > 0
    ensures |t| == |flux|
    ensures forall i :: 0 <= i < |flux| ==> t[i] == LocalThreshold(flux, i, WindowSize(sampleRate), sqrt)
  {
    var w := WindowSize(sampleRate);
    seq(|flux|, i requires 0 <= i < |flux| => LocalThreshold(flux, i, w, sqrt))
  }

  /** Over a non-negative flux every threshold is strictly positive. */
  lemma {:induction false} ThresholdsPositive(flux: seq<real>, sampleRate: int, sqrt: real -> real)
    requires sampleRate > 0
    requires forall i :: 0 <= i < |flux| ==> flux[i] >= 0.0
    ensures forall i :: 0 <= i < |flux| ==> Thresholds(flux, sampleRate, sqrt)[i] > 0.0
  {
    var w := WindowSize(sampleRate);
    forall i | 0 <= i < |flux|
      ensures Thresholds(flux, sampleRate, sqrt)[i] > 0.0
    {
      var win := Window(i, |flux|, w);
      var part := flux[win.0 .. win.1];
      SumNonNegative(part);
    }
  }

  // ------------------------------------------------------------------
  // Peak picking
  // ------------------------------------------------------------------

  /** Frame `i` is above its threshold and a local maximum (strictly above
      its left neighbour, not below its right one). */
  predicate IsPeak(flux: seq<real>, thr: seq<real>, i: int)
    requires |thr| == |flux|
    requires 1 <= i < |flux| - 1
  {
    flux[i] > thr[i] && flux[i] > flux[i - 1] && flux[i] >= flux[i + 1]
  }

  /** Minimum onset spacing in frames: `0.06 * sampleRate / 512`. */
  function MinIntervalFrames(sampleRate: int): (g: real)
    requires sampleRate > 0
    ensures g > 0.0
  {
    MinOnsetInterval * sampleRate as real / HopSize as real
  }

  /** Scan frames `i .. |flux| - 2`, accepting each peak at least `gap` frames
      after the last accepted frame `last`. */
  function PickFrom(flux: seq<real>, thr: seq<real>, gap: real, i: nat, last: real): (r: seq<nat>)
    requires |thr| == |flux|
    requires i >= 1
    ensures forall k :: 0 <= k < |r| ==> i <= r[k] < |flux| - 1 && IsPeak(flux, thr, r[k])
    ensures forall a, b :: 0 <= a < b < |r| ==> r[a] < r[b] && r[b] as real - r[a] as real >= gap
    ensures |r| > 0 ==> r[0] as real - last >= gap
    decreases |flux| - i
  {
    if i + 1 >= |flux| then []
    else if IsPeak(flux, thr, i) && i as real - last >= gap then
      [i] + PickFrom(flux, thr, gap, i + 1, i as real)
    else
      PickFrom(flux, thr, gap, i + 1, last)
  }

  /** Peak picking only ever rejects a peak for being closer than `gap` to
      the previously accepted frame (or to the initial `last`). */
  lemma {:induction false} PickFromComplete(flux: seq<real>, thr: seq<real>, gap: real, i: nat, last: real, j: int)
    requires |thr| == |flux|
    requires i >= 1
    requires i <= j < |flux| - 1 && IsPeak(flux, thr, j)
    requires j !in PickFrom(flux, thr, gap, i, last)
    ensures j as real - last < gap
            || exists p :: p in PickFrom(flux, thr, gap, i, last) && p < j && j as real - p as real < gap
    decreases |flux| - i
  {
    if i < j {
      if IsPeak(flux, thr, i) && i as real - last >= gap {
        PickFromComplete(flux, thr, gap, i + 1, i as real, j);
        var r := PickFrom(flux, thr, gap, i, last);
        assert r == [i] + PickFrom(flux, thr, gap, i + 1, i as real);
        if j as real - i as real < gap {
          assert i in r;
        } else {
          var p :| p in PickFrom(flux, thr, gap, i + 1, i as real) && p < j && j as real - p as real < gap;
          assert p in r;
        }
      } else {
        PickFromComplete(flux, thr, gap, i + 1, last, j);
      }
    }
  }

  /** The accepted frames; `last` starts at `-gap`, so the first peak is
      always accepted. */
  function PickFrames(flux: seq<real>, thr: seq<real>, gap: real): (r: seq<nat>)
    requires |thr| == |flux|
  {
    PickFrom(flux, thr, gap, 1, -gap)
  }

  /** Time, in seconds, of frame `i`. */
  function FrameTime(i: nat, sampleRate: int): real
    requires sampleRate > 0
  {
    (i * HopSize) as real / sampleRate as real
  }

  function Times(frames: seq<nat>, sampleRate: int): (t: seq<real>)
    requires sampleRate > 0
    ensures |t| == |frames|
    ensures forall k :: 0 <= k < |frames| ==> t[k] == FrameTime(frames[k], sampleRate)
  {
    seq(|frames|, k requires 0 <= k < |frames| => FrameTime(frames[k], sampleRate))
  }

  /** Consecutive elements at least `gap` apart (with `gap > 0`: strictly
      ascending). */
  ghost predicate Spaced(s: seq<real>, gap: real)
  {
    forall k :: 0 <= k < |s| - 1 ==> s[k + 1] - s[k] >= gap
  }

  lemma {:induction false} DivideAtLeast(a: real, b: real, c: real)
    requires c > 0.0
    requires a >= b * c
    ensures a / c >= b
  {
    assert (a / c) * c == a;
  }

  /** Frames `gap`-apart become times `MinOnsetInterval`-apart. */
  lemma {:induction false} TimesSpaced(frames: seq<nat>, sampleRate: int)
    requires sampleRate > 0
    requires forall k :: 0 <= k < |frames| - 1 ==>
               frames[k + 1] as real - frames[k] as real >= MinIntervalFrames(sampleRate)
    ensures Spaced(Times(frames, sampleRate), MinOnsetInterval)
  {
    var t := Times(frames, sampleRate);
    forall k | 0 <= k < |t| - 1
      ensures t[k + 1] - t[k] >= MinOnsetInterval
    {
      FrameGapTime(frames[k], frames[k + 1], sampleRate);
    }
  }

  /** Two frames at least `MinIntervalFrames` apart are at least
      `MinOnsetInterval` seconds apart. */
  lemma {:induction false} FrameGapTime(a: nat, b: nat, sampleRate: int)
    requires sampleRate > 0
    requires b as real - a as real >= MinIntervalFrames(sampleRate)
    ensures FrameTime(b, sampleRate) - FrameTime(a, sampleRate) >= MinOnsetInterval
  {
    var sr := sampleRate as real;
    var d := b as real - a as real;
    assert d >= MinOnsetInterval * sr / 512.0;
    assert d * 512.0 >= MinOnsetInterval * sr;
    DivideAtLeast(d * 512.0, MinOnsetInterval, sr);
    assert FrameTime(b, sampleRate) - FrameTime(a, sampleRate) == (d * 512.0) / sr;
  }

  /** Peak-picked onset times: frames turned into seconds, then merged. */
  function PickOnsets(flux: seq<real>, sampleRate: int, sqrt: real -> real): (onsets: seq<real>)
    requires sampleRate > 0
    ensures |flux| < 3 ==> onsets == []
    ensures Spaced(onsets, MinOnsetInterval)
    ensures forall k :: 0 <= k < |onsets| ==>
              exists i :: 1 <= i < |flux| - 1 && IsPeak(flux, Thresholds(flux, sampleRate, sqrt), i)
                          && onsets[k] == FrameTime(i, sampleRate)
  {
    if |flux| == 0 then []
    else
      var thr := Thresholds(flux, sampleRate, sqrt);
      var frames := PickFrames(flux, thr, MinIntervalFrames(sampleRate));
      var times := Times(frames, sampleRate);
      TimesSpaced(frames, sampleRate);
      MergeKeepsSpaced(times, MinOnsetInterval);
      assert forall k :: 0 <= k < |times| ==>
               1 <= frames[k] < |flux| - 1 && IsPeak(flux, thr, frames[k])
               && times[k] == FrameTime(frames[k], sampleRate);
      MergeCloseOnsets(times, MinOnsetInterval)
  }

  /** A flux with no rise anywhere (silence included) yields no onsets. */
  lemma {:induction false} FlatFluxHasNoPeaks(flux: seq<real>, thr: seq<real>, gap: real, i: nat, last: real)
    requires |thr| == |flux|
    requires i >= 1
    requires forall j :: 1 <= j < |flux| ==> flux[j] <= flux[j - 1]
    ensures PickFrom(flux, thr, gap, i, last) == []
    decreases |flux| - i
  {
    if i + 1 < |flux| {
      assert !IsPeak(flux, thr, i);
      FlatFluxHasNoPeaks(flux, thr, gap, i + 1, last);
    }
  }

  // ------------------------------------------------------------------
  // Merging close onsets
  // ------------------------------------------------------------------

  /** `a` is `b` with some elements deleted. */
  ghost predicate IsSubsequence(a: seq<real>, b: seq<real>)
    decreases |b|
  {
    |a| == 0
    || (|b| > 0 && ((a[0] == b[0] && IsSubsequence(a[1..], b[1..])) || IsSubsequence(a, b[1..])))
  }

  /** Keep each element of `rest` that lies at least `minInterval` after the
      last kept one (initially `last`). */
  function MergeAfter(last: real, rest: seq<real>, minInterval: real): (r: seq<real>)
    ensures Spaced(r, minInterval)
    ensures |r| > 0 ==> r[0] - last >= minInterval
    ensures IsSubsequence(r, rest)
    decreases |rest|
  {
    if |rest| == 0 then []
    else if rest[0] - last >= minInterval then
      var tail := MergeAfter(rest[0], rest[1..], minInterval);
      assert ([rest[0]] + tail)[1..] == tail;
      [rest[0]] + tail
    else
      MergeAfter(last, rest[1..], minInterval)
  }

  /** The second defensive pass: keep the first onset, then every onset at
      least `minInterval` after the last kept one. */
  function MergeCloseOnsets(onsets: seq<real>, minInterval: real): (merged: seq<real>)
    ensures |onsets| <= 1 ==> merged == onsets
    ensures |onsets| > 0 ==> |merged| > 0 && merged[0] == onsets[0]
    ensures IsSubsequence(merged, onsets)
    ensures Spaced(merged, minInterval)
  {
    if |onsets| <= 1 then
      assert |onsets| == 1 ==> onsets[1..] == [];
      onsets
    else
      var tail := MergeAfter(onsets[0], onsets[1..], minInterval);
      assert ([onsets[0]] + tail)[1..] == tail;
      [onsets[0]] + tail
  }

  /** The last kept onset, or `last` when nothing has been kept. */
  function LastKept(last: real, kept: seq<real>): real
  {
    if |kept| == 0 then last else kept[|kept| - 1]
  }

  /** The scan one onset further on: the next onset is kept exactly when it
      lies at least `minInterval` after the last onset kept so far. */
  lemma {:induction false} MergeAfterSnoc(last: real, rest: seq<real>, x: real, minInterval: real)
    ensures MergeAfter(last, rest + [x], minInterval)
            == MergeAfter(last, rest, minInterval)
               + (if x - LastKept(last, MergeAfter(last, rest, minInterval)) >= minInterval then [x] else [])
    decreases |rest|
  {
    if |rest| == 0 {
      assert rest + [x] == [x];
      assert [x][1..] == [];
    } else {
      assert (rest + [x])[0] == rest[0];
      assert (rest + [x])[1..] == rest[1..] + [x];
      if rest[0] - last >= minInterval {
        MergeAfterSnoc(rest[0], rest[1..], x, minInterval);
        var tail := MergeAfter(rest[0], rest[1..], minInterval);
        assert LastKept(last, [rest[0]] + tail) == LastKept(rest[0], tail);
      } else {
        MergeAfterSnoc(last, rest[1..], x, minInterval);
      }
    }
  }

  /** The merge loop one onset further on: the first onset is always kept,
      and each later onset is kept exactly when it lies at least
      `minInterval` after the last onset kept so far. */
  lemma {:induction false} MergeCloseOnsetsSnoc(onsets: seq<real>, x: real, minInterval: real)
    requires |onsets| > 0
    ensures MergeCloseOnsets(onsets + [x], minInterval)
            == MergeCloseOnsets(onsets, minInterval)
               + (if x - LastKept(onsets[0], MergeCloseOnsets(onsets, minInterval)) >= minInterval then [x] else [])
  {
    var all := onsets + [x];
    assert all[0] == onsets[0];
    assert all[1..] == onsets[1..] + [x];
    MergeAfterSnoc(onsets[0], onsets[1..], x, minInterval);
    var tail := MergeAfter(onsets[0], onsets[1..], minInterval);
    assert LastKept(onsets[0], [onsets[0]] + tail) == LastKept(onsets[0], tail);
    if |onsets| == 1 {
      assert onsets[1..] == [];
      assert onsets == [onsets[0]];
    }
  }

  lemma {:induction false} MergeAfterKeepsSpaced(last: real, rest: seq<real>, minInterval: real)
    requires Spaced(rest, minInterval)
    requires |rest| > 0 ==> rest[0] - last >= minInterval
    ensures MergeAfter(last, rest, minInterval) == rest
    decreases |rest|
  {
    if |rest| > 0 {
      MergeAfterKeepsSpaced(rest[0], rest[1..], minInterval);
    }
  }

  /** Already well-spaced onsets pass through the merge unchanged. */
  lemma {:induction false} MergeKeepsSpaced(onsets: seq<real>, minInterval: real)
    requires Spaced(onsets, minInterval)
    ensures MergeCloseOnsets(onsets, minInterval) == onsets
  {
    if |onsets| > 1 {
      MergeAfterKeepsSpaced(onsets[0], onsets[1..], minInterval);
    }
  }

  /** Merging twice is merging once. */
  lemma {:induction false} MergeIdempotent(onsets: seq<real>, minInterval: real)
    ensures MergeCloseOnsets(MergeCloseOnsets(onsets, minInterval), minInterval)
            == MergeCloseOnsets(onsets, minInterval)
  {
    MergeKeepsSpaced(MergeCloseOnsets(onsets, minInterval), minInterval);
  }

  /** In exact arithmetic the merge never removes a peak-picked onset:
      frames `0.06 * sampleRate / 512` apart are 0.06 s apart. */
  lemma {:induction false} MergeRedundantAfterPicking(flux: seq<real>, sampleRate: int, sqrt: real -> real)
    requires sampleRate > 0
    requires |flux| > 0
    ensures PickOnsets(flux, sampleRate, sqrt)
            == Times(PickFrames(flux, Thresholds(flux, sampleRate, sqrt), MinIntervalFrames(sampleRate)), sampleRate)
  {
    var frames := PickFrames(flux, Thresholds(flux, sampleRate, sqrt), MinIntervalFrames(sampleRate));
    TimesSpaced(frames, sampleRate);
    MergeKeepsSpaced(Times(frames, sampleRate), MinOnsetInterval);
  }

  // ------------------------------------------------------------------
  // Whole analysis
  // ------------------------------------------------------------------

  /** The full offline pipeline on interleaved samples. */
  method Analyze(samples: seq<real>, channels: int, sampleRate: int,
                 hann: nat -> real, band: (seq<real>, nat) -> real, sqrt: real -> real)
    returns (onsets: seq<real>)
    requires channels >= 1
    requires sampleRate > 0
    ensures onsets == PickOnsets(FluxSeries(Downmix(samples, channels), hann, band), sampleRate, sqrt)
    ensures Spaced(onsets, MinOnsetInterval)
    ensures |samples| / channels < FFTSize + 2 * HopSize ==> onsets == []
  {
    var mono := ToMono(samples, channels);
    var flux := ComputeSpectralFlux(mono, hann, band);
    onsets := PickOnsets(flux, sampleRate, sqrt);
  }

  // ------------------------------------------------------------------
  // Tempo estimate
  // ------------------------------------------------------------------

  /** Inter-onset intervals strictly between 0.2 s and 2 s, in order. */
  function Intervals(onsets: seq<real>): (r: seq<real>)
    ensures forall k :: 0 <= k < |r| ==> 0.2 < r[k] < 2.0
    ensures |r| <= |onsets|
  {
    if |onsets| < 2 then []
    else
      var init := onsets[..|onsets| - 1];
      var d := onsets[|onsets| - 1] - onsets[|onsets| - 2];
      Intervals(init) + (if 0.2 < d < 2.0 then [d] else [])
  }

  /** Every in-range gap between consecutive onsets is among the intervals. */
  lemma {:induction false} IntervalsComplete(onsets: seq<real>, i: int)
    requires 1 <= i < |onsets|
    requires 0.2 < onsets[i] - onsets[i - 1] < 2.0
    ensures onsets[i] - onsets[i - 1] in Intervals(onsets)
  {
    var init := onsets[..|onsets| - 1];
    if i < |onsets| - 1 {
      IntervalsComplete(init, i);
    }
  }

  /** Every interval is the gap between two consecutive onsets. */
  lemma {:induction false} IntervalsSound(onsets: seq<real>, x: real)
    requires x in Intervals(onsets)
    ensures exists i :: 1 <= i < |onsets| && x == onsets[i] - onsets[i - 1]
  {
    var init := onsets[..|onsets| - 1];
    var n := |onsets|;
    if x in Intervals(init) {
      IntervalsSound(init, x);
      var i :| 1 <= i < |init| && x == init[i] - init[i - 1];
      assert x == onsets[i] - onsets[i - 1];
    } else {
      assert x == onsets[n - 1] - onsets[n - 2];
    }
  }

  /** BPM from the median in-range interval, or 0 when undefined. */
  function EstimateBPM(onsets: seq<real>): (bpm: real)
    ensures |onsets| < 4 ==> bpm == 0.0
    ensures |Intervals(onsets)| == 0 ==> bpm == 0.0
    ensures |onsets| >= 4 && |Intervals(onsets)| > 0 ==>
              30.0 < bpm < 300.0 && 60.0 / bpm in Intervals(onsets)
  {
    if |onsets| < 4 then 0.0
    else
      var iv := Intervals(onsets);
      if |iv| == 0 then 0.0
      else
        var sorted := Sorting.Sort(iv);
        var median := sorted[|iv| / 2];
        assert median in multiset(sorted);
        TempoOfInterval(median);
        60.0 / median
  }

  lemma {:induction false} TempoOfInterval(x: real)
    requires 0.2 < x < 2.0
    ensures 30.0 < 60.0 / x < 300.0
    ensures 60.0 / (60.0 / x) == x
  {
    assert (60.0 / x) * x == 60.0;
  }

  /** The interval behind a non-zero estimate is a median of the in-range
      intervals: at most half of them are shorter, at most half longer. */
  lemma {:induction false} EstimateIsMedian(onsets: seq<real>)
    requires |onsets| >= 4 && |Intervals(onsets)| > 0
    ensures 60.0 / EstimateBPM(onsets) in Intervals(onsets)
    ensures Sorting.Count(Intervals(onsets), 60.0 / EstimateBPM(onsets), true) <= |Intervals(onsets)| / 2
    ensures Sorting.Count(Intervals(onsets), 60.0 / EstimateBPM(onsets), false)
            <= |Intervals(onsets)| - 1 - |Intervals(onsets)| / 2
  {
    var iv := Intervals(onsets);
    var median := Sorting.Sort(iv)[|iv| / 2];
    assert median in multiset(Sorting.Sort(iv));
    TempoOfInterval(median);
    assert EstimateBPM(onsets) == 60.0 / median;
    assert 60.0 / EstimateBPM(onsets) == median;
    Sorting.OrderStatistic(iv, |iv| / 2);
  }

  /** A metronomic onset train (every gap equal to `d` in (0.2, 2)) yields
      exactly its own tempo `60 / d`. */
  lemma {:induction false} SteadyBeatTempo(onsets: seq<real>, d: real)
    requires |onsets| >= 4
    requires 0.2 < d < 2.0
    requires forall i :: 1 <= i < |onsets| ==> onsets[i] - onsets[i - 1] == d
    ensures EstimateBPM(onsets) == 60.0 / d
  {
    var iv := Intervals(onsets);
    IntervalsComplete(onsets, 1);
    forall x | x in iv
      ensures x == d
    {
      IntervalsSound(onsets, x);
    }
    var sorted := Sorting.Sort(iv);
    var median := sorted[|iv| / 2];
    assert median in multiset(sorted);
    assert median in iv;
  }
}
