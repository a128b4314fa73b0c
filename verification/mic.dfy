/** The streaming microphone detector (Assets/MicOnsetDetector.cs).  Every
    tick it polls the microphone's write cursor, reads the samples that
    arrived since its own read cursor in the one-second circular clip (at
    most four hops' worth), cuts them into hop-spaced frames, takes the
    positive spectral flux of each frame against the previous one, and runs
    the rolling mean-plus-std-dev onset rule with a debounce interval.

    Platform calls become parameters: `currentPos` is what the microphone
    reports, `data(k)` the `k`-th sample read from the read cursor on,
    `now` the unscaled clock, `hann` and `sqrt` the window and the square
    root. */
module MicOnset {
  import opened Stats
  import opened Rolling
  import Flux

  /** Inspector settings and the recording clip's length. */
  datatype Config = Config(fftSize: int, hopSize: int, minOnsetInterval: real, clipSamples: int) {
    predicate Valid() {
      fftSize >= 0 && hopSize > 0 && clipSamples > 0
    }

    /** Number of spectrum bands, `fftSize / 2`. */
    function Bands(): nat
      requires Valid()
    {
      fftSize / 2
    }

    /** Length of the per-tick read buffer, four hops. */
    function BufferLen(): int
    {
      hopSize * 4
    }
  }

  /** Defaults: 1024-sample frames, 512-sample hop, 100 ms debounce, and the
      one-second clip recorded at the 22050 Hz default rate. */
  const DefaultConfig: Config := Config(1024, 512, 0.1, 22050)
  const DefaultOnsetThreshold: real := 1.5

  datatype State = State(
    lastReadPos: int,
    prevSpectrum: seq<real>,
    history: History,
    lastOnsetTime: real,
    onsetThreshold: real)

  predicate Valid(s: State, cfg: Config)
    requires cfg.Valid()
  {
    && 0 <= s.lastReadPos < cfg.clipSamples
    && |s.prevSpectrum| == cfg.Bands()
    && s.history.Valid()
    && s.history.NonNegative()
  }

  /** The recording rate: the requested rate limited to the device's
      advertised range, where a bound of 0 means "unbounded".  The clip is
      one second long, so its length in samples is this rate. */
  function ActualRate(requested: int, minFreq: int, maxFreq: int): (r: int)
    ensures minFreq <= 0 && maxFreq <= 0 ==> r == requested
    ensures minFreq > 0 ==> r >= minFreq
    ensures maxFreq > 0 && minFreq <= maxFreq ==> r <= maxFreq
    ensures minFreq > 0 && requested < minFreq ==> r == minFreq
    ensures maxFreq > 0 && requested > maxFreq && minFreq <= maxFreq ==> r == maxFreq
    ensures (minFreq <= 0 || minFreq <= requested) && (maxFreq <= 0 || requested <= maxFreq) ==> r == requested
    ensures r == requested || r == minFreq || r == maxFreq
  {
    var capped := if maxFreq > 0 then MinInt(requested, maxFreq) else requested;
    if minFreq > 0 then MaxInt(capped, minFreq) else capped
  }

  /** Microphone start: buffers reallocated to zeros and the read cursor put
      back to 0; the history cursor, the last onset time and the threshold
      multiplier are fields that survive a restart. */
  function Start(cfg: Config, historyIdx: int, lastOnsetTime: real, onsetThreshold: real): (s: State)
    requires cfg.Valid()
    requires 0 <= historyIdx < HistoryLen
    ensures Valid(s, cfg)
    ensures s.lastReadPos == 0
    ensures s.prevSpectrum == Zeros(cfg.Bands())
    ensures forall j :: 0 <= j < cfg.Bands() ==> s.prevSpectrum[j] == 0.0
    ensures forall j :: 0 <= j < HistoryLen ==> s.history.slots[j] == 0.0
    ensures s.history.idx == historyIdx
    ensures s.lastOnsetTime == lastOnsetTime && s.onsetThreshold == onsetThreshold
  {
    State(0, Zeros(cfg.Bands()), Cleared(historyIdx), lastOnsetTime, onsetThreshold)
  }

  /** The default clip length is the recording rate the device grants for
      the default request of 22050 Hz whenever its range admits that rate
      (a bound of 0 meaning none). */
  lemma DefaultClipRate(minFreq: int, maxFreq: int)
    requires minFreq <= 22050 && (maxFreq <= 0 || 22050 <= maxFreq)
    ensures ActualRate(22050, minFreq, maxFreq) == DefaultConfig.clipSamples
  {
  }

  /** The first start of a new component: default settings, the history
      cursor and the last onset time at their zero defaults, and the
      default multiplier 1.5. */
  function Initial(): (s: State)
    ensures DefaultConfig.Valid() && Valid(s, DefaultConfig)
    ensures |s.prevSpectrum| == 512 && forall j :: 0 <= j < 512 ==> s.prevSpectrum[j] == 0.0
    ensures forall j :: 0 <= j < HistoryLen ==> s.history.slots[j] == 0.0
    ensures s.lastReadPos == 0 && s.history.idx == 0
    ensures s.lastOnsetTime == 0.0 && s.onsetThreshold == DefaultOnsetThreshold
  {
    Start(DefaultConfig, 0, 0.0, DefaultOnsetThreshold)
  }

  /** Samples available between the read cursor and the write cursor of a
      circular clip of `clip` samples. */
  function SamplesToRead(currentPos: int, lastReadPos: int, clip: int): (n: int)
    requires clip > 0
    ensures 0 <= currentPos < clip && 0 <= lastReadPos < clip ==>
              0 <= n < clip && n == (currentPos - lastReadPos) % clip
    ensures 0 <= currentPos < clip && 0 <= lastReadPos < clip ==>
              (lastReadPos + n) % clip == currentPos
  {
    var n := currentPos - lastReadPos;
    var wrapped := if n < 0 then n + clip else n;
    assert 0 <= currentPos < clip && 0 <= lastReadPos < clip ==>
             wrapped == n % clip && (lastReadPos + wrapped) % clip == currentPos by {
      if 0 <= currentPos < clip && 0 <= lastReadPos < clip {
        DivUnique(n, clip, if n < 0 then -1 else 0);
        DivUnique(lastReadPos + wrapped, clip, if n < 0 then 1 else 0);
      }
    }
    wrapped
  }

  /** Advancing the read cursor by `k` of the `n` available samples leaves
      exactly `n - k` available: the reader never overtakes the writer. */
  lemma CursorAdvance(currentPos: int, lastReadPos: int, clip: int, k: int)
    requires clip > 0
    requires 0 <= currentPos < clip && 0 <= lastReadPos < clip
    requires 0 <= k <= SamplesToRead(currentPos, lastReadPos, clip)
    ensures 0 <= (lastReadPos + k) % clip < clip
    ensures SamplesToRead(currentPos, (lastReadPos + k) % clip, clip)
            == SamplesToRead(currentPos, lastReadPos, clip) - k
  {
    if lastReadPos + k < clip {
      DivUnique(lastReadPos + k, clip, 0);
    } else {
      DivUnique(lastReadPos + k, clip, 1);
    }
  }

  /** Fill one FFT frame: slot `i` reads read-buffer sample
      `processed + i - (fftSize - hopSize)` when that lies in the buffer,
      and holds 0 otherwise. */
  function FillFrame(temp: seq<real>, processed: int, fftSize: nat, hopSize: int, hann: nat -> real): (frame: seq<real>)
    ensures |frame| == fftSize
  {
    seq(fftSize, i requires 0 <= i < fftSize =>
      var idx := processed + i - (fftSize - hopSize);
      if 0 <= idx < |temp| then temp[idx] * hann(i) else 0.0)
  }

  /** Every frame ends on the hop just read, and each tick's first frame is
      zero-padded in front: samples of the previous tick are never reused. */
  lemma FrameContents(temp: seq<real>, processed: int, fftSize: nat, hopSize: int, hann: nat -> real)
    requires 0 < hopSize <= fftSize
    requires 0 <= processed && processed + hopSize <= |temp|
    ensures forall i :: fftSize - hopSize <= i < fftSize ==>
              FillFrame(temp, processed, fftSize, hopSize, hann)[i]
              == temp[processed + i - (fftSize - hopSize)] * hann(i)
    ensures processed == 0 ==>
              forall i :: 0 <= i < fftSize - hopSize ==> FillFrame(temp, processed, fftSize, hopSize, hann)[i] == 0.0
  {
  }

  /** Power of the frame samples from `lo` up to `hi`, stopping at the end
      of the frame. */
  function PowerBetween(frame: seq<real>, lo: int, hi: int): (p: real)
    requires lo >= 0
    ensures p >= 0.0
    ensures (forall i :: 0 <= i < |frame| ==> frame[i] == 0.0) ==> p == 0.0
    decreases hi - lo
  {
    if lo >= hi || lo >= |frame| then 0.0
    else
      var x := frame[lo];
      assert x * x >= 0.0 by {
        if x < 0.0 {
          assert x * x == (-x) * (-x);
        }
      }
      x * x + PowerBetween(frame, lo + 1, hi)
  }

  /** The band-energy spectrum: band `b` of `bands` is the root of the power
      in samples `[b * n / bands, (b + 1) * n / bands)` of the `n`-sample
      frame, then weighted by `1 + b / bands` (high-frequency content). */
  function Spectrum(frame: seq<real>, bands: nat, sqrt: real -> real): (s: seq<real>)
    ensures |s| == bands
    ensures NonNegativeRoot(sqrt) ==> forall b :: 0 <= b < bands ==> s[b] >= 0.0
  {
    seq(bands, b requires 0 <= b < bands =>
      BandEnergy(frame, bands, b, sqrt) * Flux.BandWeight(b, bands, true))
  }

  /** The unweighted root power of band `b`. */
  function BandEnergy(frame: seq<real>, bands: nat, b: nat, sqrt: real -> real): (e: real)
    requires b < bands
    ensures NonNegativeRoot(sqrt) ==> e >= 0.0
  {
    sqrt(PowerBetween(frame, b * |frame| / bands, (b + 1) * |frame| / bands))
  }

  /** Weighting never lowers a band: each spectrum value is at least the
      band's root power and less than twice it. */
  lemma SpectrumWeighting(frame: seq<real>, bands: nat, sqrt: real -> real, b: nat)
    requires NonNegativeRoot(sqrt)
    requires b < bands
    ensures BandEnergy(frame, bands, b, sqrt) <= Spectrum(frame, bands, sqrt)[b]
    ensures Spectrum(frame, bands, sqrt)[b] <= 2.0 * BandEnergy(frame, bands, b, sqrt)
  {
    var e := BandEnergy(frame, bands, b, sqrt);
    var w := Flux.BandWeight(b, bands, true);
    assert Spectrum(frame, bands, sqrt)[b] == e * w;
    RealMulMonotone(1.0, w, e);
    assert e <= w * e;
    RealMulMonotone(w, 2.0, e);
    assert w * e <= 2.0 * e;
  }

  /** A silent frame has an all-zero spectrum (given `sqrt(0) == 0`). */
  lemma SilentFrameSpectrum(frame: seq<real>, bands: nat, sqrt: real -> real)
    requires sqrt(0.0) == 0.0
    requires forall i :: 0 <= i < |frame| ==> frame[i] == 0.0
    ensures forall b :: 0 <= b < bands ==> Spectrum(frame, bands, sqrt)[b] == 0.0
  {
  }

  /** Unweighted positive flux between the current and previous spectrum. */
  function ComputeSpectralFlux(spectrum: seq<real>, prevSpectrum: seq<real>): (flux: real)
    requires |spectrum| == |prevSpectrum|
    ensures flux >= 0.0
    ensures flux == 0.0 <==> Flux.NoRise(spectrum, prevSpectrum, |spectrum|)
  {
    Flux.SpectralFlux(spectrum, prevSpectrum, false)
  }

  /** Record `flux` in the history, then fire when it beats the adaptive
      threshold and more than `minOnsetInterval` has passed since the last
      onset. */
  function DetectOnset(s: State, cfg: Config, flux: real, now: real, sqrt: real -> real): (r: (State, bool))
    requires cfg.Valid() && Valid(s, cfg)
    requires flux >= 0.0
    ensures Valid(r.0, cfg)
    ensures r.0.history == Push(s.history, flux)
    ensures r.1 <==> flux > Threshold(r.0.history, s.onsetThreshold, sqrt)
                     && now - s.lastOnsetTime > cfg.minOnsetInterval
    ensures r.1 && s.onsetThreshold >= 0.0 ==> flux > Mean(r.0.history.slots) + s.onsetThreshold * SpreadFloor
    ensures r.0.lastOnsetTime == (if r.1 then now else s.lastOnsetTime)
    ensures r.0.lastReadPos == s.lastReadPos && r.0.prevSpectrum == s.prevSpectrum
    ensures r.0.onsetThreshold == s.onsetThreshold
  {
    var (h, above) := Observe(s.history, flux, s.onsetThreshold, sqrt);
    var fire := above && now - s.lastOnsetTime > cfg.minOnsetInterval;
    (s.(history := h, lastOnsetTime := if fire then now else s.lastOnsetTime), fire)
  }

  /** A frame with no rising band never fires (given a non-negative
      multiplier). */
  lemma NoRiseNoOnset(s: State, cfg: Config, spectrum: seq<real>, now: real, sqrt: real -> real)
    requires cfg.Valid() && Valid(s, cfg)
    requires |spectrum| == |s.prevSpectrum|
    requires forall b :: 0 <= b < |spectrum| ==> spectrum[b] <= s.prevSpectrum[b]
    requires s.onsetThreshold >= 0.0
    ensures !DetectOnset(s, cfg, ComputeSpectralFlux(spectrum, s.prevSpectrum), now, sqrt).1
  {
    Flux.NoRiseAll(spectrum, s.prevSpectrum, |spectrum|);
    SilenceNeverExceeds(s.history, 0.0, s.onsetThreshold, sqrt);
  }

  /** `SetThreshold`: clamp the multiplier to [0.5, 5]. */
  function SetThreshold(s: State, threshold: real): (r: State)
    ensures 0.5 <= r.onsetThreshold <= 5.0
    ensures 0.5 <= threshold <= 5.0 ==> r.onsetThreshold == threshold
    ensures r == s.(onsetThreshold := r.onsetThreshold)
  {
    s.(onsetThreshold := Clamp(threshold, 0.5, 5.0))
  }

  lemma SetThresholdIdempotent(s: State, threshold: real)
    ensures SetThreshold(SetThreshold(s, threshold), threshold) == SetThreshold(s, threshold)
  {
  }

  /** One iteration of the frame loop: window the frame ending at hop
      `processed`, take its spectrum and flux, run the onset rule, and keep
      the spectrum as the next frame's predecessor. */
  function ProcessFrame(st: State, cfg: Config, temp: seq<real>, processed: int, now: real,
                        hann: nat -> real, sqrt: real -> real): (r: (State, bool))
    requires cfg.Valid() && Valid(st, cfg)
    ensures Valid(r.0, cfg)
    ensures r.0.prevSpectrum == Spectrum(FillFrame(temp, processed, cfg.fftSize, cfg.hopSize, hann), cfg.Bands(), sqrt)
    ensures r.0.history == Push(st.history, ComputeSpectralFlux(r.0.prevSpectrum, st.prevSpectrum))
    ensures r.1 <==> ComputeSpectralFlux(r.0.prevSpectrum, st.prevSpectrum) > Threshold(r.0.history, st.onsetThreshold, sqrt)
                     && now - st.lastOnsetTime > cfg.minOnsetInterval
    ensures r.0.lastOnsetTime == (if r.1 then now else st.lastOnsetTime)
    ensures r.0.lastReadPos == st.lastReadPos && r.0.onsetThreshold == st.onsetThreshold
  {
    var spectrum := Spectrum(FillFrame(temp, processed, cfg.fftSize, cfg.hopSize, hann), cfg.Bands(), sqrt);
    var step := DetectOnset(st, cfg, ComputeSpectralFlux(spectrum, st.prevSpectrum), now, sqrt);
    (step.0.(prevSpectrum := spectrum), step.1)
  }

  /** `onsets` with `now` appended when the frame fired. */
  function Collect(onsets: seq<real>, fired: bool, now: real): (r: seq<real>)
    ensures |r| == |onsets| + (if fired then 1 else 0)
    ensures r[..|onsets|] == onsets
    ensures fired ==> r[|onsets|] == now
  {
    if fired then onsets + [now] else onsets
  }

  /** The onset side of the frame loop: the frames' fluxes pushed one by one
      into ring `h`, a frame firing when its flux beats the threshold of the
      ring just after it was stored and more than `minInterval` has passed
      since the last onset.  Gives the ring, the last onset time and the
      onsets reported. */
  function OnsetLoop(h: History, lastOnset: real, k: real, minInterval: real, fluxes: seq<real>,
                     now: real, sqrt: real -> real): (r: (History, real, seq<real>))
    requires h.Valid()
    ensures r.0 == PushAll(h, fluxes)
    ensures r.1 == if |r.2| > 0 then now else lastOnset
    ensures |r.2| <= |fluxes|
    ensures forall j :: 0 <= j < |r.2| ==> r.2[j] == now
    ensures |r.2| > 0 ==> now - lastOnset > minInterval
    ensures minInterval >= 0.0 ==> |r.2| <= 1
    ensures minInterval >= 0.0 ==>
              ((|r.2| > 0) == (now - lastOnset > minInterval && AnyExceeds(h, fluxes, k, sqrt)))
    decreases |fluxes|
  {
    if |fluxes| == 0 then (h, lastOnset, [])
    else
      var n := |fluxes| - 1;
      var prev := OnsetLoop(h, lastOnset, k, minInterval, fluxes[..n], now, sqrt);
      var (h', above) := Observe(prev.0, fluxes[n], k, sqrt);
      var fire := above && now - prev.1 > minInterval;
      PushAllLast(h, fluxes);
      var onsets := Collect(prev.2, fire, now);
      assert forall j :: 0 <= j < |prev.2| ==> onsets[j] == onsets[..|prev.2|][j];
      (h', if fire then now else prev.1, onsets)
  }

  /** One more flux is one more step of the loop: the value is pushed, and
      the frame fires when it beats the threshold of the updated ring and the
      debounce has passed since the loop's last onset so far. */
  lemma OnsetLoopSnoc(h: History, lastOnset: real, k: real, minInterval: real, fluxes: seq<real>, v: real,
                      now: real, sqrt: real -> real)
    requires h.Valid()
    ensures var prev := OnsetLoop(h, lastOnset, k, minInterval, fluxes, now, sqrt);
            var next := OnsetLoop(h, lastOnset, k, minInterval, fluxes + [v], now, sqrt);
            var fire := v > Threshold(Push(prev.0, v), k, sqrt) && now - prev.1 > minInterval;
            && next.0 == Push(prev.0, v)
            && next.1 == (if fire then now else prev.1)
            && next.2 == Collect(prev.2, fire, now)
  {
    assert (fluxes + [v])[..|fluxes|] == fluxes;
  }

  /** The onset loop moves the ring cursor one slot per frame. */
  lemma OnsetLoopCursor(h: History, lastOnset: real, k: real, minInterval: real, fluxes: seq<real>,
                        now: real, sqrt: real -> real)
    requires h.Valid()
    ensures OnsetLoop(h, lastOnset, k, minInterval, fluxes, now, sqrt).0.idx == (h.idx + |fluxes|) % HistoryLen
  {
    PushAllCursor(h, fluxes);
  }

  /** With a non-negative debounce the loop reports something exactly when
      the debounce had passed at the start and some frame's flux beat the
      threshold of the ring it was stored in. */
  lemma OnsetLoopFires(h: History, lastOnset: real, k: real, minInterval: real, fluxes: seq<real>,
                       now: real, sqrt: real -> real)
    requires h.Valid()
    requires minInterval >= 0.0
    ensures |OnsetLoop(h, lastOnset, k, minInterval, fluxes, now, sqrt).2| > 0
            <==> now - lastOnset > minInterval
                 && exists j :: 0 <= j < |fluxes| && ExceedsAt(h, fluxes, j, k, sqrt)
  {
    AnyExceedsWitness(h, fluxes, k, sqrt);
  }

  /** The spectrum of the frame that ends on hop `j` of the read buffer. */
  function FrameSpectrum(cfg: Config, temp: seq<real>, j: nat, hann: nat -> real, sqrt: real -> real): (sp: seq<real>)
    requires cfg.Valid()
    ensures |sp| == cfg.Bands()
  {
    Spectrum(FillFrame(temp, j * cfg.hopSize, cfg.fftSize, cfg.hopSize, hann), cfg.Bands(), sqrt)
  }

  /** Every spectrum has `n` bands. */
  predicate Sized(spectra: seq<seq<real>>, n: nat) {
    forall j :: 0 <= j < |spectra| ==> |spectra[j]| == n
  }

  /** The spectra of the frames of a read buffer, one per whole hop. */
  function Spectra(cfg: Config, temp: seq<real>, hann: nat -> real, sqrt: real -> real): (sp: seq<seq<real>>)
    requires cfg.Valid()
    ensures |sp| == |temp| / cfg.hopSize
    ensures Sized(sp, cfg.Bands())
  {
    seq(|temp| / cfg.hopSize, j requires 0 <= j < |temp| / cfg.hopSize => FrameSpectrum(cfg, temp, j, hann, sqrt))
  }

  /** The spectrum frame `j` is compared with: the previous frame's, or
      `first`, the one carried over from the last tick, for the first frame. */
  function Predecessor(first: seq<real>, spectra: seq<seq<real>>, j: nat): (sp: seq<real>)
    requires j <= |spectra|
  {
    if j == 0 then first else spectra[j - 1]
  }

  /** The fluxes of the first `k` frames, in order: each frame's spectrum
      against the one before it. */
  function FrameFluxes(first: seq<real>, spectra: seq<seq<real>>, k: nat): (fl: seq<real>)
    requires k <= |spectra|
    requires Sized(spectra, |first|)
    ensures |fl| == k
  {
    if k == 0 then []
    else FrameFluxes(first, spectra, k - 1) + [ComputeSpectralFlux(spectra[k - 1], Predecessor(first, spectra, k - 1))]
  }

  /** Frame `j`'s flux is its spectrum against its predecessor's. */
  lemma {:induction false} FrameFluxesAt(first: seq<real>, spectra: seq<seq<real>>, k: nat, j: nat)
    requires k <= |spectra|
    requires Sized(spectra, |first|)
    requires j < k
    ensures FrameFluxes(first, spectra, k)[j] == ComputeSpectralFlux(spectra[j], Predecessor(first, spectra, j))
    decreases k
  {
    if j < k - 1 {
      FrameFluxesAt(first, spectra, k - 1, j);
    }
  }

  /** The onset loop over the first `k` frames of a tick that starts in
      state `s`. */
  function FrameOnsets(s: State, cfg: Config, spectra: seq<seq<real>>, k: nat, now: real, sqrt: real -> real)
    : (r: (History, real, seq<real>))
    requires cfg.Valid() && Valid(s, cfg)
    requires k <= |spectra|
    requires Sized(spectra, cfg.Bands())
  {
    OnsetLoop(s.history, s.lastOnsetTime, s.onsetThreshold, cfg.minOnsetInterval,
              FrameFluxes(s.prevSpectrum, spectra, k), now, sqrt)
  }

  /** After `k` frames of a tick that started in `s`, state `st` and the
      onsets collected so far are those of the onset loop over the first `k`
      frames, with frame `k - 1`'s spectrum kept as the predecessor. */
  ghost predicate FramesDone(s: State, cfg: Config, spectra: seq<seq<real>>, k: nat, st: State, onsets: seq<real>,
                             now: real, sqrt: real -> real)
    requires cfg.Valid() && Valid(s, cfg)
    requires k <= |spectra| && Sized(spectra, cfg.Bands())
  {
    && st.lastReadPos == s.lastReadPos && st.onsetThreshold == s.onsetThreshold
    && st.prevSpectrum == Predecessor(s.prevSpectrum, spectra, k)
    && st.history == FrameOnsets(s, cfg, spectra, k, now, sqrt).0
    && st.lastOnsetTime == FrameOnsets(s, cfg, spectra, k, now, sqrt).1
    && onsets == FrameOnsets(s, cfg, spectra, k, now, sqrt).2
  }

  /** One more frame extends the onset loop by one step: if `st` and
      `onsets` are the loop's result after `k` frames and `r` is frame `k`'s
      step from `st`, then `r` and the collected onsets are its result after
      `k + 1`. */
  lemma FrameOnsetsStep(s: State, cfg: Config, spectra: seq<seq<real>>, k: nat, st: State, onsets: seq<real>,
                        now: real, sqrt: real -> real, r: (State, bool))
    requires cfg.Valid() && Valid(s, cfg)
    requires k < |spectra| && Sized(spectra, cfg.Bands())
    requires FramesDone(s, cfg, spectra, k, st, onsets, now, sqrt)
    requires r.0.prevSpectrum == spectra[k]
    requires r.0.history == Push(st.history, ComputeSpectralFlux(spectra[k], st.prevSpectrum))
    requires r.1 <==> ComputeSpectralFlux(spectra[k], st.prevSpectrum) > Threshold(r.0.history, st.onsetThreshold, sqrt)
                      && now - st.lastOnsetTime > cfg.minOnsetInterval
    requires r.0.lastOnsetTime == (if r.1 then now else st.lastOnsetTime)
    requires r.0.lastReadPos == st.lastReadPos && r.0.onsetThreshold == st.onsetThreshold
    ensures FramesDone(s, cfg, spectra, k + 1, r.0, Collect(onsets, r.1, now), now, sqrt)
  {
    var fl := FrameFluxes(s.prevSpectrum, spectra, k);
    var v := ComputeSpectralFlux(spectra[k], st.prevSpectrum);
    OnsetLoopSnoc(s.history, s.lastOnsetTime, s.onsetThreshold, cfg.minOnsetInterval, fl, v, now, sqrt);
  }

  /** The frame loop of one tick: one frame per whole hop of `temp`.  Each
      frame's flux is its spectrum against the previous frame's (the
      carried-over spectrum for the first), the ring and the onsets are those
      of `OnsetLoop` over these fluxes, and the last spectrum is kept. */
  method ProcessFrames(s: State, cfg: Config, temp: seq<real>, now: real,
                       hann: nat -> real, sqrt: real -> real)
    returns (st: State, onsets: seq<real>, frames: nat)
    requires cfg.Valid() && Valid(s, cfg)
    ensures frames == |temp| / cfg.hopSize
    ensures frames * cfg.hopSize <= |temp| < frames * cfg.hopSize + cfg.hopSize
    ensures Valid(st, cfg)
    ensures st.lastReadPos == s.lastReadPos && st.onsetThreshold == s.onsetThreshold
    ensures st.prevSpectrum == Predecessor(s.prevSpectrum, Spectra(cfg, temp, hann, sqrt), frames)
    ensures st.history == FrameOnsets(s, cfg, Spectra(cfg, temp, hann, sqrt), frames, now, sqrt).0
    ensures st.lastOnsetTime == FrameOnsets(s, cfg, Spectra(cfg, temp, hann, sqrt), frames, now, sqrt).1
    ensures onsets == FrameOnsets(s, cfg, Spectra(cfg, temp, hann, sqrt), frames, now, sqrt).2
  {
    st := s;
    onsets := [];
    frames := |temp| / cfg.hopSize;
    DivBounds(|temp|, cfg.hopSize);
    ghost var spectra := Spectra(cfg, temp, hann, sqrt);
    for k := 0 to frames
      invariant Valid(st, cfg)
      invariant FramesDone(s, cfg, spectra, k, st, onsets, now, sqrt)
    {
      var step := ProcessFrame(st, cfg, temp, k * cfg.hopSize, now, hann, sqrt);
      assert spectra[k] == step.0.prevSpectrum;
      FrameOnsetsStep(s, cfg, spectra, k, st, onsets, now, sqrt, step);
      st := step.0;
      onsets := Collect(onsets, step.1, now);
    }
  }

  /** The per-tick read buffer: the first `n` samples from the read cursor. */
  function ReadBuffer(data: nat -> real, n: nat): (temp: seq<real>)
    ensures |temp| == n
  {
    seq(n, k requires 0 <= k < n => data(k))
  }

  /** How many samples a tick reads: everything available, up to four hops. */
  function ReadLen(s: State, cfg: Config, currentPos: int): int
    requires cfg.Valid()
  {
    MinInt(SamplesToRead(currentPos, s.lastReadPos, cfg.clipSamples), cfg.BufferLen())
  }

  /** The samples one tick reads. */
  function TickBuffer(s: State, cfg: Config, currentPos: int, data: nat -> real): (temp: seq<real>)
    requires cfg.Valid()
    ensures |temp| == MaxInt(0, ReadLen(s, cfg, currentPos))
  {
    ReadBuffer(data, MaxInt(0, ReadLen(s, cfg, currentPos)))
  }

  /** The spectra of the frames one tick reads. */
  function TickSpectra(s: State, cfg: Config, currentPos: int, data: nat -> real,
                       hann: nat -> real, sqrt: real -> real): (sp: seq<seq<real>>)
    requires cfg.Valid()
    ensures |sp| == MaxInt(0, ReadLen(s, cfg, currentPos)) / cfg.hopSize
    ensures Sized(sp, cfg.Bands())
  {
    Spectra(cfg, TickBuffer(s, cfg, currentPos, data), hann, sqrt)
  }

  /** What a tick that has at least one hop to read does: it reads what is
      available, up to four hops, runs the frame loop over every whole hop
      of it, and advances the read cursor by the hops processed. */
  ghost predicate Ticked(s: State, cfg: Config, currentPos: int, data: nat -> real, now: real,
                         hann: nat -> real, sqrt: real -> real, s': State, onsets: seq<real>, frames: nat)
    requires cfg.Valid() && Valid(s, cfg)
    requires currentPos >= 0 && SamplesToRead(currentPos, s.lastReadPos, cfg.clipSamples) >= cfg.hopSize
  {
    // Between one and four frames, one per whole hop read.
    && frames == ReadLen(s, cfg, currentPos) / cfg.hopSize
    && 1 <= frames <= 4
    && frames * cfg.hopSize <= ReadLen(s, cfg, currentPos)
    // The read cursor moves past the hops processed, and the reader never overtakes the writer.
    && Valid(s', cfg)
    && s'.lastReadPos == (s.lastReadPos + frames * cfg.hopSize) % cfg.clipSamples
    && (0 <= currentPos < cfg.clipSamples ==>
          SamplesToRead(currentPos, s'.lastReadPos, cfg.clipSamples)
          == SamplesToRead(currentPos, s.lastReadPos, cfg.clipSamples) - frames * cfg.hopSize)
    // Onsets: at most one per frame, all at `now`, and only past the debounce.
    && |onsets| <= frames
    && (forall k :: 0 <= k < |onsets| ==> onsets[k] == now)
    && (|onsets| > 0 ==> now - s.lastOnsetTime > cfg.minOnsetInterval)
    && (cfg.minOnsetInterval >= 0.0 ==> |onsets| <= 1)
    && s'.lastOnsetTime == (if |onsets| > 0 then now else s.lastOnsetTime)
    && s'.onsetThreshold == s.onsetThreshold
    // The frames are those of the samples read: ring, spectrum and onsets follow the frame loop over them.
    && s'.prevSpectrum == Predecessor(s.prevSpectrum, TickSpectra(s, cfg, currentPos, data, hann, sqrt), frames)
    && s'.history == FrameOnsets(s, cfg, TickSpectra(s, cfg, currentPos, data, hann, sqrt), frames, now, sqrt).0
    && onsets == FrameOnsets(s, cfg, TickSpectra(s, cfg, currentPos, data, hann, sqrt), frames, now, sqrt).2
  }

  /** One `Update` poll.  Returns the new state, the onset times reported
      (each equal to `now`), and the number of frames processed. */
  method Tick(s: State, cfg: Config, currentPos: int, data: nat -> real, now: real,
              hann: nat -> real, sqrt: real -> real)
    returns (s': State, onsets: seq<real>, frames: nat)
    requires cfg.Valid() && Valid(s, cfg)
    // No-op when the microphone has no position or less than a hop is available.
    ensures currentPos < 0 || SamplesToRead(currentPos, s.lastReadPos, cfg.clipSamples) < cfg.hopSize
            ==> s' == s && onsets == [] && frames == 0
    ensures currentPos >= 0 && SamplesToRead(currentPos, s.lastReadPos, cfg.clipSamples) >= cfg.hopSize
            ==> Ticked(s, cfg, currentPos, data, now, hann, sqrt, s', onsets, frames)
  {
    if currentPos < 0 || SamplesToRead(currentPos, s.lastReadPos, cfg.clipSamples) < cfg.hopSize {
      s', onsets, frames := s, [], 0;
    } else {
      s', onsets, frames := ReadAndProcess(s, cfg, currentPos, data, now, hann, sqrt);
    }
  }

  /** The body of a tick that has at least one hop to read. */
  method ReadAndProcess(s: State, cfg: Config, currentPos: int, data: nat -> real, now: real,
                        hann: nat -> real, sqrt: real -> real)
    returns (s': State, onsets: seq<real>, frames: nat)
    requires cfg.Valid() && Valid(s, cfg)
    requires currentPos >= 0 && SamplesToRead(currentPos, s.lastReadPos, cfg.clipSamples) >= cfg.hopSize
    ensures Ticked(s, cfg, currentPos, data, now, hann, sqrt, s', onsets, frames)
  {
    var readLen := ReadLen(s, cfg, currentPos);
    var temp := TickBuffer(s, cfg, currentPos, data);
    var st;
    st, onsets, frames := ProcessFrames(s, cfg, temp, now, hann, sqrt);
    TickFrames(s, cfg, currentPos, readLen, frames);
    assert TickSpectra(s, cfg, currentPos, data, hann, sqrt) == Spectra(cfg, temp, hann, sqrt);
    s' := st.(lastReadPos := (s.lastReadPos + frames * cfg.hopSize) % cfg.clipSamples);
  }

  /** The cursor arithmetic of a tick that reads `readLen` samples and
      processes `frames` whole hops of them. */
  lemma TickFrames(s: State, cfg: Config, currentPos: int, readLen: int, frames: nat)
    requires cfg.Valid() && Valid(s, cfg)
    requires currentPos >= 0 && SamplesToRead(currentPos, s.lastReadPos, cfg.clipSamples) >= cfg.hopSize
    requires readLen == MinInt(SamplesToRead(currentPos, s.lastReadPos, cfg.clipSamples), cfg.BufferLen())
    requires frames * cfg.hopSize <= readLen < frames * cfg.hopSize + cfg.hopSize
    ensures frames == readLen / cfg.hopSize
    ensures 1 <= frames <= 4
    ensures 0 <= currentPos < cfg.clipSamples ==>
              SamplesToRead(currentPos, (s.lastReadPos + frames * cfg.hopSize) % cfg.clipSamples, cfg.clipSamples)
              == SamplesToRead(currentPos, s.lastReadPos, cfg.clipSamples) - frames * cfg.hopSize
  {
    DivUnique(readLen, cfg.hopSize, frames);
    if frames > 4 {
      MulMonotone(5, frames, cfg.hopSize);
    }
    if 0 <= currentPos < cfg.clipSamples {
      CursorAdvance(currentPos, s.lastReadPos, cfg.clipSamples, frames * cfg.hopSize);
    }
  }
}
