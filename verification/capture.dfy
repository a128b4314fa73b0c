/** The Android system-audio capture path: each buffer of signed 16-bit
    PCM read from the playback-capture recorder is scaled to [-1, 1), its
    RMS energy is computed, and the energy goes through the shared rolling
    onset rule.  A detected onset is reported in seconds of wall-clock time,
    at most once per 100 ms. */
module SystemCapture {
  import opened Stats
  import opened Rolling

  /** A Java `short`. */
  type Int16 = x: int | -32768 <= x < 32768

  const MinOnsetIntervalMs: int := 100
  const DefaultOnsetThreshold: real := 1.8

  /** `buffer[i] / 32768f`: full scale maps onto [-1, 1). */
  function SampleToFloat(x: Int16): (r: real)
    ensures -1.0 <= r < 1.0
    ensures r * 32768.0 == x as real
    ensures (r < 0.0 <==> x < 0) && (r == 0.0 <==> x == 0)
  {
    x as real / 32768.0
  }

  lemma SquareAtMostOne(r: real)
    requires -1.0 <= r <= 1.0
    ensures 0.0 <= r * r <= 1.0
  {
    var m := if r >= 0.0 then r else -r;
    assert m * m == r * r;
    RealMulMonotone(m, 1.0, m);
    assert m * m <= 1.0 * m;
    RealMulMonotone(0.0, m, m);
    assert 0.0 * m <= m * m;
  }

  /** Sum of the squared scaled samples, accumulated left to right. */
  function SumOfSquares(buf: seq<Int16>): (e: real)
    ensures 0.0 <= e <= |buf| as real
  {
    if |buf| == 0 then 0.0
    else
      var r := SampleToFloat(buf[|buf| - 1]);
      SquareAtMostOne(r);
      SumOfSquares(buf[..|buf| - 1]) + r * r
  }

  /** Mean of the squared scaled samples: a power between 0 and full scale. */
  function MeanSquare(buf: seq<Int16>): (p: real)
    requires |buf| > 0
    ensures 0.0 <= p <= 1.0
  {
    SumOfSquares(buf) / |buf| as real
  }

  /** RMS energy of the first `read` samples; `sqrt` is the platform root. */
  function Energy(buf: seq<Int16>, sqrt: real -> real): real
    requires |buf| > 0
  {
    sqrt(MeanSquare(buf))
  }

  /** The conversion loop of the capture thread: scale every sample read and
      accumulate the squares, then take the root of their mean. */
  method ConvertAndMeasure(buffer: seq<Int16>, read: int, sqrt: real -> real)
    returns (floats: seq<real>, energy: real)
    requires 0 < read <= |buffer|
    ensures |floats| == read
    ensures forall i :: 0 <= i < read ==> floats[i] * 32768.0 == buffer[i] as real
    ensures energy == Energy(buffer[..read], sqrt)
    ensures NonNegativeRoot(sqrt) ==> energy >= 0.0
  {
    floats := [];
    var acc := 0.0;
    var i := 0;
    while i < read
      invariant 0 <= i <= read
      invariant |floats| == i
      invariant forall j :: 0 <= j < i ==> floats[j] == SampleToFloat(buffer[j])
      invariant acc == SumOfSquares(buffer[..i])
    {
      var sample := SampleToFloat(buffer[i]);
      floats := floats + [sample];
      assert buffer[..i + 1][..i] == buffer[..i];
      acc := acc + sample * sample;
      i := i + 1;
    }
    energy := sqrt(acc / read as real);
  }

  /** The detector's state: the shared ring of energies, the wall-clock time
      of the last reported onset in milliseconds, and the multiplier. */
  datatype State = State(history: History, lastOnsetMs: int, onsetThreshold: real)

  predicate Valid(s: State)
  {
    s.history.Valid()
  }

  /** State at class load: zero history, cursor 0, last onset at epoch 0,
      multiplier 1.8. */
  function Initial(): (s: State)
    ensures Valid(s) && s.history.NonNegative()
    ensures forall i :: 0 <= i < HistoryLen ==> s.history.slots[i] == 0.0
    ensures s.history.idx == 0 && s.lastOnsetMs == 0
    ensures s.onsetThreshold == DefaultOnsetThreshold
  {
    State(Cleared(0), 0, DefaultOnsetThreshold)
  }

  /** The time passed to the game for an onset seen at `nowMs`: seconds. */
  function Reported(nowMs: int): (t: real)
    ensures t * 1000.0 == nowMs as real
  {
    nowMs as real / 1000.0
  }

  /** `detectOnset`: record the energy, then report an onset at `nowMs` when
      the energy beats the adaptive threshold of the updated ring and more
      than 100 ms have passed since the last report.  The second component
      lists what was reported: nothing or one time. */
  function DetectOnset(s: State, energy: real, nowMs: int, sqrt: real -> real): (r: (State, seq<real>))
    requires Valid(s)
    ensures Valid(r.0)
    ensures r.0.history == Push(s.history, energy)
    ensures |r.1| <= 1
    ensures |r.1| == 1 <==> energy > Threshold(r.0.history, s.onsetThreshold, sqrt)
                             && nowMs - s.lastOnsetMs > MinOnsetIntervalMs
    ensures |r.1| == 1 ==> r.1[0] == Reported(nowMs) && r.0.lastOnsetMs == nowMs
    ensures |r.1| == 0 ==> r.0.lastOnsetMs == s.lastOnsetMs
    ensures r.0.onsetThreshold == s.onsetThreshold
  {
    var (h, above) := Observe(s.history, energy, s.onsetThreshold, sqrt);
    if above && nowMs - s.lastOnsetMs > MinOnsetIntervalMs then
      (s.(history := h, lastOnsetMs := nowMs), [Reported(nowMs)])
    else
      (s.(history := h), [])
  }

  /** One recorder read as the capture loop sees it: the buffer, the count
      `read` returned (non-positive on error or no data), and the wall clock
      in milliseconds when the buffer is examined. */
  datatype Reading = Reading(buffer: seq<Int16>, read: int, nowMs: int)

  /** Every sample the read delivered is zero. */
  predicate Silent(rd: Reading)
  {
    forall j :: 0 <= j < rd.read && j < |rd.buffer| ==> rd.buffer[j] == 0
  }

  predicate WellFormed(rd: Reading)
  {
    rd.read <= |rd.buffer|
  }

  /** One iteration of the capture loop. */
  function CaptureStep(s: State, rd: Reading, sqrt: real -> real): (r: (State, seq<real>))
    requires Valid(s) && WellFormed(rd)
    ensures Valid(r.0)
    ensures rd.read <= 0 ==> r == (s, [])
    ensures rd.read > 0 ==> r.0.history == Push(s.history, Energy(rd.buffer[..rd.read], sqrt))
    ensures rd.read > 0 ==>
              (|r.1| == 1 <==> Energy(rd.buffer[..rd.read], sqrt) > Threshold(r.0.history, s.onsetThreshold, sqrt)
                               && rd.nowMs - s.lastOnsetMs > MinOnsetIntervalMs)
    ensures |r.1| <= 1
    ensures |r.1| == 1 ==> r.1[0] == Reported(rd.nowMs) && r.0.lastOnsetMs == rd.nowMs
                           && rd.nowMs - s.lastOnsetMs > MinOnsetIntervalMs
    ensures |r.1| == 0 ==> r.0.lastOnsetMs == s.lastOnsetMs
    ensures r.0.onsetThreshold == s.onsetThreshold
    ensures NonNegativeRoot(sqrt) && s.history.NonNegative() ==> r.0.history.NonNegative()
  {
    if rd.read <= 0 then (s, [])
    else DetectOnset(s, Energy(rd.buffer[..rd.read], sqrt), rd.nowMs, sqrt)
  }

  /** Reported times are strictly more than 0.1 s apart, in order. */
  ghost predicate Debounced(ts: seq<real>)
  {
    forall i, j :: 0 <= i < j < |ts| ==> ts[j] - ts[i] > 0.1
  }

  /** A run of the capture loop over successive reads.  Reports are
      debounced whatever the clock does, because each one is measured from
      the previous report. */
  function Run(s: State, rds: seq<Reading>, sqrt: real -> real): (r: (State, seq<real>))
    requires Valid(s)
    requires forall i :: 0 <= i < |rds| ==> WellFormed(rds[i])
    ensures Valid(r.0)
    ensures |r.1| <= |rds|
    ensures |r.1| > 0 ==> r.0.lastOnsetMs as real == r.1[|r.1| - 1] * 1000.0
    ensures |r.1| == 0 ==> r.0.lastOnsetMs == s.lastOnsetMs
    ensures |r.1| > 0 ==> r.1[0] * 1000.0 - s.lastOnsetMs as real > MinOnsetIntervalMs as real
    ensures forall i :: 0 < i < |r.1| ==> r.1[i] - r.1[i - 1] > 0.1
    ensures r.0.onsetThreshold == s.onsetThreshold
    decreases |rds|
  {
    if |rds| == 0 then (s, [])
    else
      var prev := Run(s, rds[..|rds| - 1], sqrt);
      var step := CaptureStep(prev.0, rds[|rds| - 1], sqrt);
      RunExtend(s, prev.0, prev.1, step.0.lastOnsetMs, step.1, rds[|rds| - 1].nowMs);
      (step.0, prev.1 + step.1)
  }

  /** One more step of a run keeps what the run promises about its reports:
      `ts` and `last` are the reports and last-onset time so far, `u` and
      `last'` those of a step at `nowMs` that reports at most once, and only
      when more than 100 ms have passed since `last`. */
  lemma RunExtend(s: State, mid: State, ts: seq<real>, last': int, u: seq<real>, nowMs: int)
    requires |ts| > 0 ==> mid.lastOnsetMs as real == ts[|ts| - 1] * 1000.0
    requires |ts| == 0 ==> mid.lastOnsetMs == s.lastOnsetMs
    requires |ts| > 0 ==> ts[0] * 1000.0 - s.lastOnsetMs as real > MinOnsetIntervalMs as real
    requires forall i :: 0 < i < |ts| ==> ts[i] - ts[i - 1] > 0.1
    requires |u| <= 1
    requires |u| == 1 ==> u[0] == Reported(nowMs) && last' == nowMs && nowMs - mid.lastOnsetMs > MinOnsetIntervalMs
    requires |u| == 0 ==> last' == mid.lastOnsetMs
    ensures |ts + u| > 0 ==> last' as real == (ts + u)[|ts + u| - 1] * 1000.0
    ensures |ts + u| == 0 ==> last' == s.lastOnsetMs
    ensures |ts + u| > 0 ==> (ts + u)[0] * 1000.0 - s.lastOnsetMs as real > MinOnsetIntervalMs as real
    ensures forall i :: 0 < i < |ts + u| ==> (ts + u)[i] - (ts + u)[i - 1] > 0.1
  {
    GapsAppend(ts, u);
    if |u| == 1 {
      assert (ts + u)[|ts + u| - 1] == u[0];
    }
  }

  /** Appending at most one report that is more than 0.1 s after the last
      keeps every consecutive gap above 0.1 s. */
  lemma GapsAppend(ts: seq<real>, u: seq<real>)
    requires |u| <= 1
    requires forall i :: 0 < i < |ts| ==> ts[i] - ts[i - 1] > 0.1
    requires |ts| > 0 && |u| > 0 ==> u[0] - ts[|ts| - 1] > 0.1
    ensures forall i :: 0 < i < |ts + u| ==> (ts + u)[i] - (ts + u)[i - 1] > 0.1
  {
  }

  /** Consecutive gaps above 0.1 s give every pair a gap above 0.1 s. */
  lemma {:induction false} ConsecutiveGapsDebounce(ts: seq<real>)
    requires forall i :: 0 < i < |ts| ==> ts[i] - ts[i - 1] > 0.1
    ensures Debounced(ts)
  {
    if |ts| > 1 {
      var init := ts[..|ts| - 1];
      ConsecutiveGapsDebounce(init);
      forall i | 0 <= i < |ts| - 1
        ensures ts[|ts| - 1] - ts[i] > 0.1
      {
        assert ts[i] == init[i];
        assert init[i] <= init[|init| - 1] by {
          if i < |init| - 1 {
            assert Debounced(init);
          }
        }
      }
    }
  }

  /** Whatever the reads and the clock, the reported onset times of a run
      are strictly increasing and more than 0.1 s apart. */
  lemma RunDebounced(s: State, rds: seq<Reading>, sqrt: real -> real)
    requires Valid(s)
    requires forall i :: 0 <= i < |rds| ==> WellFormed(rds[i])
    ensures Debounced(Run(s, rds, sqrt).1)
  {
    ConsecutiveGapsDebounce(Run(s, rds, sqrt).1);
  }

  /** With a non-negative root, a run of silent buffers reports nothing. */
  lemma {:induction false} SilentRunReportsNothing(s: State, rds: seq<Reading>, sqrt: real -> real)
    requires Valid(s) && s.history.NonNegative() && s.onsetThreshold >= 0.0
    requires NonNegativeRoot(sqrt) && sqrt(0.0) == 0.0
    requires forall i :: 0 <= i < |rds| ==> WellFormed(rds[i])
    requires forall i :: 0 <= i < |rds| ==> Silent(rds[i])
    ensures Run(s, rds, sqrt).1 == []
  {
    if |rds| > 0 {
      var init := rds[..|rds| - 1];
      var rd := rds[|rds| - 1];
      SilentRunReportsNothing(s, init, sqrt);
      var s1 := RunState(s, init, sqrt);
      assert Run(s, rds, sqrt).1 == Run(s, init, sqrt).1 + CaptureStep(s1, rd, sqrt).1;
      SilentStepReportsNothing(s1, rd, sqrt);
    }
  }

  /** One silent read never reports an onset. */
  lemma SilentStepReportsNothing(s: State, rd: Reading, sqrt: real -> real)
    requires Valid(s) && s.history.NonNegative() && s.onsetThreshold >= 0.0
    requires NonNegativeRoot(sqrt) && sqrt(0.0) == 0.0
    requires WellFormed(rd) && Silent(rd)
    ensures CaptureStep(s, rd, sqrt).1 == []
  {
    if rd.read > 0 {
      var buf := rd.buffer[..rd.read];
      SilentBufferHasNoEnergy(buf);
      assert Energy(buf, sqrt) == 0.0;
      SilenceNeverExceeds(s.history, 0.0, s.onsetThreshold, sqrt);
    }
  }

  /** The state after a run, with non-negativity of the ring carried along. */
  function RunState(s: State, rds: seq<Reading>, sqrt: real -> real): (r: State)
    requires Valid(s)
    requires forall i :: 0 <= i < |rds| ==> WellFormed(rds[i])
    ensures r == Run(s, rds, sqrt).0
    ensures Valid(r) && r.onsetThreshold == s.onsetThreshold
    ensures NonNegativeRoot(sqrt) && s.history.NonNegative() ==> r.history.NonNegative()
    decreases |rds|
  {
    if |rds| == 0 then s
    else
      var s1 := RunState(s, rds[..|rds| - 1], sqrt);
      CaptureStep(s1, rds[|rds| - 1], sqrt).0
  }

  lemma {:induction false} SilentBufferHasNoEnergy(buf: seq<Int16>)
    requires forall j :: 0 <= j < |buf| ==> buf[j] == 0
    ensures SumOfSquares(buf) == 0.0
    ensures |buf| > 0 ==> MeanSquare(buf) == 0.0
  {
    if |buf| > 0 {
      SilentBufferHasNoEnergy(buf[..|buf| - 1]);
    }
  }

  /** `setOnsetThreshold`: `max(0.5, min(5, t))`. */
  function SetOnsetThreshold(s: State, threshold: real): (r: State)
    ensures 0.5 <= r.onsetThreshold <= 5.0
    ensures 0.5 <= threshold <= 5.0 ==> r.onsetThreshold == threshold
    ensures r == s.(onsetThreshold := r.onsetThreshold)
  {
    s.(onsetThreshold := Max(0.5, Min(5.0, threshold)))
  }

  /** The Java `max(0.5, min(5, t))` and the Unity `Clamp(t, 0.5, 5)` used by
      the microphone detector agree on every input. */
  lemma SetOnsetThresholdIsClamp(s: State, threshold: real)
    ensures SetOnsetThreshold(s, threshold).onsetThreshold == Clamp(threshold, 0.5, 5.0)
  {
  }
}
