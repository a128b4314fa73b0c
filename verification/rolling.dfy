/** The rolling onset rule shared by the microphone detector and the
    system-audio detector: a 20-slot ring of recent detection-function
    values (flux or RMS energy), overwritten round-robin, and the test
    `value > mean + k * max(stddev, 0.001)` taken over the ring AFTER the
    new value has been stored. */
module Rolling {
  import opened Stats

  const HistoryLen: nat := 20

  /** The ring buffer and its write cursor. */
  datatype History = History(slots: seq<real>, idx: int) {
    predicate Valid() {
      |slots| == HistoryLen && 0 <= idx < HistoryLen
    }

    /** Every stored value is non-negative (fluxes and energies are). */
    predicate NonNegative() {
      forall j :: 0 <= j < |slots| ==> slots[j] >= 0.0
    }
  }

  /** A freshly allocated history: twenty zeros, cursor at `idx`. */
  function Cleared(idx: int): (h: History)
    requires 0 <= idx < HistoryLen
    ensures h.Valid() && h.NonNegative()
    ensures h.idx == idx
    ensures forall j :: 0 <= j < HistoryLen ==> h.slots[j] == 0.0
  {
    History(Zeros(HistoryLen), idx)
  }

  /** Store `v` at the cursor and advance the cursor modulo 20. */
  function Push(h: History, v: real): (r: History)
    requires h.Valid()
    ensures r.Valid()
    ensures r.slots[h.idx] == v
    ensures forall j :: 0 <= j < HistoryLen && j != h.idx ==> r.slots[j] == h.slots[j]
    ensures h.idx < HistoryLen - 1 ==> r.idx == h.idx + 1
    ensures h.idx == HistoryLen - 1 ==> r.idx == 0
    ensures h.NonNegative() && v >= 0.0 ==> r.NonNegative()
  {
    History(h.slots[h.idx := v], (h.idx + 1) % HistoryLen)
  }

  /** The adaptive threshold over the whole ring. */
  function Threshold(h: History, k: real, sqrt: real -> real): real
    requires h.Valid()
  {
    AdaptiveThreshold(h.slots, k, sqrt)
  }

  /** Store `v`, then test it against the threshold of the updated ring. */
  function Observe(h: History, v: real, k: real, sqrt: real -> real): (r: (History, bool))
    requires h.Valid()
    ensures r.0 == Push(h, v)
    ensures r.1 <==> v > Threshold(r.0, k, sqrt)
    ensures r.1 && k >= 0.0 ==> v > Mean(r.0.slots) + k * SpreadFloor
  {
    var h' := Push(h, v);
    (h', v > Threshold(h', k, sqrt))
  }

  /** Push the values `vs` one by one. */
  function PushAll(h: History, vs: seq<real>): (r: History)
    requires h.Valid()
    ensures r.Valid()
    decreases |vs|
  {
    if |vs| == 0 then h else PushAll(Push(h, vs[0]), vs[1..])
  }

  /** Pushing `n` values advances the cursor by `n` modulo 20. */
  lemma {:induction false} PushAllCursor(h: History, vs: seq<real>)
    requires h.Valid()
    ensures PushAll(h, vs).idx == (h.idx + |vs|) % HistoryLen
    decreases |vs|
  {
    if |vs| > 0 {
      PushAllCursor(Push(h, vs[0]), vs[1..]);
      var q := h.idx + |vs|;
      if h.idx < HistoryLen - 1 {
        assert Push(h, vs[0]).idx + |vs| - 1 == q;
      } else {
        assert Push(h, vs[0]).idx + |vs| - 1 == q - HistoryLen;
        DivUnique(q, HistoryLen, q / HistoryLen);
        DivUnique(q - HistoryLen, HistoryLen, q / HistoryLen - 1);
      }
    }
  }

  /** Pushing one more value after a batch is pushing the longer batch. */
  lemma {:induction false} PushAllSnoc(h: History, vs: seq<real>, v: real)
    requires h.Valid()
    ensures PushAll(h, vs + [v]) == Push(PushAll(h, vs), v)
    decreases |vs|
  {
    if |vs| > 0 {
      assert (vs + [v])[1..] == vs[1..] + [v];
      PushAllSnoc(Push(h, vs[0]), vs[1..], v);
    }
  }

  /** The same, read from the end: a non-empty batch is its prefix pushed,
      then its last value. */
  lemma {:induction false} PushAllLast(h: History, vs: seq<real>)
    requires h.Valid()
    requires |vs| > 0
    ensures PushAll(h, vs) == Push(PushAll(h, vs[..|vs| - 1]), vs[|vs| - 1])
    decreases |vs|
  {
    var n := |vs| - 1;
    if n > 0 {
      assert vs[..n][1..] == vs[1..][..n - 1];
      PushAllLast(Push(h, vs[0]), vs[1..]);
    }
  }

  /** Of the values `vs` pushed onto `h` one by one, value `j` beats the
      threshold of the ring just after it was stored. */
  predicate ExceedsAt(h: History, vs: seq<real>, j: int, k: real, sqrt: real -> real)
    requires h.Valid()
    requires 0 <= j < |vs|
  {
    vs[j] > Threshold(PushAll(h, vs[..j + 1]), k, sqrt)
  }

  /** Pushing a further value does not change how the earlier ones fared. */
  lemma ExceedsAtPrefix(h: History, vs: seq<real>, v: real, j: int, k: real, sqrt: real -> real)
    requires h.Valid()
    requires 0 <= j < |vs|
    ensures ExceedsAt(h, vs + [v], j, k, sqrt) == ExceedsAt(h, vs, j, k, sqrt)
  {
    assert (vs + [v])[..j + 1] == vs[..j + 1];
  }

  /** The last value pushed is tested against the ring holding all of them. */
  lemma ExceedsAtLast(h: History, vs: seq<real>, v: real, k: real, sqrt: real -> real)
    requires h.Valid()
    ensures ExceedsAt(h, vs + [v], |vs|, k, sqrt) == (v > Threshold(Push(PushAll(h, vs), v), k, sqrt))
  {
    assert (vs + [v])[..|vs| + 1] == vs + [v];
    PushAllSnoc(h, vs, v);
  }

  /** Whether any of the values `vs`, pushed onto `h` one by one, beat the
      threshold of the ring just after it was stored. */
  predicate AnyExceeds(h: History, vs: seq<real>, k: real, sqrt: real -> real)
    requires h.Valid()
    decreases |vs|
  {
    |vs| > 0 && (AnyExceeds(h, vs[..|vs| - 1], k, sqrt) || vs[|vs| - 1] > Threshold(PushAll(h, vs), k, sqrt))
  }

  /** One more value pushed: the batch fired when the shorter one did or the
      new value beats the ring holding all of them. */
  lemma AnyExceedsSnoc(h: History, vs: seq<real>, v: real, k: real, sqrt: real -> real)
    requires h.Valid()
    ensures AnyExceeds(h, vs + [v], k, sqrt)
            == (AnyExceeds(h, vs, k, sqrt) || v > Threshold(Push(PushAll(h, vs), v), k, sqrt))
  {
    assert (vs + [v])[..|vs|] == vs;
    PushAllSnoc(h, vs, v);
  }

  /** `AnyExceeds` holds exactly when some value is `ExceedsAt` its own ring. */
  lemma {:induction false} AnyExceedsWitness(h: History, vs: seq<real>, k: real, sqrt: real -> real)
    requires h.Valid()
    ensures AnyExceeds(h, vs, k, sqrt) <==> exists j :: 0 <= j < |vs| && ExceedsAt(h, vs, j, k, sqrt)
    decreases |vs|
  {
    if |vs| > 0 {
      var n := |vs| - 1;
      var init := vs[..n];
      assert vs == init + [vs[n]];
      AnyExceedsWitness(h, init, k, sqrt);
      ExceedsAtLast(h, init, vs[n], k, sqrt);
      PushAllSnoc(h, init, vs[n]);
      forall j | 0 <= j < n
        ensures ExceedsAt(h, vs, j, k, sqrt) == ExceedsAt(h, init, j, k, sqrt)
      {
        ExceedsAtPrefix(h, init, vs[n], j, k, sqrt);
      }
      if AnyExceeds(h, vs, k, sqrt) {
        if !AnyExceeds(h, init, k, sqrt) {
          assert ExceedsAt(h, vs, n, k, sqrt);
        }
      }
      if exists j :: 0 <= j < |vs| && ExceedsAt(h, vs, j, k, sqrt) {
        var j :| 0 <= j < |vs| && ExceedsAt(h, vs, j, k, sqrt);
        if j < n {
          assert ExceedsAt(h, init, j, k, sqrt);
        }
      }
    }
  }

  /** With non-negative history and a non-negative multiplier, a zero (or
      negative) value never crosses the threshold: silence cannot fire. */
  lemma SilenceNeverExceeds(h: History, v: real, k: real, sqrt: real -> real)
    requires h.Valid() && h.NonNegative()
    requires v >= 0.0 && k >= 0.0
    ensures Observe(h, v, k, sqrt).1 ==> v > 0.0
  {
    var h' := Push(h, v);
    SumBoundsElement(h'.slots, h.idx);
    SumNonNegative(h'.slots);
  }

  /** When every slot, including the new one, holds the same value, the value
      sits exactly at the mean and a positive multiplier keeps it below the
      threshold: a steady signal never fires. */
  lemma SteadyNeverExceeds(h: History, v: real, k: real, sqrt: real -> real)
    requires h.Valid()
    requires forall j :: 0 <= j < HistoryLen ==> h.slots[j] == v
    requires k > 0.0
    ensures !Observe(h, v, k, sqrt).1
  {
    var h' := Push(h, v);
    MeanConstant(h'.slots, v);
  }
}
