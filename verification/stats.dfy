/** Arithmetic shared by the three onset detectors: sums, means, the
    mean-plus-spread adaptive threshold, clamping and C#/Java integer
    division.  Square roots are never computed here: every caller passes
    the root it uses as a function parameter, so nothing below depends on
    how the platform's `Sqrt` rounds. */
module Stats {

  /** `n` zeros: a freshly allocated `float[]`. */
  function Zeros(n: nat): (z: seq<real>)
    ensures |z| == n
    ensures forall i :: 0 <= i < n ==> z[i] == 0.0
  {
    seq(n, _ => 0.0)
  }

  /** Sum of a sequence, peeling the LAST element so that a left-to-right
      accumulation loop can carry `acc == Sum(s[..i])`. */
  function Sum(s: seq<real>): real
  {
    if |s| == 0 then 0.0 else Sum(s[..|s| - 1]) + s[|s| - 1]
  }

  function Mean(s: seq<real>): real
    requires |s| > 0
  {
    Sum(s) / |s| as real
  }

  /** Sum of squared deviations from `m` (with `m == 0.0`, the sum of squares). */
  function SquaredDeviations(s: seq<real>, m: real): real
  {
    if |s| == 0 then 0.0
    else SquaredDeviations(s[..|s| - 1], m) + (s[|s| - 1] - m) * (s[|s| - 1] - m)
  }

  /** Population standard deviation; `sqrt` stands for the platform square root. */
  function StdDev(s: seq<real>, sqrt: real -> real): real
    requires |s| > 0
  {
    sqrt(SquaredDeviations(s, Mean(s)) / |s| as real)
  }

  /** The floor every detector puts under the spread term, so that a silent
      (zero-variance) history still has a threshold strictly above its mean. */
  const SpreadFloor: real := 0.001

  function Max(a: real, b: real): real
  {
    if a >= b then a else b
  }

  function Min(a: real, b: real): real
  {
    if a <= b then a else b
  }

  function MaxInt(a: int, b: int): int
  {
    if a >= b then a else b
  }

  function MinInt(a: int, b: int): int
  {
    if a <= b then a else b
  }

  /** `mean + k * max(stddev, 0.001)`, the threshold rule used by the offline
      analyzer, the microphone detector and the system-audio detector. */
  function AdaptiveThreshold(s: seq<real>, k: real, sqrt: real -> real): (t: real)
    requires |s| > 0
    ensures k >= 0.0 ==> t >= Mean(s) + k * SpreadFloor
    ensures k > 0.0 ==> t > Mean(s)
  {
    var spread := Max(StdDev(s, sqrt), SpreadFloor);
    assert k >= 0.0 ==> k * spread >= k * SpreadFloor by {
      if k >= 0.0 {
        assert k * (spread - SpreadFloor) >= 0.0;
      }
    }
    Mean(s) + k * spread
  }

  /** The only property the model assumes of a square root. */
  ghost predicate NonNegativeRoot(sqrt: real -> real)
  {
    forall x :: 0.0 <= x ==> 0.0 <= sqrt(x)
  }

  /** Unity's `Mathf.Clamp(x, lo, hi)`. */
  function Clamp(x: real, lo: real, hi: real): (r: real)
    requires lo <= hi
    ensures lo <= r <= hi
    ensures lo <= x <= hi ==> r == x
    ensures x < lo ==> r == lo
    ensures x > hi ==> r == hi
  {
    if x < lo then lo else if x > hi then hi else x
  }

  /** Integer division as C# and Java define it: the quotient is rounded
      toward zero, unlike Dafny's Euclidean `/`. */
  function TruncDiv(a: int, b: int): (q: int)
    requires b > 0
    ensures a >= 0 ==> 0 <= a - q * b < b
    ensures a < 0 ==> -b < a - q * b <= 0
  {
    if a >= 0 then a / b else -((-a) / b)
  }

  lemma {:induction false} SumNonNegative(s: seq<real>)
    requires forall i :: 0 <= i < |s| ==> s[i] >= 0.0
    ensures Sum(s) >= 0.0
  {
    if |s| > 0 {
      SumNonNegative(s[..|s| - 1]);
    }
  }

  /** In a non-negative sequence every element is at most the sum. */
  lemma {:induction false} SumBoundsElement(s: seq<real>, j: int)
    requires forall i :: 0 <= i < |s| ==> s[i] >= 0.0
    requires 0 <= j < |s|
    ensures s[j] <= Sum(s)
  {
    var init := s[..|s| - 1];
    if j == |s| - 1 {
      SumNonNegative(init);
    } else {
      SumBoundsElement(init, j);
    }
  }

  /** A sequence of `n` copies of `v` sums to `n * v`. */
  lemma {:induction false} SumConstant(s: seq<real>, v: real)
    requires forall i :: 0 <= i < |s| ==> s[i] == v
    ensures Sum(s) == |s| as real * v
  {
    if |s| > 0 {
      SumConstant(s[..|s| - 1], v);
    }
  }

  lemma MeanConstant(s: seq<real>, v: real)
    requires |s| > 0
    requires forall i :: 0 <= i < |s| ==> s[i] == v
    ensures Mean(s) == v
  {
    SumConstant(s, v);
  }

  lemma MulMonotone(x: int, y: int, c: int)
    requires x <= y && c >= 0
    ensures x * c <= y * c
  {
    assert (y - x) * c >= 0;
  }

  lemma RealMulMonotone(x: real, y: real, c: real)
    requires x <= y && c >= 0.0
    ensures x * c <= y * c
  {
  }

  lemma DivBounds(x: int, c: int)
    requires c > 0
    ensures (x / c) * c <= x < (x / c) * c + c
  {
  }

  /** Euclidean division is determined by its quotient bounds. */
  lemma DivUnique(x: int, c: int, q: int)
    requires c > 0
    requires q * c <= x < q * c + c
    ensures x / c == q
  {
    var q' := x / c;
    assert q' * c <= x < q' * c + c;
    if q' < q {
      MulMonotone(q' + 1, q, c);
    } else if q' > q {
      MulMonotone(q + 1, q', c);
    }
  }
}
