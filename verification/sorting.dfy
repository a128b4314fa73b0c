/** Ascending sort of reals and the order statistic it exposes.  The sorted
    permutation of a multiset of reals is unique, so any correct sort (the
    source uses the platform's list sort) yields this same sequence. */
module Sorting {

  ghost predicate Sorted(s: seq<real>)
  {
    forall i, j :: 0 <= i < j < |s| ==> s[i] <= s[j]
  }

  /** Insert `x` into an already sorted sequence. */
  function Insert(x: real, s: seq<real>): (r: seq<real>)
    requires Sorted(s)
    ensures Sorted(r)
    ensures multiset(r) == multiset(s) + multiset{x}
    ensures |r| == |s| + 1
    ensures forall j :: 0 <= j < |r| ==> r[j] == x || r[j] in s
  {
    if |s| == 0 then [x]
    else if x <= s[0] then [x] + s
    else
      assert s == [s[0]] + s[1..];
      var tail := Insert(x, s[1..]);
      assert forall j :: 0 <= j < |tail| ==> s[0] <= tail[j];
      [s[0]] + tail
  }

  function Sort(s: seq<real>): (r: seq<real>)
    ensures Sorted(r)
    ensures multiset(r) == multiset(s)
    ensures |r| == |s|
  {
    if |s| == 0 then []
    else
      assert s == s[..|s| - 1] + [s[|s| - 1]];
      Insert(s[|s| - 1], Sort(s[..|s| - 1]))
  }

  /** Whether `x` lies strictly below `m` (`below`) or strictly above it. */
  predicate Beyond(x: real, m: real, below: bool)
  {
    if below then x < m else x > m
  }

  /** Number of elements strictly below (or above) `m`. */
  function Count(s: seq<real>, m: real, below: bool): (n: nat)
    ensures n <= |s|
  {
    if |s| == 0 then 0 else (if Beyond(s[0], m, below) then 1 else 0) + Count(s[1..], m, below)
  }

  lemma {:induction false} CountConcat(a: seq<real>, b: seq<real>, m: real, below: bool)
    ensures Count(a + b, m, below) == Count(a, m, below) + Count(b, m, below)
  {
    if |a| > 0 {
      assert (a + b)[1..] == a[1..] + b;
      CountConcat(a[1..], b, m, below);
    } else {
      assert a + b == b;
    }
  }

  lemma {:induction false} CountInsert(x: real, s: seq<real>, m: real, below: bool)
    requires Sorted(s)
    ensures Count(Insert(x, s), m, below) == Count(s, m, below) + (if Beyond(x, m, below) then 1 else 0)
  {
    if |s| > 0 && x > s[0] {
      CountInsert(x, s[1..], m, below);
    }
  }

  /** Sorting preserves every count. */
  lemma {:induction false} CountSort(s: seq<real>, m: real, below: bool)
    ensures Count(Sort(s), m, below) == Count(s, m, below)
  {
    if |s| > 0 {
      var init := s[..|s| - 1];
      var last := s[|s| - 1];
      assert s == init + [last];
      CountSort(init, m, below);
      CountInsert(last, Sort(init), m, below);
      CountConcat(init, [last], m, below);
    }
  }

  lemma {:induction false} CountNone(s: seq<real>, m: real, below: bool)
    requires forall i :: 0 <= i < |s| ==> !Beyond(s[i], m, below)
    ensures Count(s, m, below) == 0
  {
    if |s| > 0 {
      CountNone(s[1..], m, below);
    }
  }

  /** In a sorted sequence nothing from rank `k` on lies below `t[k]`. */
  lemma CountBelowRank(t: seq<real>, k: int)
    requires Sorted(t)
    requires 0 <= k < |t|
    ensures Count(t, t[k], true) <= k
  {
    assert t == t[..k] + t[k..];
    CountNone(t[k..], t[k], true);
    CountConcat(t[..k], t[k..], t[k], true);
  }

  /** In a sorted sequence nothing up to rank `k` lies above `t[k]`. */
  lemma CountAboveRank(t: seq<real>, k: int)
    requires Sorted(t)
    requires 0 <= k < |t|
    ensures Count(t, t[k], false) <= |t| - 1 - k
  {
    assert t == t[..k + 1] + t[k + 1..];
    CountNone(t[..k + 1], t[k], false);
    CountConcat(t[..k + 1], t[k + 1..], t[k], false);
  }

  /** The element at rank `k` of the sorted sequence is an element of `s`
      with at most `k` elements of `s` strictly below it and at most
      `|s| - 1 - k` strictly above. */
  lemma OrderStatistic(s: seq<real>, k: int)
    requires 0 <= k < |s|
    ensures Sort(s)[k] in s
    ensures Count(s, Sort(s)[k], true) <= k
    ensures Count(s, Sort(s)[k], false) <= |s| - 1 - k
  {
    var t := Sort(s);
    assert t[k] in multiset(t);
    CountBelowRank(t, k);
    CountSort(s, t[k], true);
    CountAboveRank(t, k);
    CountSort(s, t[k], false);
  }
}
