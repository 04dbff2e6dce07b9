/**
 * Descriptive statistics over durations held as exact reals, shared by the two
 * analysis scripts: sums, an ascending sorted copy (Python's `sorted`), the mean,
 * the median of `statistics.median`, the population variance behind both jitter
 * figures, and counting by a predicate.
 */
module RealStats {

  function Sum(s: seq<real>): real {
    if s == [] then 0.0 else Sum(s[..|s| - 1]) + s[|s| - 1]
  }

  predicate Sorted(s: seq<real>) {
    forall i, j :: 0 <= i <= j < |s| ==> s[i] <= s[j]
  }

  /** Inserts `x` into the ascending sequence `s` before the first element not below it. */
  function Insert(x: real, s: seq<real>): (r: seq<real>)
    requires Sorted(s)
    ensures Sorted(r)
    ensures multiset(r) == multiset(s) + multiset{x}
  {
    if s == [] || x <= s[0] then [x] + s
    else
      var rest := Insert(x, s[1..]);
      assert s == [s[0]] + s[1..];
      forall k | 0 <= k < |rest|
        ensures s[0] <= rest[k]
      {
        assert rest[k] in multiset(rest);
        if rest[k] != x {
          assert rest[k] in multiset(s[1..]);
        }
      }
      [s[0]] + rest
  }

  /** Python's `sorted(s)`: an ascending permutation of `s`. */
  function SortReals(s: seq<real>): (r: seq<real>)
    ensures Sorted(r)
    ensures multiset(r) == multiset(s)
    ensures |r| == |s|
  {
    if s == [] then []
    else
      assert s == s[..|s| - 1] + [s[|s| - 1]];
      var r := Insert(s[|s| - 1], SortReals(s[..|s| - 1]));
      assert |r| == |multiset(r)|;
      r
  }

  /** Every element of `s` lies between the ends of its sorted copy, and both ends are elements of `s`. */
  lemma SortedEnds(s: seq<real>)
    requires s != []
    ensures var t := SortReals(s);
      && t[0] in s && t[|t| - 1] in s
      && forall x :: x in s ==> t[0] <= x <= t[|t| - 1]
  {
    var t := SortReals(s);
    SortedElements(s, 0);
    SortedElements(s, |s| - 1);
    forall x | x in s
      ensures t[0] <= x <= t[|t| - 1]
    {
      SortedMember(s, x);
      SortedBetween(t, x);
    }
  }

  /** Every element of the original is an element of the sorted copy. */
  lemma SortedMember(s: seq<real>, x: real)
    requires x in s
    ensures x in SortReals(s)
  {
    assert x in multiset(s);
    assert x in multiset(SortReals(s));
  }

  /** An element of an ascending sequence lies between its first and its last element. */
  lemma SortedBetween(t: seq<real>, x: real)
    requires Sorted(t)
    requires x in t
    ensures t[0] <= x <= t[|t| - 1]
  {
    var k :| 0 <= k < |t| && t[k] == x;
    assert t[0] <= t[k] && t[k] <= t[|t| - 1];
  }

  /** Every element of the sorted copy is an element of the original. */
  lemma SortedElements(s: seq<real>, k: nat)
    requires k < |s|
    ensures SortReals(s)[k] in s
  {
    var t := SortReals(s);
    assert t[k] in multiset(t);
  }

  /** `max(s)`: an element of `s` that no element exceeds. */
  function MaxReal(s: seq<real>): (m: real)
    requires s != []
    ensures m in s
    ensures forall x :: x in s ==> x <= m
  {
    if |s| == 1 then s[0]
    else
      var m := MaxReal(s[..|s| - 1]);
      assert forall x :: x in s ==> x in s[..|s| - 1] || x == s[|s| - 1];
      if s[|s| - 1] > m then s[|s| - 1] else m
  }

  /** The maximum is the last element of the sorted copy. */
  lemma MaxRealSorted(s: seq<real>)
    requires s != []
    ensures MaxReal(s) == SortReals(s)[|s| - 1]
  {
    SortedEnds(s);
  }

  /** `sum(s) / len(s)`. */
  function Mean(s: seq<real>): real
    requires s != []
  {
    Sum(s) / |s| as real
  }

  /** The sum of `count` values that all lie in `[lo, hi]` lies in `[count*lo, count*hi]`. */
  lemma {:induction false} SumBounds(s: seq<real>, lo: real, hi: real)
    requires forall x :: x in s ==> lo <= x <= hi
    ensures |s| as real * lo <= Sum(s) <= |s| as real * hi
  {
    if s != [] {
      var init := s[..|s| - 1];
      forall x | x in init
        ensures lo <= x <= hi
      {
        var k :| 0 <= k < |init| && init[k] == x;
        assert s[k] == x && s[k] in s;
      }
      SumBounds(init, lo, hi);
      assert s[|s| - 1] in s;
      var n := |init| as real;
      assert |s| as real * lo == n * lo + lo;
      assert |s| as real * hi == n * hi + hi;
    }
  }

  /** The mean lies between the smallest and the largest value. */
  lemma MeanBounds(s: seq<real>, lo: real, hi: real)
    requires s != []
    requires forall x :: x in s ==> lo <= x <= hi
    ensures lo <= Mean(s) <= hi
  {
    SumBounds(s, lo, hi);
    var n := |s| as real;
    DivAtLeast(Sum(s), n, lo);
    DivAtMost(Sum(s), n, hi);
  }

  /** Dividing by a positive `n` a value of at least `lo * n` leaves at least `lo`. */
  lemma DivAtLeast(a: real, n: real, lo: real)
    requires n > 0.0
    requires n * lo <= a
    ensures lo <= a / n
  {
    assert a == (a / n) * n;
  }

  /** Dividing by a positive `n` a value of at most `hi * n` leaves at most `hi`. */
  lemma DivAtMost(a: real, n: real, hi: real)
    requires n > 0.0
    requires a <= n * hi
    ensures a / n <= hi
  {
    assert a == (a / n) * n;
  }

  /** `sum((x - m) ** 2 for x in s)`. */
  function SquaredDeviation(s: seq<real>, m: real): real {
    if s == [] then 0.0 else SquaredDeviation(s[..|s| - 1], m) + (s[|s| - 1] - m) * (s[|s| - 1] - m)
  }

  /** Population variance: the mean squared deviation from the mean (the square of the jitter). */
  function PopVariance(s: seq<real>): real
    requires s != []
  {
    SquaredDeviation(s, Mean(s)) / |s| as real
  }

  lemma {:induction false} SquaredDeviationNonNegative(s: seq<real>, m: real)
    ensures SquaredDeviation(s, m) >= 0.0
  {
    if s != [] {
      SquaredDeviationNonNegative(s[..|s| - 1], m);
      var d := s[|s| - 1] - m;
      assert d * d >= 0.0;
    }
  }

  /** Values that all equal the centre have no squared deviation. */
  lemma {:induction false} SquaredDeviationZero(s: seq<real>, m: real)
    requires forall x :: x in s ==> x == m
    ensures SquaredDeviation(s, m) == 0.0
  {
    if s != [] {
      var init := s[..|s| - 1];
      forall x | x in init
        ensures x == m
      {
        var k :| 0 <= k < |init| && init[k] == x;
        assert s[k] in s;
      }
      SquaredDeviationZero(init, m);
      assert s[|s| - 1] in s;
    }
  }

  /** The variance is never negative, so its square root (the jitter) is defined. */
  lemma PopVarianceNonNegative(s: seq<real>)
    requires s != []
    ensures PopVariance(s) >= 0.0
  {
    SquaredDeviationNonNegative(s, Mean(s));
  }

  /** Equal values have zero variance (and so zero jitter). */
  lemma PopVarianceConstant(s: seq<real>)
    requires s != []
    requires forall x :: x in s ==> x == s[0]
    ensures PopVariance(s) == 0.0
  {
    MeanBounds(s, s[0], s[0]);
    SquaredDeviationZero(s, Mean(s));
  }

  /** `statistics.median(s)`: the middle of the sorted values, or the mean of the two middle ones. */
  function Median(s: seq<real>): (r: real)
    requires s != []
  {
    var t := SortReals(s);
    var n := |t|;
    if n % 2 == 1 then t[n / 2] else (t[n / 2 - 1] + t[n / 2]) / 2.0
  }

  /** The median lies between the two middle values and hence between the minimum and the maximum. */
  lemma MedianBounds(s: seq<real>)
    requires s != []
    ensures var t := SortReals(s);
      && t[(|s| - 1) / 2] <= Median(s) <= t[|s| / 2]
      && t[0] <= Median(s) <= t[|s| - 1]
  {
    var t := SortReals(s);
    var lo, hi := (|s| - 1) / 2, |s| / 2;
    assert t[0] <= t[lo] <= t[hi] <= t[|s| - 1];
    if |s| % 2 == 1 {
      assert lo == hi;
    } else {
      assert lo == hi - 1;
    }
  }

  /** `sum(1 for x in s if p(x))`. */
  function CountIf(s: seq<real>, p: real -> bool): (c: nat)
    ensures c <= |s|
  {
    if s == [] then 0 else CountIf(s[..|s| - 1], p) + (if p(s[|s| - 1]) then 1 else 0)
  }

  /** Counting commutes with concatenation. */
  lemma {:induction false} CountIfAppend(a: seq<real>, b: seq<real>, p: real -> bool)
    ensures CountIf(a + b, p) == CountIf(a, p) + CountIf(b, p)
  {
    if b == [] {
      assert a + b == a;
    } else {
      assert (a + b)[..|a + b| - 1] == a + b[..|b| - 1];
      assert (a + b)[|a + b| - 1] == b[|b| - 1];
      CountIfAppend(a, b[..|b| - 1], p);
    }
  }
}
