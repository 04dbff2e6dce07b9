/**
 * The fixed-boundary ASCII histograms that both analysis scripts print: a list of
 * bucket boundaries ending in `float('inf')`, a nested loop that counts each value
 * into the first bucket `[lo, hi)` containing it, and bars scaled to 40 characters.
 *
 * The finite boundaries are kept as `lows`; bucket `i` is `[lows[i], lows[i + 1])`
 * and the last bucket is `[lows[|lows| - 1], inf)`.
 */
module Histogram {
  import opened Wrappers

  /** The boundaries strictly increase, as both scripts' literal lists do. */
  predicate Increasing(lows: seq<real>) {
    forall i, j :: 0 <= i < j < |lows| ==> lows[i] < lows[j]
  }

  /** `buckets[i] <= v < buckets[i + 1]`, with the last upper bound infinite. */
  predicate InBucket(lows: seq<real>, i: nat, v: real)
    requires i < |lows|
  {
    lows[i] <= v && (i + 1 == |lows| || v < lows[i + 1])
  }

  /** The bucket the inner loop's `break` stops at: the first one containing `v`, if any. */
  function BucketOf(lows: seq<real>, v: real): (r: Option<nat>)
    ensures r.Some? ==> r.value < |lows| && InBucket(lows, r.value, v)
    ensures r.Some? ==> forall j :: 0 <= j < r.value ==> !InBucket(lows, j, v)
    ensures r.None? ==> forall j :: 0 <= j < |lows| ==> !InBucket(lows, j, v)
  {
    BucketFrom(lows, v, 0)
  }

  function BucketFrom(lows: seq<real>, v: real, i: nat): (r: Option<nat>)
    requires i <= |lows|
    ensures r.Some? ==> i <= r.value < |lows| && InBucket(lows, r.value, v)
    ensures r.Some? ==> forall j :: i <= j < r.value ==> !InBucket(lows, j, v)
    ensures r.None? ==> forall j :: i <= j < |lows| ==> !InBucket(lows, j, v)
    decreases |lows| - i
  {
    if i == |lows| then None
    else if InBucket(lows, i, v) then Some(i)
    else BucketFrom(lows, v, i + 1)
  }

  /** The first bucket at or after `from` that contains `v` is the one `BucketFrom` finds. */
  lemma {:induction false} BucketFromFirst(lows: seq<real>, v: real, from: nat, i: nat)
    requires from <= i < |lows| && InBucket(lows, i, v)
    requires forall j :: from <= j < i ==> !InBucket(lows, j, v)
    ensures BucketFrom(lows, v, from) == Some(i)
    decreases i - from
  {
    if from < i {
      BucketFromFirst(lows, v, from + 1, i);
    }
  }

  /** The counts after the values have been fed in order: each value bumps the bucket `BucketOf` names. */
  function HistogramSpec(lows: seq<real>, vs: seq<real>): (counts: seq<nat>)
    ensures |counts| == |lows|
  {
    if vs == [] then seq(|lows|, _ => 0)
    else
      var prev := HistogramSpec(lows, vs[..|vs| - 1]);
      match BucketOf(lows, vs[|vs| - 1])
      case Some(i) => prev[i := prev[i] + 1]
      case None => prev
  }

  /**
   * The counting loop: `counts = [0] * n`, then for every value the first bucket
   * containing it is incremented and the inner loop breaks.
   */
  method FillHistogram(lows: seq<real>, values: seq<real>) returns (counts: seq<nat>)
    ensures counts == HistogramSpec(lows, values)
  {
    var a := new nat[|lows|](_ => 0);
    var k := 0;
    while k < |values|
      invariant 0 <= k <= |values|
      invariant a[..] == HistogramSpec(lows, values[..k])
    {
      assert values[..k + 1][..k] == values[..k];
      var v := values[k];
      var i := 0;
      while i < a.Length
        invariant 0 <= i <= a.Length
        invariant a[..] == HistogramSpec(lows, values[..k])
        invariant forall j :: 0 <= j < i ==> !InBucket(lows, j, v)
      {
        if lows[i] <= v && (i + 1 == |lows| || v < lows[i + 1]) {
          a[i] := a[i] + 1;
          BucketFromFirst(lows, v, 0, i);
          break;
        }
        i := i + 1;
      }
      assert a[..] == HistogramSpec(lows, values[..k + 1]);
      k := k + 1;
    }
    assert values[..|values|] == values;
    counts := a[..];
  }

  function SumNat(s: seq<nat>): nat {
    if s == [] then 0 else SumNat(s[..|s| - 1]) + s[|s| - 1]
  }

  /** Incrementing one count increments the total by one. */
  lemma {:induction false} SumNatIncrement(s: seq<nat>, i: nat)
    requires i < |s|
    ensures SumNat(s[i := s[i] + 1]) == SumNat(s) + 1
  {
    var t := s[i := s[i] + 1];
    assert t[..|t| - 1] == if i == |s| - 1 then s[..|s| - 1] else s[..|s| - 1][i := s[i] + 1];
    if i < |s| - 1 {
      SumNatIncrement(s[..|s| - 1], i);
    }
  }

  lemma {:induction false} SumNatZeros(n: nat)
    ensures SumNat(seq(n, _ => 0)) == 0
  {
    if n > 0 {
      assert seq(n, _ => 0)[..n - 1] == seq(n - 1, _ => 0);
      SumNatZeros(n - 1);
    }
  }

  /** With increasing boundaries a value lies in at most one bucket. */
  lemma BucketUnique(lows: seq<real>, v: real, i: nat, j: nat)
    requires Increasing(lows) && i < |lows| && j < |lows|
    requires InBucket(lows, i, v) && InBucket(lows, j, v)
    ensures i == j
  {
  }

  /** A value at or above some boundary lies in a bucket at or after it. */
  lemma {:induction false} BucketAbove(lows: seq<real>, v: real, i: nat)
    requires i < |lows| && lows[i] <= v
    ensures exists j :: i <= j < |lows| && InBucket(lows, j, v)
    decreases |lows| - i
  {
    if !InBucket(lows, i, v) {
      BucketAbove(lows, v, i + 1);
    }
  }

  /** A value is counted somewhere exactly when it is not below the first boundary. */
  lemma BucketOfSome(lows: seq<real>, v: real)
    requires Increasing(lows) && lows != []
    ensures BucketOf(lows, v).Some? <==> lows[0] <= v
  {
    if lows[0] <= v {
      BucketAbove(lows, v, 0);
    }
    if BucketOf(lows, v).Some? {
      var i := BucketOf(lows, v).value;
      assert lows[0] <= lows[i];
    }
  }

  /** The number of values in bucket `i`. */
  function CountInBucket(lows: seq<real>, i: nat, vs: seq<real>): (c: nat)
    requires i < |lows|
    ensures c <= |vs|
  {
    if vs == [] then 0
    else CountInBucket(lows, i, vs[..|vs| - 1]) + (if InBucket(lows, i, vs[|vs| - 1]) then 1 else 0)
  }

  /** The number of values not below `lo`. */
  function CountAtLeast(lo: real, vs: seq<real>): (c: nat)
    ensures c <= |vs|
  {
    if vs == [] then 0 else CountAtLeast(lo, vs[..|vs| - 1]) + (if lo <= vs[|vs| - 1] then 1 else 0)
  }

  /** Each count is the number of values lying in its bucket, because buckets do not overlap. */
  lemma {:induction false} HistogramCountsBucket(lows: seq<real>, vs: seq<real>, i: nat)
    requires Increasing(lows) && i < |lows|
    ensures HistogramSpec(lows, vs)[i] == CountInBucket(lows, i, vs)
  {
    if vs != [] {
      var v := vs[|vs| - 1];
      HistogramCountsBucket(lows, vs[..|vs| - 1], i);
      match BucketOf(lows, v)
      case Some(b) =>
        if InBucket(lows, i, v) {
          BucketUnique(lows, v, i, b);
        }
      case None =>
    }
  }

  /** The counts add up to the number of values not below the first boundary; values below it are not counted. */
  lemma {:induction false} HistogramTotal(lows: seq<real>, vs: seq<real>)
    requires Increasing(lows) && lows != []
    ensures SumNat(HistogramSpec(lows, vs)) == CountAtLeast(lows[0], vs)
  {
    if vs == [] {
      SumNatZeros(|lows|);
    } else {
      var v := vs[|vs| - 1];
      HistogramTotal(lows, vs[..|vs| - 1]);
      BucketOfSome(lows, v);
      match BucketOf(lows, v)
      case Some(b) =>
        SumNatIncrement(HistogramSpec(lows, vs[..|vs| - 1]), b);
      case None =>
    }
  }

  /** When no value is below `lo`, every value is counted. */
  lemma {:induction false} CountAtLeastAll(lo: real, vs: seq<real>)
    requires forall k :: 0 <= k < |vs| ==> lo <= vs[k]
    ensures CountAtLeast(lo, vs) == |vs|
  {
    if vs != [] {
      CountAtLeastAll(lo, vs[..|vs| - 1]);
    }
  }

  /** Width of the longest bar. */
  const BarWidth: nat := 40

  /** `max(counts)`. */
  function MaxCount(counts: seq<nat>): (m: nat)
    requires counts != []
    ensures m in counts
    ensures forall c :: c in counts ==> c <= m
  {
    if |counts| == 1 then counts[0]
    else
      var m := MaxCount(counts[..|counts| - 1]);
      assert forall c :: c in counts ==> c in counts[..|counts| - 1] || c == counts[|counts| - 1];
      if counts[|counts| - 1] > m then counts[|counts| - 1] else m
  }

  /** Counts adding up to something have a largest count above zero. */
  lemma {:induction false} MaxCountPositive(counts: seq<nat>)
    requires counts != [] && SumNat(counts) > 0
    ensures MaxCount(counts) > 0
  {
    if |counts| > 1 && counts[|counts| - 1] == 0 {
      MaxCountPositive(counts[..|counts| - 1]);
    }
  }

  /** `int(bar_width * count / max_count) if max_count > 0 else 0`. */
  function BarLength(count: nat, maxCount: nat): nat {
    if maxCount > 0 then BarWidth * count / maxCount else 0
  }

  /** Bars fit in 40 characters, and the fullest bucket gets the full 40 (when anything was counted). */
  lemma BarLengthBounds(count: nat, maxCount: nat)
    requires count <= maxCount
    ensures BarLength(count, maxCount) <= BarWidth
    ensures count == maxCount && maxCount > 0 ==> BarLength(count, maxCount) == BarWidth
    ensures maxCount == 0 ==> BarLength(count, maxCount) == 0
  {
    if maxCount > 0 {
      assert BarWidth * count <= BarWidth * maxCount;
      DivBound(BarWidth * count, maxCount, BarWidth);
    }
  }

  lemma DivBound(a: nat, b: nat, q: nat)
    requires b > 0 && a <= q * b
    ensures a / b <= q
  {
  }

  /** The bar of every bucket, scaled by the largest count. */
  function Bars(counts: seq<nat>): (bars: seq<nat>)
    requires counts != []
    ensures |bars| == |counts|
  {
    seq(|counts|, i requires 0 <= i < |counts| => BarLength(counts[i], MaxCount(counts)))
  }

  /** Every bar fits in 40 characters, some bar is full when anything was counted, and none is drawn otherwise. */
  lemma BarsBounds(counts: seq<nat>)
    requires counts != []
    ensures forall i :: 0 <= i < |counts| ==> Bars(counts)[i] <= BarWidth
    ensures MaxCount(counts) > 0 ==> BarWidth in Bars(counts)
    ensures MaxCount(counts) == 0 ==> forall i :: 0 <= i < |counts| ==> Bars(counts)[i] == 0
  {
    var m := MaxCount(counts);
    var bars := Bars(counts);
    forall i | 0 <= i < |counts|
      ensures bars[i] <= BarWidth && (m == 0 ==> bars[i] == 0)
    {
      assert counts[i] in counts;
      BarLengthBounds(counts[i], m);
    }
    if m > 0 {
      var k :| 0 <= k < |counts| && counts[k] == m;
      BarLengthBounds(counts[k], m);
      assert bars[k] == BarWidth;
    }
  }
}
