/**
 * The latency metrics a node keeps (`LatencyMetrics`): a bounded first-in-first-out
 * buffer of round-trip times, the three counters shown at every tick, and the
 * statistics computed over a sorted copy of the buffer.
 *
 * A `Duration` is a whole number of nanoseconds, so every figure here except the
 * jitter is exact. The jitter is kept as its square (the variance); the square root
 * is left out.
 */
module Metrics {
  import opened Wrappers
  import opened Histogram
  import opened RealStats

  // ---------------------------------------------------------------------------
  // The sample buffer

  /** The most samples the buffer can hold: `max_samples`, but a push always lands, so at least one. */
  function Capacity(maxSamples: nat): nat {
    if maxSamples == 0 then 1 else maxSamples
  }

  /** `VecDeque::pop_front` with its result dropped: nothing happens to an empty deque. */
  function PopFront(s: seq<nat>): seq<nat> {
    if s == [] then s else s[1..]
  }

  /** `record_rtt`'s effect on the buffer: the front is dropped when it is full, then `rtt` goes at the back. */
  function Pushed(samples: seq<nat>, maxSamples: nat, rtt: nat): seq<nat> {
    (if |samples| >= maxSamples then PopFront(samples) else samples) + [rtt]
  }

  /** The last `n` values of `history`, oldest first; all of it when it is shorter. */
  function Recent(history: seq<nat>, n: nat): (r: seq<nat>)
    ensures |r| <= n && |r| <= |history|
    ensures |r| == n || |r| == |history|
  {
    if |history| <= n then history else history[|history| - n..]
  }

  /**
   * The buffer holds the most recent RTTs in arrival order: pushing onto the window of a
   * history gives the window of the history with the new RTT at its end.
   */
  lemma PushedRecent(history: seq<nat>, maxSamples: nat, rtt: nat)
    ensures Pushed(Recent(history, Capacity(maxSamples)), maxSamples, rtt)
      == Recent(history + [rtt], Capacity(maxSamples))
  {
    var c := Capacity(maxSamples);
    var h := history + [rtt];
    if |history| >= c {
      assert Recent(history, c)[1..] + [rtt] == h[|h| - c..];
    }
  }

  /** The statistics of `stats()`; `jitterVariance` is the square of `jitter`. */
  datatype LatencyStats = LatencyStats(
    min: nat, max: nat, mean: nat, p50: nat, p95: nat, p99: nat, jitterVariance: real, sampleCount: nat)

  /** `LatencyMetrics`: the samples front first, and a ghost record of every RTT ever recorded. */
  class LatencyMetrics {
    var samples: seq<nat>
    const maxSamples: nat
    var pingsSent: nat
    var acksReceived: nat
    var timeouts: nat
    ghost var rtts: seq<nat>

    /** The buffer is the most recent RTTs and every RTT was counted as an ack. */
    ghost predicate Valid()
      reads this
    {
      samples == Recent(rtts, Capacity(maxSamples)) && acksReceived == |rtts|
    }

    /** `LatencyMetrics::new`: an empty buffer and zero counters. */
    constructor(maxSamples: nat)
      ensures Valid()
      ensures this.maxSamples == maxSamples && samples == [] && rtts == []
      ensures pingsSent == 0 && acksReceived == 0 && timeouts == 0
    {
      this.maxSamples := maxSamples;
      samples := [];
      pingsSent := 0;
      acksReceived := 0;
      timeouts := 0;
      rtts := [];
    }

    /** `record_rtt`: evict the oldest sample when full, append `rtt`, count the ack. */
    method RecordRtt(rtt: nat)
      requires Valid()
      modifies this
      ensures Valid()
      ensures rtts == old(rtts) + [rtt]
      ensures samples == Pushed(old(samples), maxSamples, rtt)
      ensures acksReceived == old(acksReceived) + 1
      ensures pingsSent == old(pingsSent) && timeouts == old(timeouts)
    {
      PushedRecent(rtts, maxSamples, rtt);
      if |samples| >= maxSamples {
        samples := PopFront(samples);
      }
      samples := samples + [rtt];
      acksReceived := acksReceived + 1;
      rtts := rtts + [rtt];
    }

    /** `record_ping_sent`: one more ping, nothing else. */
    method RecordPingSent()
      requires Valid()
      modifies this
      ensures Valid()
      ensures pingsSent == old(pingsSent) + 1
      ensures samples == old(samples) && rtts == old(rtts)
      ensures acksReceived == old(acksReceived) && timeouts == old(timeouts)
    {
      pingsSent := pingsSent + 1;
    }

    /** `record_timeout`: one more timeout, nothing else. */
    method RecordTimeout()
      requires Valid()
      modifies this
      ensures Valid()
      ensures timeouts == old(timeouts) + 1
      ensures samples == old(samples) && rtts == old(rtts)
      ensures acksReceived == old(acksReceived) && pingsSent == old(pingsSent)
    {
      timeouts := timeouts + 1;
    }

    /** `sample_count`: never more than the buffer can hold or than the acks received. */
    function SampleCount(): (n: nat)
      reads this
      requires Valid()
      ensures n <= Capacity(maxSamples) && n <= acksReceived
      ensures n == Capacity(maxSamples) || n == acksReceived
    {
      |samples|
    }

    /** `stats()`: nothing for an empty buffer, otherwise the statistics of all its samples. */
    function Stats(): (r: Option<LatencyStats>)
      reads this
      ensures r.None? <==> samples == []
      ensures r.Some? ==> r.value.sampleCount == |samples|
    {
      StatsOf(samples)
    }

    /** `raw_samples`: the most recent RTTs recorded, oldest first. */
    function RawSamples(): (r: seq<nat>)
      reads this
      requires Valid()
      ensures r == Recent(rtts, Capacity(maxSamples))
    {
      samples
    }
  }

  // ---------------------------------------------------------------------------
  // Statistics over a sorted copy

  predicate SortedNats(s: seq<nat>) {
    forall i, j :: 0 <= i <= j < |s| ==> s[i] <= s[j]
  }

  /** Inserts `x` into the ascending sequence `s` before the first element not below it. */
  function InsertNat(x: nat, s: seq<nat>): (r: seq<nat>)
    requires SortedNats(s)
    ensures SortedNats(r)
    ensures multiset(r) == multiset(s) + multiset{x}
  {
    if s == [] || x <= s[0] then [x] + s
    else
      var rest := InsertNat(x, s[1..]);
      assert s == [s[0]] + s[1..];
      forall k | 0 <= k < |rest|
        ensures s[0] <= rest[k]
      {
        assert rest[k] in multiset(rest);
        if rest[k] != x {
          assert rest[k] in multiset(s[1..]);
        }
      }
      [s[0]] + rest
  }

  /** `sorted.sort()` on the copied samples: an ascending permutation. */
  function SortNats(s: seq<nat>): (r: seq<nat>)
    ensures SortedNats(r)
    ensures multiset(r) == multiset(s)
    ensures |r| == |s|
  {
    if s == [] then []
    else
      assert s == s[..|s| - 1] + [s[|s| - 1]];
      var r := InsertNat(s[|s| - 1], SortNats(s[..|s| - 1]));
      assert |r| == |multiset(r)|;
      r
  }

  /** `(count as f64 * 0.95) as usize`, taken as the exact floor of 95n/100. */
  function P95Index(count: nat): nat {
    (95 * count) / 100
  }

  /** `((count as f64 * 0.99) as usize).min(count - 1)`, with the same exact floor. */
  function P99Index(count: nat): nat
    requires count >= 1
  {
    var i := (99 * count) / 100;
    if i < count - 1 then i else count - 1
  }

  /** Every percentile index is a position of a nonempty buffer, and they do not decrease. */
  lemma PercentileIndices(count: nat)
    requires count >= 1
    ensures count / 2 <= P95Index(count) <= P99Index(count) < count
  {
  }

  /** The durations as reals, for the floating-point variance. */
  function AsReals(s: seq<nat>): (r: seq<real>)
    ensures |r| == |s|
  {
    seq(|s|, i requires 0 <= i < |s| => s[i] as real)
  }

  /** `sum / count as u32`: `Duration` division, the floor of the average in nanoseconds. */
  function FloorAverage(total: nat, count: nat): nat
    requires count >= 1
  {
    total / count
  }

  /** The mean squared distance of the samples from the integer mean: the jitter squared. */
  function JitterVariance(sorted: seq<nat>, mean: nat): real
    requires sorted != []
  {
    SquaredDeviation(AsReals(sorted), mean as real) / |sorted| as real
  }

  /** The variance is never negative, and it is zero when every sample is the mean. */
  lemma JitterVarianceFacts(sorted: seq<nat>, mean: nat)
    requires sorted != []
    ensures JitterVariance(sorted, mean) >= 0.0
    ensures (forall k :: 0 <= k < |sorted| ==> sorted[k] == mean) ==> JitterVariance(sorted, mean) == 0.0
  {
    var d := AsReals(sorted);
    SquaredDeviationNonNegative(d, mean as real);
    if forall k :: 0 <= k < |sorted| ==> sorted[k] == mean {
      forall x | x in d
        ensures x == mean as real
      {
        var k :| 0 <= k < |d| && d[k] == x;
      }
      SquaredDeviationZero(d, mean as real);
    }
  }

  /** The statistics of a buffer, `None` when it is empty. */
  function StatsOf(samples: seq<nat>): (r: Option<LatencyStats>)
    ensures r.None? <==> samples == []
    ensures r.Some? ==> r.value.sampleCount == |samples|
  {
    if samples == [] then None
    else
      var sorted := SortNats(samples);
      var count := |sorted|;
      var mean := FloorAverage(SumNat(sorted), count);
      PercentileIndices(count);
      Some(LatencyStats(
        sorted[0], sorted[count - 1], mean,
        sorted[count / 2], sorted[P95Index(count)], sorted[P99Index(count)],
        JitterVariance(sorted, mean), count))
  }

  /** Every element of the sorted copy is a sample. */
  lemma SortedNatsElement(s: seq<nat>, k: nat)
    requires k < |s|
    ensures SortNats(s)[k] in s
  {
    var t := SortNats(s);
    assert t[k] in multiset(t);
  }

  /** The ends of the sorted copy bound every sample. */
  lemma SortedNatsEnds(s: seq<nat>)
    requires s != []
    ensures var t := SortNats(s); forall x :: x in s ==> t[0] <= x <= t[|t| - 1]
  {
    var t := SortNats(s);
    forall x | x in s
      ensures t[0] <= x <= t[|t| - 1]
    {
      assert x in multiset(s);
      var k :| 0 <= k < |t| && t[k] == x;
    }
  }

  /** The total of values lying between `lo` and `hi`. */
  lemma {:induction false} SumNatBounds(s: seq<nat>, lo: nat, hi: nat)
    requires forall k :: 0 <= k < |s| ==> lo <= s[k] <= hi
    ensures |s| * lo <= SumNat(s) <= |s| * hi
  {
    if s != [] {
      SumNatBounds(s[..|s| - 1], lo, hi);
      assert (|s| - 1) * lo + lo == |s| * lo;
      assert (|s| - 1) * hi + hi == |s| * hi;
    }
  }

  /** Dividing out a positive factor keeps a non-strict order. */
  lemma {:induction false} MulCancel(n: nat, a: nat, b: nat)
    requires n >= 1 && n * a <= n * b
    ensures a <= b
    decreases b
  {
    if a > 0 && b > 0 {
      assert n * (a - 1) == n * a - n && n * (b - 1) == n * b - n;
      MulCancel(n, a - 1, b - 1);
    }
  }

  /** Dividing out a positive factor keeps a strict order. */
  lemma MulCancelStrict(n: nat, a: nat, b: nat)
    requires n >= 1 && n * a < n * b
    ensures a < b
  {
    MulCancel(n, a, b);
  }

  /** A total between `n * lo` and `n * hi` has its floor average between `lo` and `hi`. */
  lemma FloorAverageBounds(total: nat, n: nat, lo: nat, hi: nat)
    requires n >= 1 && n * lo <= total <= n * hi
    ensures lo <= FloorAverage(total, n) <= hi
  {
    var q := total / n;
    var r := total % n;
    assert total == n * q + r && r < n;
    assert n * (q + 1) == n * q + n;
    MulCancelStrict(n, lo, q + 1);
    MulCancel(n, q, hi);
  }

  /** Sums over the concatenation of two sequences add. */
  lemma {:induction false} SumNatAppend(a: seq<nat>, b: seq<nat>)
    ensures SumNat(a + b) == SumNat(a) + SumNat(b)
  {
    if b == [] {
      assert a + b == a;
    } else {
      assert (a + b)[..|a + b| - 1] == a + b[..|b| - 1];
      SumNatAppend(a, b[..|b| - 1]);
    }
  }

  /** Taking one element out of a sequence takes it out of its multiset. */
  lemma MultisetRemove(b: seq<nat>, i: nat)
    requires i < |b|
    ensures multiset(b[..i] + b[i + 1..]) == multiset(b) - multiset{b[i]}
  {
    assert b == b[..i] + [b[i]] + b[i + 1..];
  }

  /** Reordering does not change the total. */
  lemma {:induction false} SumNatPermutation(a: seq<nat>, b: seq<nat>)
    requires multiset(a) == multiset(b)
    ensures SumNat(a) == SumNat(b)
    decreases |a|
  {
    if a != [] {
      var x := a[|a| - 1];
      var init := a[..|a| - 1];
      assert a == init + [x];
      assert x in multiset(b);
      var i :| 0 <= i < |b| && b[i] == x;
      var rest := b[..i] + b[i + 1..];
      MultisetRemove(b, i);
      assert multiset(init) == multiset(a) - multiset{x};
      SumNatPermutation(init, rest);
      SumNatSplit(b, i);
      SumNatAppend(init, [x]);
      assert SumNat([x]) == x by {
        assert [x][..0] == [];
      }
    }
  }

  /** The total is the element at `i` plus the total of the others. */
  lemma SumNatSplit(b: seq<nat>, i: nat)
    requires i < |b|
    ensures SumNat(b) == SumNat(b[..i] + b[i + 1..]) + b[i]
  {
    var front, back := b[..i], b[i + 1..];
    assert b == front + [b[i]] + back by {
      assert |b| == |front| + 1 + |back|;
      forall k | 0 <= k < |b|
        ensures b[k] == (front + [b[i]] + back)[k]
      {
      }
    }
    SumNatAppend(front + [b[i]], back);
    SumNatAppend(front, [b[i]]);
    SumNatAppend(front, back);
    assert SumNat([b[i]]) == b[i] by {
      assert [b[i]][..0] == [];
    }
  }

  /** The floor average of the sorted copy lies between its ends. */
  lemma SortedMeanBounds(samples: seq<nat>)
    requires samples != []
    ensures var t := SortNats(samples);
      t[0] <= FloorAverage(SumNat(t), |t|) <= t[|t| - 1]
  {
    var t := SortNats(samples);
    SumNatBounds(t, t[0], t[|t| - 1]);
    FloorAverageBounds(SumNat(t), |t|, t[0], t[|t| - 1]);
  }

  /**
   * `stats()` of a nonempty buffer: min and max are the smallest and largest samples,
   * each percentile is a sample, and min <= p50 <= p95 <= p99 <= max.
   */
  lemma StatsOrder(samples: seq<nat>)
    requires samples != []
    ensures var st := StatsOf(samples).value;
      && st.min in samples && st.max in samples
      && (forall x :: x in samples ==> st.min <= x <= st.max)
      && st.p50 in samples && st.p95 in samples && st.p99 in samples
      && st.min <= st.p50 <= st.p95 <= st.p99 <= st.max
  {
    SortedPositions(samples);
  }

  /** The positions `stats()` reads in the sorted copy hold samples, in ascending order. */
  lemma SortedPositions(samples: seq<nat>)
    requires samples != []
    ensures var t := SortNats(samples); var n := |t|;
      && n / 2 <= P95Index(n) <= P99Index(n) < n
      && t[0] in samples && t[n - 1] in samples
      && (forall x :: x in samples ==> t[0] <= x <= t[n - 1])
      && t[n / 2] in samples && t[P95Index(n)] in samples && t[P99Index(n)] in samples
      && t[0] <= t[n / 2] <= t[P95Index(n)] <= t[P99Index(n)] <= t[n - 1]
  {
    var n := |samples|;
    PercentileIndices(n);
    SortedNatsEnds(samples);
    SortedNatsElement(samples, 0);
    SortedNatsElement(samples, n - 1);
    SortedNatsElement(samples, n / 2);
    SortedNatsElement(samples, P95Index(n));
    SortedNatsElement(samples, P99Index(n));
    SortedChain(SortNats(samples), n / 2, P95Index(n), P99Index(n));
  }

  /** In a sorted list, values at ascending positions ascend between its ends. */
  lemma SortedChain(t: seq<nat>, i: nat, j: nat, k: nat)
    requires SortedNats(t) && i <= j <= k < |t|
    ensures t[0] <= t[i] <= t[j] <= t[k] <= t[|t| - 1]
  {
  }

  /** The mean of `stats()` is the floor of the samples' average, and lies between min and max. */
  lemma StatsMean(samples: seq<nat>)
    requires samples != []
    ensures var st := StatsOf(samples).value;
      && st.mean == FloorAverage(SumNat(samples), |samples|)
      && st.min <= st.mean <= st.max
  {
    SumNatPermutation(SortNats(samples), samples);
    SortedMeanBounds(samples);
  }

  /** The jitter is the root of a nonnegative variance, and zero when every sample is the same. */
  lemma JitterFacts(samples: seq<nat>)
    requires samples != []
    ensures StatsOf(samples).value.jitterVariance >= 0.0
    ensures (forall x :: x in samples ==> x == samples[0]) ==> StatsOf(samples).value.jitterVariance == 0.0
  {
    var t := SortNats(samples);
    var mean := FloorAverage(SumNat(t), |t|);
    if forall x :: x in samples ==> x == samples[0] {
      forall k | 0 <= k < |t|
        ensures t[k] == samples[0]
      {
        SortedNatsElement(samples, k);
      }
      SortedMeanBounds(samples);
    }
    JitterVarianceFacts(t, mean);
  }
}
