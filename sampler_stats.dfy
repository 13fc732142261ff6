// Windowed statistics of a sampler: last minute, last hour and all time, from
// a snapshot holding a last-minute pool and a down-sampled all-time pool.

module SamplerStats {
  import opened Utils
  import opened Sorting

  /** The five order statistics of a bag of sample values. */
  datatype OrderStatistics = OrderStatistics(
    quartile1: int,
    median: int,
    quartile3: int,
    percentile95: int,
    largestValue: int)

  /** Order statistics of a window together with its number of events. */
  datatype WindowedStats = WindowedStats(order: OrderStatistics, count: int)

  /** A pool of retained samples.  `sampleTimesSec[i]` is the time of
      `sampleValues[i]`; `numEvents` is the true number of events the pool
      stands for and `samplesSize` the size of the retained pool. */
  datatype SamplePool = SamplePool(
    sampleValues: seq<int>,
    sampleTimesSec: seq<int>,
    numEvents: int,
    samplesSize: int)

  /** A sampler snapshot: the time of its latest event and its two pools. */
  datatype SamplerSnapshot = SamplerSnapshot(
    latestTimeSec: int,
    lastMinuteSamples: SamplePool,
    allTimeSamples: SamplePool)

  /** The statistics of an empty bag of samples. */
  const ZeroStatistics := OrderStatistics(0, 0, 0, 0, 0)

  /** The last-hour window, in seconds. */
  const SecondsPerHour: int := 3600

  /** The rank indices picked from a sorted copy of n >= 1 values are
      ascending and all lie in [0, n). */
  lemma RankIndicesOrdered(n: int)
    requires n > 0
    ensures 0 <= n / 4 <= n / 2 <= (n * 3) / 4 <= (n * 95) / 100 <= n - 1
  {
    var q3 := (n * 3) / 4;
    assert q3 * 4 <= n * 3;
    assert q3 * 100 <= n * 95;
  }

  /** The statistics at the fixed ranks n/4, n/2, 3n/4, 95n/100 and n-1 of an
      ascending sequence. */
  function PickRanks(sorted: seq<int>): (r: OrderStatistics)
    requires |sorted| > 0
    ensures && r.quartile1 in sorted && r.median in sorted && r.quartile3 in sorted
            && r.percentile95 in sorted && r.largestValue in sorted
    ensures Sorted(sorted) ==>
      && r.quartile1 <= r.median <= r.quartile3 <= r.percentile95 <= r.largestValue
      && forall x :: x in sorted ==> x <= r.largestValue
  {
    var n := |sorted|;
    RankIndicesOrdered(n);
    OrderStatistics(sorted[n / 4], sorted[n / 2], sorted[(n * 3) / 4],
                    sorted[(n * 95) / 100], sorted[n - 1])
  }

  /** Two sequences with the same multiset hold the same values. */
  lemma SameElements(a: seq<int>, b: seq<int>)
    requires multiset(a) == multiset(b)
    ensures forall x :: x in a <==> x in b
  {
    forall x
      ensures x in a <==> x in b
    {
      assert x in a <==> x in multiset(a);
      assert x in b <==> x in multiset(b);
    }
  }

  /** Order statistics of a bag of samples: all zero for no samples, otherwise
      values of the input, in ascending order of rank, the last one the maximum. */
  function ComputeOrderStatistics(samples: seq<int>): (r: OrderStatistics)
    ensures samples == [] ==> r == ZeroStatistics
    ensures samples != [] ==>
      && r.quartile1 in samples && r.median in samples && r.quartile3 in samples
      && r.percentile95 in samples && r.largestValue in samples
    ensures samples != [] ==>
      r.quartile1 <= r.median <= r.quartile3 <= r.percentile95 <= r.largestValue
    ensures forall x :: x in samples ==> x <= r.largestValue
  {
    if samples == [] then ZeroStatistics
    else
      var sorted := SortedCopy(samples);
      SameElements(sorted, samples);
      PickRanks(sorted)
  }

  /** Each statistic is the element at its fixed rank (n/4, n/2, 3n/4,
      95n/100, n-1) of ANY ascending permutation of the input. */
  lemma {:induction false} OrderStatisticsAtRanks(samples: seq<int>, sorted: seq<int>)
    requires samples != []
    requires Sorted(sorted) && multiset(sorted) == multiset(samples)
    ensures |sorted| == |samples|
    ensures ComputeOrderStatistics(samples) == PickRanks(sorted)
  {
    assert |sorted| == |multiset(sorted)| == |multiset(samples)| == |samples|;
    SortedPermutationUnique(SortedCopy(samples), sorted);
  }

  /** The sequence 0, 1, ..., n-1. */
  function Range(n: nat): (r: seq<int>)
    ensures |r| == n
    ensures forall k :: 0 <= k < n ==> r[k] == k
  {
    seq(n, k => k)
  }

  /** For the values 0..n-1 the statistics are n/4, n/2, 3n/4, 95n/100 and n-1. */
  lemma OrderStatisticsOfRange(n: nat)
    requires n > 0
    ensures ComputeOrderStatistics(Range(n)) ==
      OrderStatistics(n / 4, n / 2, (n * 3) / 4, (n * 95) / 100, n - 1)
  {
    OrderStatisticsAtRanks(Range(n), Range(n));
    RankIndicesOrdered(n);
  }

  /** Last-minute statistics: the pool's statistics and true event count when
      the query time falls in the minute block of the snapshot's latest event,
      zero statistics and count 0 otherwise, whether the snapshot is behind or
      ahead of the query. */
  function LastMinuteStats(data: SamplerSnapshot, currentEpochSec: int): (r: WindowedStats)
    ensures SameMinuteBlock(data.latestTimeSec, currentEpochSec) ==>
      r == WindowedStats(ComputeOrderStatistics(data.lastMinuteSamples.sampleValues),
                         data.lastMinuteSamples.numEvents)
    ensures !SameMinuteBlock(data.latestTimeSec, currentEpochSec) ==>
      r == WindowedStats(ZeroStatistics, 0)
  {
    SameMinuteIff(data.latestTimeSec, currentEpochSec);
    var latestMin := MinutesSinceEpoch(data.latestTimeSec);
    if latestMin != MinutesSinceEpoch(currentEpochSec) then
      WindowedStats(ComputeOrderStatistics([]), 0)
    else
      var lastMinuteSamples := data.lastMinuteSamples;
      WindowedStats(ComputeOrderStatistics(lastMinuteSamples.sampleValues),
                    lastMinuteSamples.numEvents)
  }

  /** All-time statistics: the statistics of the whole retained pool and its
      exact event count, with no clock check. */
  function AllTimeStats(data: SamplerSnapshot): (r: WindowedStats)
    ensures r.count == data.allTimeSamples.numEvents
    ensures r.order == ComputeOrderStatistics(data.allTimeSamples.sampleValues)
  {
    var allTimeSamples := data.allTimeSamples;
    WindowedStats(ComputeOrderStatistics(allTimeSamples.sampleValues), allTimeSamples.numEvents)
  }

  /** The half-open window (endTime - numSecBeforeEnd, endTime]. */
  predicate InWindow(t: int, endTime: int, numSecBeforeEnd: int) {
    endTime - numSecBeforeEnd < t <= endTime
  }

  /** The positions whose timestamp lies in the window: ascending, and holding
      a position exactly when its timestamp lies in the window. */
  function KeptIndices(times: seq<int>, endTime: int, numSecBeforeEnd: int): (idx: seq<int>)
    ensures forall k :: 0 <= k < |idx| ==>
      0 <= idx[k] < |times| && InWindow(times[idx[k]], endTime, numSecBeforeEnd)
    ensures forall k, l :: 0 <= k < l < |idx| ==> idx[k] < idx[l]
    ensures forall i :: 0 <= i < |times| && InWindow(times[i], endTime, numSecBeforeEnd) ==> i in idx
  {
    if times == [] then []
    else
      var last := |times| - 1;
      var front := KeptIndices(times[..last], endTime, numSecBeforeEnd);
      assert forall i :: 0 <= i < last ==> times[..last][i] == times[i];
      front + (if InWindow(times[last], endTime, numSecBeforeEnd) then [last] else [])
  }

  /** The values whose timestamps lie in the window, in their original order;
      `sampleValues` must hold at least one value per timestamp. */
  function FilterLastNSeconds(sampleValues: seq<int>, sampleTimes: seq<int>,
                              endTime: int, numSecBeforeEnd: int): (r: seq<int>)
    requires |sampleValues| >= |sampleTimes|
    ensures |r| <= |sampleTimes|
    ensures |r| == |KeptIndices(sampleTimes, endTime, numSecBeforeEnd)|
    ensures forall k :: 0 <= k < |r| ==>
      r[k] == sampleValues[KeptIndices(sampleTimes, endTime, numSecBeforeEnd)[k]]
  {
    if sampleTimes == [] then []
    else
      var last := |sampleTimes| - 1;
      var front := FilterLastNSeconds(sampleValues, sampleTimes[..last], endTime, numSecBeforeEnd);
      front + (if InWindow(sampleTimes[last], endTime, numSecBeforeEnd)
               then [sampleValues[last]] else [])
  }

  /** The estimated number of events in the last hour: the true event count
      scaled by the share of the pool that falls in the hour, rounded down. */
  function EstimateNumEventsInLastHour(allTimeSamples: SamplePool, numLastHourSamples: int): (r: int)
    requires allTimeSamples.samplesSize > 0
    ensures r * allTimeSamples.samplesSize <= allTimeSamples.numEvents * numLastHourSamples
    ensures allTimeSamples.numEvents * numLastHourSamples < (r + 1) * allTimeSamples.samplesSize
  {
    // Multiply first, then divide, to stay within integers.
    (allTimeSamples.numEvents * numLastHourSamples) / allTimeSamples.samplesSize
  }

  /** A product with a positive factor below that factor is zero times it. */
  lemma FactorIsZero(x: int, s: int)
    requires s > 0 && 0 <= x * s < s
    ensures x == 0
  {
  }

  /** Strict order survives division by a common positive factor. */
  lemma CancelPositiveFactor(a: int, b: int, c: int)
    requires c > 0 && a * c < b * c
    ensures a < b
  {
  }

  /** With a share between none and all of the pool, the estimate lies between
      zero and the true event count, and the whole pool gives the count exactly. */
  lemma EstimateBounded(allTimeSamples: SamplePool, numLastHourSamples: int)
    requires allTimeSamples.samplesSize > 0 && allTimeSamples.numEvents >= 0
    requires 0 <= numLastHourSamples <= allTimeSamples.samplesSize
    ensures 0 <= EstimateNumEventsInLastHour(allTimeSamples, numLastHourSamples)
              <= allTimeSamples.numEvents
    ensures numLastHourSamples == allTimeSamples.samplesSize ==>
      EstimateNumEventsInLastHour(allTimeSamples, numLastHourSamples) == allTimeSamples.numEvents
  {
    var size, events := allTimeSamples.samplesSize, allTimeSamples.numEvents;
    var r := EstimateNumEventsInLastHour(allTimeSamples, numLastHourSamples);
    assert 0 <= events * numLastHourSamples <= events * size;
    assert r * size <= events * size < (events + 1) * size;
    CancelPositiveFactor(r, events + 1, size);
    assert 0 * size <= events * numLastHourSamples < (r + 1) * size;
    CancelPositiveFactor(0, r + 1, size);
    if numLastHourSamples == size {
      assert (events - r) * size == events * size - r * size;
      FactorIsZero(events - r, size);
    }
  }

  /** With a non-negative event count, more samples in the window never lower
      the estimate. */
  lemma EstimateMonotone(allTimeSamples: SamplePool, k1: int, k2: int)
    requires allTimeSamples.samplesSize > 0 && allTimeSamples.numEvents >= 0
    requires k1 <= k2
    ensures EstimateNumEventsInLastHour(allTimeSamples, k1)
            <= EstimateNumEventsInLastHour(allTimeSamples, k2)
  {
    var size, events := allTimeSamples.samplesSize, allTimeSamples.numEvents;
    var r1 := EstimateNumEventsInLastHour(allTimeSamples, k1);
    var r2 := EstimateNumEventsInLastHour(allTimeSamples, k2);
    assert events * k1 <= events * k2;
    CancelPositiveFactor(r1, r2 + 1, size);
  }

  /** Last-hour statistics: the statistics of the all-time values whose
      timestamps lie in (currentEpochSec - 3600, currentEpochSec], with the
      event count estimated from the share of the pool they make up. */
  function LastHourStats(data: SamplerSnapshot, currentEpochSec: int): (r: WindowedStats)
    requires |data.allTimeSamples.sampleValues| >= |data.allTimeSamples.sampleTimesSec|
    requires data.allTimeSamples.samplesSize > 0
    ensures var pool := data.allTimeSamples;
      var kept := FilterLastNSeconds(pool.sampleValues, pool.sampleTimesSec,
                                     currentEpochSec, SecondsPerHour);
      && r.order == ComputeOrderStatistics(kept)
      && r.count == EstimateNumEventsInLastHour(pool, |kept|)
  {
    var allTimeSamples := data.allTimeSamples;
    var lastHourData := FilterLastNSeconds(allTimeSamples.sampleValues,
                                           allTimeSamples.sampleTimesSec,
                                           currentEpochSec, SecondsPerHour);
    WindowedStats(ComputeOrderStatistics(lastHourData),
                  EstimateNumEventsInLastHour(allTimeSamples, |lastHourData|))
  }

  /** When the pool holds no more timestamps than its size says and the event
      count is not negative, the last-hour count lies between 0 and the
      all-time event count. */
  lemma LastHourCountBounded(data: SamplerSnapshot, currentEpochSec: int)
    requires |data.allTimeSamples.sampleValues| >= |data.allTimeSamples.sampleTimesSec|
    requires data.allTimeSamples.samplesSize >= |data.allTimeSamples.sampleTimesSec|
    requires data.allTimeSamples.samplesSize > 0 && data.allTimeSamples.numEvents >= 0
    ensures 0 <= LastHourStats(data, currentEpochSec).count <= data.allTimeSamples.numEvents
  {
    var pool := data.allTimeSamples;
    var kept := FilterLastNSeconds(pool.sampleValues, pool.sampleTimesSec,
                                   currentEpochSec, SecondsPerHour);
    EstimateBounded(pool, |kept|);
  }
}
