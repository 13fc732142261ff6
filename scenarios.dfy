// The fixtures of the sampler tests, queried at the snapshot's own latest
// time (1400000000 in the tests; any latest time gives the same results), and
// the stale-counter scenario.

module StatsScenarios {
  import opened Sorting
  import opened SamplerStats
  import opened CounterStats

  /** A strictly ascending sequence of indices that holds exactly 0..m-1 is
      the sequence 0, 1, ..., m-1. */
  lemma {:induction false} IncreasingCoverIsRange(idx: seq<int>, m: nat)
    requires forall k, l :: 0 <= k < l < |idx| ==> idx[k] < idx[l]
    requires forall k :: 0 <= k < |idx| ==> 0 <= idx[k] < m
    requires forall i :: 0 <= i < m ==> i in idx
    ensures idx == Range(m)
  {
    if m == 0 {
      assert |idx| == 0;
    } else {
      assert m - 1 in idx;
      var p :| 0 <= p < |idx| && idx[p] == m - 1;
      var last := |idx| - 1;
      assert idx[last] == m - 1;
      var front := idx[..last];
      forall i | 0 <= i < m - 1
        ensures i in front
      {
        assert i in idx;
        var j :| 0 <= j < |idx| && idx[j] == i;
        assert j != last;
      }
      IncreasingCoverIsRange(front, m - 1);
      assert idx == front + [m - 1];
    }
  }

  /** A pool of the values 0..n-1 standing for `numEvents` events. */
  function FixturePool(n: nat, times: seq<int>, numEvents: int): (pool: SamplePool) {
    SamplePool(Range(n), times, numEvents, n)
  }

  /** Last-minute statistics of a pool of the values 0..n-1, queried in the
      minute of the latest event, whatever the timestamps of either pool. */
  lemma LastMinuteOfRange(latestTimeSec: int, n: nat, numEvents: int,
                          minuteTimes: seq<int>, allTimePool: SamplePool, expected: OrderStatistics)
    requires n > 0
    requires expected == OrderStatistics(n / 4, n / 2, (n * 3) / 4, (n * 95) / 100, n - 1)
    ensures var data := SamplerSnapshot(latestTimeSec, FixturePool(n, minuteTimes, numEvents),
                                        allTimePool);
      LastMinuteStats(data, latestTimeSec) == WindowedStats(expected, numEvents)
  {
    OrderStatisticsOfRange(n);
  }

  /** 100 last-minute samples standing for 2000 events. */
  lemma LastMinuteFixture(latestTimeSec: int, minuteTimes: seq<int>, allTimeTimes: seq<int>)
    ensures var data := SamplerSnapshot(latestTimeSec,
                                        FixturePool(100, minuteTimes, 2000),
                                        FixturePool(1000, allTimeTimes, 5000));
      LastMinuteStats(data, latestTimeSec)
        == WindowedStats(OrderStatistics(25, 50, 75, 95, 99), 2000)
  {
    LastMinuteOfRange(latestTimeSec, 100, 2000, minuteTimes, FixturePool(1000, allTimeTimes, 5000),
                      OrderStatistics(25, 50, 75, 95, 99));
  }

  /** All-time statistics of a pool of the values 0..n-1, whatever its timestamps. */
  lemma AllTimeOfRange(latestTimeSec: int, minutePool: SamplePool, n: nat, numEvents: int,
                       allTimeTimes: seq<int>, expected: OrderStatistics)
    requires n > 0
    requires expected == OrderStatistics(n / 4, n / 2, (n * 3) / 4, (n * 95) / 100, n - 1)
    ensures var data := SamplerSnapshot(latestTimeSec, minutePool,
                                        FixturePool(n, allTimeTimes, numEvents));
      AllTimeStats(data) == WindowedStats(expected, numEvents)
  {
    OrderStatisticsOfRange(n);
  }

  /** 1000 all-time samples over three days standing for 5000 events. */
  lemma AllTimeFixture(latestTimeSec: int, minuteTimes: seq<int>, allTimeTimes: seq<int>)
    ensures var data := SamplerSnapshot(latestTimeSec,
                                        FixturePool(100, minuteTimes, 2000),
                                        FixturePool(1000, allTimeTimes, 5000));
      AllTimeStats(data) == WindowedStats(OrderStatistics(250, 500, 750, 950, 999), 5000)
  {
    AllTimeOfRange(latestTimeSec, FixturePool(100, minuteTimes, 2000), 1000, 5000, allTimeTimes,
                   OrderStatistics(250, 500, 750, 950, 999));
  }

  /** Timestamps of n samples going back from the latest time, `step` seconds
      apart: sample x is step * x seconds old. */
  function SpacedTimes(latestTimeSec: int, step: int, n: nat): (times: seq<int>)
    ensures |times| == n
    ensures forall x :: 0 <= x < n ==> times[x] == latestTimeSec - step * x
  {
    seq(n, x => latestTimeSec - step * x)
  }

  /** With a positive spacing, sample x is younger than sample k exactly when
      x < k. */
  lemma ScaledOrder(step: int, x: int, k: int)
    requires step > 0 && x >= 0
    ensures (step * x < step * k) == (x < k) && step * x >= 0
  {
  }

  /** Of n samples spaced `step` seconds apart with step * k == 3600, exactly
      the first k are under an hour old. */
  lemma {:induction false} SpacedWindowKeepsFirst(latestTimeSec: int, step: int, k: nat, n: nat)
    requires step > 0 && step * k == SecondsPerHour && k <= n
    ensures FilterLastNSeconds(Range(n), SpacedTimes(latestTimeSec, step, n),
                               latestTimeSec, SecondsPerHour) == Range(k)
  {
    var times := SpacedTimes(latestTimeSec, step, n);
    var idx := KeptIndices(times, latestTimeSec, SecondsPerHour);
    forall i | 0 <= i < k
      ensures i in idx
    {
      ScaledOrder(step, i, k);
      assert InWindow(times[i], latestTimeSec, SecondsPerHour);
    }
    forall j | 0 <= j < |idx|
      ensures idx[j] < k
    {
      var x := idx[j];
      assert InWindow(times[x], latestTimeSec, SecondsPerHour);
      ScaledOrder(step, x, k);
    }
    IncreasingCoverIsRange(idx, k);
    var kept := FilterLastNSeconds(Range(n), times, latestTimeSec, SecondsPerHour);
    assert |kept| == k;
    assert forall j :: 0 <= j < k ==> kept[j] == Range(n)[idx[j]] == j;
  }

  /** Last-hour statistics of a pool of the values 0..n-1 spaced `step`
      seconds apart, of which the first k (step * k == 3600) are under an hour old. */
  lemma LastHourOfSpacedRange(latestTimeSec: int, minutePool: SamplePool,
                              step: int, k: nat, n: nat, numEvents: int,
                              expected: OrderStatistics, expectedCount: int)
    requires step > 0 && step * k == SecondsPerHour && 0 < k <= n
    requires expected == OrderStatistics(k / 4, k / 2, (k * 3) / 4, (k * 95) / 100, k - 1)
    requires expectedCount == (numEvents * k) / n
    ensures var data := SamplerSnapshot(latestTimeSec, minutePool,
                          FixturePool(n, SpacedTimes(latestTimeSec, step, n), numEvents));
      LastHourStats(data, latestTimeSec) == WindowedStats(expected, expectedCount)
  {
    SpacedWindowKeepsFirst(latestTimeSec, step, k, n);
    OrderStatisticsOfRange(k);
  }

  /** 600 all-time samples over three hours (18 seconds apart) standing for
      6000 events: one third of the pool falls in the hour. */
  lemma LastHourFixture(latestTimeSec: int, minuteTimes: seq<int>)
    ensures var data := SamplerSnapshot(latestTimeSec,
                                        FixturePool(100, minuteTimes, 2000),
                                        FixturePool(600, SpacedTimes(latestTimeSec, 18, 600), 6000));
      LastHourStats(data, latestTimeSec)
        == WindowedStats(OrderStatistics(50, 100, 150, 190, 199), 2000)
  {
    LastHourOfSpacedRange(latestTimeSec, FixturePool(100, minuteTimes, 2000), 18, 200, 600, 6000,
                          OrderStatistics(50, 100, 150, 190, 199), 2000);
  }

  /** A counter whose latest increment is 90 minutes before the query reports
      nothing for the last minute or hour, and its stored all-time total. */
  lemma StaleCounterScenario(counterData: CounterSnapshot, currentEpochSec: int)
    requires |counterData.minCounters| == MinutesPerHour
    requires currentEpochSec == counterData.latestTimeSec + 90 * 60
    ensures LastMinuteCount(counterData, currentEpochSec) == 0
    ensures LastHourTotal(counterData, currentEpochSec) == 0
    ensures AllTimeCount(counterData) == counterData.allTimeCount
  {
    LastHourStaleOrAheadIsZero(counterData, currentEpochSec);
  }
}
