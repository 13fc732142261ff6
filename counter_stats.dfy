// Windowed counts of a counter: last minute, last hour and all time, from a
// snapshot holding a 60-slot ring of per-minute-of-hour counts.

module CounterStats {
  import opened Utils

  /** A counter snapshot.  `minCounters[m]` holds the increments recorded while
      the minute of the hour was m, overwritten once an hour; `allTimeCount` is
      the exact total. */
  datatype CounterSnapshot = CounterSnapshot(
    latestTimeSec: int,
    minCounters: seq<int>,
    allTimeCount: int)

  /** The number of slots in the minute-of-hour ring. */
  const MinutesPerHour: int := 60

  /** The sum of a sequence of counts, as the `sum` built-in computes it. */
  function Sum(s: seq<int>): (total: int) {
    if s == [] then 0 else Sum(s[..|s| - 1]) + s[|s| - 1]
  }

  /** Ring position reached by stepping back `i` minutes from `startMinute`.
      Read the other way round, the same formula gives how many minutes (mod 60)
      slot `startMinute - i` lies behind slot `startMinute`. */
  function SlotBack(startMinute: int, i: int): (slot: int)
    ensures 0 <= slot < MinutesPerHour
  {
    (startMinute - i) % MinutesPerHour
  }

  /** Remainder modulo 60 is determined by any decomposition x == 60 * q + r. */
  lemma ModOfDecomposition(x: int, q: int, r: int)
    requires x == 60 * q + r && 0 <= r < 60
    ensures x % 60 == r
  {
  }

  /** Stepping back from a start slot is its own inverse on 0..59: the slot
      reached by stepping back `i` minutes lies `i` minutes behind the start. */
  lemma SlotBackInvolution(startMinute: int, i: int)
    requires 0 <= i < MinutesPerHour
    ensures SlotBack(startMinute, SlotBack(startMinute, i)) == i
  {
    var slot := SlotBack(startMinute, i);
    var q := (startMinute - i) / 60;
    assert startMinute - i == 60 * q + slot;
    ModOfDecomposition(startMinute - slot, q, i);
  }

  /** Last-minute count: the ring slot of the snapshot's latest minute when the
      query time lies in that minute block, 0 otherwise (behind or ahead). */
  function LastMinuteCount(counterData: CounterSnapshot, currentEpochSec: int): (r: int)
    requires |counterData.minCounters| == MinutesPerHour
    ensures SameMinuteBlock(counterData.latestTimeSec, currentEpochSec) ==>
      r == counterData.minCounters[MinutesSinceEpoch(counterData.latestTimeSec) % MinutesPerHour]
    ensures !SameMinuteBlock(counterData.latestTimeSec, currentEpochSec) ==> r == 0
  {
    SameMinuteIff(counterData.latestTimeSec, currentEpochSec);
    var lastMinSinceEpoch := MinutesSinceEpoch(counterData.latestTimeSec);
    var currMinSinceEpoch := MinutesSinceEpoch(currentEpochSec);
    if currMinSinceEpoch != lastMinSinceEpoch then 0
    else counterData.minCounters[MinuteOfHour(currentEpochSec)]
  }

  /** The counts met walking the ring back from `startMinute` for
      `numMinutesToGoBack` slots (none when that number is not positive). */
  function WalkBack(startMinute: int, numMinutesToGoBack: int, minCounters: seq<int>): (walk: seq<int>)
    requires |minCounters| == MinutesPerHour
  {
    var n := if numMinutesToGoBack > 0 then numMinutesToGoBack else 0;
    seq(n, i requires 0 <= i < n => minCounters[SlotBack(startMinute, i)])
  }

  /** Collects the counts of the `numMinutesToGoBack` slots ending at
      `startMinute`, going backward round the ring. */
  method FilterCountersData(startMinute: int, numMinutesToGoBack: int, minCounters: seq<int>)
    returns (filteredMins: seq<int>)
    requires |minCounters| == MinutesPerHour
    ensures |filteredMins| == if numMinutesToGoBack > 0 then numMinutesToGoBack else 0
    ensures forall i :: 0 <= i < |filteredMins| ==>
      filteredMins[i] == minCounters[SlotBack(startMinute, i)]
  {
    filteredMins := [];
    var i := 0;
    while i < numMinutesToGoBack
      invariant 0 <= i
      invariant i <= numMinutesToGoBack || i == 0
      invariant |filteredMins| == i
      invariant forall k :: 0 <= k < i ==> filteredMins[k] == minCounters[SlotBack(startMinute, k)]
    {
      var curMinPos := (startMinute - i) % MinutesPerHour;
      filteredMins := filteredMins + [minCounters[curMinPos]];
      i := i + 1;
    }
  }

  /** Whole minutes from the snapshot's latest minute to the query's minute. */
  function MinutesBehind(counterData: CounterSnapshot, currentEpochSec: int): (diff: int) {
    MinutesSinceEpoch(currentEpochSec) - MinutesSinceEpoch(counterData.latestTimeSec)
  }

  /** The last-hour count: 0 when the snapshot is an hour or more behind the
      query or ahead of it, otherwise the sum of the 60 - diff slots walked back
      from the slot of the latest minute. */
  function LastHourTotal(counterData: CounterSnapshot, currentEpochSec: int): (total: int)
    requires |counterData.minCounters| == MinutesPerHour
  {
    var diff := MinutesBehind(counterData, currentEpochSec);
    if diff >= MinutesPerHour || diff < 0 then 0
    else
      var lastMinOfHour := MinutesSinceEpoch(counterData.latestTimeSec) % MinutesPerHour;
      Sum(WalkBack(lastMinOfHour, MinutesPerHour - diff, counterData.minCounters))
  }

  /** Computes the last-hour count by collecting the live slots and summing them. */
  method LastHourCount(counterData: CounterSnapshot, currentEpochSec: int) returns (count: int)
    requires |counterData.minCounters| == MinutesPerHour
    ensures count == LastHourTotal(counterData, currentEpochSec)
  {
    var lastMinSinceEpoch := MinutesSinceEpoch(counterData.latestTimeSec);
    var currMinSinceEpoch := MinutesSinceEpoch(currentEpochSec);
    var differenceBtwCurrAndLast := currMinSinceEpoch - lastMinSinceEpoch;
    if differenceBtwCurrAndLast >= MinutesPerHour || differenceBtwCurrAndLast < 0 {
      return 0;
    }
    var lastMinOfHourWithData := lastMinSinceEpoch % MinutesPerHour;
    var numMinsWithDataInLastHour := MinutesPerHour - differenceBtwCurrAndLast;
    var filteredMins := FilterCountersData(lastMinOfHourWithData, numMinsWithDataInLastHour,
                                           counterData.minCounters);
    assert filteredMins == WalkBack(lastMinOfHourWithData, numMinsWithDataInLastHour,
                                    counterData.minCounters);
    count := Sum(filteredMins);
  }

  /** The all-time count: the stored exact total. */
  function AllTimeCount(counterData: CounterSnapshot): (r: int)
    ensures r == counterData.allTimeCount
  {
    counterData.allTimeCount
  }

  /** The walk back over at most 60 slots visits pairwise distinct slots, so no
      minute-of-hour is counted twice. */
  lemma WalkVisitsDistinctSlots(startMinute: int, n: int)
    requires n <= MinutesPerHour
    ensures forall i, j :: 0 <= i < j < n ==> SlotBack(startMinute, i) != SlotBack(startMinute, j)
  {
    forall i, j | 0 <= i < j < n
      ensures SlotBack(startMinute, i) != SlotBack(startMinute, j)
    {
      SlotBackInvolution(startMinute, i);
      SlotBackInvolution(startMinute, j);
    }
  }

  /** The sum over slots 0..k-1 of the counts of the slots that lie fewer than
      `n` minutes behind `startMinute`: the reference definition of the live
      part of the ring. */
  function LiveSlotsTotal(startMinute: int, n: int, minCounters: seq<int>, k: int): (total: int)
    requires |minCounters| == MinutesPerHour && 0 <= k <= MinutesPerHour
  {
    if k == 0 then 0
    else
      LiveSlotsTotal(startMinute, n, minCounters, k - 1)
      + (if SlotBack(startMinute, k - 1) < n then minCounters[k - 1] else 0)
  }

  /** With no slot live, the live total is zero. */
  lemma {:induction false} LiveSlotsNone(startMinute: int, minCounters: seq<int>, k: int)
    requires |minCounters| == MinutesPerHour && 0 <= k <= MinutesPerHour
    ensures LiveSlotsTotal(startMinute, 0, minCounters, k) == 0
  {
    if k > 0 {
      LiveSlotsNone(startMinute, minCounters, k - 1);
    }
  }

  /** Admitting the slot that lies exactly n minutes behind adds exactly that
      slot's count. */
  lemma {:induction false} LiveSlotsStep(startMinute: int, n: int, minCounters: seq<int>, k: int)
    requires |minCounters| == MinutesPerHour && 0 <= k <= MinutesPerHour
    requires 0 <= n < MinutesPerHour
    ensures LiveSlotsTotal(startMinute, n + 1, minCounters, k)
         == LiveSlotsTotal(startMinute, n, minCounters, k)
            + (if SlotBack(startMinute, n) < k then minCounters[SlotBack(startMinute, n)] else 0)
  {
    if k > 0 {
      LiveSlotsStep(startMinute, n, minCounters, k - 1);
      // slot k - 1 lies exactly n minutes behind iff it is the slot n steps back
      SlotBackInvolution(startMinute, n);
      SlotBackInvolution(startMinute, k - 1);
    }
  }

  /** The sum of the walk equals the live total: the walk back over
      n <= 60 slots counts exactly the slots fewer than n minutes behind. */
  lemma {:induction false} WalkSumIsLiveTotal(startMinute: int, n: int, minCounters: seq<int>)
    requires |minCounters| == MinutesPerHour && 0 <= n <= MinutesPerHour
    ensures Sum(WalkBack(startMinute, n, minCounters))
         == LiveSlotsTotal(startMinute, n, minCounters, MinutesPerHour)
  {
    if n == 0 {
      LiveSlotsNone(startMinute, minCounters, MinutesPerHour);
    } else {
      WalkSumIsLiveTotal(startMinute, n - 1, minCounters);
      LiveSlotsStep(startMinute, n - 1, minCounters, MinutesPerHour);
      var walk := WalkBack(startMinute, n, minCounters);
      assert walk[..n - 1] == WalkBack(startMinute, n - 1, minCounters);
    }
  }

  /** The full live total (every slot fewer than 60 minutes behind) is the sum
      of the ring's first k slots. */
  lemma {:induction false} LiveSlotsAll(startMinute: int, minCounters: seq<int>, k: int)
    requires |minCounters| == MinutesPerHour && 0 <= k <= MinutesPerHour
    ensures LiveSlotsTotal(startMinute, MinutesPerHour, minCounters, k) == Sum(minCounters[..k])
  {
    if k > 0 {
      LiveSlotsAll(startMinute, minCounters, k - 1);
      assert minCounters[..k][..k - 1] == minCounters[..k - 1];
    }
  }

  /** With non-negative counts, a live total lies between 0 and the ring sum. */
  lemma {:induction false} LiveSlotsBounded(startMinute: int, n: int, minCounters: seq<int>, k: int)
    requires |minCounters| == MinutesPerHour && 0 <= k <= MinutesPerHour
    requires forall m :: 0 <= m < MinutesPerHour ==> minCounters[m] >= 0
    ensures 0 <= LiveSlotsTotal(startMinute, n, minCounters, k) <= Sum(minCounters[..k])
  {
    if k > 0 {
      LiveSlotsBounded(startMinute, n, minCounters, k - 1);
      assert minCounters[..k][..k - 1] == minCounters[..k - 1];
    }
  }

  /** The last-hour count is the live total of the ring: the sum of the slots
      lying fewer than 60 - diff minutes behind the slot of the latest minute,
      i.e. the slots of the absolute minutes latest_min - d that fall in the
      trailing hour, where diff is how many minutes the snapshot lags the
      query; 0 when it lags an hour or more or leads the query.  Which minute
      last wrote a slot is not recorded, so a slot is chosen by its position
      alone. */
  lemma LastHourIsLiveSlots(counterData: CounterSnapshot, currentEpochSec: int)
    requires |counterData.minCounters| == MinutesPerHour
    ensures var diff := MinutesBehind(counterData, currentEpochSec);
      LastHourTotal(counterData, currentEpochSec) ==
        if diff >= MinutesPerHour || diff < 0 then 0
        else LiveSlotsTotal(MinutesSinceEpoch(counterData.latestTimeSec) % MinutesPerHour,
                            MinutesPerHour - diff, counterData.minCounters, MinutesPerHour)
  {
    var diff := MinutesBehind(counterData, currentEpochSec);
    if 0 <= diff < MinutesPerHour {
      WalkSumIsLiveTotal(MinutesSinceEpoch(counterData.latestTimeSec) % MinutesPerHour,
                         MinutesPerHour - diff, counterData.minCounters);
    }
  }

  /** Queried within the snapshot's latest minute, the last-hour count is the
      sum of all 60 slots, each counted once. */
  lemma LastHourInLatestMinuteIsRingSum(counterData: CounterSnapshot, currentEpochSec: int)
    requires |counterData.minCounters| == MinutesPerHour
    requires SameMinuteBlock(counterData.latestTimeSec, currentEpochSec)
    ensures LastHourTotal(counterData, currentEpochSec) == Sum(counterData.minCounters)
  {
    SameMinuteIff(counterData.latestTimeSec, currentEpochSec);
    LastHourIsLiveSlots(counterData, currentEpochSec);
    LiveSlotsAll(MinutesSinceEpoch(counterData.latestTimeSec) % MinutesPerHour,
                 counterData.minCounters, MinutesPerHour);
    assert counterData.minCounters[..MinutesPerHour] == counterData.minCounters;
  }

  /** With non-negative slot counts, the last-hour count never exceeds the sum
      of the ring and is never negative. */
  lemma LastHourWithinRingSum(counterData: CounterSnapshot, currentEpochSec: int)
    requires |counterData.minCounters| == MinutesPerHour
    requires forall m :: 0 <= m < MinutesPerHour ==> counterData.minCounters[m] >= 0
    ensures 0 <= LastHourTotal(counterData, currentEpochSec) <= Sum(counterData.minCounters)
  {
    LastHourIsLiveSlots(counterData, currentEpochSec);
    LiveSlotsBounded(MinutesSinceEpoch(counterData.latestTimeSec) % MinutesPerHour,
                     MinutesPerHour - MinutesBehind(counterData, currentEpochSec),
                     counterData.minCounters, MinutesPerHour);
    LiveSlotsBounded(0, 0, counterData.minCounters, MinutesPerHour);
    assert counterData.minCounters[..MinutesPerHour] == counterData.minCounters;
  }

  /** A snapshot whose latest event is an hour or more before the query, or
      in a later minute block than the query, yields a last-hour count of 0. */
  lemma LastHourStaleOrAheadIsZero(counterData: CounterSnapshot, currentEpochSec: int)
    requires |counterData.minCounters| == MinutesPerHour
    requires currentEpochSec >= counterData.latestTimeSec + 3600
          || currentEpochSec < counterData.latestTimeSec - counterData.latestTimeSec % 60
    ensures LastHourTotal(counterData, currentEpochSec) == 0
  {
    if currentEpochSec >= counterData.latestTimeSec + 3600 {
      MinutesApart(counterData.latestTimeSec, currentEpochSec, 60);
    }
  }

  /** Step i of the walk (i < 60 - diff) reads the slot of the absolute minute
      latestMin - i, and that minute lies in the trailing hour
      (currentMin - 60, currentMin]: the walk reads only live data. */
  lemma WalkStaysInTrailingHour(latestMin: int, currentMin: int, i: int)
    requires 0 <= currentMin - latestMin < MinutesPerHour
    requires 0 <= i < MinutesPerHour - (currentMin - latestMin)
    ensures SlotBack(latestMin % MinutesPerHour, i) == (latestMin - i) % MinutesPerHour
    ensures currentMin - MinutesPerHour < latestMin - i <= currentMin
  {
    var q := latestMin / 60;
    var r := (latestMin % 60 - i) % 60;
    var q2 := (latestMin % 60 - i) / 60;
    assert latestMin % 60 - i == 60 * q2 + r;
    ModOfDecomposition(latestMin - i, q + q2, r);
  }
}
