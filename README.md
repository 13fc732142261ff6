# varz windowed statistics, modelled in Dafny

This project models the windowed-statistics engine of varz. The engine takes a
pre-aggregated snapshot of one metric and a query time `currentEpochSec`. From
them it derives last-minute, last-hour and all-time views.

- A **sampler** snapshot holds a last-minute pool of sample values and a
  down-sampled all-time pool. The all-time pool has one timestamp per value,
  the true event count and the pool size. Each window yields the quartiles,
  the median, the 95th percentile, the largest value and an event count.
- A **counter** snapshot holds a 60-slot ring of per-minute-of-hour counts and
  the exact all-time total. Each window yields one count.

Modules:

- `Utils` (`utils.dfy`) holds the clock-alignment helpers: minutes since the epoch, minute of the
  hour, and when two timestamps share a minute.
- `Sorting` (`sorting.dfy`) holds the sorted copy the order statistics are taken from. It is an insertion
  sort proved ascending and a permutation of its input. A lemma proves that
  any two ascending permutations are equal, so the statistics do not depend on
  which sort produces them.
- `SamplerStats` (`sampler_stats.dfy`) holds the order statistics, the time-window filter, the
  event-count estimate and the three sampler windows.
- `CounterStats` (`counter_stats.dfy`) holds the three counter windows. `FilterCountersData` is a
  method with a loop, as in the source. So `LastHourCount` is a method too. It
  is proved equal to the function `LastHourTotal`, and the lemmas about the
  last hour are stated on that function. The main lemma, `WalkSumIsLiveTotal`,
  ties the backward walk round the ring to a reference definition,
  `LiveSlotsTotal`. That definition sums the slots lying fewer than
  60 - diff minutes behind the latest slot, where diff is how many minutes the
  snapshot lags the query. These are the slots of the absolute minutes
  latest_min - d that fall in the trailing hour.
- `StatsScenarios` (`scenarios.dfy`) holds the sampler test fixtures and a stale-counter scenario.
  Each fixture is first proved for a pool of any size n. The concrete test
  numbers are then an instance.

The source builds each stats object once and never updates its fields. So the
objects become plain arguments: the snapshot and `currentEpochSec` are passed
to every accessor. The dictionaries become records (`SamplerSnapshot`,
`SamplePool`, `CounterSnapshot`, `OrderStatistics`, `WindowedStats`).

The sampler tests build `SamplerStats` with one argument, but the constructor
takes two. The fixtures are modelled as queries at the snapshot's own latest
time, which is 1400000000 in the tests. The lemmas prove the expected results
for any latest time.

## Model

| member | source | states |
|---|---|---|
| Utils.MinutesSinceEpoch | utils.py:14-16 | the result m is the floor of s/60: m*60 <= s < m*60 + 60 |
| Utils.MinuteOfHour | stats.py:97-108 | the minute of the hour lies in 0..59 and is congruent mod 60 to the minutes since the epoch |
| Utils.SameMinuteIff | utils.py:16 | two timestamps have the same minute exactly when the second lies in the 60-second block holding the first |
| Utils.MinutesMonotone | utils.py:16 | minutes since the epoch are non-decreasing in the timestamp |
| Utils.NextMinute | utils.py:16 | s + 60 maps to exactly one more minute than s |
| Utils.MinutesApart | utils.py:16 | timestamps at least 60*k seconds apart are at least k minutes apart |
| Sorting.Insert | stats.py:59 | inserting into an ascending sequence gives an ascending sequence whose multiset gains exactly the new value |
| Sorting.SortedCopy | stats.py:59-60 | the sorted copy is ascending and a permutation of the input (same multiset, same length) |
| Sorting.SortedPermutationUnique | stats.py:59 | two ascending sequences with the same multiset are equal, so every ascending sort gives the same copy |
| SamplerStats.RankIndicesOrdered | stats.py:61-68 | for n >= 1 the rank indices satisfy 0 <= n/4 <= n/2 <= 3n/4 <= 95n/100 <= n-1, so every access is in range |
| SamplerStats.PickRanks | stats.py:61-68 | each statistic is an element of the sorted copy; on an ascending copy they are in rank order and the last is the maximum |
| SamplerStats.ComputeOrderStatistics | stats.py:51-73 | empty input gives all zeros; otherwise every field is a value of the input, q1 <= median <= q3 <= p95 <= largest, and largest is the input's maximum |
| SamplerStats.OrderStatisticsAtRanks | stats.py:59-68 | the statistics are the elements at indices n/4, n/2, 3n/4, 95n/100 and n-1 of ANY ascending permutation of the input |
| SamplerStats.OrderStatisticsOfRange | stats.py:59-68 | for the values 0..n-1 the statistics are n/4, n/2, 3n/4, 95n/100 and n-1 |
| SamplerStats.LastMinuteStats | stats.py:18-28 | the pool's statistics with count num_events when the query lies in the minute block of latest_time_sec; zero statistics and count 0 otherwise, whether the snapshot lags or leads |
| SamplerStats.AllTimeStats | stats.py:30-34 | the statistics of the whole retained pool with the stored event count, with no clock check |
| SamplerStats.KeptIndices | stats.py:82-85 | the kept positions are strictly ascending, each has its timestamp in (end-n, end], and every position whose timestamp is in that window is kept |
| SamplerStats.FilterLastNSeconds | stats.py:75-85 | the result keeps the values at exactly the in-window positions, in their original order, and has at most len(sample_times) elements |
| SamplerStats.EstimateNumEventsInLastHour | stats.py:45-49 | the estimate r is the floor of num_events*k/samples_size: r*size <= events*k < (r+1)*size |
| SamplerStats.EstimateBounded | stats.py:45-49 | for 0 <= k <= samples_size and num_events >= 0 the estimate lies in [0, num_events], and equals num_events when k == samples_size |
| SamplerStats.EstimateMonotone | stats.py:45-49 | for num_events >= 0, more in-window samples never lower the estimate |
| SamplerStats.LastHourStats | stats.py:36-43 | statistics of the values timed in (now-3600, now], with the count estimated from how many there are |
| SamplerStats.LastHourCountBounded | stats.py:36-49 | for num_events >= 0, when the pool holds no more timestamps than samples_size, the last-hour count lies in [0, num_events] |
| CounterStats.SlotBackInvolution | stats.py:142-145 | the slot reached by stepping back i (< 60) minutes lies exactly i minutes behind the start slot |
| CounterStats.LastMinuteCount | stats.py:94-109 | the ring slot of the snapshot's latest minute (latest_min % 60) when the query lies in that minute block; 0 otherwise, behind or ahead |
| CounterStats.FilterCountersData | stats.py:139-146 | returns max(n, 0) counts, the i-th read from slot (start - i) % 60 |
| CounterStats.LastHourCount | stats.py:111-137 | the collected walk summed equals LastHourTotal: 0 when diff >= 60 or diff < 0, else the sum of 60 - diff slots walked back from latest_min % 60 |
| CounterStats.AllTimeCount | stats.py:148-149 | the stored exact total, unchanged |
| CounterStats.WalkVisitsDistinctSlots | stats.py:142-146 | a walk of at most 60 steps visits pairwise distinct slots, so no slot is counted twice |
| CounterStats.LiveSlotsStep | stats.py:142-146 | widening the live window by one minute adds exactly the slot that lies that many minutes behind |
| CounterStats.WalkSumIsLiveTotal | stats.py:142-147 | the sum of the walk of n <= 60 slots equals the sum of the slots lying fewer than n minutes behind the start |
| CounterStats.LiveSlotsAll | stats.py:142-147 | when all 60 slots are live, the live total is the plain sum of the ring |
| CounterStats.LiveSlotsBounded | stats.py:142-147 | with non-negative counts, any live total lies between 0 and the ring sum |
| CounterStats.LastHourIsLiveSlots | stats.py:111-137 | the last-hour count is the sum of the slots lying fewer than 60 - diff minutes behind the latest slot (the slots of the absolute minutes latest_min - d in the trailing hour), and 0 when the snapshot lags an hour or more or leads |
| CounterStats.LastHourInLatestMinuteIsRingSum | stats.py:111-137 | queried in the latest minute (diff == 0), the last-hour count is the sum of all 60 slots |
| CounterStats.LastHourWithinRingSum | stats.py:111-137 | with non-negative slot counts, the last-hour count lies between 0 and the ring sum |
| CounterStats.LastHourStaleOrAheadIsZero | stats.py:111-120 | a snapshot an hour or more behind the query, or in a later minute block, gives a last-hour count of 0 |
| CounterStats.WalkStaysInTrailingHour | stats.py:124-135 | step i of the walk reads the slot of absolute minute latest_min - i, and that minute lies in (current_min - 60, current_min] |
| StatsScenarios.LastMinuteOfRange | stats.py:18-28 | queried in its own minute, a last-minute pool of 0..n-1 gives n/4, n/2, 3n/4, 95n/100, n-1 and its event count |
| StatsScenarios.LastMinuteFixture | test_stats.py:30-38 | the last-minute fixture gives 25/50/75/95/99 with count 2000 |
| StatsScenarios.AllTimeOfRange | stats.py:30-34 | an all-time pool of 0..n-1 gives n/4, n/2, 3n/4, 95n/100, n-1 and its event count, whatever its timestamps |
| StatsScenarios.AllTimeFixture | test_stats.py:40-48 | the three-day fixture gives 250/500/750/950/999 with count 5000 |
| StatsScenarios.SpacedWindowKeepsFirst | test_stats.py:20-27 | of n samples step seconds apart with step*k == 3600, the last-hour filter keeps exactly the first k values |
| StatsScenarios.LastHourOfSpacedRange | stats.py:36-49 | such a pool gives the statistics of 0..k-1 and the count num_events*k/n |
| StatsScenarios.LastHourFixture | test_stats.py:50-58 | the three-hour fixture of 600 samples gives 50/100/150/190/199 with count 2000 |
| StatsScenarios.StaleCounterScenario | stats.py:94-149 | a counter 90 minutes stale reports 0 for the last minute and the last hour, and its stored all-time total |

## Left out

- Time zones are not modelled. The `.minute` of the local date-time is modelled as `(s / 60) % 60`, which is right only when the local offset from UTC is a whole number of hours. The `datetime_to_sec_since_epoch` and `sec_since_epoch_to_datetime` helpers call `time.mktime` and `datetime.fromtimestamp`, which are not part of this model.
- EstimateNumEventsInLastHour: requires `samplesSize > 0`, as do LastHourStats and the lemmas built on them. At stats.py:49 the source divides by `samples_size` without a guard, so a pool size of 0 raises `ZeroDivisionError`; the model does not represent that error.
- LastHourIsLiveSlots: a slot is counted by its position in the ring, not by when it was last written, which the snapshot does not record. Stale data is excluded only if the collector rewrites or clears every slot each minute. Otherwise an old count left in a slot whose minute had no increments is summed, as the source does at stats.py:142-145.
- Missing keys cannot arise in the records, so the `KeyError` the source raises for them is not modelled.
- LastMinuteCount: requires `|minCounters| == 60`, as do LastHourTotal, LastHourCount and FilterCountersData. The source only reads slots 0..59 (stats.py:108-109 and 144-145), and returns 0 before reading any slot when the snapshot is out of range (stats.py:105-106 and 119-120). So the precondition also excludes longer rings, which the source accepts, and shorter rings in the cases where the source never reads a missing slot.
- FilterLastNSeconds: requires `|sampleValues| >= |sampleTimesSec|`, as do LastHourStats and LastHourCountBounded. The source reads `sample_values[i]` only for in-window positions (stats.py:85), so it fails only when such a position lies past the end of the values. For example, values `[10]` with times `[100, 50]`, end 100 and a 50-second window give `[10]`. The precondition excludes such inputs too.
- Python's `sorted` (Timsort) is not modelled as written. An insertion sort stands in for it. `SortedPermutationUnique` shows that every ascending permutation gives the same result.
- The timestamps of the test fixtures are built with float arithmetic (`int(x * step)`). Only the three-hour fixture needs them. There the step is exactly -18.0, so sample x is 18*x seconds old, and `SpacedTimes` builds that directly. The other fixtures' results are proved for any timestamps.
- The network client, report printing, the benchmark and the smoke test are I/O and presentation around the engine and are not part of this model.
