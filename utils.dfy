// Clock-alignment helpers shared by the sampler and counter windows.

module Utils {

  /** Seconds in one minute: the width of every minute block below. */
  const SecondsPerMinute: int := 60

  /** Minutes elapsed since the epoch: floor division of a timestamp by 60.
      The result is the number of the 60-second block the timestamp falls in. */
  function MinutesSinceEpoch(secSinceEpoch: int): (m: int)
    ensures m * 60 <= secSinceEpoch < m * 60 + 60
  {
    secSinceEpoch / SecondsPerMinute
  }

  /** The wall-clock minute of the hour of a timestamp, in 0..59.  This is the
      `.minute` of the local date-time of the timestamp when the local offset
      from UTC is a whole number of hours. */
  function MinuteOfHour(secSinceEpoch: int): (minute: int)
    ensures 0 <= minute < 60
    ensures (MinutesSinceEpoch(secSinceEpoch) - minute) % 60 == 0
  {
    MinutesSinceEpoch(secSinceEpoch) % 60
  }

  /** `b` lies in the 60-second block, aligned on a multiple of 60, that holds `a`. */
  predicate SameMinuteBlock(a: int, b: int) {
    a - a % 60 <= b < a - a % 60 + 60
  }

  /** Two timestamps map to the same minute exactly when they share a minute block. */
  lemma SameMinuteIff(a: int, b: int)
    ensures MinutesSinceEpoch(a) == MinutesSinceEpoch(b) <==> SameMinuteBlock(a, b)
  {
    var ma, mb := MinutesSinceEpoch(a), MinutesSinceEpoch(b);
    assert a - a % 60 == ma * 60;
    if SameMinuteBlock(a, b) {
      assert ma * 60 <= b < ma * 60 + 60;
      assert mb * 60 <= b < mb * 60 + 60;
    }
  }

  /** Later timestamps never map to an earlier minute. */
  lemma MinutesMonotone(a: int, b: int)
    requires a <= b
    ensures MinutesSinceEpoch(a) <= MinutesSinceEpoch(b)
  {
  }

  /** Moving a timestamp forward by one minute moves its minute forward by one. */
  lemma NextMinute(s: int)
    ensures MinutesSinceEpoch(s + 60) == MinutesSinceEpoch(s) + 1
  {
  }

  /** The minutes of two timestamps differ by at least as many whole minutes
      as separate them, less one. */
  lemma MinutesApart(a: int, b: int, k: int)
    requires a + 60 * k <= b
    ensures MinutesSinceEpoch(a) + k <= MinutesSinceEpoch(b)
  {
  }
}
