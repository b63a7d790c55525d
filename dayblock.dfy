/**
 * The ten-minute block of the local day that has started
 * (`getCurrentDayBlock`): 144 blocks, six per hour.
 */
module DayBlock {
  import opened Clock

  const BlockMinutes: int := 10
  const BlocksPerDay: int := 144

  /** The minute of the day at a local wall-clock hour and minute. */
  function MinuteOfDay(hour: int, minute: int): int {
    hour * MinutesPerHour + minute
  }

  /**
   * The block in which `hour`:`minute` falls. The host's clock always reports
   * an hour in 0..23 and a minute in 0..59.
   */
  function CurrentDayBlock(hour: int, minute: int): (b: int)
    requires 0 <= hour < HoursPerDay && 0 <= minute < MinutesPerHour
    ensures 0 <= b < BlocksPerDay
    ensures b * BlockMinutes <= MinuteOfDay(hour, minute) < (b + 1) * BlockMinutes
  {
    MinuteOfDay(hour, minute) / BlockMinutes
  }

  /** The wall-clock hour and minute at which block `b` starts. */
  function BlockStart(b: int): (hm: (int, int))
    requires 0 <= b < BlocksPerDay
    ensures 0 <= hm.0 < HoursPerDay && 0 <= hm.1 < MinutesPerHour
    ensures MinuteOfDay(hm.0, hm.1) == b * BlockMinutes
  {
    (b / 6, (b % 6) * BlockMinutes)
  }

  /** Every one of the 144 blocks is reached, at its own start. */
  lemma {:induction false} BlockStartRoundTrip(b: int)
    requires 0 <= b < BlocksPerDay
    ensures CurrentDayBlock(BlockStart(b).0, BlockStart(b).1) == b
  {
    var hm := BlockStart(b);
    assert MinuteOfDay(hm.0, hm.1) == b * BlockMinutes;
  }

  /** Through the day the block index never decreases. */
  lemma {:induction false} DayBlockMonotone(h1: int, m1: int, h2: int, m2: int)
    requires 0 <= h1 < HoursPerDay && 0 <= m1 < MinutesPerHour
    requires 0 <= h2 < HoursPerDay && 0 <= m2 < MinutesPerHour
    requires MinuteOfDay(h1, m1) <= MinuteOfDay(h2, m2)
    ensures CurrentDayBlock(h1, m1) <= CurrentDayBlock(h2, m2)
  {
    var b1, b2 := CurrentDayBlock(h1, m1), CurrentDayBlock(h2, m2);
    assert b1 * BlockMinutes < (b2 + 1) * BlockMinutes;
  }
}
