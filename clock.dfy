/**
 * The time base shared by every calculation of the tracker.
 *
 * An instant is a whole number of milliseconds on the local timeline; the
 * host's `Date` object and its calendar are replaced by such numbers, and a
 * local day is taken to last exactly `DayMs` milliseconds (no daylight-saving
 * shift).
 */
module Clock {
  const SecondMs: int := 1000
  const MinuteMs: int := 60 * SecondMs
  const HourMs: int := 60 * MinuteMs
  const DayMs: int := 24 * HourMs

  /** Hours in a day, minutes in an hour, seconds in a minute. */
  const HoursPerDay: int := 24
  const MinutesPerHour: int := 60
  const SecondsPerMinute: int := 60
}
