# Memento mori: the tracker's time arithmetic, in Dafny

The `MementoMori` component draws a "memento mori" year and life tracker. Under
its markup there is a small computational core, and this project models it:

- the countdown to the last millisecond of the selected year;
- the year and life depletion percentages;
- the index of the current ten-minute block of the day;
- the 52-week grid of the year, its four quarters, and the "completed" and
  "current" week tests;
- the daily virtue mark, a one-bit flag that expires at the end of the day.

The host's `Date` object does not appear in the model. An instant is a whole
number of milliseconds on the local timeline. A local day lasts exactly
86 400 000 ms. The instants the component builds from date strings become
parameters: the target, the start and end of the year, and the birth and
expected death dates. The dates in the week grid become day offsets from
Jan 1. The date strings the virtue mark compares are opaque strings. The
current instant `now`, and the wall-clock hour and minute, are parameters too.

Modules: `Clock` (the time units), `Countdown`, `Depletion`, `DayBlock`,
`WeekGrid`, `Virtue`, and `Wrappers` (an `Option` for JavaScript's `null`).
The pure calculations are functions with lemmas. `generateWeeks` is a method
whose loop appends one week at a time. The virtue mark's two state fields form
the class `Virtue.VirtueMark`. Its methods are specified by the functions
`Virtue.Click` and `Virtue.Expire`, and the lemmas are stated about those
functions.

## Model

| member | source | states |
|---|---|---|
| Countdown.Calculate | src/components/year-tracker-2026.tsx:74-90 | the fields are normalized (hours < 24, minutes < 60, seconds < 60, ms < 1000, nothing negative); for a positive difference they recompose exactly to target − now; otherwise the countdown is all zero |
| Countdown.Recompose | src/components/year-tracker-2026.tsx:83-87 | the 24/60/60/1000 quotient and remainder chain of any non-negative millisecond count adds back up to that count |
| Countdown.DecompositionUnique | src/components/year-tracker-2026.tsx:83-89 | any normalized countdown that recomposes to the positive difference is the one computed, so the split is unique |
| Countdown.ZeroAfterTarget | src/components/year-tracker-2026.tsx:77-81 | once the target is reached, every later instant gives the zero countdown |
| Countdown.CountdownNonIncreasing | src/components/year-tracker-2026.tsx:74-90 | the remaining time never grows as now advances |
| Countdown.FirstInstantOfCommonYear | src/components/year-tracker-2026.tsx:74-90 | at the first instant of a 365-day year the countdown reads 364 days 23:59:59.999 |
| Depletion.ElapsedPercent | src/components/year-tracker-2026.tsx:98-104 | the result is in [0, 100]; it is 0 when elapsed ≤ 0 and 100 when elapsed ≥ total; it is strictly between them when 0 < elapsed < total; the division is reached only when total > 0 |
| Depletion.ElapsedPercentIsClampedRatio | src/components/year-tracker-2026.tsx:98-104 | for a positive-length interval the result equals the raw percentage 100·elapsed/total clamped to [0, 100] |
| Depletion.ElapsedPercentMonotone | src/components/year-tracker-2026.tsx:98-104 | for fixed bounds the percentage is non-decreasing in now |
| Depletion.ZeroLengthSaturates | src/components/year-tracker-2026.tsx:111-119 | a zero-length life gives 0 up to its start and 100 after it, with no division |
| Depletion.Endpoints | src/components/year-tracker-2026.tsx:96-104 | the first instant of the interval gives 0 and its last instant gives 100 |
| DayBlock.CurrentDayBlock | src/components/year-tracker-2026.tsx:125-130 | for hour 0..23 and minute 0..59 the block is in 0..143 and is the one whose ten minutes contain the minute of the day |
| DayBlock.BlockStartRoundTrip | src/components/year-tracker-2026.tsx:125-134 | every one of the 144 blocks is reached, at its start time |
| DayBlock.DayBlockMonotone | src/components/year-tracker-2026.tsx:125-130 | the block index never decreases through the day |
| WeekGrid.QuarterOf | src/components/year-tracker-2026.tsx:26 | the quarter q of week w is the ceiling of w/13: 13(q−1) < w ≤ 13q |
| WeekGrid.GenerateWeeks | src/components/year-tracker-2026.tsx:15-31 | 52 weeks; week i+1 at index i spans day offsets 7i to 7i+6; consecutive weeks touch without overlap; each quarter is in 1..4 |
| WeekGrid.Quarters | src/components/year-tracker-2026.tsx:200-206 | four slices; for 52 weeks slice k is exactly weeks 13k+1 to 13k+13, and the slices concatenate back to the weeks |
| WeekGrid.QuartersOfGrid | src/components/year-tracker-2026.tsx:200-206 | each slice of the grid holds 13 weeks, all tagged with quarter slice index + 1 |
| WeekGrid.DayInExactlyOneWeek | src/components/year-tracker-2026.tsx:18-27 | each day offset 0..363 lies in exactly one grid week, week d/7 + 1 |
| WeekGrid.YearEndOutsideGrid | src/components/year-tracker-2026.tsx:18-27 | day offsets 364 and 365, the last one or two days of the year, lie in no grid week |
| WeekGrid.NoWeek53 | src/components/year-tracker-2026.tsx:18-27 | no grid week carries number 53 |
| WeekGrid.IsWeekCompleted | src/components/year-tracker-2026.tsx:137-141 | a week is completed exactly when now is strictly after 23:59:59.000 of its last day, so already within that day's last 999 ms |
| WeekGrid.CurrentWeekNumber | src/components/year-tracker-2026.tsx:143-155 | null exactly when now is outside [start, end]; otherwise a number w ≥ 1 such that now lies in the w-th 7-day window from the start |
| WeekGrid.CurrentWeekIsGridWindow | src/components/year-tracker-2026.tsx:148-154 | when the current week number and the grid count from the same year start, a current week number of at most 52 names the grid week whose days contain now |
| WeekGrid.WeekNumberRange | src/components/year-tracker-2026.tsx:143-155 | in a 365- or 366-day year whose end is 23:59:59 of its last day counted from the same start, the current week number is in 1..53 and is 53 exactly from day offset 364 on |
| WeekGrid.CompletedVersusCurrent | src/components/year-tracker-2026.tsx:137-154 | when both tests count from the same year start, weeks before the current one are completed, weeks after it are not, and the current week counts as completed only in the last 999 ms of its last day |
| Virtue.Click | src/components/year-tracker-2026.tsx:65-72 | after a click the mark is set and stamped with today, whatever the state before |
| Virtue.Expire | src/components/year-tracker-2026.tsx:56-63 | after the expiry step the stamp is absent or today's, and the step never sets the mark |
| Virtue.ExpireExactly | src/components/year-tracker-2026.tsx:56-63 | the expiry step changes the state exactly when the stamp is set and is not today's, and then it resets to (false, null) |
| Virtue.ClickIdempotent | src/components/year-tracker-2026.tsx:65-72 | clicking again on the same day changes nothing |
| Virtue.StepsPreserveConsistent | src/components/year-tracker-2026.tsx:56-72 | starting from (false, null), the mark is set exactly when a stamp is held, after either step |
| Virtue.MarkHeldOnlyToday | src/components/year-tracker-2026.tsx:56-63 | after the expiry step the mark is set exactly when it was stamped today |
| Virtue.ClickThenExpire | src/components/year-tracker-2026.tsx:56-72 | a mark set on one day survives that day's expiry step and is cleared on any other day |
| Virtue.VirtueMark.constructor | src/components/year-tracker-2026.tsx:8-9 | the state starts as (false, null) |
| Virtue.VirtueMark.HandleClick | src/components/year-tracker-2026.tsx:65-72 | the fields are updated in place as `Click` prescribes |
| Virtue.VirtueMark.CheckExpiry | src/components/year-tracker-2026.tsx:56-63 | the fields are updated in place as `Expire` prescribes |

## Left out

- Markup, styling and colour or opacity selection (src/components/year-tracker-2026.tsx:208-812): presentation only.
- The `requestAnimationFrame` refresh loop and its cancellation (lines 36-49): host scheduling. The current instant is a parameter of every calculation instead.
- `Date` construction and parsing, `toISOString()` and `toDateString()`: library calendar and timezone behaviour. Instants and day offsets are parameters on one local timeline without daylight-saving shifts. Two consequences are not captured. First, `new Date("Y-01-01")` in `getCurrentWeekNumber` parses as UTC midnight while the date-time strings parse as local time, so the current-week windows move by the local UTC offset. Second, `toISOString()` in `generateWeeks` writes the UTC date of local midnight: east of UTC that is the previous day, so every week's start and end date, and with the end date the "completed" test, move one whole day earlier; west of UTC the dates do not move.
- WeekGrid.CurrentWeekIsGridWindow: holds of the source only where local time is UTC without daylight saving; the lemma gives the current week number and the grid one shared year start, while the source counts the current week from UTC midnight and the grid from local midnight.
- WeekGrid.WeekNumberRange: takes the year's end to be 23:59:59 on its last day counted from the same start as the current week number; the source parses the start as UTC midnight and the end as local time, so outside UTC the accepted range is longer or shorter by the UTC offset.
- WeekGrid.CompletedVersusCurrent: holds of the source only where local time is UTC without daylight saving, for the same reason; west of UTC a week can already be current while the week before is not yet completed, and east of UTC a week shows as completed a day early.
- Floating point: the depletion percentages are exact reals, so the rounding of IEEE doubles is not modelled, and neither is a NaN from an invalid date.
- WeekGrid.GenerateWeeks: the `year` argument is not a parameter, because it reaches only the `Date` constructor; the week dates are day offsets from Jan 1 of that year.
- Virtue: React's batched and deferred state updates are modelled as sequential updates of the two fields, and the expiry effect as a step the caller runs on each tick.
- `generateLifeScaleWeeks` (lines 181-196): it depends on the floating constants 365.25 and 30.44 and on the wall-clock month and day.
- `pad`, `padStart` and `toFixed` formatting: library string formatting.
- The selection option arrays, `generateCenturyYears` and the cosmic-view toggle (lines 52-54, 163-177): they compute no behaviour beyond fixed ranges.
