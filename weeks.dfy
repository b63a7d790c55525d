/**
 * The weekly grid of the selected year (`generateWeeks`, the `quarters`
 * slices, `isWeekCompleted`, `getCurrentWeekNumber`).
 *
 * The year is cut into 52 consecutive 7-day windows from Jan 1, which is not
 * ISO 8601 week numbering. A window's dates are day offsets from Jan 1 of the
 * year; `startOfYear` is the instant of local midnight on Jan 1, so day offset
 * `d` starts at `startOfYear + d * DayMs`.
 */
module WeekGrid {
  import opened Clock
  import opened Wrappers

  const WeeksPerYear: int := 52
  const WeeksPerQuarter: int := 13
  const DaysPerWeek: int := 7

  datatype Week = Week(weekNumber: int, startDay: int, endDay: int, quarter: int)

  /** `Math.ceil(week / 13)`, the quarter a week number belongs to. */
  function QuarterOf(week: int): (q: int)
    ensures WeeksPerQuarter * (q - 1) < week <= WeeksPerQuarter * q
  {
    (week + WeeksPerQuarter - 1) / WeeksPerQuarter
  }

  /** Week number `w` of the grid: days 7(w-1) through 7w-1 after Jan 1. */
  predicate IsGridWeek(wk: Week, w: int) {
    wk.weekNumber == w &&
    wk.startDay == DaysPerWeek * (w - 1) &&
    wk.endDay == DaysPerWeek * w - 1 &&
    wk.quarter == QuarterOf(w)
  }

  /** What `generateWeeks` builds: week `i + 1` at index `i`, 52 of them. */
  predicate IsWeekGrid(weeks: seq<Week>) {
    |weeks| == WeeksPerYear &&
    forall i :: 0 <= i < |weeks| ==> IsGridWeek(weeks[i], i + 1)
  }

  /**
   * Builds the 52 windows one by one, as the source pushes them onto an array.
   * Each window spans seven days, follows the previous one without gap or
   * overlap and carries a quarter in 1..4.
   */
  method GenerateWeeks() returns (weeks: seq<Week>)
    ensures IsWeekGrid(weeks)
    ensures forall i :: 0 <= i < |weeks| ==>
      weeks[i].endDay - weeks[i].startDay == DaysPerWeek - 1 && 1 <= weeks[i].quarter <= 4
    ensures forall i :: 0 < i < |weeks| ==> weeks[i].startDay == weeks[i - 1].endDay + 1
  {
    weeks := [];
    for week := 1 to WeeksPerYear + 1
      invariant |weeks| == week - 1
      invariant forall i :: 0 <= i < |weeks| ==> IsGridWeek(weeks[i], i + 1)
    {
      var startDay := DaysPerWeek * (week - 1);
      var endDay := DaysPerWeek * week - 1;
      weeks := weeks + [Week(week, startDay, endDay, QuarterOf(week))];
    }
  }

  /**
   * `Array.prototype.slice` with non-negative bounds: both bounds are cut
   * back to the length, and a range that ends before it starts is empty.
   */
  function Slice<T>(s: seq<T>, lo: nat, hi: nat): (r: seq<T>)
    ensures hi <= |s| && lo <= hi ==> r == s[lo..hi]
    ensures |r| <= |s|
  {
    var a := if lo < |s| then lo else |s|;
    var b := if hi < |s| then hi else |s|;
    if b < a then [] else s[a..b]
  }

  /** The four groups of 13 weeks the grid is displayed in. */
  function Quarters(weeks: seq<Week>): (qs: seq<seq<Week>>)
    ensures |qs| == 4
    ensures |weeks| == WeeksPerYear ==> qs[0] + qs[1] + qs[2] + qs[3] == weeks
    ensures |weeks| == WeeksPerYear ==>
      forall k :: 0 <= k < 4 ==> qs[k] == weeks[WeeksPerQuarter * k..WeeksPerQuarter * (k + 1)]
  {
    var qs := [Slice(weeks, 0, 13), Slice(weeks, 13, 26), Slice(weeks, 26, 39), Slice(weeks, 39, 52)];
    assert |weeks| == WeeksPerYear ==> qs[0] + qs[1] + qs[2] + qs[3] == weeks by {
      if |weeks| == WeeksPerYear {
        assert weeks == weeks[0..13] + weeks[13..26] + weeks[26..39] + weeks[39..52];
      }
    }
    assert |weeks| == WeeksPerYear ==>
      forall k :: 0 <= k < 4 ==> qs[k] == weeks[WeeksPerQuarter * k..WeeksPerQuarter * (k + 1)] by {
      if |weeks| == WeeksPerYear {
        forall k | 0 <= k < 4 ensures qs[k] == weeks[WeeksPerQuarter * k..WeeksPerQuarter * (k + 1)] {
          if k == 0 {} else if k == 1 {} else if k == 2 {} else {}
        }
      }
    }
    qs
  }

  /**
   * Each quarter slice of the grid holds 13 weeks, all tagged with the slice
   * index plus one.
   */
  lemma {:induction false} QuartersOfGrid(weeks: seq<Week>, k: int)
    requires IsWeekGrid(weeks) && 0 <= k < 4
    ensures |Quarters(weeks)[k]| == WeeksPerQuarter
    ensures forall j :: 0 <= j < WeeksPerQuarter ==> Quarters(weeks)[k][j].quarter == k + 1
  {
    var q := Quarters(weeks)[k];
    assert q == weeks[WeeksPerQuarter * k..WeeksPerQuarter * (k + 1)];
    forall j | 0 <= j < WeeksPerQuarter
      ensures q[j].quarter == k + 1
    {
      var w := WeeksPerQuarter * k + j + 1;
      assert IsGridWeek(weeks[w - 1], w);
      var qw := QuarterOf(w);
      assert WeeksPerQuarter * (qw - 1) < w <= WeeksPerQuarter * qw;
    }
  }

  /** Day offset `d` of the year lies in exactly one week of the grid, week d / 7 + 1. */
  lemma {:induction false} DayInExactlyOneWeek(weeks: seq<Week>, d: int)
    requires IsWeekGrid(weeks) && 0 <= d < DaysPerWeek * WeeksPerYear
    ensures var i := d / DaysPerWeek; 0 <= i < |weeks| && weeks[i].startDay <= d <= weeks[i].endDay
    ensures forall i :: 0 <= i < |weeks| && weeks[i].startDay <= d <= weeks[i].endDay ==> i == d / DaysPerWeek
  {
    var k := d / DaysPerWeek;
    assert IsGridWeek(weeks[k], k + 1);
    forall i | 0 <= i < |weeks| && weeks[i].startDay <= d <= weeks[i].endDay
      ensures i == k
    {
      assert IsGridWeek(weeks[i], i + 1);
    }
  }

  /**
   * The last one or two days of the year, day offsets 364 and 365, lie in no
   * window of the grid: week 52 ends on day offset 363.
   */
  lemma {:induction false} YearEndOutsideGrid(weeks: seq<Week>, d: int)
    requires IsWeekGrid(weeks) && (d == 364 || d == 365)
    ensures forall i :: 0 <= i < |weeks| ==> !(weeks[i].startDay <= d <= weeks[i].endDay)
  {
    forall i | 0 <= i < |weeks| ensures !(weeks[i].startDay <= d <= weeks[i].endDay) {
      assert IsGridWeek(weeks[i], i + 1);
    }
  }

  /** No window of the grid carries week number 53. */
  lemma {:induction false} NoWeek53(weeks: seq<Week>)
    requires IsWeekGrid(weeks)
    ensures forall i :: 0 <= i < |weeks| ==> weeks[i].weekNumber != 53
  {
    forall i | 0 <= i < |weeks| ensures weeks[i].weekNumber != 53 {
      assert IsGridWeek(weeks[i], i + 1);
    }
  }

  /** The instant at which the source takes a week to end: 23:59:59 on its last day. */
  function WeekEndInstant(startOfYear: int, endDay: int): int {
    startOfYear + endDay * DayMs + 23 * HourMs + 59 * MinuteMs + 59 * SecondMs
  }

  /**
   * A week is completed strictly after 23:59:59.000 of its last day, that is
   * in the last 999 ms of that day already.
   */
  function IsWeekCompleted(startOfYear: int, endDay: int, now: int): (done: bool)
    ensures done <==> now >= startOfYear + (endDay + 1) * DayMs - 999
  {
    now > WeekEndInstant(startOfYear, endDay)
  }

  /**
   * The number of the 7-day window that holds `now`, counted from 1, or None
   * when `now` is before the year's start or after its end.
   */
  function CurrentWeekNumber(startOfYear: int, endOfYear: int, now: int): (r: Option<int>)
    ensures r.None? <==> now < startOfYear || now > endOfYear
    ensures r.Some? ==>
      (1 <= r.value && (r.value - 1) * DaysPerWeek * DayMs <= now - startOfYear < r.value * DaysPerWeek * DayMs)
  {
    if now < startOfYear || now > endOfYear then None
    else
      var diffTime := now - startOfYear;
      var diffDays := diffTime / DayMs;
      var w := diffDays / DaysPerWeek + 1;
      assert (w - 1) * DaysPerWeek * DayMs <= diffTime < w * DaysPerWeek * DayMs by {
        WindowOfDay(diffTime, diffDays, w);
      }
      Some(w)
  }

  lemma WindowOfDay(t: int, d: int, w: int)
    requires t >= 0 && d == t / DayMs && w == d / DaysPerWeek + 1
    ensures (w - 1) * DaysPerWeek * DayMs <= t < w * DaysPerWeek * DayMs
  {
    assert d * DayMs <= t < (d + 1) * DayMs;
    assert (w - 1) * DaysPerWeek <= d < w * DaysPerWeek;
    assert (w - 1) * DaysPerWeek * DayMs <= d * DayMs;
    assert (d + 1) * DayMs <= w * DaysPerWeek * DayMs;
  }

  /**
   * A current week number of at most 52 picks out the grid window whose
   * days hold `now`, so exactly that cell is highlighted as current.
   */
  lemma {:induction false} CurrentWeekIsGridWindow(weeks: seq<Week>, startOfYear: int, endOfYear: int, now: int)
    requires IsWeekGrid(weeks)
    requires CurrentWeekNumber(startOfYear, endOfYear, now).Some?
    requires CurrentWeekNumber(startOfYear, endOfYear, now).value <= WeeksPerYear
    ensures var w := CurrentWeekNumber(startOfYear, endOfYear, now).value;
      weeks[w - 1].weekNumber == w &&
      startOfYear + weeks[w - 1].startDay * DayMs <= now < startOfYear + (weeks[w - 1].endDay + 1) * DayMs
  {
    var w := CurrentWeekNumber(startOfYear, endOfYear, now).value;
    assert IsGridWeek(weeks[w - 1], w);
    assert weeks[w - 1].startDay * DayMs == (w - 1) * DaysPerWeek * DayMs;
    assert (weeks[w - 1].endDay + 1) * DayMs == w * DaysPerWeek * DayMs;
  }

  /** The last instant `getCurrentWeekNumber` accepts for a year of `days` days: Dec 31, 23:59:59. */
  function YearEndInstant(startOfYear: int, days: int): int {
    startOfYear + days * DayMs - SecondMs
  }

  /**
   * Here `startOfYear` is the instant the year's first day starts, and the
   * end is 23:59:59 on its last day counted from that same start; the source
   * parses the start as UTC midnight and the end as local time, which agree
   * only where local time is UTC.
   * In a year of 365 or 366 days the current week number runs from 1 to 53,
   * and it is 53 exactly on day offsets 364 and 365 (Dec 30 and 31 in a leap
   * year, Dec 31 otherwise), a number no window of the grid carries.
   */
  lemma {:induction false} WeekNumberRange(startOfYear: int, days: int, now: int)
    requires days == 365 || days == 366
    requires startOfYear <= now <= YearEndInstant(startOfYear, days)
    ensures var r := CurrentWeekNumber(startOfYear, YearEndInstant(startOfYear, days), now);
      r.Some? && 1 <= r.value <= 53 &&
      (r.value == 53 <==> now >= startOfYear + 364 * DayMs)
  {
    var r := CurrentWeekNumber(startOfYear, YearEndInstant(startOfYear, days), now);
    var w := r.value;
    assert (w - 1) * DaysPerWeek * DayMs <= now - startOfYear < w * DaysPerWeek * DayMs;
  }

  /**
   * How the two highlights of a grid cell relate: inside the year, every week
   * before the current one is completed, every week after it is not, and the
   * current week itself shows as completed only in the last 999 ms of its
   * last day.
   */
  lemma {:induction false} CompletedVersusCurrent(weeks: seq<Week>, startOfYear: int, endOfYear: int, now: int, i: int)
    requires IsWeekGrid(weeks) && 0 <= i < |weeks|
    requires CurrentWeekNumber(startOfYear, endOfYear, now).Some?
    ensures var w := CurrentWeekNumber(startOfYear, endOfYear, now).value;
      (weeks[i].weekNumber < w ==> IsWeekCompleted(startOfYear, weeks[i].endDay, now)) &&
      (weeks[i].weekNumber > w ==> !IsWeekCompleted(startOfYear, weeks[i].endDay, now)) &&
      (weeks[i].weekNumber == w ==>
        (IsWeekCompleted(startOfYear, weeks[i].endDay, now) <==>
         now >= startOfYear + (weeks[i].endDay + 1) * DayMs - 999))
  {
    var w := CurrentWeekNumber(startOfYear, endOfYear, now).value;
    assert IsGridWeek(weeks[i], i + 1);
    var e := weeks[i].endDay;
    if i + 1 < w {
      assert (e + 1) * DayMs == (i + 1) * DaysPerWeek * DayMs;
      assert (i + 1) * DaysPerWeek * DayMs <= (w - 1) * DaysPerWeek * DayMs;
    } else if i + 1 > w {
      assert (e + 1) * DayMs == (i + 1) * DaysPerWeek * DayMs;
      assert w * DaysPerWeek * DayMs <= (i + 1 - 1) * DaysPerWeek * DayMs;
    }
  }
}
