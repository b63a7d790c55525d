/**
 * The countdown to the last millisecond of the selected year
 * (`calculateCountdown`): the remaining milliseconds split into days, hours,
 * minutes, seconds and milliseconds along the 24 / 60 / 60 / 1000 chain, and
 * all zero once the target has passed.
 */
module Countdown {
  import opened Clock

  datatype Countdown = Countdown(days: int, hours: int, minutes: int, seconds: int, milliseconds: int)

  const Zero: Countdown := Countdown(0, 0, 0, 0, 0)

  /** The number of milliseconds a countdown stands for. */
  function TotalMs(c: Countdown): int {
    c.days * DayMs + c.hours * HourMs + c.minutes * MinuteMs + c.seconds * SecondMs + c.milliseconds
  }

  /** No field is negative and every field below days is under its radix. */
  predicate Normalized(c: Countdown) {
    0 <= c.days &&
    0 <= c.hours < HoursPerDay &&
    0 <= c.minutes < MinutesPerHour &&
    0 <= c.seconds < SecondsPerMinute &&
    0 <= c.milliseconds < SecondMs
  }

  /**
   * The countdown from `now` to `target` (both in ms). For a positive
   * difference the fields recompose to it exactly; otherwise the countdown is
   * zero. JavaScript's `%` agrees with Dafny's here because it is only applied
   * to a positive difference.
   */
  function Calculate(target: int, now: int): (c: Countdown)
    ensures Normalized(c)
    ensures target - now <= 0 ==> c == Zero
    ensures target - now > 0 ==> TotalMs(c) == target - now
  {
    var diff := target - now;
    if diff <= 0 then Zero
    else
      var c := Countdown(diff / DayMs,
                         (diff % DayMs) / HourMs,
                         (diff % HourMs) / MinuteMs,
                         (diff % MinuteMs) / SecondMs,
                         diff % SecondMs);
      assert TotalMs(c) == diff by { Recompose(diff); }
      c
  }

  /** The radix chain recomposes a non-negative number of milliseconds. */
  lemma Recompose(x: int)
    requires x >= 0
    ensures (x / DayMs) * DayMs + ((x % DayMs) / HourMs) * HourMs + ((x % HourMs) / MinuteMs) * MinuteMs
            + ((x % MinuteMs) / SecondMs) * SecondMs + x % SecondMs == x
  {
    var d, rd := x / DayMs, x % DayMs;
    var h, rh := rd / HourMs, rd % HourMs;
    var m, rm := rh / MinuteMs, rh % MinuteMs;
    var s, ms := rm / SecondMs, rm % SecondMs;
    ModOfMultiple(x, d, rd, HourMs, 24);
    ModOfMultiple(x, x / HourMs, x % HourMs, MinuteMs, 60);
    ModOfMultiple(x, x / MinuteMs, x % MinuteMs, SecondMs, 60);
    assert x % HourMs == rh by { ModOfMultiple(x, d, rd, HourMs, 24); }
  }

  /** Taking the remainder by a multiple of `a` first does not change the remainder by `a`. */
  lemma ModOfMultiple(x: int, q: int, r: int, a: int, k: int)
    requires a > 0 && k > 0 && x == q * (a * k) + r && 0 <= r < a * k
    ensures r % a == x % a
  {
    assert x == (q * k) * a + r;
    var rq, rr := r / a, r % a;
    assert x == (q * k + rq) * a + rr;
    DivModUnique(x, a, q * k + rq, rr);
  }

  /** Euclidean division is determined by its quotient and remainder equation. */
  lemma DivModUnique(x: int, a: int, q: int, r: int)
    requires a > 0 && x == q * a + r && 0 <= r < a
    ensures x / a == q && x % a == r
  {
    var q', r' := x / a, x % a;
    assert (q - q') * a == r' - r;
    if q > q' {
      MulAtLeast(q - q', a);
    } else if q < q' {
      MulAtLeast(q' - q, a);
    }
  }

  lemma MulAtLeast(d: int, a: int)
    requires d >= 1 && a > 0
    ensures d * a >= a
  {
    assert d * a == (d - 1) * a + a;
  }

  /**
   * The partner of `Calculate`: a normalized countdown that recomposes to a
   * positive difference is the one `Calculate` returns, so the decomposition
   * is unique.
   */
  lemma {:induction false} DecompositionUnique(target: int, now: int, c: Countdown)
    requires Normalized(c) && TotalMs(c) == target - now > 0
    ensures Calculate(target, now) == c
  {
    var diff := target - now;
    var rd := c.hours * HourMs + c.minutes * MinuteMs + c.seconds * SecondMs + c.milliseconds;
    var rh := c.minutes * MinuteMs + c.seconds * SecondMs + c.milliseconds;
    var rm := c.seconds * SecondMs + c.milliseconds;
    DivModUnique(diff, DayMs, c.days, rd);
    DivModUnique(rd, HourMs, c.hours, rh);
    DivModUnique(rh, MinuteMs, c.minutes, rm);
    DivModUnique(rm, SecondMs, c.seconds, c.milliseconds);
    ModOfMultiple(diff, c.days, rd, HourMs, 24);
    ModOfMultiple(diff, diff / HourMs, rh, MinuteMs, 60);
    ModOfMultiple(diff, diff / MinuteMs, rm, SecondMs, 60);
  }

  /** Past or at the target the countdown stays at zero and never goes negative. */
  lemma {:induction false} ZeroAfterTarget(target: int, now: int, later: int)
    requires now <= later && target <= now
    ensures Calculate(target, later) == Zero
  {
  }

  /** The remaining time never grows as `now` advances. */
  lemma {:induction false} CountdownNonIncreasing(target: int, now: int, later: int)
    requires now <= later
    ensures TotalMs(Calculate(target, later)) <= TotalMs(Calculate(target, now))
  {
  }

  /**
   * At the first instant of a 365-day year, the countdown to its last
   * millisecond shows 364 days, 23:59:59.999.
   */
  lemma {:induction false} FirstInstantOfCommonYear(startOfYear: int)
    ensures Calculate(startOfYear + 365 * DayMs - 1, startOfYear) == Countdown(364, 23, 59, 59, 999)
  {
  }
}
