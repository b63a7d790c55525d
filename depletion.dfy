/**
 * The elapsed share of an interval, as a percentage clamped to [0, 100]
 * (`calculateYearDepletion` and `calculateLifeDepletion`, which differ only in
 * the interval they are given: the selected year from Jan 1 00:00:00.000 to
 * Dec 31 23:59:59.999, or the life from Jan 1 of the birth year to Jan 1 of
 * the year the life expectancy runs out). Percentages are exact reals here.
 */
module Depletion {

  /**
   * The percentage of [start, end] that has elapsed at `now`. The division is
   * reached only when 0 < now - start < end - start, so the interval is then
   * of positive length, even for a zero-length or reversed interval.
   */
  function ElapsedPercent(start: int, end: int, now: int): (p: real)
    ensures 0.0 <= p <= 100.0
    ensures now <= start ==> p == 0.0
    ensures start < now && end <= now ==> p == 100.0
    ensures start < now < end ==> 0.0 < p < 100.0
  {
    var totalMs := end - start;
    var elapsedMs := now - start;
    if elapsedMs <= 0 then 0.0
    else if elapsedMs >= totalMs then 100.0
    else
      assert 0.0 < elapsedMs as real / totalMs as real < 1.0 by { FractionBelowOne(elapsedMs, totalMs); }
      (elapsedMs as real / totalMs as real) * 100.0
  }

  lemma FractionBelowOne(e: int, t: int)
    requires 0 < e < t
    ensures 0.0 < e as real / t as real < 1.0
  {
    var f := e as real / t as real;
    assert f * t as real == e as real;
  }

  /** Clamping a real to [0, 100]. */
  function Clamp(x: real): (c: real)
    ensures 0.0 <= c <= 100.0
    ensures 0.0 <= x <= 100.0 ==> c == x
  {
    if x < 0.0 then 0.0 else if x > 100.0 then 100.0 else x
  }

  /**
   * The partner of `ElapsedPercent`: for an interval of positive length it is
   * the raw elapsed ratio, scaled to a percentage, clamped to [0, 100].
   */
  lemma {:induction false} ElapsedPercentIsClampedRatio(start: int, end: int, now: int)
    requires start < end
    ensures ElapsedPercent(start, end, now) == Clamp((now - start) as real / (end - start) as real * 100.0)
  {
    RatioBounds((now - start) as real, (end - start) as real);
  }

  /** Where a ratio over a positive denominator lies relative to 0 and 1. */
  lemma RatioBounds(e: real, t: real)
    requires t > 0.0
    ensures e <= 0.0 ==> e / t * 100.0 <= 0.0
    ensures e >= t ==> e / t * 100.0 >= 100.0
    ensures e <= t ==> e / t * 100.0 <= 100.0
  {
    var f := e / t;
    assert f * t == e;
    ScaleCompare(f, 0.0, t);
    ScaleCompare(f, 1.0, t);
    ScaleCompare(1.0, f, t);
    assert 1.0 * t == t && 0.0 * t == 0.0;
    if e >= t {
      assert 1.0 * t <= f * t;
      assert 1.0 <= f;
      assert f * 100.0 >= 100.0;
    }
  }

  /** Multiplying by a positive number keeps the order. */
  lemma ScaleCompare(x: real, y: real, t: real)
    requires t > 0.0
    ensures x <= y <==> x * t <= y * t
  {
    assert y * t - x * t == (y - x) * t;
  }

  /** For fixed bounds, the percentage never decreases as time advances. */
  lemma {:induction false} ElapsedPercentMonotone(start: int, end: int, now: int, later: int)
    requires now <= later
    ensures ElapsedPercent(start, end, now) <= ElapsedPercent(start, end, later)
  {
    if start < now < later < end {
      var t := (end - start) as real;
      var e1, e2 := (now - start) as real, (later - start) as real;
      assert (e2 / t - e1 / t) * t == e2 - e1;
      assert e1 / t <= e2 / t;
    }
  }

  /**
   * A zero-length interval (a life expectancy of zero years) saturates: the
   * result is 0 up to its start and 100 after, never a division by zero.
   */
  lemma {:induction false} ZeroLengthSaturates(start: int, now: int)
    ensures ElapsedPercent(start, start, now) == if now <= start then 0.0 else 100.0
  {
  }

  /** The first instant of an interval gives 0 and its last instant gives 100. */
  lemma {:induction false} Endpoints(start: int, end: int)
    requires start < end
    ensures ElapsedPercent(start, end, start) == 0.0
    ensures ElapsedPercent(start, end, end) == 100.0
  {
  }
}
