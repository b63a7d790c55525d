/**
 * The daily virtue mark (`handleVirtueClick` and the expiry effect): a
 * one-bit flag stamped with the local date on which it was set, cleared by
 * the expiry step as soon as the stamp is no longer today's date. Date
 * strings are opaque values compared for equality.
 */
module Virtue {
  import opened Wrappers

  /** A local date as `toDateString()` writes it; never empty, so a stamp is never a falsy string. */
  type DateString = s: string | |s| > 0 witness "x"

  /** The two state fields: whether the mark is set, and the date it was set on (or null). */
  datatype Latch = Latch(marked: bool, stamp: Option<DateString>)

  const Initial: Latch := Latch(false, None)

  /** The reachable states: the mark is set exactly when it carries a stamp. */
  predicate Consistent(s: Latch) {
    s.marked <==> s.stamp.Some?
  }

  /**
   * A click sets the mark and stamps it with today's date, unless it is
   * already set with today's stamp; either way the result is the same.
   */
  function Click(s: Latch, today: DateString): (t: Latch)
    ensures t.marked && t.stamp == Some(today)
  {
    if !s.marked || s.stamp != Some(today) then Latch(true, Some(today)) else s
  }

  /**
   * The expiry step run on every tick: a stamp other than today's clears the
   * mark and the stamp. Afterwards the stamp is absent or today's.
   */
  function Expire(s: Latch, today: DateString): (t: Latch)
    ensures t.stamp == None || t.stamp == Some(today)
    ensures t.marked ==> s.marked
  {
    if s.stamp.Some? && s.stamp.value != today then Initial else s
  }

  /** The expiry step clears the state exactly when the stamp is set and is not today's, and changes nothing otherwise. */
  lemma {:induction false} ExpireExactly(s: Latch, today: DateString)
    ensures Expire(s, today) != s <==> (s.stamp.Some? && s.stamp.value != today)
    ensures Expire(s, today) == s || Expire(s, today) == Initial
  {
  }

  /** Clicking again on the same day changes nothing. */
  lemma {:induction false} ClickIdempotent(s: Latch, today: DateString)
    ensures Click(Click(s, today), today) == Click(s, today)
  {
  }

  /** Both steps keep the state consistent, starting from the initial state. */
  lemma {:induction false} StepsPreserveConsistent(s: Latch, today: DateString)
    requires Consistent(s)
    ensures Consistent(Initial)
    ensures Consistent(Click(s, today))
    ensures Consistent(Expire(s, today))
  {
  }

  /** After the expiry step a consistent mark is set only if it was set today. */
  lemma {:induction false} MarkHeldOnlyToday(s: Latch, today: DateString)
    requires Consistent(s)
    ensures Expire(s, today).marked <==> s.stamp == Some(today)
  {
  }

  /** A mark set today survives today's expiry step and is cleared on any other day. */
  lemma {:induction false} ClickThenExpire(s: Latch, day: DateString, today: DateString)
    ensures Expire(Click(s, day), today) == if day == today then Latch(true, Some(day)) else Initial
  {
  }

  /** The component's two state fields, updated in place by the handler and the effect. */
  class VirtueMark {
    var virtueMarked: bool
    var lastVirtueDate: Option<DateString>

    function State(): Latch
      reads this
    {
      Latch(virtueMarked, lastVirtueDate)
    }

    constructor ()
      ensures State() == Initial
    {
      virtueMarked := false;
      lastVirtueDate := None;
    }

    /** `handleVirtueClick` on the local date `today`. */
    method HandleClick(today: DateString)
      modifies this
      ensures State() == Click(old(State()), today)
    {
      if !virtueMarked || lastVirtueDate != Some(today) {
        virtueMarked := true;
        lastVirtueDate := Some(today);
      }
    }

    /** The expiry effect on the local date `today`. */
    method CheckExpiry(today: DateString)
      modifies this
      ensures State() == Expire(old(State()), today)
    {
      if lastVirtueDate.Some? && lastVirtueDate.value != today {
        virtueMarked := false;
        lastVirtueDate := None;
      }
    }
  }
}
