/** Interval arithmetic of the recurrence engine: adding a number of periods to an instant, and
    the two stepping loops that repeat that addition until an instant is passed
    (advanceToFuture and getNextScheduledDate of src/hooks/useTodos.ts). */
module Interval {
  import opened Types
  import opened Calendar

  /** addInterval: weekly and monthly steps go through the calendar, anything else is daily. */
  function AddInterval(date: int, f: Frequency, n: int): (r: int)
    ensures n >= 1 ==> r >= date + MsPerDay
    ensures n == 0 ==> r == date
    ensures r % MsPerDay == date % MsPerDay
  {
    match f
    case Weekly => AddWeeks(date, n)
    case Monthly => AddMonths(date, n)
    case Daily => AddDays(date, n)
  }

  /** A step that moves every instant at least one day forward, as a step of an interval of at
      least 1 does. Only such steps let the stepping loops end. */
  ghost predicate Advances(step: int -> int) {
    forall x :: step(x) >= x + MsPerDay
  }

  /** One period of a recurrence, as a step on instants. */
  function Period(f: Frequency, n: int): (step: int -> int)
    ensures n >= 1 ==> Advances(step)
  {
    date => AddInterval(date, f, n)
  }

  /** The k-th repeated step from date: one step at a time, never a single k-fold step, since
      monthly steps do not compose (Calendar.RepeatedMonthsDrift). */
  function Iterate(step: int -> int, date: int, k: nat): int
    decreases k
  {
    if k == 0 then date else Iterate(step, step(date), k - 1)
  }

  /** The first repeated step from date (possibly date itself) that is strictly after ref. */
  function AdvancePast(step: int -> int, date: int, ref: int): (r: int)
    requires Advances(step)
    ensures r > ref
    ensures r >= date
    ensures date > ref ==> r == date
    decreases ref - date
  {
    if date > ref then date else AdvancePast(step, step(date), ref)
  }

  /** How many steps AdvancePast takes. */
  function StepsPast(step: int -> int, date: int, ref: int): nat
    requires Advances(step)
    decreases ref - date
  {
    if date > ref then 0 else 1 + StepsPast(step, step(date), ref)
  }

  /** getNextScheduledDate as a value: at least one step, then the first step strictly after. */
  function NextAfter(step: int -> int, base: int, after: int): int
    requires Advances(step)
  {
    AdvancePast(step, step(base), after)
  }

  /** One step from date is the first iterate, and the rest are iterates of it. */
  lemma IterateShift(step: int -> int, date: int, j: nat)
    requires j >= 1
    ensures Iterate(step, date, j) == Iterate(step, step(date), j - 1)
  {
  }

  /** Each iterate before the one AdvancePast stops at is at or before ref. */
  lemma {:induction false} EarlyIterate(step: int -> int, date: int, ref: int, j: nat)
    requires Advances(step)
    requires j < StepsPast(step, date, ref)
    ensures Iterate(step, date, j) <= ref
    decreases j
  {
    if j > 0 {
      EarlyIterate(step, step(date), ref, j - 1);
      IterateShift(step, date, j);
    }
  }

  /** AdvancePast is the first iterate strictly after ref: every earlier iterate is at or before
      ref, so it never overshoots by more than one period. */
  lemma {:induction false} AdvancePastIsFirstIterate(step: int -> int, date: int, ref: int)
    requires Advances(step)
    ensures Iterate(step, date, StepsPast(step, date, ref)) == AdvancePast(step, date, ref)
    ensures forall j :: 0 <= j < StepsPast(step, date, ref) ==> Iterate(step, date, j) <= ref
    decreases ref - date
  {
    if date <= ref {
      AdvancePastIsFirstIterate(step, step(date), ref);
      IterateShift(step, date, StepsPast(step, date, ref));
    }
    forall j | 0 <= j < StepsPast(step, date, ref)
      ensures Iterate(step, date, j) <= ref
    {
      EarlyIterate(step, date, ref, j);
    }
  }

  /** getNextScheduledDate always takes at least one step: its result is the first iterate with
      at least one step that is strictly after `after`. */
  lemma {:induction false} NextAfterIsFirstLaterIterate(step: int -> int, base: int, after: int)
    requires Advances(step)
    ensures Iterate(step, base, 1 + StepsPast(step, step(base), after)) == NextAfter(step, base, after)
    ensures forall j :: 1 <= j < 1 + StepsPast(step, step(base), after) ==> Iterate(step, base, j) <= after
  {
    var k := 1 + StepsPast(step, step(base), after);
    AdvancePastIsFirstIterate(step, step(base), after);
    IterateShift(step, base, k);
    forall j | 1 <= j < k
      ensures Iterate(step, base, j) <= after
    {
      IterateShift(step, base, j);
    }
  }

  /** With interval 0 no step ever moves: the stepping loops, which do not check the interval,
      would never end for a date at or before their reference instant. */
  lemma {:induction false} ZeroIntervalNeverAdvances(date: int, f: Frequency, k: nat)
    ensures Iterate(Period(f, 0), date, k) == date
  {
    if k > 0 {
      assert Period(f, 0)(date) == date;
      ZeroIntervalNeverAdvances(date, f, k - 1);
    }
  }

  /** Daily steps of one day land on the first day boundary (at date's time of day) strictly
      after ref. */
  lemma {:induction false} DailyAdvance(date: int, ref: int)
    requires date <= ref
    ensures AdvancePast(Period(Daily, 1), date, ref) == date + ((ref - date) / MsPerDay + 1) * MsPerDay
    decreases ref - date
  {
    var next := Period(Daily, 1)(date);
    assert next == date + MsPerDay;
    if next <= ref {
      DailyAdvance(next, ref);
      assert (ref - next) / MsPerDay == (ref - date) / MsPerDay - 1;
    }
  }

  /** The worked example of after-completion mode: due on day 0, every 2 weeks, completed on
      day 9, gives day 14 (2024-01-01 -> 2024-01-15 when completed on 2024-01-10). */
  lemma BiweeklyExample(day0: int)
    ensures NextAfter(Period(Weekly, 2), day0, day0 + 9 * MsPerDay) == day0 + 14 * MsPerDay
  {
    assert Period(Weekly, 2)(day0) == day0 + 14 * MsPerDay;
  }

  /** advanceToFuture with its own clock reading: steps until strictly after the clock. */
  method AdvanceToFuture(date: int, f: Frequency, n: int, clock: int) returns (next: int)
    requires n >= 1
    ensures next == AdvancePast(Period(f, n), date, clock)
    ensures next > clock
  {
    next := date;
    while next <= clock
      invariant AdvancePast(Period(f, n), next, clock) == AdvancePast(Period(f, n), date, clock)
      decreases clock - next
    {
      next := AddInterval(next, f, n);
    }
  }

  /** getNextScheduledDate: one step from base, then step while at or before `after`. */
  method GetNextScheduledDate(base: int, f: Frequency, n: int, after: int) returns (next: int)
    requires n >= 1
    ensures next == NextAfter(Period(f, n), base, after)
    ensures next > after
  {
    next := AddInterval(base, f, n);
    while next <= after
      invariant AdvancePast(Period(f, n), next, after) == NextAfter(Period(f, n), base, after)
      decreases after - next
    {
      next := AddInterval(next, f, n);
    }
  }
}
