/** `WatchAsync`: waits, in steps of 250 ms, until body tracking reports a
    body, the millisecond budget runs out, or cancellation is requested, and
    returns the body-tracking flag.

    The flag and the cancellation token are read from outside: `tracked(k)` is
    the flag as the loop sees it after `k` delays (the loop test and, after a
    break, the final read happen in the same step, with no delay between them),
    and `cancelled(k)` is the token as checked right after the `k`-th delay. */
module Watch {

  /** The fixed poll interval, `timeStep`, in milliseconds. */
  const TimeStep: int := 250

  /** The loop is over once `k` delays have passed: cancellation was seen after
      the `k`-th delay, the budget is spent, or a body is tracked. */
  predicate StopsAt(timeLimit: int, tracked: nat -> bool, cancelled: nat -> bool, k: nat)
  {
    (k > 0 && cancelled(k)) || timeLimit - k * TimeStep <= 0 || tracked(k)
  }

  /** The first step, from `k` on, at which the loop is over. */
  function FirstStop(timeLimit: int, tracked: nat -> bool, cancelled: nat -> bool, k: nat): (t: nat)
    ensures k <= t && StopsAt(timeLimit, tracked, cancelled, t)
    ensures forall j :: k <= j < t ==> !StopsAt(timeLimit, tracked, cancelled, j)
    decreases if timeLimit - k * TimeStep > 0 then timeLimit - k * TimeStep else 0
  {
    if StopsAt(timeLimit, tracked, cancelled, k) then k
    else FirstStop(timeLimit, tracked, cancelled, k + 1)
  }

  /** The number of iterations that ran to the end of their body when the loop
      stops after `t` delays: an iteration that saw cancellation broke out
      before counting its time. */
  function Completed(cancelled: nat -> bool, t: nat): nat {
    if t > 0 && cancelled(t) then t - 1 else t
  }

  /** The number of 250 ms steps a positive budget allows: ceil(timeLimit / 250). */
  function StepBudget(timeLimit: int): nat {
    if timeLimit <= 0 then 0 else (timeLimit + TimeStep - 1) / TimeStep
  }

  /** The loop of `WatchAsync`, on a budget of `timeLimit` milliseconds (the
      conversion from seconds is not modelled). Returns the flag, and also the
      number of delays and the `timeElapsed` counter, which the source keeps in
      locals. */
  method WatchAsync(timeLimit: int, tracked: nat -> bool, cancelled: nat -> bool)
    returns (found: bool, ticks: nat, timeElapsed: int)
    ensures ticks == FirstStop(timeLimit, tracked, cancelled, 0)
    ensures found == tracked(ticks)
    ensures timeElapsed == TimeStep * Completed(cancelled, ticks)
    ensures ticks <= StepBudget(timeLimit)
    ensures timeLimit <= 0 || tracked(0) ==> ticks == 0 && timeElapsed == 0
  {
    var limit := timeLimit;
    timeElapsed := 0;
    ticks := 0;
    while limit > 0 && !tracked(ticks)
      invariant limit == timeLimit - ticks * TimeStep
      invariant timeElapsed == ticks * TimeStep
      invariant forall j :: 0 <= j < ticks ==> !StopsAt(timeLimit, tracked, cancelled, j)
      invariant ticks > 0 ==> !cancelled(ticks)
      decreases limit
    {
      limit := limit - TimeStep;
      ticks := ticks + 1;
      if cancelled(ticks) {
        break;
      }
      timeElapsed := timeElapsed + TimeStep;
    }
    found := tracked(ticks);
    ghost var t := FirstStop(timeLimit, tracked, cancelled, 0);
    assert StopsAt(timeLimit, tracked, cancelled, ticks);
    assert !(t < ticks) && !(ticks < t);
    TicksWithinBudget(timeLimit, tracked, cancelled, 0);
  }

  /** The loop never runs past the budget: at most ceil(timeLimit / 250)
      delays, and none at all on a budget of zero or less. */
  lemma {:induction false} TicksWithinBudget(timeLimit: int, tracked: nat -> bool, cancelled: nat -> bool, k: nat)
    requires k <= StepBudget(timeLimit)
    ensures FirstStop(timeLimit, tracked, cancelled, k) <= StepBudget(timeLimit)
    decreases StepBudget(timeLimit) - k
  {
    if !StopsAt(timeLimit, tracked, cancelled, k) {
      assert timeLimit - k * TimeStep > 0;
      assert k < StepBudget(timeLimit);
      TicksWithinBudget(timeLimit, tracked, cancelled, k + 1);
    }
  }

  /** With no body and no cancellation the loop spends exactly the budget,
      rounded up to whole steps, and reports false. */
  lemma {:induction false} TimesOutAfterBudget(timeLimit: int, tracked: nat -> bool, cancelled: nat -> bool, k: nat)
    requires forall j :: !tracked(j) && !cancelled(j)
    requires k <= StepBudget(timeLimit)
    ensures FirstStop(timeLimit, tracked, cancelled, k) == StepBudget(timeLimit)
    decreases StepBudget(timeLimit) - k
  {
    if k < StepBudget(timeLimit) {
      assert timeLimit - k * TimeStep > 0;
      TimesOutAfterBudget(timeLimit, tracked, cancelled, k + 1);
    } else {
      assert timeLimit - k * TimeStep <= 0;
    }
  }

  /** A one-second budget with no body and no cancellation: four delays, all
      1000 ms counted, result false. */
  lemma OneSecondTimeout()
    ensures var t := FirstStop(1000, _ => false, _ => false, 0);
            t == 4 && TimeStep * Completed(_ => false, t) == 1000
  {
    TimesOutAfterBudget(1000, _ => false, _ => false, 0);
  }

  /** A one-second budget where a body is first tracked after the third delay:
      three delays, 750 ms counted, result true. */
  lemma BodyTrackedOnThirdTick()
    ensures var t := FirstStop(1000, k => k >= 3, _ => false, 0);
            t == 3 && TimeStep * Completed(_ => false, t) == 750
  {
    assert !StopsAt(1000, k => k >= 3, _ => false, 0);
    assert !StopsAt(1000, k => k >= 3, _ => false, 1);
    assert !StopsAt(1000, k => k >= 3, _ => false, 2);
  }

  /** Cancellation seen after the first delay ends the loop at once, before
      any time is counted, and the flag of that moment is returned. */
  lemma CancelledAfterFirstDelay(timeLimit: int, tracked: nat -> bool, cancelled: nat -> bool)
    requires timeLimit > 0 && !tracked(0) && cancelled(1)
    ensures FirstStop(timeLimit, tracked, cancelled, 0) == 1
    ensures Completed(cancelled, 1) == 0
  {
  }
}
