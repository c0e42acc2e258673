/** One kill point with the attempts its observation needs, and what a green point means. */
module KillPoints {
  import opened Text
  import opened Handoff
  import opened HandoffTheorems

  datatype KillPoint = Before | Mid | After

  const C_ATTEMPTS: nat := 8

  /** The verdicts of one attempt. */
  datatype Outcome = Outcome(passes: nat, failures: nat, missedWindow: bool)

  function Allowed(point: KillPoint): nat { if point.After? then C_ATTEMPTS else 1 }

  /** The attempt that decides a point, and the outcome it decides: the first of eight for point C, and
      the only one for the others. */
  ghost predicate PointResult(point: KillPoint, attempts: nat -> Outcome, out: Outcome, used: nat) {
    && 1 <= used <= 8 && (!point.After? ==> used == 1)
    && (forall i :: 0 <= i < used - 1 ==> attempts(i).missedWindow)
    && (!attempts(used - 1).missedWindow ==> out == attempts(used - 1))
    && (attempts(used - 1).missedWindow ==>
          && (point.After? ==> used == 8)
          && out == attempts(used - 1).(failures := attempts(used - 1).failures + 1))
  }

  /** `run_point`: only the observation is retried.  The result is the first attempt that did not
      miss its window; when all of them did, it is the last one with a failure on top. */
  method RunPoint(point: KillPoint, attempts: nat -> Outcome) returns (out: Outcome, used: nat)
    ensures PointResult(point, attempts, out, used)
    ensures !point.After? ==> used == 1 && out.missedWindow == attempts(0).missedWindow
    ensures point.After? ==> (out.missedWindow <==> forall i :: 0 <= i < 8 ==> attempts(i).missedWindow)
    ensures out.missedWindow ==> out.failures > 0
  {
    used := 0;
    while true
      invariant used < Allowed(point)
      invariant forall i :: 0 <= i < used ==> attempts(i).missedWindow
      decreases Allowed(point) - used
    {
      used := used + 1;
      out := attempts(used - 1);
      if !out.missedWindow {
        return;
      }
      if used >= Allowed(point) {
        out := out.(failures := out.failures + 1);
        return;
      }
    }
  }

  /** This outcome is what an attempt at point C reports after the run. */
  ghost predicate Reports(c: Config, run: seq<Action>, o: Outcome) {
    && Exec(c, Init(c), run).Some?
    && var end := Exec(c, Init(c), run).value.observer;
       && (o.missedWindow <==> end.Missed?)
       && (o.failures == 0 && !o.missedWindow ==> end.Bundle?)
  }

  /** A green point C proves what it claims: if the reported outcome has no failure, then an attempt
      reached its assertions with every terminal arrived, a cut that never commits, and no marker ever
      sent unless the commit wait could expire under it. */
  lemma GreenPoint(c: Config, attempts: nat -> Outcome, runs: nat -> seq<Action>,
                   out: Outcome, used: nat)
    requires Timed(c) && c.delay <= c.settle && PointResult(After, attempts, out, used)
    requires forall i :: 0 <= i < 8 ==> Reports(c, runs(i), attempts(i))
    requires out.failures == 0
    ensures var end := Exec(c, Init(c), runs(used - 1));
            end.Some? && end.value.observer.Bundle? && end.value.rows == 0
            && Undeliverable(end.value) && (end.value.sent ==> c.commitWait < c.serve)
            && end.value.adopted == c.pids
  {
    assert Reports(c, runs(used - 1), attempts(used - 1));
    ObserverSound(c, runs(used - 1));
  }
}
