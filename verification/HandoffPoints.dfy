/** What an attempt has established when it reaches a kill point, and the ways out of a handoff. */
module HandoffPoints {
  import opened Text
  import opened Handoff
  import opened HandoffTheorems
  import opened HandoffRuns

  // ---------------------------------------------------------------- what has been established

  /** What defines point C, in every run and whatever the waits are: its assertions are reached with
      every terminal arrived at the killed daemon, in order, and with an export that did not fail. */
  lemma AfterPointReached(c: Config, run: seq<Action>)
    requires Timed(c) && Exec(c, Init(c), run).Some? && Exec(c, Init(c), run).value.observer.Bundle?
    ensures var w := Exec(c, Init(c), run).value;
            w.adopted == c.pids && IsDead(w.incoming) && !w.exportFailed
  {
    Reached(c, run);
  }

  /** ... and the step before: the watched pane is paused, so the old daemon is inside a cut or past
      it, and the daemon that is killed was frozen and alive. */
  lemma AfterPointPaused(c: Config, run: seq<Action>)
    requires Timed(c) && c.watch < |c.pids| && Exec(c, Init(c), run).Some?
    requires Exec(c, Init(c), run + [CheckMoment]).Some?
    requires Exec(c, Init(c), run + [CheckMoment]).value.observer.Bundle?
    ensures var w, next := Exec(c, Init(c), run).value, Exec(c, Init(c), run + [CheckMoment]).value;
            && |w.pumps| == |c.pids| && !w.pumps[c.watch] && w.stopped && !IsDead(w.incoming) && next.incoming.Killed?
            && (w.outgoing.Pausing? || w.outgoing.Sending? || w.outgoing.GaveUp?
                || w.outgoing.Committed? || w.outgoing.Exited?)
  {
    Reached(c, run);
    ExecSnoc(c, Init(c), run, CheckMoment);
  }

  /** A poll that lets the attempt go on found the old daemon alive, and rows that were read. */
  lemma PassedPollFoundOld(c: Config, run: seq<Action>)
    requires Timed(c) && Exec(c, Init(c), run).Some? && Exec(c, Init(c), run + [Poll]).Some?
    ensures var w, next := Exec(c, Init(c), run).value, Exec(c, Init(c), run + [Poll]).value;
            if w.outgoing.Exited? || w.exportFailed then next.observer.Missed? && next.incoming.Killed?
            else next.observer.Passed? || (next.observer.Missed? && w.observer.RowsRead? && w.observer.seen)
  {
    Reached(c, run);
    ExecSnoc(c, Init(c), run, Poll);
  }

  /** Point B counts the terminals of a live daemon while the watched pane is paused. */
  lemma MidPointPaused(c: Config, run: seq<Action>)
    requires Timed(c) && c.watch < |c.pids| && Exec(c, Init(c), run).Some?
    requires Exec(c, Init(c), run + [CountMid]).Some?
    ensures var w, next := Exec(c, Init(c), run).value, Exec(c, Init(c), run + [CountMid]).value;
            && |w.pumps| == |c.pids| && !w.pumps[c.watch] && !IsDead(w.incoming) && !w.outgoing.Serving?
            && next.observer == Counted(|w.adopted|)
  {
    Reached(c, run);
    ExecSnoc(c, Init(c), run, CountMid);
  }

  // ---------------------------------------------------------------- the ways out

  /** The old daemon serves every pane and its record holds `aborts` aborts. */
  ghost predicate ServesAll(c: Config, w: World, aborts: nat) {
    w.outgoing.Serving? && |w.pumps| == |c.pids| && AllRunning(w.pumps) && w.rows == 0 && w.aborts == aborts
  }

  /** The old daemon takes the steps after it gave up. */
  lemma Resumes(c: Config, w: World) returns (run: seq<Action>)
    requires Inv(c, w) && (w.outgoing.GaveUp? || w.outgoing.Recording?)
    ensures Exec(c, w, run).Some? && ServesAll(c, Exec(c, w, run).value, w.aborts + 1)
    ensures Exec(c, w, run).value.incoming == w.incoming
  {
    if w.outgoing.Recording? {
      run := [Record];
      ExecOne(c, w, Record);
    } else {
      run := [Resume] + [Record];
      ExecOne(c, w, Resume);
      ExecSnoc(c, w, [Resume], Record);
    }
  }

  lemma GivingUpOnly(c: Config, w: World, a: Action)
    requires (a.AcceptTimeout? || a.PeerGone? || a.StepFails?) && DoOutgoing(c, w, a).Some?
    ensures OutgoingBusy(w.outgoing)
    ensures DoOutgoing(c, w, a) == Some(w.(outgoing := GaveUp(w.outgoing.session)))
  {
  }

  /** The step by which the old daemon gives up on its own, or because its peer is gone. */
  lemma GivesUp(c: Config, w: World, a: Action) returns (run: seq<Action>)
    requires Inv(c, w) && Timed(c) && (a.AcceptTimeout? || a.PeerGone? || a.StepFails?) && Do(c, w, a).Some?
    ensures Exec(c, w, run).Some? && ServesAll(c, Exec(c, w, run).value, w.aborts + 1)
    ensures Exec(c, w, run).value.incoming == w.incoming
  {
    var next := Do(c, w, a).value;
    StepPreserves(c, w, a);
    GivingUpOnly(c, w, a);
    var rest := Resumes(c, next);
    ExecOne(c, w, a);
    ExecAppend(c, w, [a], rest);
    run := [a] + rest;
  }

  /** Until the last master is sent the old daemon can give up on its own, at every stage of the cut
      and whatever its peer does: it then serves every pane, with one abort if it had replied. */
  lemma OldCanGiveUp(c: Config, w: World) returns (run: seq<Action>)
    requires Inv(c, w) && Timed(c) && OutgoingBusy(w.outgoing)
    requires w.outgoing.Sending? ==> w.outgoing.count < |c.pids|
    ensures Exec(c, w, run).Some? && Exec(c, w, run).value.incoming == w.incoming
    ensures ServesAll(c, Exec(c, w, run).value, w.aborts + if w.outgoing.Answering? then 0 else 1)
  {
    match w.outgoing
    case Answering(_) =>
      run := [Refuse];
      ExecOne(c, w, Refuse);
    case Accepting(_) => run := GivesUp(c, w, AcceptTimeout);
    case Pausing(_) => run := GivesUp(c, w, StepFails);
    case Sending(_, _) => run := GivesUp(c, w, StepFails);
    case _ => run := Resumes(c, w);
  }

  /** An old daemon whose peer is dead and sent nothing serves again. */
  lemma OldRecovers(c: Config, w: World) returns (run: seq<Action>)
    requires Inv(c, w) && Timed(c) && IsDead(w.incoming) && !w.sent
    ensures Exec(c, w, run).Some? && Exec(c, w, run).value.incoming == w.incoming
    ensures var cut := OutgoingBusy(w.outgoing) && !w.outgoing.Answering?;
            ServesAll(c, Exec(c, w, run).value, w.aborts + if cut then 1 else 0)
  {
    match w.outgoing
    case Serving => run := [];
    case Answering(_) =>
      run := [Reply];
      ExecOne(c, w, Reply);
    case Accepting(_) => run := GivesUp(c, w, AcceptTimeout);
    case Pausing(_) => run := GivesUp(c, w, PeerGone);
    case Sending(_, _) => run := GivesUp(c, w, PeerGone);
    case _ => run := Resumes(c, w);
  }

  /** There is no point of no return before the marker: in every state in which no marker was sent, a
      live incoming daemon that is not stopped can fail, and the old daemon then serves every pane. */
  lemma CutCanAlwaysAbort(c: Config, w: World) returns (run: seq<Action>)
    requires Inv(c, w) && Timed(c) && !w.sent && !w.stopped
    ensures Exec(c, w, run).Some? && IsDead(Exec(c, w, run).value.incoming)
    ensures var cut := OutgoingBusy(w.outgoing) && !w.outgoing.Answering?;
            ServesAll(c, Exec(c, w, run).value, w.aborts + if cut then 1 else 0)
  {
    if IsDead(w.incoming) {
      run := OldRecovers(c, w);
    } else {
      FailPreserves(c, w);
      var rest := OldRecovers(c, Do(c, w, Fail).value);
      ExecOne(c, w, Fail);
      ExecAppend(c, w, [Fail], rest);
      run := [Fail] + rest;
    }
  }

  /** The retry loop goes on only after a busy answer: a retry that fails in any other way is the last. */
  lemma {:induction false} FailedRetryIsLast(c: Config, w: World, run: seq<Action>)
    requires w.observer.Retrying? && w.incoming.Failed? && Exec(c, w, run).Some?
    ensures FailedFrom(w, Exec(c, w, run).value)
    decreases |run|
  {
    if run != [] {
      FailedRetryStays(c, w, run[0]);
      FailedRetryIsLast(c, Do(c, w, run[0]).value, run[1..]);
    }
  }

  /** A retry that failed for good stays failed, and no other retry follows it. */
  ghost predicate FailedFrom(w: World, next: World) {
    next.session == w.session && next.incoming.Failed? && next.observer.Retrying?
  }

  /** A failed daemon takes no step. */
  lemma FailedIncomingStops(c: Config, w: World, a: Action)
    requires w.incoming.Failed? && ByIncoming(a)
    ensures DoIncoming(c, w, a).None?
  {
  }

  lemma FailedOutgoingStays(c: Config, w: World, a: Action)
    requires w.observer.Retrying? && w.incoming.Failed? && ByOutgoing(a) && DoOutgoing(c, w, a).Some?
    ensures FailedFrom(w, DoOutgoing(c, w, a).value)
  {
  }

  lemma FailedHarnessStays(c: Config, w: World, a: Action)
    requires w.observer.Retrying? && w.incoming.Failed? && DoHarness(c, w, a).Some?
    ensures FailedFrom(w, DoHarness(c, w, a).value)
  {
  }

  lemma FailedRetryStays(c: Config, w: World, a: Action)
    requires w.observer.Retrying? && w.incoming.Failed? && Do(c, w, a).Some?
    ensures FailedFrom(w, Do(c, w, a).value)
  {
    assert !ByIncoming(a) by {
      if ByIncoming(a) {
        FailedIncomingStops(c, w, a);
      }
    }
    if ByOutgoing(a) {
      FailedOutgoingStays(c, w, a);
    } else {
      FailedHarnessStays(c, w, a);
    }
  }

  lemma RowStaysOutgoing(c: Config, w: World, a: Action)
    requires w.rows > 0 && DoOutgoing(c, w, a).Some?
    ensures DoOutgoing(c, w, a).value.rows > 0
  {
  }

  lemma RowStaysIncoming(c: Config, w: World, a: Action)
    requires w.rows > 0 && ByIncoming(a) && DoIncoming(c, w, a).Some?
    ensures DoIncoming(c, w, a).value.rows > 0
  {
  }

  lemma RowStaysHarness(c: Config, w: World, a: Action)
    requires w.rows > 0 && DoHarness(c, w, a).Some?
    ensures DoHarness(c, w, a).value.rows > 0
  {
  }

  lemma RowStays(c: Config, w: World, a: Action)
    requires w.rows > 0 && Do(c, w, a).Some?
    ensures Do(c, w, a).value.rows > 0
  {
    if ByIncoming(a) {
      RowStaysIncoming(c, w, a);
    } else if ByOutgoing(a) {
      RowStaysOutgoing(c, w, a);
    } else {
      RowStaysHarness(c, w, a);
    }
  }

  /** The commit is final: in every continuation of a run that has committed there is one row, the old
      daemon is leaving or gone with every pump parked, and a daemon that asks is refused for good. */
  lemma {:induction false} CommitIsFinal(c: Config, w: World, run: seq<Action>)
    requires Inv(c, w) && Timed(c) && w.rows > 0 && Exec(c, w, run).Some?
    ensures var end := Exec(c, w, run).value;
            && end.rows == 1 && AllParked(end.pumps) && (end.outgoing.Committed? || end.outgoing.Exited?)
            && (end.incoming.Loading? && !end.stopped ==> Do(c, end, Ask) == Some(end.(incoming := Failed)))
    decreases |run|
  {
    if run != [] {
      StepPreserves(c, w, run[0]);
      RowStays(c, w, run[0]);
      CommitIsFinal(c, Do(c, w, run[0]).value, run[1..]);
    }
  }
}
