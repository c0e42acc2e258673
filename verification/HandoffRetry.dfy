/** After an abort: where every run of the old daemon's recovery and the harness's retries ends. */
module HandoffRetry {
  import opened Text
  import opened Handoff
  import opened HandoffRuns

  // ---------------------------------------------------------------- recovery

  /** The incoming daemon died before it sent a marker, and the harness goes on to the retry. */
  ghost predicate AbortedCut(c: Config, w: World) {
    Inv(c, w) && AfterKill(w.observer) && !w.sent
  }

  /** The old daemon has no live peer: its last one is dead, or a retry is still loading. */
  ghost predicate Recovering(c: Config, w: World) {
    && Inv(c, w) && !w.sent && !w.stopped
    && (AfterKill(w.observer)
        || (w.observer.Retrying? && (w.incoming.Busy? || w.incoming.Loading?)))
  }

  function CountRunning(pumps: seq<bool>): nat {
    if pumps == [] then 0 else (if pumps[0] then 1 else 0) + CountRunning(pumps[1..])
  }

  lemma {:induction false} ParkOneCounts(pumps: seq<bool>, k: nat)
    requires k < |pumps| && pumps[k]
    ensures CountRunning(pumps[k := false]) == CountRunning(pumps) - 1
  {
    if k > 0 {
      assert pumps[k := false][1..] == pumps[1..][k - 1 := false];
      ParkOneCounts(pumps[1..], k - 1);
    } else {
      assert pumps[0 := false][1..] == pumps[1..];
    }
  }

  /** How many steps the outgoing daemon can still take once it has no live peer. */
  function StepsLeft(w: World): nat {
    match w.outgoing
    case Serving => 0
    case Answering(_) => 1
    case Recording(_) => 1
    case GaveUp(_) => 2
    case Accepting(_) => 3
    case Sending(_, _) => 3
    case Pausing(_) => 4 + CountRunning(w.pumps)
    case _ => 0
  }

  /** The old daemon has replied to a request, and the handoff it then began is not over. */
  predicate InCut(o: Outgoing) { OutgoingBusy(o) && !o.Answering? }

  /** One abort is still to be put on the record: the old daemon is in a cut without a live peer. */
  function Owed(w: World): nat {
    if InCut(w.outgoing) && !PeerAlive(w, w.outgoing.session) then 1 else 0
  }

  /** Every step of the old daemon brings it closer to serving again, and the abort it owes, if it had
      replied, is recorded by the last one. */
  lemma RecoveryStep(c: Config, w: World, a: Action)
    requires Recovering(c, w) && Timed(c) && ByOutgoing(a) && DoOutgoing(c, w, a).Some?
    ensures var next := DoOutgoing(c, w, a).value;
            && Recovering(c, next) && StepsLeft(next) < StepsLeft(w)
            && next.aborts + Owed(next) == w.aborts + Owed(w)
            && next.incoming == w.incoming && next.session == w.session
  {
    OutgoingPreserves(c, w, a);
    if a.PauseOne? {
      ParkOneCounts(w.pumps, FirstRunning(w.pumps));
    }
  }

  lemma RecoveryProgress(c: Config, w: World)
    requires Recovering(c, w) && !w.outgoing.Serving?
    ensures exists a :: ByOutgoing(a) && Do(c, w, a).Some?
  {
    match w.outgoing
    case Answering(_) => assert Do(c, w, Reply).Some?;
    case Accepting(_) => assert Do(c, w, AcceptTimeout).Some?;
    case Pausing(_) => assert Do(c, w, StepFails).Some?;
    case Sending(_, _) => assert Do(c, w, PeerGone).Some?;
    case GaveUp(_) => assert Do(c, w, Resume).Some?;
    case Recording(_) => assert Do(c, w, Record).Some?;
    case _ =>
  }

  /** Another attempt of the harness, while the old daemon recovers or after it. */
  lemma RespawnRecovers(c: Config, w: World)
    requires Recovering(c, w) && Do(c, w, Respawn).Some?
    ensures var next := Do(c, w, Respawn).value;
            && Recovering(c, next) && next.incoming.Loading? && next.outgoing == w.outgoing
            && next.pumps == w.pumps && next.aborts == w.aborts && Owed(next) == Owed(w)
  {
    RespawnPreserves(c, w, Do(c, w, Respawn).value);
  }

  /** A request during the recovery is deferred and changes nothing else; after it, it is the start of
      a retry. */
  lemma AskRecovers(c: Config, w: World)
    requires Recovering(c, w) && w.incoming.Loading?
    ensures Do(c, w, Ask).Some?
    ensures !w.outgoing.Serving? ==>
              Do(c, w, Ask) == Some(w.(incoming := Busy)) && Recovering(c, w.(incoming := Busy))
              && Owed(w.(incoming := Busy)) == Owed(w)
    ensures w.outgoing.Serving? ==> InRetry(c, w)
  {
    AskPreserves(c, w);
  }

  // ---------------------------------------------------------------- the retry itself

  /** The steps of a handoff in which nothing fails. */
  predicate Smooth(a: Action) {
    || a.Ask? || a.Connect? || a.Receive? || a.StartAccepting? || a.SendMarker? || a.StartPumps?
    || a.Reply? || a.PauseOne? || a.BeginSend? || a.SendMaster? || a.TakeMarker? || a.Exit?
  }

  /** A retry in progress: this session's handoff, somewhere between the request and the exit. */
  ghost predicate InRetry(c: Config, w: World) {
    && Inv(c, w) && !w.stopped && w.observer.Retrying?
    && match w.incoming
       case Loading => w.outgoing.Serving?
       case Asked => Unconnected(w)
       case Connected =>
         || (w.outgoing == Pausing(w.session) && !w.counted)
         || (w.outgoing.Sending? && w.outgoing.session == w.session && w.marker.None? && w.counted)
       case Accepts => w.outgoing == Sending(w.session, |c.pids|) && w.marker.None? && w.wire == []
       case Sent => AfterMarker(c, w)
       case Reading => AfterMarker(c, w)
       case _ => false
  }

  ghost predicate AfterMarker(c: Config, w: World) {
    || (w.outgoing == Sending(w.session, |c.pids|) && w.marker.Some?)
    || w.outgoing.Committed? || w.outgoing.Exited?
  }

  function RetryLeft(c: Config, w: World): int {
    (match w.incoming
     case Loading => 6
     case Asked => 5
     case Connected => 4
     case Accepts => 3
     case Sent => 2
     case _ => 1)
    + (match w.outgoing
       case Serving => 4 * |c.pids| + 5
       case Answering(_) => 4 * |c.pids| + 5
       case Accepting(_) => 4 * |c.pids| + 4
       case Pausing(_) => 3 * |c.pids| + 4 + CountRunning(w.pumps)
       case Sending(_, k) => 3 * (|c.pids| - k) + 3
       case Committed => 1
       case _ => 0)
    + |w.wire|
  }

  lemma {:induction false} CountAtMost(pumps: seq<bool>)
    ensures CountRunning(pumps) <= |pumps|
  {
    if pumps != [] {
      CountAtMost(pumps[1..]);
    }
  }

  lemma RetryStepIncoming(c: Config, w: World, a: Action)
    requires InRetry(c, w) && Timed(c) && Smooth(a) && ByIncoming(a) && DoIncoming(c, w, a).Some?
    ensures var next := DoIncoming(c, w, a).value;
            InRetry(c, next) && RetryLeft(c, next) < RetryLeft(c, w) && next.aborts == w.aborts
  {
    IncomingPreserves(c, w, a);
    CountAtMost(w.pumps);
  }

  lemma RetryStepOutgoing(c: Config, w: World, a: Action)
    requires InRetry(c, w) && Timed(c) && Smooth(a) && ByOutgoing(a) && DoOutgoing(c, w, a).Some?
    ensures var next := DoOutgoing(c, w, a).value;
            InRetry(c, next) && RetryLeft(c, next) < RetryLeft(c, w) && next.aborts == w.aborts
  {
    OutgoingPreserves(c, w, a);
    if a.PauseOne? {
      ParkOneCounts(w.pumps, FirstRunning(w.pumps));
    }
  }

  /** The retry committed: one row, the old daemon gone, the new one reading the same panes. */
  ghost predicate Carried(c: Config, w: World) {
    w.incoming.Reading? && w.adopted == c.pids && w.outgoing.Exited? && w.rows == 1
  }

  lemma ConnectedProgress(c: Config, w: World)
    requires InRetry(c, w) && w.incoming.Connected?
    ensures exists a :: Smooth(a) && Do(c, w, a).Some?
  {
    if w.outgoing.Pausing? {
      if FirstRunning(w.pumps) < |w.pumps| {
        assert Do(c, w, PauseOne).Some?;
      } else {
        assert Do(c, w, BeginSend).Some?;
      }
    } else if w.wire != [] {
      assert Do(c, w, Receive).Some?;
    } else if w.outgoing.count < |c.pids| {
      assert Do(c, w, SendMaster).Some?;
    } else {
      assert Do(c, w, StartAccepting).Some?;
    }
  }

  lemma RetryProgress(c: Config, w: World)
    requires InRetry(c, w) && !Carried(c, w)
    ensures exists a :: Smooth(a) && Do(c, w, a).Some?
  {
    match w.incoming
    case Loading => assert Do(c, w, Ask).Some?;
    case Asked => assert Do(c, w, if w.outgoing.Answering? then Reply else Connect).Some?;
    case Connected => ConnectedProgress(c, w);
    case Accepts => assert Do(c, w, SendMarker).Some?;
    case Sent => assert Do(c, w, StartPumps).Some?;
    case Reading => assert Do(c, w, if w.outgoing.Sending? then TakeMarker else Exit).Some?;
    case _ =>
  }

  // ---------------------------------------------------------------- whole runs

  /** What may happen after an abort: the clock, a respawn, a step in which nothing fails, and any
      step of an old daemon without a live peer.  No retry fails on its own account. */
  ghost predicate Unfailing(w: World, a: Action) {
    || a.Advance? || a.Respawn? || Smooth(a)
    || (ByOutgoing(a) && OutgoingBusy(w.outgoing) && !PeerAlive(w, w.outgoing.session))
  }

  /** `run` is possible from `w`, and every one of its steps may happen after an abort. */
  ghost predicate AfterAbort(c: Config, w: World, run: seq<Action>)
    decreases |run|
  {
    run == [] ||
    (Unfailing(w, run[0]) && Do(c, w, run[0]).Some? && AfterAbort(c, Do(c, w, run[0]).value, run[1..]))
  }

  /** Steps that only pass time: a tick of the clock, and a retry that is refused and started again. */
  function StepSlack(w: World, a: Action): nat {
    if a.Advance? then 1 else if a.Ask? && !w.outgoing.Serving? then 2 else 0
  }

  function Slack(c: Config, w: World, run: seq<Action>): nat
    decreases |run|
  {
    if run == [] || Do(c, w, run[0]).None? then 0
    else StepSlack(w, run[0]) + Slack(c, Do(c, w, run[0]).value, run[1..])
  }

  ghost predicate OnTheWay(c: Config, w: World) { Recovering(c, w) || InRetry(c, w) }

  /** How many steps are left to the end of a retry that is not deferred. */
  ghost function WorkLeft(c: Config, w: World): int {
    if InRetry(c, w) then RetryLeft(c, w)
    else StepsLeft(w) + 4 * |c.pids| + 11 + if w.incoming.Loading? then 0 else 1
  }

  lemma WorkLeftPositive(c: Config, w: World)
    requires OnTheWay(c, w)
    ensures WorkLeft(c, w) >= 0
  {
  }

  /** A step that stays on the way: it does work or passes time, and the aborts add up. */
  ghost predicate Forward(c: Config, w: World, a: Action, next: World) {
    && OnTheWay(c, next)
    && next.aborts + Owed(next) == w.aborts + Owed(w)
    && WorkLeft(c, next) + 1 <= WorkLeft(c, w) + StepSlack(w, a)
  }

  lemma ClockKeeps(c: Config, w: World, later: World)
    requires later == w.(now := later.now) && Inv(c, later)
    ensures Recovering(c, w) ==> Recovering(c, later)
    ensures InRetry(c, w) ==> InRetry(c, later)
    ensures Inv(c, w) && InRetry(c, later) ==> InRetry(c, w)
  {
  }

  lemma ClockForward(c: Config, w: World, ms: nat)
    requires OnTheWay(c, w) && Do(c, w, Advance(ms)).Some?
    ensures Forward(c, w, Advance(ms), Do(c, w, Advance(ms)).value)
  {
    var later := w.(now := w.now + ms);
    assert Do(c, w, Advance(ms)) == Some(later);
    AdvancePreserves(c, w, ms);
    ClockKeeps(c, w, later);
  }

  lemma RecoveryForward(c: Config, w: World, a: Action)
    requires Recovering(c, w) && !InRetry(c, w) && Timed(c) && ByOutgoing(a) && Do(c, w, a).Some?
    ensures Forward(c, w, a, Do(c, w, a).value)
  {
    RecoveryStep(c, w, a);
  }

  lemma RespawnForward(c: Config, w: World)
    requires OnTheWay(c, w) && Do(c, w, Respawn).Some?
    ensures Forward(c, w, Respawn, Do(c, w, Respawn).value)
  {
    RespawnRecovers(c, w);
  }

  lemma DeferralForward(c: Config, w: World)
    requires Recovering(c, w) && !w.outgoing.Serving? && Do(c, w, Ask).Some?
    ensures Forward(c, w, Ask, Do(c, w, Ask).value)
  {
    AskRecovers(c, w);
  }

  lemma RetryOwesNothing(c: Config, w: World)
    requires InRetry(c, w)
    ensures Owed(w) == 0
  {
  }

  /** A retry's own step: nothing it does owes an abort. */
  lemma RetryForward(c: Config, w: World, a: Action)
    requires InRetry(c, w) && Timed(c) && Smooth(a) && Do(c, w, a).Some?
    ensures Forward(c, w, a, Do(c, w, a).value)
  {
    if ByIncoming(a) {
      RetryStepIncoming(c, w, a);
    } else {
      RetryStepOutgoing(c, w, a);
    }
    RetryOwesNothing(c, w);
    RetryOwesNothing(c, Do(c, w, a).value);
  }

  /** Before the retry has begun only the old daemon, the clock and deferred requests move. */
  lemma RecoveryKinds(c: Config, w: World, a: Action)
    requires Recovering(c, w) && !InRetry(c, w) && !a.Advance? && !a.Respawn?
    requires Unfailing(w, a) && Do(c, w, a).Some?
    ensures ByOutgoing(a) || (a.Ask? && !w.outgoing.Serving?)
  {
    if w.incoming.Loading? {
      AskRecovers(c, w);
    }
  }

  /** A retry under way has a live peer, so what may happen to it is smooth. */
  lemma RetryKinds(c: Config, w: World, a: Action)
    requires InRetry(c, w) && !a.Advance? && !a.Respawn? && Unfailing(w, a)
    ensures Smooth(a)
  {
    RetryOwesNothing(c, w);
  }

  lemma StepForward(c: Config, w: World, a: Action)
    requires OnTheWay(c, w) && Timed(c) && Unfailing(w, a) && Do(c, w, a).Some?
    ensures Forward(c, w, a, Do(c, w, a).value)
  {
    if a.Advance? {
      ClockForward(c, w, a.ms);
    } else if a.Respawn? {
      RespawnForward(c, w);
    } else if InRetry(c, w) {
      RetryKinds(c, w, a);
      RetryForward(c, w, a);
    } else {
      RecoveryKinds(c, w, a);
      if ByOutgoing(a) {
        RecoveryForward(c, w, a);
      } else {
        DeferralForward(c, w);
      }
    }
  }

  /** Nothing but the clock can move. */
  ghost predicate AtRest(c: Config, w: World) {
    forall a :: Unfailing(w, a) && !a.Advance? ==> Do(c, w, a).None?
  }

  /** The old daemon can take no step. */
  ghost predicate OldAtRest(c: Config, w: World) { forall a :: ByOutgoing(a) ==> Do(c, w, a).None? }

  /** Something other than the clock can move until the panes are carried. */
  lemma NeverStuck(c: Config, w: World)
    requires OnTheWay(c, w) && !Carried(c, w)
    ensures exists a :: Unfailing(w, a) && !a.Advance? && Do(c, w, a).Some?
  {
    if InRetry(c, w) {
      RetryProgress(c, w);
    } else if w.incoming.Loading? {
      AskRecovers(c, w);
      assert Unfailing(w, Ask) && !Ask.Advance?;
    } else {
      assert Unfailing(w, Respawn) && !Respawn.Advance? && Do(c, w, Respawn).Some?;
    }
  }

  /** Abort safety and retry, over whole runs.  From any cut aborted before its marker, let the old
      daemon recover, the harness retry and the clock tick in any order.  The run is bounded by its
      deferrals and ticks.  Wherever it stands, either the old daemon is on its way back, with no row
      and nothing sent, and a request is then deferred and changes nothing else; or it serves with
      every pump running; or the retry is under way.  Where the old daemon can take no step it serves.
      The aborts on the record and the one still owed add up, and a run that can go no further has
      committed and carried the same panes. */
  lemma {:induction false} AbortThenRetry(c: Config, w: World, run: seq<Action>)
    requires OnTheWay(c, w) && Timed(c) && AfterAbort(c, w, run)
    ensures Exec(c, w, run).Some? && OnTheWay(c, Exec(c, w, run).value)
    ensures |run| <= WorkLeft(c, w) + Slack(c, w, run)
    ensures var end := Exec(c, w, run).value;
            && end.aborts + Owed(end) == w.aborts + Owed(w)
            && (Recovering(c, end) ==> end.rows == 0 && !end.sent && |end.pumps| == |c.pids|)
            && (Recovering(c, end) && end.outgoing.Serving? ==> AllRunning(end.pumps))
            && (Recovering(c, end) && OldAtRest(c, end) ==> end.outgoing.Serving?)
            && (Recovering(c, end) && !end.outgoing.Serving? && end.incoming.Loading? ==>
                  Do(c, end, Ask) == Some(end.(incoming := Busy)))
            && (AtRest(c, end) ==> Carried(c, end))
    decreases |run|
  {
    if run == [] {
      WorkLeftPositive(c, w);
      if !Carried(c, w) {
        NeverStuck(c, w);
      }
      if Recovering(c, w) && w.incoming.Loading? {
        AskRecovers(c, w);
      }
      if Recovering(c, w) && !w.outgoing.Serving? {
        RecoveryProgress(c, w);
      }
    } else {
      StepForward(c, w, run[0]);
      AbortThenRetry(c, Do(c, w, run[0]).value, run[1..]);
    }
  }

  lemma AskOnlyServing(c: Config, w: World)
    requires InRetry(c, w) && Do(c, w, Ask).Some?
    ensures w.outgoing.Serving?
  {
  }

  /** A step that brings the retry closer: the old daemon recovers first, then the harness retries. */
  lemma WorkingStep(c: Config, w: World) returns (a: Action)
    requires OnTheWay(c, w) && !Carried(c, w)
    ensures Unfailing(w, a) && Do(c, w, a).Some? && StepSlack(w, a) == 0
  {
    if InRetry(c, w) {
      RetryProgress(c, w);
      a :| Smooth(a) && Do(c, w, a).Some?;
      if a.Ask? {
        AskOnlyServing(c, w);
      }
    } else if !w.outgoing.Serving? {
      RecoveryProgress(c, w);
      a :| ByOutgoing(a) && Do(c, w, a).Some?;
    } else {
      a := Respawn;
    }
  }

  /** From every cut aborted before its marker a retry can succeed: some run without deferrals carries
      the panes, in no more steps than are left. */
  lemma {:induction false} RetryCanSucceed(c: Config, w: World) returns (run: seq<Action>)
    requires OnTheWay(c, w) && Timed(c)
    ensures AfterAbort(c, w, run) && Exec(c, w, run).Some? && Carried(c, Exec(c, w, run).value)
    ensures Slack(c, w, run) == 0
    decreases WorkLeft(c, w)
  {
    if Carried(c, w) {
      run := [];
    } else {
      var a := WorkingStep(c, w);
      StepForward(c, w, a);
      WorkLeftPositive(c, w);
      var rest := RetryCanSucceed(c, Do(c, w, a).value);
      run := [a] + rest;
      assert run[1..] == rest;
    }
  }

  lemma AbortedCutIsOnTheWay(c: Config, w: World)
    requires AbortedCut(c, w)
    ensures Recovering(c, w) && WorkLeft(c, w) == StepsLeft(w) + 4 * |c.pids| + 12
  {
  }

  /** The same from the start: whatever happened before, once a run has killed the incoming daemon
      with no marker sent, every continuation is bounded, recovers the old daemon with every pump
      running and no row, and, where it can go no further, has carried the same panes.  Once the old
      daemon serves or a retry is under way, the kill has left one abort on the record if the old
      daemon had replied before it and was still in that cut, and none otherwise. */
  lemma AbortOfAnyRun(c: Config, run: seq<Action>, rest: seq<Action>)
    requires Timed(c) && Exec(c, Init(c), run).Some?
    requires var w := Exec(c, Init(c), run).value;
             AfterKill(w.observer) && !w.sent && AfterAbort(c, w, rest)
    ensures Exec(c, Init(c), run + rest).Some?
    ensures var w, end := Exec(c, Init(c), run).value, Exec(c, Init(c), run + rest).value;
            && |rest| <= StepsLeft(w) + 4 * |c.pids| + 12 + Slack(c, w, rest)
            && (Recovering(c, end) ==> end.rows == 0 && !end.sent)
            && (Recovering(c, end) && OldAtRest(c, end) ==> end.outgoing.Serving?)
            && (Recovering(c, end) && end.outgoing.Serving? ==> AllRunning(end.pumps) && |end.pumps| == |c.pids|)
            && (InRetry(c, end) || end.outgoing.Serving? ==>
                  end.aborts == w.aborts + if InCut(w.outgoing) then 1 else 0)
            && (AtRest(c, end) ==> Carried(c, end))
  {
    var w := Exec(c, Init(c), run).value;
    InitInv(c);
    RunPreserves(c, Init(c), run);
    ExecAppend(c, Init(c), run, rest);
    AbortedCutIsOnTheWay(c, w);
    AbortThenRetry(c, w, rest);
    var end := Exec(c, w, rest).value;
    if InRetry(c, end) {
      RetryOwesNothing(c, end);
    }
  }

  /** A daemon that asks and is killed before the reply leaves no abort: the old daemon finds its peer
      gone, and serves again without a row. */
  lemma UnansweredLeavesNoAbort(c: Config) returns (run: seq<Action>)
    ensures run == [Ask, KillAny, Reply] && Exec(c, Init(c), run).Some?
    ensures var w := Exec(c, Init(c), run).value;
            AfterKill(w.observer) && IsDead(w.incoming) && w.outgoing.Serving? && w.aborts == 0 && w.rows == 0
  {
    run := [Ask] + [KillAny] + [Reply];
    ExecOne(c, Init(c), Ask);
    ExecSnoc(c, Init(c), [Ask], KillAny);
    ExecSnoc(c, Init(c), [Ask] + [KillAny], Reply);
  }

  /** Point B: killed before its last terminal arrived, the incoming daemon leaves an aborted cut. */
  lemma MidPointAborts(c: Config, run: seq<Action>)
    requires Timed(c) && Exec(c, Init(c), run).Some?
    requires var w := Exec(c, Init(c), run).value; w.observer.MidBundle? && |w.adopted| < |c.pids|
    ensures AbortedCut(c, Exec(c, Init(c), run).value)
  {
    InitInv(c);
    RunPreserves(c, Init(c), run);
  }
}
