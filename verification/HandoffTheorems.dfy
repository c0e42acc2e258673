/** Safety of the handoff over whole runs, what the harness may conclude, and exactly when. */
module HandoffTheorems {
  import opened Text
  import opened Handoff

  // ---------------------------------------------------------------- one reader

  /** Both daemons read the same pane: the two-readers fault. */
  ghost predicate TwoReaders(w: World) {
    w.incoming.Reading? && !w.outgoing.Exited? && !AllParked(w.pumps)
  }

  /** In every run the incoming daemon reads only after the marker, and then it holds every pane with
      its own pid; without a marker the old daemon never leaves; and two daemons read the panes only
      where the commit wait is shorter than the time the incoming daemon may take. */
  lemma OneReader(c: Config, run: seq<Action>)
    requires Timed(c) && Exec(c, Init(c), run).Some?
    ensures var w := Exec(c, Init(c), run).value;
            && (TwoReaders(w) ==> c.commitWait < c.serve)
            && (w.incoming.Reading? ==> w.sent && w.adopted == c.pids)
            && (!w.sent ==> w.rows == 0 && !w.outgoing.Committed? && !w.outgoing.Exited?)
            && (w.outgoing.Serving? ==> AllRunning(w.pumps))
  {
    InitInv(c);
    RunPreserves(c, Init(c), run);
  }

  // ---------------------------------------------------------------- the observer

  /** Nothing on the wire can still commit the cut. */
  predicate Undeliverable(w: World) { w.marker.Some? ==> !w.outgoing.Sending? }

  ghost predicate FirstAttempt(w: World) {
    && (w.sent ==> w.incoming.Sent? || w.incoming.Reading? || w.incoming.Killed?)
    && (w.observer.Frozen? || w.observer.RowsRead? || w.observer.Passed? ==>
          w.stopped && !IsDead(w.incoming))
  }

  /** What each stage of the observation has established. */
  ghost predicate ObserverInv(c: Config, w: World) {
    match w.observer
    case Watching => FirstAttempt(w)
    case Counted(_) => FirstAttempt(w)
    case Triggered => FirstAttempt(w)
    case Frozen(at) =>
      FirstAttempt(w) && at <= w.now && (w.marker.Some? ==> w.marker.value <= at)
    case RowsRead(seen) =>
      && FirstAttempt(w)
      && (seen ==> w.rows > 0 || w.exportFailed)
      && (!seen ==> w.rows == 0 && Undeliverable(w))
    case Passed => FirstAttempt(w) && w.rows == 0 && Undeliverable(w)
    case Missed => w.incoming.Killed? && (w.rows > 0 || w.exportFailed)
    case Bundle =>
      w.incoming.Killed? && w.rows == 0 && Undeliverable(w) && (Prompt(c) ==> !w.sent)
    case _ => true
  }

  /** A stopped process takes no step, and no step of the incoming daemon takes a marker back. */
  lemma ObserverIncoming(c: Config, w: World, a: Action)
    requires Inv(c, w) && ByIncoming(a) && ObserverInv(c, w) && DoIncoming(c, w, a).Some?
    ensures ObserverInv(c, DoIncoming(c, w, a).value)
  {
    var next := DoIncoming(c, w, a).value;
    assert !w.stopped && !IsDead(w.incoming) && next.observer == w.observer && next.rows == w.rows;
  }

  lemma ObserverOutgoing(c: Config, w: World, a: Action)
    requires Inv(c, w) && ByOutgoing(a) && ObserverInv(c, w) && DoOutgoing(c, w, a).Some?
    ensures ObserverInv(c, DoOutgoing(c, w, a).value)
  {
  }

  /** The settle wait decides: a marker sent before the freeze has been acted on by the time the rows
      are read, provided it is acted on within the settle time. */
  lemma SettleDecides(c: Config, w: World, at: nat)
    requires Inv(c, w) && ObserverInv(c, w) && c.delay <= c.settle
    requires w.observer == Frozen(at) && w.now >= at + c.settle
    ensures Undeliverable(w)
  {
  }

  lemma ObserverReads(c: Config, w: World, fails: bool)
    requires Inv(c, w) && ObserverInv(c, w) && c.delay <= c.settle
    requires DoHarness(c, w, ReadRows(fails)).Some?
    ensures ObserverInv(c, DoHarness(c, w, ReadRows(fails)).value)
  {
    SettleDecides(c, w, w.observer.at);
  }

  lemma ObserverFreezes(c: Config, w: World, a: Action)
    requires Inv(c, w) && ObserverInv(c, w) && (a.Trigger? || a.Freeze?)
    requires DoHarness(c, w, a).Some?
    ensures ObserverInv(c, DoHarness(c, w, a).value)
  {
  }

  lemma ObserverDecides(c: Config, w: World, a: Action)
    requires Inv(c, w) && ObserverInv(c, w) && (a.Poll? || a.CheckMoment?)
    requires DoHarness(c, w, a).Some?
    ensures ObserverInv(c, DoHarness(c, w, a).value)
  {
  }

  lemma ObserverHarness(c: Config, w: World, a: Action)
    requires Inv(c, w) && ObserverInv(c, w) && c.delay <= c.settle
    requires DoHarness(c, w, a).Some?
    ensures ObserverInv(c, DoHarness(c, w, a).value)
  {
    if a.Trigger? || a.Freeze? {
      ObserverFreezes(c, w, a);
    } else if a.ReadRows? {
      ObserverReads(c, w, a.exportFails);
    } else if a.Poll? || a.CheckMoment? {
      ObserverDecides(c, w, a);
    }
  }

  lemma {:induction false} ObserverRun(c: Config, w: World, run: seq<Action>)
    requires Inv(c, w) && ObserverInv(c, w) && Timed(c) && c.delay <= c.settle && Exec(c, w, run).Some?
    ensures ObserverInv(c, Exec(c, w, run).value)
    decreases |run|
  {
    if run != [] {
      var a, next := run[0], Do(c, w, run[0]).value;
      StepPreserves(c, w, a);
      if ByIncoming(a) {
        ObserverIncoming(c, w, a);
      } else if ByOutgoing(a) {
        ObserverOutgoing(c, w, a);
      } else {
        ObserverHarness(c, w, a);
      }
      ObserverRun(c, next, run[1..]);
    }
  }

  // ---------------------------------------------------------------- the stages of point C

  /** From its trigger on, point C watches a daemon that every terminal has reached. */
  predicate Arrived(o: Observer) {
    o.Triggered? || o.Frozen? || o.RowsRead? || o.Passed? || o.Missed? || o.Bundle?
  }

  ghost predicate StageInv(c: Config, w: World) {
    && (Arrived(w.observer) ==> w.adopted == c.pids)
    && (w.observer.Frozen? || w.observer.RowsRead? || w.observer.Passed? ==>
          w.stopped && !IsDead(w.incoming))
    && (w.observer.RowsRead? && w.exportFailed ==> w.observer.seen)
    && (w.observer.Passed? || w.observer.Bundle? ==> !w.exportFailed)
  }

  lemma IncomingKeepsStage(c: Config, w: World, a: Action)
    requires Inv(c, w) && StageInv(c, w) && ByIncoming(a) && DoIncoming(c, w, a).Some?
    ensures StageInv(c, DoIncoming(c, w, a).value)
  {
    if a.Receive? {
      assert |w.adopted + w.wire| > |w.adopted|;
    }
  }

  lemma OutgoingKeepsStage(c: Config, w: World, a: Action)
    requires Inv(c, w) && StageInv(c, w) && ByOutgoing(a) && DoOutgoing(c, w, a).Some?
    ensures StageInv(c, DoOutgoing(c, w, a).value)
  {
  }

  lemma HarnessKeepsStage(c: Config, w: World, a: Action)
    requires Inv(c, w) && StageInv(c, w) && DoHarness(c, w, a).Some?
    ensures StageInv(c, DoHarness(c, w, a).value)
  {
    if a.Trigger? {
      assert w.adopted <= w.adopted + w.wire <= c.pids;
    }
  }

  lemma {:induction false} RunKeepsStage(c: Config, w: World, run: seq<Action>)
    requires Inv(c, w) && StageInv(c, w) && Timed(c) && Exec(c, w, run).Some?
    ensures Inv(c, Exec(c, w, run).value) && StageInv(c, Exec(c, w, run).value)
    decreases |run|
  {
    if run != [] {
      var a := run[0];
      StepPreserves(c, w, a);
      if ByIncoming(a) {
        IncomingKeepsStage(c, w, a);
      } else if ByOutgoing(a) {
        OutgoingKeepsStage(c, w, a);
      } else {
        HarnessKeepsStage(c, w, a);
      }
      RunKeepsStage(c, Do(c, w, a).value, run[1..]);
    }
  }

  lemma Reached(c: Config, run: seq<Action>)
    requires Timed(c) && Exec(c, Init(c), run).Some?
    ensures Inv(c, Exec(c, Init(c), run).value) && StageInv(c, Exec(c, Init(c), run).value)
  {
    InitInv(c);
    RunKeepsStage(c, Init(c), run);
  }

  // ---------------------------------------------------------------- what point C may conclude

  /** Observer soundness: when point C reaches its assertions, every terminal has arrived at the daemon
      it killed, in order, the cut has not committed and never will, and no marker was ever sent unless
      the commit wait could expire under it.  An abandoned attempt had seen a committed cut or a failed
      export, and it leaves the incoming daemon killed: after a committed cut nobody serves. */
  lemma ObserverSound(c: Config, run: seq<Action>)
    requires Timed(c) && c.delay <= c.settle && Exec(c, Init(c), run).Some?
    ensures var w := Exec(c, Init(c), run).value;
            && (w.observer.Bundle? ==> w.adopted == c.pids && IsDead(w.incoming) && !w.exportFailed)
            && (w.observer.Bundle? ==> w.rows == 0 && Undeliverable(w) && (w.sent ==> c.commitWait < c.serve))
            && (w.observer.Missed? ==>
                  && w.incoming.Killed?
                  && ((w.sent && (w.outgoing.Committed? || w.outgoing.Exited?)) || w.exportFailed))
  {
    InitInv(c);
    Reached(c, run);
    ObserverRun(c, Init(c), run);
  }
}
