/** The live handoff of a daemon's panes as a step system: an outgoing daemon, an incoming daemon,
    the connection between them, and a harness that freezes, observes and kills. */
module Handoff {
  import opened Text

  /** The panes' processes, the pane whose client the harness watches, and four durations in
      milliseconds: the harness's settle wait, the bound on acting on a marker, the outgoing daemon's
      commit wait, and the bound within which a live incoming daemon, once the last master was sent,
      sends its marker or fails. */
  datatype Config = Config(pids: seq<nat>, watch: nat, settle: nat, delay: nat, commitWait: nat, serve: nat)

  /** The two bounds leave time to act at all. */
  predicate Timed(c: Config) { 0 < c.delay && 0 < c.serve }

  /** The commit wait outlasts the incoming daemon's way to its marker. */
  predicate Prompt(c: Config) { c.serve <= c.commitWait }

  datatype Outgoing =
    | Serving
    | Answering(session: nat)              // holds the one-handoff lock, has not replied yet
    | Accepting(session: nat)              // has replied, waits for a connection
    | Pausing(session: nat)                // stops the reader pumps one by one
    | Sending(session: nat, count: nat)    // sends one master per pane, then waits for the commit
    | GaveUp(session: nat)                 // aborting: the connection is still open
    | Recording(session: nat)              // the pumps run again, the abort is not on the record yet
    | Committed                            // the row is written and the pumps stay parked
    | Exited

  datatype Incoming =
    | Loading
    | Asked
    | Connected
    | Accepts      // adopted every pane, accept loop live
    | Sent         // the marker is written
    | Reading      // the pumps run: the panes are this daemon's
    | Busy         // refused with exit code 3
    | Failed
    | Killed

  datatype Observer =
    | Watching
    | Counted(fds: nat)      // point B: the stream is silent and the arrived terminals were counted
    | Triggered
    | Frozen(at: nat)
    | RowsRead(seen: bool)
    | Passed
    | Missed
    | Gone           // a failure was recorded and the attempt returned
    | Bundle         // point C reached its assertions
    | MidBundle(fds: nat)    // point B reached its assertions
    | Aborted        // killed at an arbitrary moment
    | Retrying

  datatype World = World(
    outgoing: Outgoing, pumps: seq<bool>,
    incoming: Incoming, session: nat, adopted: seq<nat>, stopped: bool,
    counted: bool, wire: seq<nat>, marker: Option<nat>, sent: bool,
    rows: nat, aborts: nat, now: nat, since: nat,
    observer: Observer, exportFailed: bool)

  datatype Action =
    // incoming
    | Ask | Connect | Receive | StartAccepting | SendMarker | StartPumps | Fail
    // outgoing
    | Reply | Refuse | AcceptTimeout | PauseOne | BeginSend | SendMaster | PeerGone | StepFails
    | CommitTimeout | Resume | Record | TakeMarker | Exit
    // harness and clock
    | Advance(ms: nat) | Trigger | Freeze | ReadRows(exportFails: bool) | Poll | CheckMoment
    | CountMid | KillMid | KillAny | Respawn

  function Running(n: nat): seq<bool> { seq(n, _ => true) }

  predicate AllRunning(pumps: seq<bool>) { forall i :: 0 <= i < |pumps| ==> pumps[i] }

  predicate AllParked(pumps: seq<bool>) { forall i :: 0 <= i < |pumps| ==> !pumps[i] }

  /** The first pump still running, or the length. */
  function FirstRunning(pumps: seq<bool>): (k: nat)
    ensures k <= |pumps| && (k < |pumps| ==> pumps[k]) && forall i :: 0 <= i < k ==> !pumps[i]
  {
    if pumps == [] || pumps[0] then 0 else 1 + FirstRunning(pumps[1..])
  }

  predicate IsDead(i: Incoming) { i.Busy? || i.Failed? || i.Killed? }

  /** The outgoing daemon's peer: this incoming daemon, still alive. */
  predicate PeerAlive(w: World, session: nat) { w.session == session && !IsDead(w.incoming) }

  function Init(c: Config): World {
    World(Serving, Running(|c.pids|), Loading, 0, [], false,
          false, [], None, false, 0, 0, 0, 0, Watching, false)
  }

  // ---------------------------------------------------------------- the steps

  /** The incoming daemon.  A stopped process takes no step. */
  function DoIncoming(c: Config, w: World, a: Action): Option<World> {
    if w.stopped then None
    else match (a, w.incoming)
      case (Ask, Loading) =>
        if w.outgoing.Serving? then Some(w.(outgoing := Answering(w.session), incoming := Asked))
        else if w.outgoing.Committed? || w.outgoing.Exited? then Some(w.(incoming := Failed))
        else Some(w.(incoming := Busy))
      case (Connect, Asked) =>
        if w.outgoing == Answering(w.session) then None
        else if w.outgoing == Accepting(w.session) then
          Some(w.(outgoing := Pausing(w.session), incoming := Connected))
        else Some(w.(incoming := Failed))
      case (Receive, Connected) =>
        if w.wire == [] then None
        else Some(w.(adopted := w.adopted + [w.wire[0]], wire := w.wire[1..]))
      case (StartAccepting, Connected) =>
        if w.counted && |w.adopted| == |c.pids| then Some(w.(incoming := Accepts)) else None
      case (SendMarker, Accepts) =>
        if || w.outgoing == Sending(w.session, |c.pids|)
           || w.outgoing == GaveUp(w.session) || w.outgoing == Recording(w.session) then
          Some(w.(incoming := Sent, marker := Some(w.now), sent := true))
        else Some(w.(incoming := Failed))
      case (StartPumps, Sent) => Some(w.(incoming := Reading))
      case (Fail, Loading) => Some(w.(incoming := Failed))
      case (Fail, Asked) => Some(w.(incoming := Failed))
      case (Fail, Connected) => Some(w.(incoming := Failed))
      case (Fail, Accepts) => Some(w.(incoming := Failed))
      case _ => None
  }

  /** The outgoing daemon.  Before it has replied, a failure leaves no trace: a reply to a dead peer
      cannot be written, and a refusal is no abort.  After the reply, every way out before the commit
      goes through `GaveUp`, `Resume` and `Record`: the pumps first, then the row, then the lock. */
  function DoOutgoing(c: Config, w: World, a: Action): Option<World> {
    match (a, w.outgoing)
    case (Reply, Answering(s)) =>
      Some(w.(outgoing := if PeerAlive(w, s) then Accepting(s) else Serving))
    case (Refuse, Answering(s)) => Some(w.(outgoing := Serving))
    case (AcceptTimeout, Accepting(s)) => Some(w.(outgoing := GaveUp(s)))
    case (PauseOne, Pausing(s)) =>
      var k := FirstRunning(w.pumps);
      if k < |w.pumps| then Some(w.(pumps := w.pumps[k := false])) else None
    case (BeginSend, Pausing(s)) =>
      if AllParked(w.pumps) then
        Some(w.(outgoing := Sending(s, 0), counted := w.counted || PeerAlive(w, s), since := w.now))
      else None
    case (SendMaster, Sending(s, k)) =>
      if k < |c.pids| && PeerAlive(w, s) then
        Some(w.(outgoing := Sending(s, k + 1), wire := w.wire + [c.pids[k]], since := w.now))
      else None
    case (PeerGone, Pausing(s)) => if PeerAlive(w, s) then None else Some(w.(outgoing := GaveUp(s)))
    case (PeerGone, Sending(s, k)) =>
      if PeerAlive(w, s) || w.marker.Some? then None else Some(w.(outgoing := GaveUp(s)))
    case (StepFails, Pausing(s)) => Some(w.(outgoing := GaveUp(s)))
    case (StepFails, Sending(s, k)) => if k < |c.pids| then Some(w.(outgoing := GaveUp(s))) else None
    case (CommitTimeout, Sending(s, k)) =>
      if k == |c.pids| && w.marker.None? && w.now >= w.since + c.commitWait then
        Some(w.(outgoing := GaveUp(s)))
      else None
    case (Resume, GaveUp(s)) =>
      Some(w.(outgoing := Recording(s), pumps := Running(|w.pumps|)))
    case (Record, Recording(s)) => Some(w.(outgoing := Serving, aborts := w.aborts + 1, marker := None))
    case (TakeMarker, Sending(s, k)) =>
      if k == |c.pids| && w.marker.Some? then
        Some(w.(outgoing := Committed, rows := w.rows + 1, marker := None))
      else None
    case (Exit, Committed) => Some(w.(outgoing := Exited))
    case _ => None
  }

  /** The incoming daemon has been sent every master, and its marker or its failure is due. */
  predicate Due(c: Config, w: World) {
    Complete(c, w) && (w.incoming.Connected? || w.incoming.Accepts?) && !w.stopped
  }

  /** Time passes, but never past the moment by which a deliverable marker is acted on, nor past the
      one by which a live incoming daemon has sent its marker or failed. */
  predicate MayAdvance(c: Config, w: World, ms: nat) {
    && (w.marker.Some? && w.outgoing.Sending? ==> w.now + ms < w.marker.value + c.delay)
    && (Due(c, w) ==> w.now + ms < w.since + c.serve)
  }

  /** No output of the watched pane is moving. */
  predicate Silent(c: Config, w: World) { c.watch < |w.pumps| ==> !w.pumps[c.watch] }

  function Kill(w: World, observer: Observer): World {
    w.(incoming := if IsDead(w.incoming) then w.incoming else Killed, stopped := false, observer := observer)
  }

  /** The harness has killed the incoming daemon at one of its points and goes on to the retry. */
  predicate AfterKill(o: Observer) { o.Bundle? || o.MidBundle? || o.Aborted? }

  /** The clock and the harness: the kill points, and the retry that follows them. */
  function DoHarness(c: Config, w: World, a: Action): Option<World> {
    match (a, w.observer)
    case (Advance(ms), _) => if MayAdvance(c, w, ms) then Some(w.(now := w.now + ms)) else None
    case (Trigger, Watching) =>
      if |w.adopted| >= |c.pids| then Some(w.(observer := Triggered)) else None
    case (Freeze, Triggered) =>
      if IsDead(w.incoming) then Some(w.(observer := Gone))
      else Some(w.(stopped := true, observer := Frozen(w.now)))
    case (ReadRows(fails), Frozen(at)) =>
      if w.now >= at + c.settle then
        Some(w.(observer := RowsRead(fails || w.rows > 0), exportFailed := fails))
      else None
    case (Poll, RowsRead(seen)) =>
      if seen || w.outgoing.Exited? then Some(Kill(w, Missed)) else Some(w.(observer := Passed))
    case (CheckMoment, Passed) =>
      if IsDead(w.incoming) || !Silent(c, w) then Some(w.(observer := Gone))
      else Some(Kill(w, Bundle))
    case (CountMid, Watching) =>
      if !IsDead(w.incoming) && Silent(c, w) then Some(w.(observer := Counted(|w.adopted|))) else None
    case (KillMid, Counted(fds)) => Some(Kill(w, MidBundle(fds)))
    case (KillAny, Watching) => Some(Kill(w, Aborted))
    case (Respawn, o) =>
      if (AfterKill(o) && IsDead(w.incoming)) || (o.Retrying? && w.incoming.Busy?) then
        Some(w.(incoming := Loading, session := w.session + 1, adopted := [],
                counted := false, wire := [], observer := Retrying))
      else None
    case _ => None
  }

  predicate ByIncoming(a: Action) {
    a.Ask? || a.Connect? || a.Receive? || a.StartAccepting? || a.SendMarker? || a.StartPumps? || a.Fail?
  }

  predicate ByOutgoing(a: Action) {
    || a.Reply? || a.Refuse? || a.AcceptTimeout? || a.PauseOne? || a.BeginSend? || a.SendMaster?
    || a.PeerGone? || a.StepFails? || a.CommitTimeout? || a.Resume? || a.Record? || a.TakeMarker? || a.Exit?
  }

  function Do(c: Config, w: World, a: Action): Option<World> {
    if ByIncoming(a) then DoIncoming(c, w, a)
    else if ByOutgoing(a) then DoOutgoing(c, w, a)
    else DoHarness(c, w, a)
  }

  /** The world after a run, or `None` when one of its steps is not possible. */
  function Exec(c: Config, w: World, run: seq<Action>): Option<World>
    decreases |run|
  {
    if run == [] then Some(w)
    else match Do(c, w, run[0]) case None => None case Some(next) => Exec(c, next, run[1..])
  }

  // ---------------------------------------------------------------- the invariant

  /** The pumps follow the outgoing daemon's phase: an abort has resumed every one of them, and from
      the transfer on every one of them is parked. */
  ghost predicate PumpsInv(c: Config, w: World) {
    && |w.pumps| == |c.pids|
    && (w.outgoing.Serving? || w.outgoing.Answering? || w.outgoing.Accepting? || w.outgoing.Recording? ==>
          AllRunning(w.pumps))
    && (w.outgoing.Sending? || w.outgoing.Committed? || w.outgoing.Exited? ==> AllParked(w.pumps))
    && (w.outgoing.Sending? ==> w.outgoing.count <= |c.pids|)
  }

  /** The one-handoff lock is held. */
  predicate OutgoingBusy(o: Outgoing) {
    o.Answering? || o.Accepting? || o.Pausing? || o.Sending? || o.GaveUp? || o.Recording?
  }

  /** Every master of this session is with the incoming daemon or on its way. */
  predicate Complete(c: Config, w: World) {
    w.counted && |w.adopted| + |w.wire| == |c.pids|
  }

  /** This session's request is taken, and its connection is still to come. */
  predicate Unconnected(w: World) { w.outgoing == Answering(w.session) || w.outgoing == Accepting(w.session) }

  /** What the incoming daemon holds is a prefix of the panes, in order, and what is on the wire
      continues it: nothing is lost between the two daemons. */
  ghost predicate TransferInv(c: Config, w: World) {
    && w.adopted + w.wire <= c.pids
    && (OutgoingBusy(w.outgoing) ==> w.outgoing.session <= w.session)
    && (w.incoming.Loading? || w.incoming.Asked? ==> w.adopted == w.wire == [] && !w.counted)
    && (w.incoming.Loading? ==> OutgoingBusy(w.outgoing) ==> w.outgoing.session < w.session)
    && (w.incoming.Asked? ==> w.outgoing != Pausing(w.session)
                              && (w.outgoing.Sending? ==> w.outgoing.session < w.session))
    && (Unconnected(w) ==> !w.incoming.Connected? && !w.incoming.Accepts?)
    && (Unconnected(w) || w.outgoing == Pausing(w.session) ==> w.adopted == w.wire == [] && !w.counted)
    && (w.outgoing.Sending? && w.outgoing.session == w.session ==>
          |w.adopted| + |w.wire| == w.outgoing.count)
    && (w.incoming.Accepts? || w.incoming.Sent? || w.incoming.Reading? ==>
          w.counted && w.adopted == c.pids)
  }

  /** There is at most one marker, it belongs to the session the outgoing daemon is in, and the row
      is written exactly when it is taken. */
  ghost predicate MarkerInv(c: Config, w: World) {
    && (w.marker.Some? ==> w.sent && w.marker.value <= w.now)
    && (w.marker.Some? ==> w.outgoing.Sending? || w.outgoing.GaveUp? || w.outgoing.Recording?)
    && (w.marker.Some? && w.outgoing.session == w.session ==>
          w.incoming.Sent? || w.incoming.Reading? || w.incoming.Killed?)
    && (w.marker.Some? && w.outgoing.Sending? ==>
          w.outgoing.count == |c.pids| && w.now < w.marker.value + c.delay)
    && (w.rows > 0 <==> w.outgoing.Committed? || w.outgoing.Exited?) && w.rows <= 1
    && (w.rows > 0 || w.incoming.Sent? || w.incoming.Reading? ==> w.sent)
  }

  /** Only a live daemon is stopped, a killed one is dead, only a retry has a later session, and a marker of the first
      session was sent by a daemon that held every pane. */
  ghost predicate SessionInv(c: Config, w: World) {
    && (w.stopped ==> !IsDead(w.incoming))
    && (AfterKill(w.observer) ==> IsDead(w.incoming))
    && (!w.observer.Retrying? ==> w.session == 0)
    && (w.session == 0 && w.sent ==> w.adopted == c.pids)
  }

  /** The outgoing daemon is past the point of no return, or in this session's commit wait. */
  predicate Settling(c: Config, w: World) {
    w.outgoing == Sending(w.session, |c.pids|) || w.outgoing.Committed? || w.outgoing.Exited?
  }

  /** The marker's deadline is kept, and while it is kept a commit wait that outlasts it does not
      expire: a daemon that may still send finds its peer waiting, and one that has sent is heard. */
  ghost predicate ClockInv(c: Config, w: World) {
    && (Due(c, w) ==> w.now < w.since + c.serve)
    && (Prompt(c) && Due(c, w) ==> Settling(c, w))
    && (Prompt(c) && (w.incoming.Sent? || w.incoming.Reading?) ==> w.marker.Some? || w.rows > 0)
    && (Prompt(c) && w.marker.Some? ==> w.outgoing.Sending?)
  }

  ghost predicate Inv(c: Config, w: World) {
    PumpsInv(c, w) && TransferInv(c, w) && MarkerInv(c, w) && SessionInv(c, w) && ClockInv(c, w)
  }

  lemma InitInv(c: Config)
    ensures Inv(c, Init(c))
  {
  }

  // ---------------------------------------------------------------- the incoming daemon keeps it

  lemma AskPreserves(c: Config, w: World)
    requires Inv(c, w) && DoIncoming(c, w, Ask).Some?
    ensures Inv(c, DoIncoming(c, w, Ask).value)
  {
  }

  lemma ConnectPreserves(c: Config, w: World)
    requires Inv(c, w) && DoIncoming(c, w, Connect).Some?
    ensures Inv(c, DoIncoming(c, w, Connect).value)
  {
  }

  lemma ReceivePreserves(c: Config, w: World)
    requires Inv(c, w) && DoIncoming(c, w, Receive).Some?
    ensures Inv(c, DoIncoming(c, w, Receive).value)
  {
    assert w.adopted + [w.wire[0]] + w.wire[1..] == w.adopted + w.wire;
  }

  lemma StartAcceptingPreserves(c: Config, w: World)
    requires Inv(c, w) && DoIncoming(c, w, StartAccepting).Some?
    ensures Inv(c, DoIncoming(c, w, StartAccepting).value)
  {
    assert w.adopted == c.pids;
  }

  lemma SendMarkerPreserves(c: Config, w: World)
    requires Inv(c, w) && Timed(c) && DoIncoming(c, w, SendMarker).Some?
    ensures Inv(c, DoIncoming(c, w, SendMarker).value)
  {
    if DoIncoming(c, w, SendMarker).value.incoming.Failed? {
      FailPreserves(c, w);
    }
  }

  lemma StartPumpsPreserves(c: Config, w: World)
    requires Inv(c, w) && DoIncoming(c, w, StartPumps).Some?
    ensures Inv(c, DoIncoming(c, w, StartPumps).value)
  {
  }

  lemma FailPreserves(c: Config, w: World)
    requires Inv(c, w) && DoIncoming(c, w, Fail).Some?
    ensures Inv(c, DoIncoming(c, w, Fail).value)
  {
  }

  lemma IncomingPreserves(c: Config, w: World, a: Action)
    requires Inv(c, w) && Timed(c) && ByIncoming(a) && DoIncoming(c, w, a).Some?
    ensures Inv(c, DoIncoming(c, w, a).value)
  {
    match a
    case Ask => AskPreserves(c, w);
    case Connect => ConnectPreserves(c, w);
    case Receive => ReceivePreserves(c, w);
    case StartAccepting => StartAcceptingPreserves(c, w);
    case SendMarker => SendMarkerPreserves(c, w);
    case StartPumps => StartPumpsPreserves(c, w);
    case Fail => FailPreserves(c, w);
    case _ =>
  }

  // ---------------------------------------------------------------- the outgoing daemon keeps it

  /** Giving up is harmless unless it is this session's commit wait that a marker is due for. */
  lemma GiveUpPreserves(c: Config, w: World, s: nat)
    requires Inv(c, w) && OutgoingBusy(w.outgoing) && w.outgoing.session == s
    requires w.marker.None? && (Prompt(c) ==> !Due(c, w))
    ensures Inv(c, w.(outgoing := GaveUp(s)))
  {
  }

  lemma AnswerPreserves(c: Config, w: World, a: Action)
    requires Inv(c, w) && (a.Reply? || a.Refuse?) && DoOutgoing(c, w, a).Some?
    ensures Inv(c, DoOutgoing(c, w, a).value)
  {
  }

  lemma PauseOnePreserves(c: Config, w: World)
    requires Inv(c, w) && DoOutgoing(c, w, PauseOne).Some?
    ensures Inv(c, DoOutgoing(c, w, PauseOne).value)
  {
  }

  lemma BeginSendPreserves(c: Config, w: World)
    requires Inv(c, w) && Timed(c) && DoOutgoing(c, w, BeginSend).Some?
    ensures Inv(c, DoOutgoing(c, w, BeginSend).value)
  {
  }

  lemma SendMasterPreserves(c: Config, w: World)
    requires Inv(c, w) && Timed(c) && DoOutgoing(c, w, SendMaster).Some?
    ensures Inv(c, DoOutgoing(c, w, SendMaster).value)
  {
    assert w.adopted + (w.wire + [c.pids[w.outgoing.count]])
        == (w.adopted + w.wire) + [c.pids[w.outgoing.count]];
  }

  lemma ResumePreserves(c: Config, w: World)
    requires Inv(c, w) && DoOutgoing(c, w, Resume).Some?
    ensures Inv(c, DoOutgoing(c, w, Resume).value)
  {
  }

  lemma RecordPreserves(c: Config, w: World)
    requires Inv(c, w) && DoOutgoing(c, w, Record).Some?
    ensures Inv(c, DoOutgoing(c, w, Record).value)
  {
  }

  lemma TakeMarkerPreserves(c: Config, w: World)
    requires Inv(c, w) && DoOutgoing(c, w, TakeMarker).Some?
    ensures Inv(c, DoOutgoing(c, w, TakeMarker).value)
  {
  }

  lemma ExitPreserves(c: Config, w: World)
    requires Inv(c, w) && DoOutgoing(c, w, Exit).Some?
    ensures Inv(c, DoOutgoing(c, w, Exit).value)
  {
  }

  lemma OutgoingPreserves(c: Config, w: World, a: Action)
    requires Inv(c, w) && Timed(c) && ByOutgoing(a) && DoOutgoing(c, w, a).Some?
    ensures Inv(c, DoOutgoing(c, w, a).value)
  {
    if a.Reply? || a.Refuse? {
      AnswerPreserves(c, w, a);
    } else if a.PauseOne? {
      PauseOnePreserves(c, w);
    } else if a.BeginSend? {
      BeginSendPreserves(c, w);
    } else if a.SendMaster? {
      SendMasterPreserves(c, w);
    } else if a.Resume? {
      ResumePreserves(c, w);
    } else if a.Record? {
      RecordPreserves(c, w);
    } else if a.TakeMarker? {
      TakeMarkerPreserves(c, w);
    } else if a.Exit? {
      ExitPreserves(c, w);
    } else {
      GiveUpPreserves(c, w, w.outgoing.session);
    }
  }

  // ---------------------------------------------------------------- the harness keeps it

  lemma KillPreserves(c: Config, w: World, o: Observer)
    requires Inv(c, w) && (o.Retrying? <==> w.observer.Retrying?)
    ensures Inv(c, Kill(w, o))
  {
  }

  lemma RespawnPreserves(c: Config, w: World, next: World)
    requires Inv(c, w) && DoHarness(c, w, Respawn) == Some(next)
    ensures Inv(c, next)
  {
    assert [] + [] <= c.pids;
  }

  /** Observing, and stopping a live process, changes nothing the daemons' invariant speaks of. */
  lemma ObservingPreserves(c: Config, w: World, o: Observer, stopped: bool, failed: bool)
    requires Inv(c, w) && (w.stopped ==> stopped) && (stopped ==> !IsDead(w.incoming))
    requires (o.Retrying? <==> w.observer.Retrying?) && !AfterKill(o)
    ensures Inv(c, w.(observer := o, stopped := stopped, exportFailed := failed))
  {
  }

  lemma AdvancePreserves(c: Config, w: World, ms: nat)
    requires Inv(c, w) && MayAdvance(c, w, ms)
    ensures Inv(c, w.(now := w.now + ms))
  {
  }

  lemma WatchPreserves(c: Config, w: World, a: Action)
    requires Inv(c, w) && (a.Trigger? || a.CountMid?) && DoHarness(c, w, a).Some?
    ensures Inv(c, DoHarness(c, w, a).value)
  {
    ObservingPreserves(c, w, if a.Trigger? then Triggered else Counted(|w.adopted|), w.stopped, w.exportFailed);
  }

  lemma FreezePreserves(c: Config, w: World)
    requires Inv(c, w) && DoHarness(c, w, Freeze).Some?
    ensures Inv(c, DoHarness(c, w, Freeze).value)
  {
    if IsDead(w.incoming) {
      ObservingPreserves(c, w, Gone, w.stopped, w.exportFailed);
    } else {
      ObservingPreserves(c, w, Frozen(w.now), true, w.exportFailed);
    }
  }

  lemma ReadRowsPreserves(c: Config, w: World, fails: bool)
    requires Inv(c, w) && DoHarness(c, w, ReadRows(fails)).Some?
    ensures Inv(c, DoHarness(c, w, ReadRows(fails)).value)
  {
    ObservingPreserves(c, w, RowsRead(fails || w.rows > 0), w.stopped, fails);
  }

  lemma PollPreserves(c: Config, w: World)
    requires Inv(c, w) && DoHarness(c, w, Poll).Some?
    ensures Inv(c, DoHarness(c, w, Poll).value)
  {
    KillPreserves(c, w, Missed);
    ObservingPreserves(c, w, Passed, w.stopped, w.exportFailed);
  }

  lemma CheckMomentPreserves(c: Config, w: World)
    requires Inv(c, w) && DoHarness(c, w, CheckMoment).Some?
    ensures Inv(c, DoHarness(c, w, CheckMoment).value)
  {
    KillPreserves(c, w, Bundle);
    ObservingPreserves(c, w, Gone, w.stopped, w.exportFailed);
  }

  lemma KillStepPreserves(c: Config, w: World, a: Action)
    requires Inv(c, w) && (a.KillMid? || a.KillAny?) && DoHarness(c, w, a).Some?
    ensures Inv(c, DoHarness(c, w, a).value)
  {
    KillPreserves(c, w, if a.KillMid? then MidBundle(w.observer.fds) else Aborted);
  }

  lemma HarnessPreserves(c: Config, w: World, a: Action)
    requires Inv(c, w) && DoHarness(c, w, a).Some?
    ensures Inv(c, DoHarness(c, w, a).value)
  {
    match a
    case Advance(ms) => AdvancePreserves(c, w, ms);
    case Trigger => WatchPreserves(c, w, a);
    case CountMid => WatchPreserves(c, w, a);
    case Freeze => FreezePreserves(c, w);
    case ReadRows(fails) => ReadRowsPreserves(c, w, fails);
    case Poll => PollPreserves(c, w);
    case CheckMoment => CheckMomentPreserves(c, w);
    case KillMid => KillStepPreserves(c, w, a);
    case KillAny => KillStepPreserves(c, w, a);
    case Respawn => RespawnPreserves(c, w, DoHarness(c, w, Respawn).value);
    case _ =>
  }

  // ---------------------------------------------------------------- the clock

  /** The two bounds never stop the clock for good: in every state of the invariant, where time may not
      pass, a marker can be taken or the incoming daemon can fail, and then any time may pass. */
  lemma ClockRunsOn(c: Config, w: World, ms: nat) returns (run: seq<Action>)
    requires Inv(c, w)
    ensures |run| <= 2 && Exec(c, w, run).Some? && MayAdvance(c, Exec(c, w, run).value, ms)
    ensures run == [] <==> MayAdvance(c, w, ms)
    ensures forall i :: 0 <= i < |run| ==> run[i] == TakeMarker || run[i] == Fail
  {
    run := [];
    if !MayAdvance(c, w, ms) {
      var owed := w.marker.Some? && w.outgoing.Sending?;
      var taken := if owed then Do(c, w, TakeMarker).value else w;
      run := (if owed then [TakeMarker] else []) + (if Due(c, taken) then [Fail] else []);
      assert run[|run|..] == [] && (|run| == 2 ==> run[1..] == [Fail]);
      assert [Fail][1..] == [] && (|run| == 1 ==> run[1..] == []);
    }
  }

  lemma StepPreserves(c: Config, w: World, a: Action)
    requires Inv(c, w) && Timed(c) && Do(c, w, a).Some?
    ensures Inv(c, Do(c, w, a).value)
  {
    if ByIncoming(a) {
      IncomingPreserves(c, w, a);
    } else if ByOutgoing(a) {
      OutgoingPreserves(c, w, a);
    } else {
      HarnessPreserves(c, w, a);
    }
  }

  /** Every reachable state satisfies the invariant. */
  lemma {:induction false} RunPreserves(c: Config, w: World, run: seq<Action>)
    requires Inv(c, w) && Timed(c) && Exec(c, w, run).Some?
    ensures Inv(c, Exec(c, w, run).value)
    decreases |run|
  {
    if run != [] {
      StepPreserves(c, w, run[0]);
      RunPreserves(c, Do(c, w, run[0]).value, run[1..]);
    }
  }
}
