/** Runs that exist: the full transfer and the runs in which a claim fails.  Together with the
    theorems they give the exact condition of each claim. */
module HandoffRuns {
  import opened Text
  import opened Handoff
  import opened HandoffTheorems

  lemma {:induction false} ExecAppend(c: Config, w: World, a: seq<Action>, b: seq<Action>)
    requires Exec(c, w, a).Some?
    ensures Exec(c, w, a + b) == Exec(c, Exec(c, w, a).value, b)
    decreases |a|
  {
    if a == [] {
      assert a + b == b;
    } else {
      assert (a + b)[1..] == a[1..] + b;
      ExecAppend(c, Do(c, w, a[0]).value, a[1..], b);
    }
  }

  lemma ExecOne(c: Config, w: World, a: Action)
    ensures Exec(c, w, [a]) == Do(c, w, a)
  {
    assert [a][1..] == [];
  }

  /** `run` followed by one more possible step. */
  lemma ExecSnoc(c: Config, w: World, run: seq<Action>, a: Action)
    requires Exec(c, w, run).Some?
    ensures Exec(c, w, run + [a]) == Do(c, Exec(c, w, run).value, a)
  {
    ExecAppend(c, w, run, [a]);
    ExecOne(c, Exec(c, w, run).value, a);
  }

  // ---------------------------------------------------------------- the transfer, for any N panes

  function Parked(n: nat): seq<bool> { seq(n, _ => false) }

  function PausedWorld(c: Config, k: nat): World
    requires k <= |c.pids|
  {
    Init(c).(outgoing := Pausing(0), incoming := Connected,
             pumps := seq(|c.pids|, i => i >= k))
  }

  function SendingWorld(c: Config, k: nat): World
    requires k <= |c.pids|
  {
    Init(c).(outgoing := Sending(0, k), incoming := Connected, pumps := Parked(|c.pids|),
             counted := true, adopted := c.pids[..k])
  }

  /** Every master has arrived and the accept loop is live: the moment before the marker. */
  function ReadyWorld(c: Config): World {
    SendingWorld(c, |c.pids|).(incoming := Accepts)
  }

  lemma Connects(c: Config)
    ensures Exec(c, Init(c), [Ask] + [Reply] + [Connect]) == Some(PausedWorld(c, 0))
  {
    ExecOne(c, Init(c), Ask);
    ExecSnoc(c, Init(c), [Ask], Reply);
    ExecSnoc(c, Init(c), [Ask] + [Reply], Connect);
    assert PausedWorld(c, 0).pumps == Running(|c.pids|);
  }

  lemma {:induction false} PausesAll(c: Config, k: nat) returns (run: seq<Action>)
    requires k <= |c.pids|
    ensures Exec(c, Init(c), run) == Some(PausedWorld(c, k))
  {
    if k == 0 {
      run := [Ask] + [Reply] + [Connect];
      Connects(c);
    } else {
      var before := PausesAll(c, k - 1);
      run := before + [PauseOne];
      ExecSnoc(c, Init(c), before, PauseOne);
      PausesOne(c, k);
    }
  }

  lemma PausesOne(c: Config, k: nat)
    requires 0 < k <= |c.pids|
    ensures Do(c, PausedWorld(c, k - 1), PauseOne) == Some(PausedWorld(c, k))
  {
    var w := PausedWorld(c, k - 1);
    assert w.pumps[k - 1] && FirstRunning(w.pumps) == k - 1;
    assert w.pumps[k - 1 := false] == PausedWorld(c, k).pumps;
  }

  lemma {:induction false} SendsAll(c: Config, k: nat) returns (run: seq<Action>)
    requires k <= |c.pids|
    ensures Exec(c, Init(c), run) == Some(SendingWorld(c, k))
  {
    if k == 0 {
      var before := PausesAll(c, |c.pids|);
      run := before + [BeginSend];
      ExecSnoc(c, Init(c), before, BeginSend);
      assert PausedWorld(c, |c.pids|).pumps == Parked(|c.pids|);
    } else {
      var before := SendsAll(c, k - 1);
      SendsOne(c, k);
      ExecSnoc(c, Init(c), before, SendMaster);
      run := before + [SendMaster] + [Receive];
      ExecSnoc(c, Init(c), before + [SendMaster], Receive);
    }
  }

  function OnWire(c: Config, k: nat): World
    requires 0 < k <= |c.pids|
  {
    SendingWorld(c, k - 1).(outgoing := Sending(0, k), wire := [c.pids[k - 1]])
  }

  lemma SendsOne(c: Config, k: nat)
    requires 0 < k <= |c.pids|
    ensures Do(c, SendingWorld(c, k - 1), SendMaster) == Some(OnWire(c, k))
    ensures Do(c, OnWire(c, k), Receive) == Some(SendingWorld(c, k))
  {
    assert [] + [c.pids[k - 1]] == [c.pids[k - 1]];
    assert c.pids[..k - 1] + [c.pids[k - 1]] == c.pids[..k];
    assert OnWire(c, k).wire[1..] == [];
  }

  /** The transfer of any number of panes can complete. */
  lemma TransferCompletes(c: Config) returns (run: seq<Action>)
    ensures Exec(c, Init(c), run) == Some(ReadyWorld(c))
  {
    var before := SendsAll(c, |c.pids|);
    run := before + [StartAccepting];
    ExecSnoc(c, Init(c), before, StartAccepting);
  }

  // ---------------------------------------------------------------- without the assumptions

  /** The marker is sent, and the freeze lands in the same instant. */
  function FrozenWorld(c: Config): World {
    ReadyWorld(c).(incoming := Sent, marker := Some(0), sent := true, stopped := true,
                   observer := Frozen(0))
  }

  lemma TriggersReady(c: Config)
    ensures Do(c, ReadyWorld(c), Trigger) == Some(ReadyWorld(c).(observer := Triggered))
  {
  }

  lemma FreezesAtOnce(c: Config)
    ensures var w := ReadyWorld(c).(observer := Triggered);
            var sent := w.(incoming := Sent, marker := Some(0), sent := true);
            Do(c, w, SendMarker) == Some(sent) && Do(c, sent, Freeze) == Some(FrozenWorld(c))
  {
  }

  lemma FreezesAfterMarker(c: Config) returns (run: seq<Action>)
    ensures Exec(c, Init(c), run) == Some(FrozenWorld(c))
  {
    var ready := TransferCompletes(c);
    TriggersReady(c);
    FreezesAtOnce(c);
    ExecSnoc(c, Init(c), ready, Trigger);
    ExecSnoc(c, Init(c), ready + [Trigger], SendMarker);
    run := ready + [Trigger] + [SendMarker] + [Freeze];
    ExecSnoc(c, Init(c), ready + [Trigger] + [SendMarker], Freeze);
  }

  /** A frozen world in which the settle wait may pass without a row. */
  predicate Unseen(c: Config, w: World) {
    && w.observer == Frozen(w.now) && !IsDead(w.incoming) && Silent(c, w)
    && w.rows == 0 && !w.outgoing.Exited? && MayAdvance(c, w, c.settle)
  }

  function Settled(c: Config, w: World): World {
    w.(now := w.now + c.settle, observer := RowsRead(false), exportFailed := false)
  }

  lemma SettlesUnseen(c: Config, w: World)
    requires Unseen(c, w)
    ensures Exec(c, w, [Advance(c.settle)] + [ReadRows(false)]) == Some(Settled(c, w))
  {
    ExecOne(c, w, Advance(c.settle));
    ExecSnoc(c, w, [Advance(c.settle)], ReadRows(false));
  }

  lemma PassesChecks(c: Config, w: World)
    requires Unseen(c, w)
    ensures Do(c, Settled(c, w), Poll) == Some(Settled(c, w).(observer := Passed))
    ensures Do(c, Settled(c, w).(observer := Passed), CheckMoment) == Some(Kill(Settled(c, w), Bundle))
  {
  }

  /** From there the attempt passes every check and reaches its assertions. */
  lemma ReachesBundle(c: Config, w: World) returns (run: seq<Action>)
    requires Unseen(c, w)
    ensures Exec(c, w, run) == Some(Kill(Settled(c, w), Bundle))
  {
    var settled := [Advance(c.settle)] + [ReadRows(false)];
    SettlesUnseen(c, w);
    PassesChecks(c, w);
    ExecSnoc(c, w, settled, Poll);
    run := settled + [Poll] + [CheckMoment];
    ExecSnoc(c, w, settled + [Poll], CheckMoment);
  }

  /** A marker that may outlive the settle wait reaches the assertions of point C unseen. */
  lemma SlowMarkerIsMissed(c: Config) returns (run: seq<Action>)
    requires c.settle < c.delay
    ensures Exec(c, Init(c), run).Some?
    ensures var w := Exec(c, Init(c), run).value; w.observer.Bundle? && w.sent
  {
    var frozen := FreezesAfterMarker(c);
    var rest := ReachesBundle(c, FrozenWorld(c));
    ExecAppend(c, Init(c), frozen, rest);
    run := frozen + rest;
  }

  /** The commit wait has expired and the marker is written to a connection that is still open, all
      before the freeze. */
  function ExpiredWorld(c: Config): World {
    ReadyWorld(c).(outgoing := GaveUp(0), incoming := Sent, now := c.commitWait,
                   marker := Some(c.commitWait), sent := true)
  }

  lemma MarkerAfterExpiry(c: Config, w: World) returns (run: seq<Action>)
    requires c.commitWait < c.serve && (w == ReadyWorld(c) || w == ReadyWorld(c).(observer := Triggered))
    ensures Exec(c, w, run) == Some(ExpiredWorld(c).(observer := w.observer))
  {
    var late := w.(now := c.commitWait);
    var expired := late.(outgoing := GaveUp(0));
    ExpiryStep(c, w, late);
    ExecOne(c, w, Advance(c.commitWait));
    ExecSnoc(c, w, [Advance(c.commitWait)], CommitTimeout);
    run := [Advance(c.commitWait)] + [CommitTimeout] + [SendMarker];
    ExecSnoc(c, w, [Advance(c.commitWait)] + [CommitTimeout], SendMarker);
    assert Do(c, expired, SendMarker) == Some(ExpiredWorld(c).(observer := w.observer));
  }

  lemma ExpiryStep(c: Config, w: World, late: World)
    requires c.commitWait < c.serve && (w == ReadyWorld(c) || w == ReadyWorld(c).(observer := Triggered))
    requires late == w.(now := c.commitWait)
    ensures Do(c, w, Advance(c.commitWait)) == Some(late)
    ensures Do(c, late, CommitTimeout) == Some(late.(outgoing := GaveUp(0)))
  {
  }

  function FrozenTooLate(c: Config): World {
    ExpiredWorld(c).(stopped := true, observer := Frozen(c.commitWait))
  }

  lemma FreezesTooLate(c: Config)
    ensures Do(c, ExpiredWorld(c).(observer := Triggered), Freeze) == Some(FrozenTooLate(c))
    ensures Unseen(c, FrozenTooLate(c)) && FrozenTooLate(c).sent
  {
  }

  lemma FreezesAfterExpiry(c: Config) returns (run: seq<Action>)
    requires c.commitWait < c.serve
    ensures Exec(c, Init(c), run) == Some(FrozenTooLate(c))
  {
    var ready := TransferCompletes(c);
    TriggersReady(c);
    ExecSnoc(c, Init(c), ready, Trigger);
    var late := MarkerAfterExpiry(c, ReadyWorld(c).(observer := Triggered));
    ExecAppend(c, Init(c), ready + [Trigger], late);
    var expired := ready + [Trigger] + late;
    ExecSnoc(c, Init(c), expired, Freeze);
    FreezesTooLate(c);
    run := expired + [Freeze];
  }

  /** A commit wait that may expire first reaches the assertions of point C with the marker sent. */
  lemma ExpiredWaitIsMissed(c: Config) returns (run: seq<Action>)
    requires c.commitWait < c.serve
    ensures Exec(c, Init(c), run).Some?
    ensures var w := Exec(c, Init(c), run).value; w.observer.Bundle? && w.sent
  {
    var frozen := FreezesAfterExpiry(c);
    FreezesTooLate(c);
    var rest := ReachesBundle(c, FrozenTooLate(c));
    ExecAppend(c, Init(c), frozen, rest);
    run := frozen + rest;
  }

  ghost predicate SoundAt(c: Config, run: seq<Action>) {
    Exec(c, Init(c), run).Some? && Exec(c, Init(c), run).value.observer.Bundle? ==>
      !Exec(c, Init(c), run).value.sent
  }

  /** The verdict of point C is sound in every run exactly when the settle wait covers the time a
      marker needs to be acted on and the commit wait covers the time it may take to be sent. */
  lemma ObserverSoundExactly(c: Config)
    requires Timed(c)
    ensures (forall run :: SoundAt(c, run)) <==> c.delay <= c.settle && c.serve <= c.commitWait
  {
    if c.settle < c.delay {
      var run := SlowMarkerIsMissed(c);
      assert !SoundAt(c, run);
    } else if c.commitWait < c.serve {
      var run := ExpiredWaitIsMissed(c);
      assert !SoundAt(c, run);
    } else {
      forall run ensures SoundAt(c, run) {
        if Exec(c, Init(c), run).Some? {
          ObserverSound(c, run);
        }
      }
    }
  }

  // ---------------------------------------------------------------- point B

  ghost predicate DaemonRun(run: seq<Action>) {
    forall i :: 0 <= i < |run| ==> ByIncoming(run[i]) || ByOutgoing(run[i])
  }

  lemma IncomingUnseen(c: Config, w: World, a: Action, o: Observer)
    requires ByIncoming(a) && DoIncoming(c, w, a).Some?
    ensures DoIncoming(c, w.(observer := o), a) == Some(DoIncoming(c, w, a).value.(observer := o))
  {
  }

  lemma GivingUpUnseen(c: Config, w: World, a: Action, o: Observer)
    requires a.Refuse? || a.AcceptTimeout? || a.PeerGone? || a.StepFails? || a.CommitTimeout?
    requires DoOutgoing(c, w, a).Some?
    ensures DoOutgoing(c, w.(observer := o), a) == Some(DoOutgoing(c, w, a).value.(observer := o))
  {
  }

  lemma OutgoingUnseen(c: Config, w: World, a: Action, o: Observer)
    requires ByOutgoing(a) && DoOutgoing(c, w, a).Some?
    ensures DoOutgoing(c, w.(observer := o), a) == Some(DoOutgoing(c, w, a).value.(observer := o))
  {
    if a.Refuse? || a.AcceptTimeout? || a.PeerGone? || a.StepFails? || a.CommitTimeout? {
      GivingUpUnseen(c, w, a, o);
    }
  }

  /** The daemons do not see what the harness has noted. */
  lemma {:induction false} NotesUnseen(c: Config, w: World, run: seq<Action>, o: Observer)
    requires DaemonRun(run) && Exec(c, w, run).Some?
    ensures Exec(c, w.(observer := o), run) == Some(Exec(c, w, run).value.(observer := o))
    decreases |run|
  {
    if run != [] {
      if ByIncoming(run[0]) {
        IncomingUnseen(c, w, run[0], o);
      } else {
        OutgoingUnseen(c, w, run[0], o);
      }
      assert DaemonRun(run[1..]);
      NotesUnseen(c, Do(c, w, run[0]).value, run[1..], o);
    }
  }

  /** From the moment `k` masters have arrived, the marker can follow. */
  lemma {:induction false} MarkerFollows(c: Config, k: nat) returns (run: seq<Action>)
    requires k <= |c.pids|
    ensures DaemonRun(run)
    ensures Exec(c, SendingWorld(c, k), run)
         == Some(ReadyWorld(c).(incoming := Sent, marker := Some(0), sent := true))
    decreases |c.pids| - k
  {
    var w := SendingWorld(c, k);
    if k == |c.pids| {
      run := [StartAccepting] + [SendMarker];
      ExecOne(c, w, StartAccepting);
      ExecSnoc(c, w, [StartAccepting], SendMarker);
    } else {
      var rest := MarkerFollows(c, k + 1);
      SendsOne(c, k + 1);
      ExecOne(c, w, SendMaster);
      ExecSnoc(c, w, [SendMaster], Receive);
      ExecAppend(c, w, [SendMaster] + [Receive], rest);
      run := [SendMaster] + [Receive] + rest;
    }
  }

  /** The count that point B prints proves nothing: whatever it reads, the incoming daemon runs on
      until the kill, and the assertions can be reached with the commit already sent. */
  lemma MidCountIsStale(c: Config, k: nat) returns (run: seq<Action>)
    requires k <= |c.pids|
    ensures Exec(c, Init(c), run).Some?
    ensures var w := Exec(c, Init(c), run).value;
            && w.observer == MidBundle(k) && w.sent && w.incoming.Killed? && |w.adopted| == |c.pids|
            && Do(c, w, TakeMarker).Some?
  {
    var before := SendsAll(c, k);
    ExecSnoc(c, Init(c), before, CountMid);
    CountsMid(c, k);
    var rest := MarkerFollows(c, k);
    NotesUnseen(c, SendingWorld(c, k), rest, Counted(k));
    var r1 := before + [CountMid] + rest;
    ExecAppend(c, Init(c), before + [CountMid], rest);
    run := r1 + [KillMid];
    ExecSnoc(c, Init(c), r1, KillMid);
    KillsMid(c, k);
  }

  lemma CountsMid(c: Config, k: nat)
    requires k <= |c.pids|
    ensures Do(c, SendingWorld(c, k), CountMid) == Some(SendingWorld(c, k).(observer := Counted(k)))
  {
    assert |SendingWorld(c, k).adopted| == k;
  }

  lemma KillsMid(c: Config, k: nat)
    ensures var w := ReadyWorld(c).(incoming := Sent, marker := Some(0), sent := true);
            && Do(c, w.(observer := Counted(k)), KillMid)
            == Some(w.(incoming := Killed, observer := MidBundle(k)))
            && Do(c, w.(incoming := Killed, observer := MidBundle(k)), TakeMarker).Some?
  {
  }

  /** Point B's claim, for the attempts whose incoming daemon held `k` terminals when it was killed. */
  ghost predicate MidSoundAt(c: Config, k: nat, run: seq<Action>) {
    Exec(c, Init(c), run).Some? && Exec(c, Init(c), run).value.observer.MidBundle?
    && |Exec(c, Init(c), run).value.adopted| == k ==>
      !Exec(c, Init(c), run).value.sent && Exec(c, Init(c), run).value.rows == 0
  }

  /** No commit has happened at point B's kill, in every run, exactly when some terminal had not yet
      arrived at the daemon that was killed. */
  lemma MidPointExactly(c: Config, k: nat)
    requires Timed(c)
    ensures (forall run :: MidSoundAt(c, k, run)) <==> k != |c.pids|
  {
    if k != |c.pids| {
      forall run ensures MidSoundAt(c, k, run) {
        if Exec(c, Init(c), run).Some? {
          InitInv(c);
          RunPreserves(c, Init(c), run);
        }
      }
    } else {
      var run := MidCountIsStale(c, k);
      assert !MidSoundAt(c, k, run);
    }
  }

  // ---------------------------------------------------------------- two readers

  /** A commit wait that is shorter than the incoming daemon's way to its marker can expire while the
      marker is being written; both daemons then read the panes. */
  lemma SlowServeTwoReaders(c: Config) returns (run: seq<Action>)
    requires c.commitWait < c.serve && c.pids != []
    ensures Exec(c, Init(c), run).Some? && TwoReaders(Exec(c, Init(c), run).value)
    ensures AllRunning(Exec(c, Init(c), run).value.pumps) && !Exec(c, Init(c), run).value.stopped
    ensures |Exec(c, Init(c), run).value.pumps| == |c.pids|
  {
    var ready := TransferCompletes(c);
    var late := MarkerAfterExpiry(c, ReadyWorld(c));
    ExecAppend(c, Init(c), ready, late);
    var r3 := ready + late + [StartPumps];
    ExecSnoc(c, Init(c), ready + late, StartPumps);
    run := r3 + [Resume];
    ExecSnoc(c, Init(c), r3, Resume);
    ResumeStartsPumps(c, ExpiredWorld(c).(incoming := Reading));
  }

  lemma ResumeStartsPumps(c: Config, w: World)
    requires w.outgoing.GaveUp? && w.incoming.Reading? && w.pumps != []
    ensures Do(c, w, Resume).Some? && TwoReaders(Do(c, w, Resume).value)
    ensures var next := Do(c, w, Resume).value;
            AllRunning(next.pumps) && |next.pumps| == |w.pumps| && next.stopped == w.stopped
  {
    assert Running(|w.pumps|)[0];
  }

  /** The connection closes only when the abort is recorded: a marker can still be written after the old
      daemon's pumps have resumed. */
  lemma MarkerWhileRecording(c: Config) returns (run: seq<Action>)
    requires c.commitWait < c.serve && c.pids != []
    ensures Exec(c, Init(c), run).Some?
    ensures var w := Exec(c, Init(c), run).value;
            w.outgoing.Recording? && w.incoming.Reading? && w.sent && AllRunning(w.pumps) && TwoReaders(w)
  {
    var ready := TransferCompletes(c);
    var w := ReadyWorld(c);
    var gaveUp := w.(now := c.commitWait, outgoing := GaveUp(0));
    ExpiryStep(c, w, w.(now := c.commitWait));
    ExecSnoc(c, Init(c), ready, Advance(c.commitWait));
    ExecSnoc(c, Init(c), ready + [Advance(c.commitWait)], CommitTimeout);
    var expired := ready + [Advance(c.commitWait)] + [CommitTimeout];
    var late := RecordsLate(c, gaveUp);
    ExecAppend(c, Init(c), expired, late);
    run := expired + late;
  }

  lemma RecordsLate(c: Config, w: World) returns (run: seq<Action>)
    requires w.outgoing == GaveUp(w.session) && w.incoming.Accepts? && !w.stopped && w.pumps != []
    ensures Exec(c, w, run).Some?
    ensures var end := Exec(c, w, run).value;
            end.outgoing.Recording? && end.incoming.Reading? && end.sent && AllRunning(end.pumps) && TwoReaders(end)
  {
    var resumed := w.(outgoing := Recording(w.session), pumps := Running(|w.pumps|));
    var sent := resumed.(incoming := Sent, marker := Some(w.now), sent := true);
    ExecOne(c, w, Resume);
    ExecSnoc(c, w, [Resume], SendMarker);
    assert Do(c, resumed, SendMarker) == Some(sent);
    ExecSnoc(c, w, [Resume] + [SendMarker], StartPumps);
    run := [Resume] + [SendMarker] + [StartPumps];
    assert Running(|w.pumps|)[0];
  }

  ghost predicate SafeAt(c: Config, run: seq<Action>) {
    Exec(c, Init(c), run).Some? ==> !TwoReaders(Exec(c, Init(c), run).value)
  }

  /** At most one daemon reads the panes in every run exactly when the commit wait is at least as long
      as a live incoming daemon may take from the last master to its marker or its failure. */
  lemma OneReaderExactly(c: Config)
    requires Timed(c)
    ensures (forall run :: SafeAt(c, run)) <==> c.serve <= c.commitWait || c.pids == []
  {
    if c.serve <= c.commitWait || c.pids == [] {
      forall run ensures SafeAt(c, run) {
        if Exec(c, Init(c), run).Some? {
          OneReader(c, run);
          InitInv(c);
          RunPreserves(c, Init(c), run);
        }
      }
    } else {
      var run := SlowServeTwoReaders(c);
      assert !SafeAt(c, run);
    }
  }

  const COMMIT_SETTLE: nat := 150

  /** The outgoing daemon always waits with its default timeout. */
  const DEFAULT_HANDOFF_TIMEOUT: nat := 10_000

  /** What the slice grants the incoming daemon for starting to accept. */
  const SLICE_TIMEOUT: nat := 30_000

  /** The slice's own durations: any panes, any bound on acting on a marker. */
  function SliceConfig(pids: seq<nat>, watch: nat, delay: nat, serve: nat): Config {
    Config(pids, watch, COMMIT_SETTLE, delay, DEFAULT_HANDOFF_TIMEOUT, serve)
  }

  /** With the durations of the code, the panes have one reader in every run if and only if the
      incoming daemon needs no more than ten seconds from the last master to its marker.  The thirty
      seconds the slice grants it do not promise that. */
  lemma SliceDurations(pids: seq<nat>, watch: nat, delay: nat, serve: nat)
    requires pids != [] && 0 < delay && 0 < serve
    ensures (forall run :: SafeAt(SliceConfig(pids, watch, delay, serve), run)) <==> serve <= 10_000
    ensures !forall run :: SafeAt(SliceConfig(pids, watch, delay, SLICE_TIMEOUT), run)
    ensures (forall run :: SoundAt(SliceConfig(pids, watch, delay, serve), run)) <==> delay <= 150 && serve <= 10_000
  {
    ObserverSoundExactly(SliceConfig(pids, watch, delay, serve));
    OneReaderExactly(SliceConfig(pids, watch, delay, serve));
    OneReaderExactly(SliceConfig(pids, watch, delay, SLICE_TIMEOUT));
  }
}
