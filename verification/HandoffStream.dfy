/** One pane's output across the handoff: the old daemon and the new one read the same terminal, and
    the new one begins with what the old one had read when it parked its pumps. */
module HandoffStream {
  import opened Text
  import opened Handoff
  import opened HandoffRuns
  import Ticks

  /** The pane's counter, its terminal, what each daemon holds of the pane, and whether the new one has
      read from the terminal. */
  datatype Stream = Stream(next: nat, buffer: seq<Ticks.Output>, oldSeen: seq<Ticks.Output>,
                           newSeen: seq<Ticks.Output>, carried: bool)

  datatype State = State(world: World, stream: Stream)

  /** A step of the handoff, a line of the pane's script, or a read of one daemon's pump. */
  datatype Event = Step(a: Action) | Tick | Echo(text: string) | OldReads | NewReads

  function Start(c: Config): State { State(Init(c), Stream(1, [], [], [], false)) }

  predicate OldMayRead(w: World, pane: nat) { pane < |w.pumps| && w.pumps[pane] && !w.outgoing.Exited? }

  predicate NewMayRead(w: World) { w.incoming.Reading? && !w.stopped }

  /** The manifest is taken when every pump is parked, right before the masters are sent. */
  function Carry(s: Stream, a: Action): Stream {
    if a.BeginSend? then s.(newSeen := s.oldSeen) else s
  }

  function Next(c: Config, pane: nat, st: State, e: Event): Option<State> {
    var State(w, s) := st;
    match e
    case Step(a) => (match Do(c, w, a) case None => None case Some(next) => Some(State(next, Carry(s, a))))
    case Tick => Some(st.(stream := s.(next := s.next + 1, buffer := s.buffer + [Ticks.Count(s.next)])))
    case Echo(text) => Some(st.(stream := s.(buffer := s.buffer + [Ticks.Got(text)])))
    case OldReads =>
      if OldMayRead(w, pane) && s.buffer != [] then
        Some(st.(stream := s.(buffer := s.buffer[1..], oldSeen := s.oldSeen + [s.buffer[0]])))
      else None
    case NewReads =>
      if NewMayRead(w) && s.buffer != [] then
        Some(st.(stream := s.(buffer := s.buffer[1..], newSeen := s.newSeen + [s.buffer[0]], carried := true)))
      else None
  }

  function After(c: Config, pane: nat, st: State, events: seq<Event>): Option<State>
    decreases |events|
  {
    if events == [] then Some(st)
    else match Next(c, pane, st, events[0]) case None => None case Some(next) => After(c, pane, next, events[1..])
  }

  // ---------------------------------------------------------------- one reader, one stream

  /** What the daemon that has the pane holds of it. */
  function Seen(s: Stream): seq<Ticks.Output> { if s.carried then s.newSeen else s.oldSeen }

  /** From the first tick on, what was read and what still waits in the terminal is every tick, once
      and in order. */
  ghost predicate Whole(s: Stream) {
    && s.next >= 1 && Ticks.CountsUpTo(Ticks.Counts(Seen(s) + s.buffer), s.next)
    && |Ticks.Counts(Seen(s) + s.buffer)| == s.next - 1
  }

  /** The old daemon has parked its pumps and not resumed them. */
  predicate Parked(o: Outgoing) { o.Sending? || o.Committed? || o.Exited? }

  /** Until the new daemon reads, it holds what the old one held at the pause; once it has read, the
      old one can only commit. */
  ghost predicate StreamInv(st: State) {
    var State(w, s) := st;
    && Whole(s)
    && (!s.carried && Parked(w.outgoing) ==> s.newSeen == s.oldSeen)
    && (s.carried ==> w.marker.Some? || w.rows > 0)
  }

  lemma StepKeepsStream(c: Config, st: State, a: Action)
    requires Inv(c, st.world) && Prompt(c) && StreamInv(st) && Do(c, st.world, a).Some?
    ensures StreamInv(State(Do(c, st.world, a).value, Carry(st.stream, a)))
  {
    var w := st.world;
    var next := Do(c, w, a).value;
    if ByIncoming(a) {
      IncomingKeepsCut(c, w, a);
    } else if ByOutgoing(a) {
      OutgoingKeepsCut(c, w, a);
    } else {
      HarnessKeepsCut(c, w, a);
    }
  }

  /** The old daemon parks its pumps only to send, and what is settled stays settled. */
  ghost predicate KeepsCut(w: World, a: Action, next: World) {
    && (Parked(next.outgoing) ==> Parked(w.outgoing) || a.BeginSend?)
    && (a.BeginSend? ==> w.marker.None? && w.rows == 0)
    && (w.marker.Some? || w.rows > 0 ==> next.marker.Some? || next.rows > 0)
  }

  lemma IncomingKeepsCut(c: Config, w: World, a: Action)
    requires Inv(c, w) && ByIncoming(a) && DoIncoming(c, w, a).Some?
    ensures KeepsCut(w, a, DoIncoming(c, w, a).value)
  {
  }

  lemma OutgoingKeepsCut(c: Config, w: World, a: Action)
    requires Inv(c, w) && Prompt(c) && ByOutgoing(a) && DoOutgoing(c, w, a).Some?
    ensures KeepsCut(w, a, DoOutgoing(c, w, a).value)
  {
  }

  lemma HarnessKeepsCut(c: Config, w: World, a: Action)
    requires Inv(c, w) && DoHarness(c, w, a).Some?
    ensures KeepsCut(w, a, DoHarness(c, w, a).value)
  {
  }

  /** A line written to the terminal. */
  lemma WriteKeepsWhole(s: Stream, line: Ticks.Output)
    requires Whole(s) && (line.Count? ==> line.n == s.next)
    ensures Whole(s.(next := if line.Count? then s.next + 1 else s.next, buffer := s.buffer + [line]))
  {
    Ticks.WrittenCountsUp(Seen(s), s.buffer, s.next, line);
    Associative(Seen(s), s.buffer, [line]);
    Ticks.CountsAppend(Seen(s) + s.buffer, [line]);
  }

  /** With a commit wait that outlasts the marker, the daemon that reads is the one that has the pane. */
  lemma ReadersAreApart(c: Config, pane: nat, st: State)
    requires Inv(c, st.world) && Prompt(c) && StreamInv(st)
    ensures OldMayRead(st.world, pane) ==> !st.stream.carried && !Parked(st.world.outgoing)
    ensures NewMayRead(st.world) ==> st.stream.carried || st.stream.newSeen == st.stream.oldSeen
  {
  }

  lemma ReadKeepsStream(c: Config, pane: nat, st: State, e: Event)
    requires Inv(c, st.world) && Prompt(c) && StreamInv(st)
    requires (e.OldReads? || e.NewReads?) && Next(c, pane, st, e).Some?
    ensures StreamInv(Next(c, pane, st, e).value)
  {
    ReadersAreApart(c, pane, st);
    Ticks.PumpMoves(Seen(st.stream), st.stream.buffer);
  }

  lemma EventKeepsStream(c: Config, pane: nat, st: State, e: Event)
    requires Inv(c, st.world) && Timed(c) && Prompt(c) && StreamInv(st) && Next(c, pane, st, e).Some?
    ensures var next := Next(c, pane, st, e).value; Inv(c, next.world) && StreamInv(next)
  {
    match e
    case Step(a) =>
      StepPreserves(c, st.world, a);
      StepKeepsStream(c, st, a);
    case Tick => WriteKeepsWhole(st.stream, Ticks.Count(st.stream.next));
    case Echo(text) => WriteKeepsWhole(st.stream, Ticks.Got(text));
    case _ => ReadKeepsStream(c, pane, st, e);
  }

  lemma {:induction false} RunKeepsStream(c: Config, pane: nat, st: State, events: seq<Event>)
    requires Inv(c, st.world) && Timed(c) && Prompt(c) && StreamInv(st)
    requires After(c, pane, st, events).Some?
    ensures Whole(After(c, pane, st, events).value.stream)
    decreases |events|
  {
    if events != [] {
      EventKeepsStream(c, pane, st, events[0]);
      RunKeepsStream(c, pane, Next(c, pane, st, events[0]).value, events[1..]);
    }
  }

  lemma StartIsWhole(c: Config)
    ensures Inv(c, Start(c).world) && StreamInv(Start(c))
  {
    InitInv(c);
    var s := Start(c).stream;
    assert Seen(s) + s.buffer == [];
  }

  // ---------------------------------------------------------------- two readers

  function Steps(run: seq<Action>): (events: seq<Event>)
    ensures |events| == |run|
  {
    seq(|run|, i requires 0 <= i < |run| => Step(run[i]))
  }

  /** A handoff during which the pane prints nothing. */
  lemma {:induction false} QuietRun(c: Config, pane: nat, w: World, s: Stream, run: seq<Action>)
    requires Exec(c, w, run).Some? && s.newSeen == s.oldSeen
    ensures After(c, pane, State(w, s), Steps(run)) == Some(State(Exec(c, w, run).value, s))
    decreases |run|
  {
    if run != [] {
      assert Steps(run)[1..] == Steps(run[1..]);
      assert Carry(s, run[0]) == s;
      QuietRun(c, pane, Do(c, w, run[0]).value, s, run[1..]);
    }
  }

  lemma {:induction false} AfterAppend(c: Config, pane: nat, st: State, a: seq<Event>, b: seq<Event>)
    requires After(c, pane, st, a).Some?
    ensures After(c, pane, st, a + b) == After(c, pane, After(c, pane, st, a).value, b)
    decreases |a|
  {
    if a == [] {
      assert a + b == b;
    } else {
      assert (a + b)[1..] == a[1..] + b;
      AfterAppend(c, pane, Next(c, pane, st, a[0]).value, a[1..], b);
    }
  }

  lemma AfterSnoc(c: Config, pane: nat, st: State, events: seq<Event>, e: Event)
    requires After(c, pane, st, events).Some?
    ensures After(c, pane, st, events + [e]) == Next(c, pane, After(c, pane, st, events).value, e)
  {
    var end := After(c, pane, st, events).value;
    AfterAppend(c, pane, st, events, [e]);
    assert [e][1..] == [];
    assert After(c, pane, end, [e]) == Next(c, pane, end, e);
  }

  /** The stream after two ticks, of which the old daemon has read `seen`. */
  function TwoTicks(buffer: seq<Ticks.Output>, seen: seq<Ticks.Output>): Stream {
    Stream(3, buffer, seen, [], false)
  }

  lemma TwoTicksPrinted(c: Config, pane: nat, w: World)
    ensures After(c, pane, State(w, Start(c).stream), [Tick] + [Tick])
         == Some(State(w, TwoTicks([Ticks.Count(1), Ticks.Count(2)], [])))
  {
    var st := State(w, Start(c).stream);
    AfterSnoc(c, pane, st, [], Tick);
    assert [] + [Tick] == [Tick] && [] + [Ticks.Count(1)] == [Ticks.Count(1)];
    AfterSnoc(c, pane, st, [Tick], Tick);
    assert [Ticks.Count(1)] + [Ticks.Count(2)] == [Ticks.Count(1), Ticks.Count(2)];
  }

  /** Of two waiting lines the old daemon takes the first, and the new one the second. */
  lemma EachReadsOne(c: Config, pane: nat, w: World, one: Ticks.Output, two: Ticks.Output)
    requires OldMayRead(w, pane) && NewMayRead(w)
    ensures Next(c, pane, State(w, TwoTicks([one, two], [])), OldReads) == Some(State(w, TwoTicks([two], [one])))
    ensures Next(c, pane, State(w, TwoTicks([two], [one])), NewReads)
         == Some(State(w, Stream(3, [], [one], [two], true)))
  {
    assert [one, two][1..] == [two] && [] + [one] == [one];
    assert [two][1..] == [] && [] + [two] == [two];
  }

  /** Two ticks, one read by each daemon. */
  lemma TornStream(c: Config, pane: nat, w: World) returns (events: seq<Event>)
    requires OldMayRead(w, pane) && NewMayRead(w)
    ensures After(c, pane, State(w, Start(c).stream), events).Some?
    ensures !Whole(After(c, pane, State(w, Start(c).stream), events).value.stream)
  {
    var st, ticks := State(w, Start(c).stream), [Tick] + [Tick];
    var one, two := Ticks.Count(1), Ticks.Count(2);
    TwoTicksPrinted(c, pane, w);
    EachReadsOne(c, pane, w, one, two);
    AfterSnoc(c, pane, st, ticks, OldReads);
    AfterSnoc(c, pane, st, ticks + [OldReads], NewReads);
    events := ticks + [OldReads] + [NewReads];
    assert [two] + [] == [two];
    LostTick(two);
  }

  lemma LostTick(two: Ticks.Output)
    ensures |Ticks.Counts([two])| <= 1
  {
    assert [two][1..] == [];
  }

  ghost predicate WholeAt(c: Config, pane: nat, events: seq<Event>) {
    After(c, pane, Start(c), events).Some? ==> Whole(After(c, pane, Start(c), events).value.stream)
  }

  /** No tick of a pane is lost or doubled in any run, through every cut, abort and retry, exactly when
      the commit wait is at least as long as a live incoming daemon may take to its marker: the same
      condition under which one daemon at a time reads the panes. */
  lemma StreamWholeExactly(c: Config, pane: nat)
    requires Timed(c) && pane < |c.pids|
    ensures (forall events :: WholeAt(c, pane, events)) <==> c.serve <= c.commitWait
  {
    if c.serve <= c.commitWait {
      forall events ensures WholeAt(c, pane, events) {
        if After(c, pane, Start(c), events).Some? {
          StartIsWhole(c);
          RunKeepsStream(c, pane, Start(c), events);
        }
      }
    } else {
      var run := SlowServeTwoReaders(c);
      QuietRun(c, pane, Init(c), Start(c).stream, run);
      var torn := TornStream(c, pane, Exec(c, Init(c), run).value);
      AfterAppend(c, pane, Start(c), Steps(run), torn);
      assert !WholeAt(c, pane, Steps(run) + torn);
    }
  }

  /** What the client of the pane then reads: ticks of one process, contiguous across the cut. */
  lemma ClientSeesOneStream(c: Config, pane: nat, events: seq<Event>, pid: nat)
    requires Timed(c) && c.serve <= c.commitWait && pane < |c.pids| && pid < U32
    requires After(c, pane, Start(c), events).Some?
    requires After(c, pane, Start(c), events).value.stream.next <= U64
    ensures var ticks := Ticks.TicksOf(Ticks.Printed(Seen(After(c, pane, Start(c), events).value.stream), pid));
            Ticks.OnePid(ticks) && Ticks.Contiguous(ticks) && (ticks != [] ==> ticks[0].n == 1)
  {
    StartIsWhole(c);
    RunKeepsStream(c, pane, Start(c), events);
    var s := After(c, pane, Start(c), events).value.stream;
    Ticks.StreamReadsBack(Seen(s), s.buffer, s.next, pid);
    Ticks.CountsAppend(Seen(s), s.buffer);
    var ns := Ticks.Counts(Seen(s));
    assert forall k :: 0 <= k < |ns| ==> ns[k] == Ticks.Counts(Seen(s) + s.buffer)[k];
    Ticks.PrintedTicks(Seen(s), pid);
  }
}
