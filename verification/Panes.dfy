/** Reading a pane's scrollback: was the process behind it restarted? */
module Panes {
  import opened Text

  /** Every tick in order, how often the start marker was printed, and how often `tick-1` was. */
  datatype PaneRead = PaneRead(ticks: seq<nat>, markers: nat, firstTicks: nat)

  const EMPTY := PaneRead([], 0, 0)

  function Highest(read: PaneRead): nat { Largest(read.ticks) }

  function Largest(ns: seq<nat>): (m: nat)
    ensures forall i :: 0 <= i < |ns| ==> ns[i] <= m
    ensures ns == [] ==> m == 0
    ensures ns != [] ==> m in ns
  {
    if ns == [] then 0 else Max(ns[0], Largest(ns[1..]))
  }

  /** The tick a line reports, if it is one. */
  function TickOf(line: string): Option<nat> {
    if StartsWith(line, "tick-") then ParseUnsigned(Trim(line[5..]), U64) else None
  }

  /** Whole lines, never substrings. */
  function See(marker: string, read: PaneRead, line: string): PaneRead {
    var line := TrimEnd(line);
    if line == marker then read.(markers := read.markers + 1)
    else match TickOf(line)
      case None => read
      case Some(n) =>
        read.(ticks := read.ticks + [n], firstTicks := read.firstTicks + if n == 1 then 1 else 0)
  }

  function SeeAll(marker: string, read: PaneRead, lines: seq<string>): PaneRead
    decreases |lines|
  {
    if lines == [] then read else SeeAll(marker, See(marker, read, lines[0]), lines[1..])
  }

  method ParsePane(marker: string, text: string) returns (read: PaneRead)
    ensures read == SeeAll(marker, EMPTY, Lines(text))
  {
    read := EMPTY;
    var lines := Lines(text);
    for i := 0 to |lines|
      invariant SeeAll(marker, read, lines[i..]) == SeeAll(marker, EMPTY, lines)
    {
      assert lines[i..][1..] == lines[i + 1..];
      read := See(marker, read, lines[i]);
    }
  }

  /** The filter of the update slice: this pane was not restarted. */
  predicate NotRestarted(before: PaneRead, after: PaneRead) {
    after.markers == 1 && after.firstTicks == 1 && Highest(after) > Highest(before)
  }

  // ---------------------------------------------------------------- what a pane shows

  function Marker(n: nat): string { "PANE-" + Decimal(n) + "-MARKER" }

  function Blanks(n: nat): (s: string)
    ensures |s| == n && forall i :: 0 <= i < n ==> s[i] == ' '
  {
    seq(n, _ => ' ')
  }

  /** A line of the pane: the start marker, a tick, a line that only begins like a tick, or any other
      line.  The first two may be padded. */
  datatype Output =
    | Start(pad: nat) | Count(k: nat, lead: nat, pad: nat)
    | Broken(word: string) | Noise(line: string) | Blank(pad: nat)

  function LineOf(marker: string, o: Output): string {
    match o
    case Start(pad) => marker + Blanks(pad)
    case Count(k, lead, pad) => "tick-" + (Blanks(lead) + Decimal(k)) + Blanks(pad)
    case Broken(word) => "tick-" + word
    case Noise(line) => line
    case Blank(pad) => Blanks(pad)
  }

  /** What another program may print: no start marker, and nothing that a number follows. */
  ghost predicate Allowed(marker: string, o: Output) {
    match o
    case Start(_) => true
    case Count(k, _, _) => k < U64
    case Broken(word) => Solid(word) && IsAlphabetic(word[0])
    case Noise(line) => Solid(line) && line != marker && !StartsWith(line, "tick-")
    case Blank(_) => true
  }

  /** The line ending of the terminal the script writes to. */
  datatype Ending = Newline | CarriageReturn

  function Ended(line: string, ending: Ending): string {
    if ending.Newline? then line + "\n" else line + "\r" + "\n"
  }

  function Shown(marker: string, outputs: seq<Output>, ending: Ending): string {
    if outputs == [] then ""
    else Ended(LineOf(marker, outputs[0]), ending) + Shown(marker, outputs[1..], ending)
  }

  /** What the script itself did: it started, or it counted. */
  datatype Signal = Began | Ticked(k: nat)

  function SignalOf(o: Output): seq<Signal> {
    match o case Start(_) => [Began] case Count(k, _, _) => [Ticked(k)] case _ => []
  }

  function Signals(outputs: seq<Output>): seq<Signal> {
    if outputs == [] then [] else SignalOf(outputs[0]) + Signals(outputs[1..])
  }

  /** A script that was started once per element and each time counted so far. */
  function History(runs: seq<nat>): seq<Signal> {
    if runs == [] then [] else [Began] + (Counting(1, runs[0]) + History(runs[1..]))
  }

  function Counting(lo: nat, hi: nat): seq<Signal>
    decreases hi + 1 - lo
  {
    if lo > hi then [] else [Ticked(lo)] + Counting(lo + 1, hi)
  }

  function From(lo: nat, hi: nat): seq<nat>
    decreases hi + 1 - lo
  {
    if lo > hi then [] else [lo] + From(lo + 1, hi)
  }

  function RunsThatTicked(runs: seq<nat>): nat {
    if runs == [] then 0 else (if runs[0] >= 1 then 1 else 0) + RunsThatTicked(runs[1..])
  }

  function AllTicks(runs: seq<nat>): seq<nat> {
    if runs == [] then [] else From(1, runs[0]) + AllTicks(runs[1..])
  }

  // ---------------------------------------------------------------- reading it back

  ghost predicate Solid(line: string) {
    line != [] && '\n' !in line && !IsWhitespace(line[|line| - 1])
  }

  /** A line the terminal can end either way. */
  ghost predicate OneLine(line: string) { '\n' !in line && (line != [] ==> line[|line| - 1] != '\r') }

  lemma SeeEnded(marker: string, read: PaneRead, line: string, ending: Ending, rest: string)
    requires OneLine(line)
    ensures SeeAll(marker, read, Lines(Ended(line, ending) + rest))
         == SeeAll(marker, See(marker, read, line), Lines(rest))
  {
    EndedLines(line, ending, rest);
    SeeCons(marker, read, line, Lines(rest));
  }

  lemma SeeCons(marker: string, read: PaneRead, line: string, lines: seq<string>)
    ensures SeeAll(marker, read, [line] + lines) == SeeAll(marker, See(marker, read, line), lines)
  {
    assert ([line] + lines)[1..] == lines;
  }

  lemma EndedLines(line: string, ending: Ending, rest: string)
    requires OneLine(line)
    ensures Lines(Ended(line, ending) + rest) == [line] + Lines(rest)
  {
    if ending.Newline? {
      LinesCons(line, rest);
    } else {
      LinesCons(line + "\r", rest);
      assert (line + "\r")[..|line|] == line;
    }
  }

  /** A start marker: a solid line that is not a tick. */
  ghost predicate IsMarker(marker: string) { Solid(marker) && marker[0] == 'P' }

  lemma MarkerSolid(n: nat)
    ensures IsMarker(Marker(n))
  {
    var m := Marker(n);
    assert m[|m| - 1] == "-MARKER"[6] == 'R';
    assert '\n' !in "PANE-" && '\n' !in Decimal(n) && '\n' !in "-MARKER";
  }

  lemma NumberEnds(k: nat)
    ensures var d := Decimal(k); !IsWhitespace(d[0]) && !IsWhitespace(d[|d| - 1]) && '\n' !in d
  {
    var d := Decimal(k);
    DigitIsSolid(d[0]);
    DigitIsSolid(d[|d| - 1]);
  }

  lemma TickNumber(k: nat, lead: nat)
    requires k < U64
    ensures ParseUnsigned(Trim(Blanks(lead) + Decimal(k)), U64) == Some(k)
  {
    NumberEnds(k);
    TrimCore(Blanks(lead), Decimal(k), []);
    EmptySuffix(Decimal(k));
    ParseDecimal(k, U64);
  }

  lemma TickOfTick(k: nat, lead: nat)
    requires k < U64
    ensures TickOf("tick-" + (Blanks(lead) + Decimal(k))) == Some(k)
  {
    var line := "tick-" + (Blanks(lead) + Decimal(k));
    assert line[0..5] == "tick-" && line[5..] == Blanks(lead) + Decimal(k);
    TickNumber(k, lead);
  }

  /** A word that begins with a letter is no number. */
  lemma NoNumber(word: string)
    requires Solid(word) && IsAlphabetic(word[0])
    ensures TickOf("tick-" + word) == None
  {
    var line := "tick-" + word;
    assert line[5..] == word;
    assert !IsWhitespace(word[0]);
    SolidTrimmed(word);
    assert !IsDigit(word[0]);
  }

  function Counted(read: PaneRead, k: nat): PaneRead {
    read.(ticks := read.ticks + [k], firstTicks := read.firstTicks + if k == 1 then 1 else 0)
  }

  function Signalled(read: PaneRead, signal: Signal): PaneRead {
    match signal case Began => read.(markers := read.markers + 1) case Ticked(k) => Counted(read, k)
  }

  function AllSignalled(read: PaneRead, signals: seq<Signal>): PaneRead
    decreases |signals|
  {
    if signals == [] then read else AllSignalled(Signalled(read, signals[0]), signals[1..])
  }

  lemma LineIsOne(marker: string, o: Output)
    requires IsMarker(marker) && Allowed(marker, o)
    ensures OneLine(LineOf(marker, o))
  {
    var line := LineOf(marker, o);
    match o
    case Start(pad) => assert line[|line| - 1] == if pad > 0 then ' ' else marker[|marker| - 1];
    case Count(k, lead, pad) =>
      NumberEnds(k);
      assert line[|line| - 1] == if pad > 0 then ' ' else Decimal(k)[|Decimal(k)| - 1];
      assert '\n' !in "tick-";
    case Broken(word) =>
      assert line[|line| - 1] == word[|word| - 1];
      assert '\n' !in "tick-";
    case Noise(_) =>
    case Blank(_) =>
  }

  lemma {:induction false} TrimBlanks(n: nat)
    ensures TrimEnd(Blanks(n)) == []
  {
    if n > 0 {
      assert Blanks(n)[..n - 1] == Blanks(n - 1);
      TrimBlanks(n - 1);
    }
  }

  lemma SeeBlank(marker: string, read: PaneRead, pad: nat)
    requires IsMarker(marker)
    ensures See(marker, read, Blanks(pad)) == read
  {
    TrimBlanks(pad);
  }

  lemma SeeMarker(marker: string, read: PaneRead, pad: nat)
    requires IsMarker(marker)
    ensures See(marker, read, marker + Blanks(pad)) == Signalled(read, Began)
  {
    TrimEndSkips(marker, Blanks(pad));
  }

  lemma SeeTick(marker: string, read: PaneRead, k: nat, lead: nat, pad: nat)
    requires IsMarker(marker) && k < U64
    ensures See(marker, read, "tick-" + (Blanks(lead) + Decimal(k)) + Blanks(pad)) == Signalled(read, Ticked(k))
  {
    var tick := "tick-" + (Blanks(lead) + Decimal(k));
    NumberEnds(k);
    assert tick[|tick| - 1] == Decimal(k)[|Decimal(k)| - 1] && tick[0] == 't';
    TrimEndSkips(tick, Blanks(pad));
    TickOfTick(k, lead);
  }

  lemma SeeBroken(marker: string, read: PaneRead, word: string)
    requires IsMarker(marker) && Solid(word) && IsAlphabetic(word[0])
    ensures See(marker, read, "tick-" + word) == read
  {
    var line := "tick-" + word;
    assert line[|line| - 1] == word[|word| - 1] && line[0] == 't';
    TrimEndSkips(line, Blanks(0));
    assert line + Blanks(0) == line;
    NoNumber(word);
  }

  lemma SeeNoise(marker: string, read: PaneRead, line: string)
    requires Solid(line) && line != marker && !StartsWith(line, "tick-")
    ensures See(marker, read, line) == read
  {
    TrimEndSkips(line, Blanks(0));
    assert line + Blanks(0) == line;
  }

  lemma OneSignal(read: PaneRead, signal: Signal)
    ensures AllSignalled(read, [signal]) == Signalled(read, signal)
  {
    assert [signal][1..] == [];
  }

  lemma SeeOutput(marker: string, read: PaneRead, o: Output)
    requires IsMarker(marker) && Allowed(marker, o)
    ensures See(marker, read, LineOf(marker, o)) == AllSignalled(read, SignalOf(o))
  {
    match o
    case Start(pad) =>
      SeeMarker(marker, read, pad);
      OneSignal(read, Began);
    case Count(k, lead, pad) =>
      SeeTick(marker, read, k, lead, pad);
      OneSignal(read, Ticked(k));
    case Broken(word) => SeeBroken(marker, read, word);
    case Noise(line) => SeeNoise(marker, read, line);
    case Blank(pad) => SeeBlank(marker, read, pad);
  }

  lemma {:induction false} SeeShown(marker: string, read: PaneRead, outputs: seq<Output>, ending: Ending)
    requires IsMarker(marker) && forall i :: 0 <= i < |outputs| ==> Allowed(marker, outputs[i])
    ensures SeeAll(marker, read, Lines(Shown(marker, outputs, ending))) == AllSignalled(read, Signals(outputs))
    decreases |outputs|
  {
    if outputs != [] {
      var o := outputs[0];
      assert Allowed(marker, o);
      LineIsOne(marker, o);
      SeeEnded(marker, read, LineOf(marker, o), ending, Shown(marker, outputs[1..], ending));
      SeeOutput(marker, read, o);
      SeeShown(marker, AllSignalled(read, SignalOf(o)), outputs[1..], ending);
      SignalledAppend(read, SignalOf(o), Signals(outputs[1..]));
    }
  }

  // ---------------------------------------------------------------- the tally of a history

  lemma {:induction false} SignalledAppend(read: PaneRead, a: seq<Signal>, b: seq<Signal>)
    ensures AllSignalled(read, a + b) == AllSignalled(AllSignalled(read, a), b)
    decreases |a|
  {
    if a == [] {
      assert a + b == b;
    } else {
      assert (a + b)[0] == a[0] && (a + b)[1..] == a[1..] + b;
      SignalledAppend(Signalled(read, a[0]), a[1..], b);
    }
  }

  lemma {:induction false} CountingIs(read: PaneRead, lo: nat, hi: nat)
    requires 1 <= lo
    ensures AllSignalled(read, Counting(lo, hi))
         == read.(ticks := read.ticks + From(lo, hi),
                  firstTicks := read.firstTicks + if lo == 1 <= hi then 1 else 0)
    decreases hi + 1 - lo
  {
    if lo > hi {
      assert read.ticks + From(lo, hi) == read.ticks;
    } else {
      var more := Counting(lo + 1, hi);
      assert ([Ticked(lo)] + more)[1..] == more;
      CountingIs(Counted(read, lo), lo + 1, hi);
      Associative(read.ticks, [lo], From(lo + 1, hi));
    }
  }

  function AfterRun(read: PaneRead, count: nat): PaneRead {
    PaneRead(read.ticks + From(1, count), read.markers + 1,
             read.firstTicks + if 1 <= count then 1 else 0)
  }

  lemma RunIs(read: PaneRead, count: nat, more: seq<Signal>)
    ensures AllSignalled(read, [Began] + (Counting(1, count) + more)) == AllSignalled(AfterRun(read, count), more)
  {
    var began := read.(markers := read.markers + 1);
    assert ([Began] + (Counting(1, count) + more))[1..] == Counting(1, count) + more;
    SignalledAppend(began, Counting(1, count), more);
    CountingIs(began, 1, count);
  }

  /** Every start is counted, every run that ticked, and every tick. */
  lemma {:induction false} HistoryIs(read: PaneRead, runs: seq<nat>)
    ensures AllSignalled(read, History(runs))
         == PaneRead(read.ticks + AllTicks(runs), read.markers + |runs|, read.firstTicks + RunsThatTicked(runs))
    decreases |runs|
  {
    if runs == [] {
      assert read.ticks + AllTicks(runs) == read.ticks;
    } else {
      RunIs(read, runs[0], History(runs[1..]));
      HistoryIs(AfterRun(read, runs[0]), runs[1..]);
      Associative(read.ticks, From(1, runs[0]), AllTicks(runs[1..]));
    }
  }

  lemma {:induction false} LargestFrom(lo: nat, hi: nat, ns: seq<nat>)
    requires 1 <= lo && ns == From(lo, hi)
    ensures Largest(ns) == if lo <= hi then hi else 0
    decreases hi + 1 - lo
  {
    if lo <= hi {
      var more := From(lo + 1, hi);
      LargestFrom(lo + 1, hi, more);
      LargestCons(lo, more);
    }
  }

  lemma LargestCons(n: nat, ns: seq<nat>)
    ensures Largest([n] + ns) == Max(n, Largest(ns))
  {
    assert ([n] + ns)[1..] == ns;
  }

  lemma {:induction false} LargestAppend(a: seq<nat>, b: seq<nat>)
    ensures Largest(a + b) == Max(Largest(a), Largest(b))
  {
    if a == [] {
      assert a + b == b;
    } else {
      assert (a + b)[1..] == a[1..] + b;
      LargestAppend(a[1..], b);
    }
  }

  lemma {:induction false} LargestAll(runs: seq<nat>)
    ensures Largest(AllTicks(runs)) == Largest(runs)
  {
    if runs != [] {
      LargestFrom(1, runs[0], From(1, runs[0]));
      LargestAppend(From(1, runs[0]), AllTicks(runs[1..]));
      LargestAll(runs[1..]);
    }
  }

  function ReadBack(n: nat, outputs: seq<Output>, ending: Ending): PaneRead {
    SeeAll(Marker(n), EMPTY, Lines(Shown(Marker(n), outputs, ending)))
  }

  /** The pane shows the history of these runs, among any other lines. */
  ghost predicate Shows(n: nat, outputs: seq<Output>, runs: seq<nat>) {
    (forall i :: 0 <= i < |outputs| ==> Allowed(Marker(n), outputs[i])) && Signals(outputs) == History(runs)
  }

  /** The restart verdict is exact: for every history of one or more runs, shown among any other lines,
      the filter accepts if and only if the script was started once and has counted past the earlier
      reading. */
  lemma VerdictIsExact(n: nat, before: PaneRead, outputs: seq<Output>, runs: seq<nat>, ending: Ending)
    requires runs != [] && Shows(n, outputs, runs)
    ensures var read := ReadBack(n, outputs, ending);
            && read.markers == |runs| && read.firstTicks == RunsThatTicked(runs)
            && read.ticks == AllTicks(runs) && Highest(read) == Largest(runs)
    ensures NotRestarted(before, ReadBack(n, outputs, ending))
            <==> |runs| == 1 && runs[0] > Highest(before)
  {
    ReadBackIs(n, outputs, runs, ending);
    LargestAll(runs);
    if |runs| == 1 {
      assert runs[1..] == [];
    }
  }

  lemma ReadBackIs(n: nat, outputs: seq<Output>, runs: seq<nat>, ending: Ending)
    requires Shows(n, outputs, runs)
    ensures ReadBack(n, outputs, ending) == PaneRead(AllTicks(runs), |runs|, RunsThatTicked(runs))
  {
    MarkerSolid(n);
    ShownIs(Marker(n), outputs, runs, ending);
  }

  lemma ShownIs(marker: string, outputs: seq<Output>, runs: seq<nat>, ending: Ending)
    requires IsMarker(marker) && forall i :: 0 <= i < |outputs| ==> Allowed(marker, outputs[i])
    requires Signals(outputs) == History(runs)
    ensures SeeAll(marker, EMPTY, Lines(Shown(marker, outputs, ending)))
         == PaneRead(AllTicks(runs), |runs|, RunsThatTicked(runs))
  {
    SeeShown(marker, EMPTY, outputs, ending);
    HistoryIs(EMPTY, runs);
    EmptyPrefix(AllTicks(runs));
  }

  /** How often a signal came, and whether a tick beyond `n` did. */
  function Times(signals: seq<Signal>, s: Signal): nat {
    if signals == [] then 0 else (if signals[0] == s then 1 else 0) + Times(signals[1..], s)
  }

  ghost predicate Passed(signals: seq<Signal>, n: nat) {
    exists i :: 0 <= i < |signals| && signals[i].Ticked? && signals[i].k > n
  }

  lemma {:induction false} SignalledCounts(read: PaneRead, signals: seq<Signal>)
    ensures var end := AllSignalled(read, signals);
            && end.markers == read.markers + Times(signals, Began)
            && end.firstTicks == read.firstTicks + Times(signals, Ticked(1))
    decreases |signals|
  {
    if signals != [] {
      SignalledCounts(Signalled(read, signals[0]), signals[1..]);
    }
  }

  lemma {:induction false} SignalledHighest(read: PaneRead, signals: seq<Signal>, n: nat)
    ensures Highest(AllSignalled(read, signals)) > n <==> Highest(read) > n || Passed(signals, n)
    decreases |signals|
  {
    if signals != [] {
      var next := Signalled(read, signals[0]);
      SignalledHighest(next, signals[1..], n);
      PassedCons(signals, n);
      if signals[0].Ticked? {
        LargestAppend(read.ticks, [signals[0].k]);
        assert [signals[0].k][1..] == [];
      }
    }
  }

  lemma PassedCons(signals: seq<Signal>, n: nat)
    requires signals != []
    ensures Passed(signals, n) <==> (signals[0].Ticked? && signals[0].k > n) || Passed(signals[1..], n)
  {
    var rest := signals[1..];
    assert forall i :: 0 <= i < |rest| ==> rest[i] == signals[i + 1];
    if Passed(rest, n) {
      var i :| 0 <= i < |rest| && rest[i].Ticked? && rest[i].k > n;
      assert signals[i + 1].Ticked? && signals[i + 1].k > n;
    }
  }

  /** The verdict on any scrollback, also one that has lost its beginning: one marker, one first tick,
      and a tick beyond the earlier reading. */
  lemma VerdictOnAnyScrollback(n: nat, before: PaneRead, outputs: seq<Output>, ending: Ending)
    requires forall i :: 0 <= i < |outputs| ==> Allowed(Marker(n), outputs[i])
    ensures NotRestarted(before, ReadBack(n, outputs, ending)) <==>
              && Times(Signals(outputs), Began) == 1 && Times(Signals(outputs), Ticked(1)) == 1
              && Passed(Signals(outputs), Highest(before))
  {
    MarkerSolid(n);
    AnyScrollback(Marker(n), before, outputs, ending);
  }

  lemma AnyScrollback(marker: string, before: PaneRead, outputs: seq<Output>, ending: Ending)
    requires IsMarker(marker) && forall i :: 0 <= i < |outputs| ==> Allowed(marker, outputs[i])
    ensures NotRestarted(before, SeeAll(marker, EMPTY, Lines(Shown(marker, outputs, ending)))) <==>
              && Times(Signals(outputs), Began) == 1 && Times(Signals(outputs), Ticked(1)) == 1
              && Passed(Signals(outputs), Highest(before))
  {
    SeeShown(marker, EMPTY, outputs, ending);
    SignalledCounts(EMPTY, Signals(outputs));
    SignalledHighest(EMPTY, Signals(outputs), Highest(before));
  }

  /** A rising counter is not evidence: after a restart that has overtaken the earlier run, the
      highest tick has risen past it and the filter still refuses. */
  lemma RisingTickIsNotEvidence(n: nat, first: nat, second: nat, was: seq<Output>, now: seq<Output>, ending: Ending)
    requires first < second && Shows(n, was, [first]) && Shows(n, now, [first, second])
    ensures var before, after := ReadBack(n, was, ending), ReadBack(n, now, ending);
            Highest(after) > Highest(before) && !NotRestarted(before, after)
  {
    VerdictIsExact(n, EMPTY, was, [first], ending);
    VerdictIsExact(n, ReadBack(n, was, ending), now, [first, second], ending);
    assert [first, second][1] == second;
  }

  /** No two panes share a marker. */
  lemma MarkersDiffer(m: nat, n: nat)
    ensures Marker(m) == Marker(n) <==> m == n
    ensures Marker(m)[..5] == "PANE-" && Marker(m)[|Marker(m)| - 7..] == "-MARKER"
  {
    DecimalValue(m);
    DecimalValue(n);
    assert Marker(m)[5..|Marker(m)| - 7] == Decimal(m) && Marker(n)[5..|Marker(n)| - 7] == Decimal(n);
  }
}
