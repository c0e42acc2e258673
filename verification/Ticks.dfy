/** The marker stream of a pane: parsing it, judging it, and where it comes from. */
module Ticks {
  import opened Text

  datatype Tick = Tick(n: nat, pid: nat)

  // ---------------------------------------------------------------- one line

  function LeadingDigits(s: string): (k: nat)
    ensures k <= |s| && AllDigits(s[..k]) && (k < |s| ==> !IsDigit(s[k]))
  {
    if s == [] || !IsDigit(s[0]) then 0
    else
      var k := 1 + LeadingDigits(s[1..]);
      assert s[..k] == [s[0]] + s[1..][..k - 1];
      k
  }

  /** The part between the first separator and the second one, or the end. */
  function SecondPart(s: string, sep: string): Option<string> {
    match Find(s, sep)
    case None => None
    case Some(p) =>
      var after := s[p + |sep|..];
      match Find(after, sep) case None => Some(after) case Some(q) => Some(after[..q])
  }

  function ParseTick(line: string): Option<Tick> {
    if !StartsWith(line, "tick-") then None
    else
      var rest := line[5..];
      var digits := rest[..LeadingDigits(rest)];
      match (ParseUnsigned(digits, U64), SecondPart(rest, "pid="))
      case (Some(n), Some(field)) =>
        (match ParseUnsigned(Trim(field), U32) case Some(pid) => Some(Tick(n, pid)) case None => None)
      case _ => None
  }

  /** What the ticker prints. */
  function TickLine(t: Tick): string {
    "tick-" + (Decimal(t.n) + (" pid=" + Decimal(t.pid)))
  }

  lemma {:induction false} DigitsThenSpace(digits: string, tail: string)
    requires AllDigits(digits) && (tail == [] || !IsDigit(tail[0]))
    ensures LeadingDigits(digits + tail) == |digits|
  {
    if digits == [] {
      assert digits + tail == tail;
    } else {
      var s := digits + tail;
      assert s[0] == digits[0] && s[1..] == digits[1..] + tail;
      DigitsThenSpace(digits[1..], tail);
    }
  }

  /** Text that does not spell the word. */
  ghost predicate NoWord(s: string) { forall q: nat :: !OccursAt(s, "pid=", q) }

  lemma NoWordAcross(a: string, rest: string, q: nat)
    requires NoWord(a) && (rest == [] || OccursAt(rest, "pid=", 0)) && q < |a|
    ensures !OccursAt(a + rest, "pid=", q)
  {
    var s := a + rest;
    if rest != [] {
      OccursAtChars(rest, "pid=", 0);
      assert s[|a|] == rest[0] == 'p';
    }
    if q + 4 <= |a| {
      SlicesAgree(s, q, a, q, 4);
      assert !OccursAt(a, "pid=", q);
    } else if OccursAt(s, "pid=", q) {
      OccursAtChars(s, "pid=", q);
    }
  }

  /** The word does not overlap itself, so it is first found after text without it. */
  lemma FindWord(a: string, rest: string)
    requires NoWord(a) && (rest == [] || OccursAt(rest, "pid=", 0))
    ensures Find(a + rest, "pid=") == if rest == [] then None else Some(|a|)
  {
    var s := a + rest;
    forall q: nat | q < |a| ensures !OccursAt(s, "pid=", q) {
      NoWordAcross(a, rest, q);
    }
    if rest != [] {
      OccursAtShift(a, rest, "pid=", 0);
      FindIs(s, "pid=", 0, |a|);
    } else {
      FindFromIsFirst(s, "pid=", 0);
    }
  }

  lemma SecondPartOf(a: string, field: string, more: string)
    requires NoWord(a) && NoWord(field) && (more == [] || OccursAt(more, "pid=", 0))
    ensures SecondPart(a + ("pid=" + (field + more)), "pid=") == Some(field)
  {
    var rest := "pid=" + (field + more);
    assert rest[0..4] == "pid=";
    FindWord(a, rest);
    ConcatDrop(a, rest, 4);
    ConcatDrop("pid=", field + more, 0);
    FindWord(field, more);
    assert more == [] ==> field + more == field;
    assert (field + more)[..|field|] == field;
  }

  lemma PaddedHasNoWord(before: string, digits: string, after: string)
    requires AllBlank(before) && AllDigits(digits) && AllBlank(after)
    ensures NoWord(before + (digits + after))
  {
    var s := before + (digits + after);
    forall q: nat ensures !OccursAt(s, "pid=", q) {
      if q + 4 <= |s| {
        assert s[q] != 'p' by {
          assert s[q] == if q < |before| then before[q] else (digits + after)[q - |before|];
        }
        assert s[q..q + 4][0] == s[q];
      }
    }
  }

  /** What is read as a tick, whoever printed it: any text may stand between the counter and the word,
      blanks around the pid are trimmed, and what follows a second word is not looked at.  A number too
      large for its machine word is no tick. */
  lemma LooseTick(t: Tick, between: string, before: string, after: string, more: string)
    requires (between == [] || !IsDigit(between[0])) && NoWord(between)
    requires AllBlank(before) && AllBlank(after) && (more == [] || OccursAt(more, "pid=", 0))
    ensures var field := before + (Decimal(t.pid) + after);
            ParseTick("tick-" + (Decimal(t.n) + (between + ("pid=" + (field + more)))))
            == if t.n < U64 && t.pid < U32 then Some(t) else None
  {
    var field := before + (Decimal(t.pid) + after);
    var tail := between + ("pid=" + (field + more));
    var rest := Decimal(t.n) + tail;
    assert ("tick-" + rest)[0..5] == "tick-" && ("tick-" + rest)[5..] == rest;
    assert tail[0] == if between == [] then 'p' else between[0];
    DigitsThenSpace(Decimal(t.n), tail);
    assert rest[..|Decimal(t.n)|] == Decimal(t.n);
    ParseDecimal(t.n, U64);
    PaddedHasNoWord(before, Decimal(t.pid), after);
    DigitsThenText(Decimal(t.n), between);
    Associative(Decimal(t.n), between, "pid=" + (field + more));
    SecondPartOf(Decimal(t.n) + between, field, more);
    TrimmedPid(before, t.pid, after);
  }

  lemma DigitsThenText(digits: string, between: string)
    requires AllDigits(digits) && NoWord(between)
    ensures NoWord(digits + between)
  {
    var s := digits + between;
    forall q: nat ensures !OccursAt(s, "pid=", q) {
      if q < |digits| {
        assert q + 4 <= |s| ==> s[q..q + 4][0] == digits[q] != 'p';
      } else {
        OccursAtShift(digits, between, "pid=", q - |digits|);
      }
    }
  }

  lemma TrimmedPid(before: string, pid: nat, after: string)
    requires AllBlank(before) && AllBlank(after)
    ensures ParseUnsigned(Trim(before + (Decimal(pid) + after)), U32) == if pid < U32 then Some(pid) else None
  {
    var digits := Decimal(pid);
    DigitIsSolid(digits[0]);
    DigitIsSolid(digits[|digits| - 1]);
    TrimCore(before, digits, after);
    ParseDecimal(pid, U32);
  }

  lemma SpacedTick(t: Tick, space: string, line: string, pid: string)
    requires t.n < U64 && t.pid < U32 && |space| == 1 && !IsDigit(space[0]) && pid == Decimal(t.pid)
    requires line == "tick-" + (Decimal(t.n) + (space + "pid=" + pid))
    ensures ParseTick(line) == Some(t)
  {
    Associative(space, "pid=", pid);
    LooseTick(t, space, [], [], []);
    EmptyPrefix(Decimal(t.pid) + []);
    EmptySuffix(Decimal(t.pid));
  }

  /** Parsing inverts printing, and `tick-1` is never taken for `tick-10`. */
  lemma ParseTickLine(t: Tick)
    requires t.n < U64 && t.pid < U32
    ensures ParseTick(TickLine(t)) == Some(t)
  {
    SpacedTick(t, " ", TickLine(t), Decimal(t.pid));
  }

  /** What is no tick: a line without the prefix, without a digit after it, or without the word. */
  lemma NoTick(line: string)
    requires !OccursAt(line, "tick-", 0) || |line| == 5 || !IsDigit(line[5]) || NoWord(line)
    ensures ParseTick(line).None?
  {
    if OccursAt(line, "tick-", 0) && NoWord(line) {
      var rest := line[5..];
      forall q: nat ensures !OccursAt(rest, "pid=", q) {
        if OccursAt(rest, "pid=", q) {
          SliceSlice(line, 5, |line|, q, q + 4);
          assert OccursAt(line, "pid=", q + 5);
        }
      }
    }
  }

  // ---------------------------------------------------------------- the verdict

  function TicksIn(line: string): (ts: seq<Tick>)
    ensures forall i :: 0 <= i < |ts| ==> ts[i].n < U64
  {
    match ParseTick(line) case Some(t) => [t] case None => []
  }

  function TicksOf(lines: seq<string>): (ts: seq<Tick>)
    ensures forall i :: 0 <= i < |ts| ==> ts[i].n < U64
  {
    if lines == [] then [] else TicksIn(lines[0]) + TicksOf(lines[1..])
  }

  /** `Overflow` is the panic of a machine addition past the largest counter. */
  datatype Verdict = Clean | TooFew(count: nat) | PidChanged(at: nat) | NotContiguous(at: nat) | Overflow

  ghost predicate OnePid(ticks: seq<Tick>) {
    forall i, j :: 0 <= i < |ticks| && 0 <= j < |ticks| ==> ticks[i].pid == ticks[j].pid
  }

  /** No gap, no duplicate and no restart between any two lines, however far apart. */
  ghost predicate Contiguous(ticks: seq<Tick>) {
    forall i, j :: 0 <= i < j < |ticks| ==> ticks[j].n - ticks[i].n == j - i
  }

  /** The verdict on the ticks of a transcript. */
  ghost predicate Judges(v: Verdict, ticks: seq<Tick>) {
    && (v.Clean? <==> |ticks| >= 2 && OnePid(ticks) && Contiguous(ticks))
    && (v.TooFew? <==> |ticks| < 2) && (v.TooFew? ==> v.count == |ticks|)
    && (v.PidChanged? ==> FirstProblem(ticks, v.at) && ticks[v.at + 1].pid != ticks[0].pid)
    && (v.NotContiguous? ==>
          && FirstProblem(ticks, v.at) && ticks[v.at + 1].pid == ticks[0].pid
          && ticks[v.at + 1].n != ticks[v.at].n + 1)
    && (v.Overflow? ==>
          exists at: nat :: FirstProblem(ticks, at) && ticks[at + 1].pid == ticks[0].pid && ticks[at].n + 1 >= U64)
  }

  /** Up to `at` there is one pid and every tick is one more than the one before; there is a tick after. */
  ghost predicate FirstProblem(ticks: seq<Tick>, at: nat) {
    at + 1 < |ticks| && forall k :: 0 <= k <= at ==> ticks[k].pid == ticks[0].pid && ticks[k].n == ticks[0].n + k
  }

  method ContiguityProblem(lines: seq<string>) returns (v: Verdict)
    ensures Judges(v, TicksOf(lines))
  {
    var ticks := CollectTicks(lines);
    v := JudgePairs(ticks);
  }

  /** Only neighbours are compared. */
  method JudgePairs(ticks: seq<Tick>) returns (v: Verdict)
    requires forall i :: 0 <= i < |ticks| ==> ticks[i].n < U64
    ensures Judges(v, ticks)
  {
    if |ticks| < 2 {
      return TooFew(|ticks|);
    }
    var pid := ticks[0].pid;
    var i := 0;
    while i + 1 < |ticks|
      invariant i < |ticks|
      invariant forall k :: 0 <= k <= i ==> ticks[k].pid == pid && ticks[k].n == ticks[0].n + k
    {
      if ticks[i + 1].pid != pid {
        return PidChanged(i);
      }
      if ticks[i].n + 1 >= U64 {
        assert ticks[i + 1].n < U64 && FirstProblem(ticks, i);
        return Overflow;
      }
      if ticks[i + 1].n != ticks[i].n + 1 {
        return NotContiguous(i);
      }
      i := i + 1;
    }
    return Clean;
  }

  method CollectTicks(lines: seq<string>) returns (ticks: seq<Tick>)
    ensures ticks == TicksOf(lines)
  {
    ticks := [];
    for i := 0 to |lines|
      invariant ticks + TicksOf(lines[i..]) == TicksOf(lines)
    {
      var found := TicksIn(lines[i]);
      assert lines[i..][1..] == lines[i + 1..];
      Associative(ticks, found, TicksOf(lines[i + 1..]));
      ticks := ticks + found;
    }
  }

  // ---------------------------------------------------------------- where the lines come from

  const RING_LINES: nat := 512

  /** What the script prints: its counter, and an echo of each line it reads. */
  datatype Output = Count(n: nat) | Got(text: string)

  /** A pane's counter, its terminal buffer, the ring its pump fills, and an attached client. */
  datatype Pane = Pane(next: nat, buffer: seq<Output>, capacity: nat, paused: bool,
                       ring: seq<Output>, client: seq<Output>, attached: bool)

  /** A blocked producer writes nothing; a parked pump moves nothing; attaching replays the ring. */
  datatype Event = Produce | Echo(text: string) | Pump | Pause | Resume | Attach

  function Start(capacity: nat): Pane { Pane(1, [], capacity, false, [], [], false) }

  function Last(s: seq<Output>, n: nat): seq<Output> { if |s| <= n then s else s[|s| - n..] }

  function Next(p: Pane, e: Event): Pane {
    match e
    case Produce =>
      if |p.buffer| < p.capacity then p.(next := p.next + 1, buffer := p.buffer + [Count(p.next)]) else p
    case Echo(text) =>
      if |p.buffer| < p.capacity then p.(buffer := p.buffer + [Got(text)]) else p
    case Pump =>
      if p.paused || p.buffer == [] then p
      else p.(buffer := p.buffer[1..], ring := Last(p.ring + [p.buffer[0]], RING_LINES),
              client := if p.attached then p.client + [p.buffer[0]] else [])
    case Pause => p.(paused := true)
    case Resume => p.(paused := false)
    case Attach => if p.attached then p else p.(attached := true, client := p.ring)
  }

  function After(p: Pane, schedule: seq<Event>): Pane
    decreases |schedule|
  {
    if schedule == [] then p else After(Next(p, schedule[0]), schedule[1..])
  }

  /** The counters of a stream. */
  function Counts(s: seq<Output>): seq<nat> {
    if s == [] then [] else (if s[0].Count? then [s[0].n] else []) + Counts(s[1..])
  }

  lemma {:induction false} CountsAppend(a: seq<Output>, b: seq<Output>)
    ensures Counts(a + b) == Counts(a) + Counts(b)
  {
    if a == [] {
      assert a + b == b;
    } else {
      assert (a + b)[0] == a[0] && (a + b)[1..] == a[1..] + b;
      CountsAppend(a[1..], b);
      Associative(if a[0].Count? then [a[0].n] else [], Counts(a[1..]), Counts(b));
    }
  }

  /** `s` counts up by one and ends just below `end`. */
  ghost predicate CountsUpTo(s: seq<nat>, end: nat) {
    |s| <= end && forall i :: 0 <= i < |s| ==> s[i] == end - |s| + i
  }

  /** What follows in a stream that counts up counts up. */
  lemma SuffixCountsUp(a: seq<Output>, b: seq<Output>, end: nat)
    requires CountsUpTo(Counts(a + b), end)
    ensures CountsUpTo(Counts(b), end)
  {
    CountsAppend(a, b);
    CountsUpSuffix(Counts(a), Counts(b), end);
  }

  lemma CountsUpSuffix(xs: seq<nat>, ys: seq<nat>, end: nat)
    requires CountsUpTo(xs + ys, end)
    ensures CountsUpTo(ys, end)
  {
    forall i | 0 <= i < |ys|
      ensures ys[i] == end - |ys| + i
    {
      assert (xs + ys)[|xs| + i] == ys[i];
    }
  }

  /** What was read, followed by what waits in the buffer, counts up to the next tick. */
  ghost predicate StreamInv(p: Pane) {
    && |p.buffer| <= p.capacity && |p.ring| <= RING_LINES
    && CountsUpTo(Counts(p.ring + p.buffer), p.next)
    && CountsUpTo(Counts(p.client + p.buffer), p.next)
    && (p.attached || p.client == [])
  }

  /** A new line at the end of a stream, a tick or an echo. */
  lemma WrittenCountsUp(read: seq<Output>, buffer: seq<Output>, end: nat, line: Output)
    requires CountsUpTo(Counts(read + buffer), end) && (line.Count? ==> line.n == end)
    ensures CountsUpTo(Counts(read + (buffer + [line])), if line.Count? then end + 1 else end)
  {
    Associative(read, buffer, [line]);
    CountsAppend(read + buffer, [line]);
  }

  /** Moving a line from the buffer to what was read keeps their concatenation. */
  lemma PumpMoves(read: seq<Output>, buffer: seq<Output>)
    requires buffer != []
    ensures (read + [buffer[0]]) + buffer[1..] == read + buffer
  {
  }

  lemma RingCountsUp(ring: seq<Output>, buffer: seq<Output>, end: nat)
    requires CountsUpTo(Counts(ring + buffer), end)
    ensures CountsUpTo(Counts(Last(ring, RING_LINES) + buffer), end)
    ensures |Last(ring, RING_LINES)| <= RING_LINES
  {
    var k := if |ring| <= RING_LINES then 0 else |ring| - RING_LINES;
    assert ring + buffer == ring[..k] + (ring[k..] + buffer);
    SuffixCountsUp(ring[..k], ring[k..] + buffer, end);
    assert Last(ring, RING_LINES) == ring[k..];
  }

  lemma PumpKeepsStream(p: Pane)
    requires StreamInv(p) && !p.paused && p.buffer != []
    ensures StreamInv(Next(p, Pump))
  {
    PumpMoves(p.ring, p.buffer);
    RingCountsUp(p.ring + [p.buffer[0]], p.buffer[1..], p.next);
    PumpMoves(p.client, p.buffer);
    if !p.attached {
      SuffixCountsUp(p.client + [p.buffer[0]], p.buffer[1..], p.next);
      assert [] + p.buffer[1..] == p.buffer[1..];
    }
  }

  lemma WriteKeepsStream(p: Pane, line: Output)
    requires StreamInv(p) && |p.buffer| < p.capacity && (line.Count? ==> line.n == p.next)
    ensures StreamInv(p.(next := if line.Count? then p.next + 1 else p.next, buffer := p.buffer + [line]))
  {
    WrittenCountsUp(p.ring, p.buffer, p.next, line);
    WrittenCountsUp(p.client, p.buffer, p.next, line);
  }

  lemma NextKeepsStream(p: Pane, e: Event)
    requires StreamInv(p)
    ensures StreamInv(Next(p, e))
  {
    if e.Produce? && |p.buffer| < p.capacity {
      WriteKeepsStream(p, Count(p.next));
    } else if e.Echo? && |p.buffer| < p.capacity {
      WriteKeepsStream(p, Got(e.text));
    } else if e.Pump? && !p.paused && p.buffer != [] {
      PumpKeepsStream(p);
    }
  }

  lemma {:induction false} ScheduleKeepsStream(p: Pane, schedule: seq<Event>)
    requires StreamInv(p)
    ensures StreamInv(After(p, schedule))
    decreases |schedule|
  {
    if schedule != [] {
      NextKeepsStream(p, schedule[0]);
      ScheduleKeepsStream(Next(p, schedule[0]), schedule[1..]);
    }
  }

  function PrintedLine(o: Output, pid: nat): string {
    match o case Count(n) => TickLine(Tick(n, pid)) case Got(text) => "got:" + text
  }

  function Printed(s: seq<Output>, pid: nat): seq<string> {
    if s == [] then [] else [PrintedLine(s[0], pid)] + Printed(s[1..], pid)
  }

  function TicksFrom(ns: seq<nat>, pid: nat): (ts: seq<Tick>)
    ensures |ts| == |ns| && forall i :: 0 <= i < |ts| ==> ts[i] == Tick(ns[i], pid)
  {
    seq(|ns|, i requires 0 <= i < |ns| => Tick(ns[i], pid))
  }

  lemma TicksInTickLine(t: Tick)
    requires t.n < U64 && t.pid < U32
    ensures TicksIn(TickLine(t)) == [t]
  {
    ParseTickLine(t);
  }

  /** An echoed line is never taken for a tick. */
  lemma TicksInEcho(text: string)
    ensures TicksIn("got:" + text) == []
  {
    var line := "got:" + text;
    assert line[0] == 'g';
    if OccursAt(line, "tick-", 0) {
      OccursAtChars(line, "tick-", 0);
    }
    NoTick(line);
  }

  lemma TicksCons(line: string, rest: seq<string>)
    ensures TicksOf([line] + rest) == TicksIn(line) + TicksOf(rest)
  {
    assert ([line] + rest)[1..] == rest;
  }

  lemma TicksFromCons(n: nat, ns: seq<nat>, pid: nat)
    ensures TicksFrom([n] + ns, pid) == [Tick(n, pid)] + TicksFrom(ns, pid)
  {
  }

  ghost predicate Below(ns: seq<nat>, limit: nat) { forall i :: 0 <= i < |ns| ==> ns[i] < limit }

  lemma BelowCons(n: nat, ns: seq<nat>, limit: nat)
    requires Below([n] + ns, limit)
    ensures n < limit && Below(ns, limit)
  {
    assert ([n] + ns)[0] == n;
    assert forall i :: 0 <= i < |ns| ==> ns[i] == ([n] + ns)[i + 1];
  }

  /** Every tick of a stream is read back, and nothing else. */
  lemma {:induction false} PrintedTicks(s: seq<Output>, pid: nat)
    requires pid < U32 && Below(Counts(s), U64)
    ensures TicksOf(Printed(s, pid)) == TicksFrom(Counts(s), pid)
  {
    if s != [] {
      TicksCons(PrintedLine(s[0], pid), Printed(s[1..], pid));
      if s[0].Count? {
        BelowCons(s[0].n, Counts(s[1..]), U64);
        TicksInTickLine(Tick(s[0].n, pid));
        TicksFromCons(s[0].n, Counts(s[1..]), pid);
      } else {
        assert Counts(s) == Counts(s[1..]);
        TicksInEcho(s[0].text);
      }
      PrintedTicks(s[1..], pid);
    }
  }

  /** A stream that counts up reads back as contiguous ticks of one process. */
  lemma StreamReadsBack(read: seq<Output>, buffer: seq<Output>, end: nat, pid: nat)
    requires CountsUpTo(Counts(read + buffer), end) && end <= U64 && pid < U32
    ensures var ticks := TicksOf(Printed(read, pid));
            |ticks| == |Counts(read)| && OnePid(ticks) && Contiguous(ticks)
  {
    CountsAppend(read, buffer);
    var ns := Counts(read);
    assert forall i :: 0 <= i < |ns| ==> ns[i] == Counts(read + buffer)[i];
    PrintedTicks(read, pid);
  }

  /** Contiguity survives every pause: for every schedule of ticks, echoes, pump moves, pauses and
      resumes over a buffer that blocks when full, the client's transcript and the pane's ring both
      pass the verdict as soon as they hold two ticks. */
  lemma TranscriptStaysContiguous(capacity: nat, schedule: seq<Event>, pid: nat)
    requires pid < U32 && After(Start(capacity), schedule).next <= U64
    ensures var p := After(Start(capacity), schedule);
            var client, ring := TicksOf(Printed(p.client, pid)), TicksOf(Printed(p.ring, pid));
            && |client| == |Counts(p.client)| && OnePid(client) && Contiguous(client)
            && |ring| == |Counts(p.ring)| && |p.ring| <= 512 && OnePid(ring) && Contiguous(ring)
            && |p.buffer| <= capacity
  {
    var p := After(Start(capacity), schedule);
    assert Start(capacity).ring + Start(capacity).buffer == [];
    assert Start(capacity).client + Start(capacity).buffer == [];
    ScheduleKeepsStream(Start(capacity), schedule);
    CapacityStays(Start(capacity), schedule);
    StreamReadsBack(p.client, p.buffer, p.next, pid);
    StreamReadsBack(p.ring, p.buffer, p.next, pid);
  }

  // ---------------------------------------------------------------- what a pause and an attach mean

  lemma {:induction false} CapacityStays(p: Pane, schedule: seq<Event>)
    ensures After(p, schedule).capacity == p.capacity
    decreases |schedule|
  {
    if schedule != [] {
      CapacityStays(Next(p, schedule[0]), schedule[1..]);
    }
  }

  /** While the pump is paused nothing the daemon holds changes, whatever the script prints. */
  lemma {:induction false} PauseHoldsStill(p: Pane, schedule: seq<Event>)
    requires p.paused && forall i :: 0 <= i < |schedule| ==> !schedule[i].Resume? && !schedule[i].Attach?
    ensures var end := After(p, schedule);
            end.paused && end.ring == p.ring && end.client == p.client && p.buffer <= end.buffer
    decreases |schedule|
  {
    if schedule != [] {
      PauseHoldsStill(Next(p, schedule[0]), schedule[1..]);
    }
  }

  lemma LastOfLast(s: seq<Output>, line: Output, n: nat)
    requires n > 0
    ensures Last(Last(s, n) + [line], n) == Last(s + [line], n)
  {
    if |s| > n {
      assert Last(s, n) == s[|s| - n..];
      assert (s[|s| - n..] + [line])[1..] == (s + [line])[|s| + 1 - n..];
    }
  }

  lemma ClientStep(p: Pane, e: Event)
    requires p.attached && p.ring == Last(p.client, 512)
    ensures var next := Next(p, e);
            next.attached && p.client <= next.client && next.ring == Last(next.client, 512)
  {
    if e.Pump? && !p.paused && p.buffer != [] {
      LastOfLast(p.client, p.buffer[0], 512);
    }
  }

  /** A client keeps every line it was sent, and the ring is always the last 512 lines of it. */
  lemma {:induction false} RingIsTail(p: Pane, schedule: seq<Event>)
    requires p.attached && p.ring == Last(p.client, 512)
    ensures var end := After(p, schedule);
            end.attached && p.client <= end.client && end.ring == Last(end.client, 512)
    decreases |schedule|
  {
    if schedule != [] {
      ClientStep(p, schedule[0]);
      RingIsTail(Next(p, schedule[0]), schedule[1..]);
    }
  }

  /** The client has, or will get from the buffer, every tick from the first on. */
  ghost predicate Everything(p: Pane) {
    p.attached && p.next >= 1 && |Counts(p.client + p.buffer)| == p.next - 1
  }

  lemma EverythingStep(p: Pane, e: Event)
    requires Everything(p)
    ensures Everything(Next(p, e))
  {
    if e.Pump? && !p.paused && p.buffer != [] {
      PumpMoves(p.client, p.buffer);
    } else if e.Produce? && |p.buffer| < p.capacity {
      Associative(p.client, p.buffer, [Count(p.next)]);
      CountsAppend(p.client + p.buffer, [Count(p.next)]);
    } else if e.Echo? && |p.buffer| < p.capacity {
      Associative(p.client, p.buffer, [Got(e.text)]);
      CountsAppend(p.client + p.buffer, [Got(e.text)]);
    }
  }

  lemma {:induction false} EverythingArrives(p: Pane, schedule: seq<Event>)
    requires Everything(p)
    ensures Everything(After(p, schedule))
    decreases |schedule|
  {
    if schedule != [] {
      EverythingStep(p, schedule[0]);
      EverythingArrives(Next(p, schedule[0]), schedule[1..]);
    }
  }

  /** Attaching replays the ring: at whatever time a client attaches, from then on the ring is the end of
      what the client has. */
  lemma AttachedAtAnyTime(capacity: nat, before: seq<Event>, schedule: seq<Event>)
    requires !After(Start(capacity), before).attached
    ensures var p := After(Next(After(Start(capacity), before), Attach), schedule);
            After(Start(capacity), before).ring <= p.client && p.ring == Last(p.client, 512)
  {
    var p := After(Start(capacity), before);
    assert Start(capacity).ring + Start(capacity).buffer == [];
    assert Start(capacity).client + Start(capacity).buffer == [];
    ScheduleKeepsStream(Start(capacity), before);
    RingIsTail(Next(p, Attach), schedule);
  }

  /** A client attached from the start gets every line the buffer has let go: no tick is missing from
      its transcript, and the ring is the end of it. */
  lemma AttachedFromTheStart(capacity: nat, schedule: seq<Event>)
    ensures var p := After(Start(capacity), [Attach] + schedule);
            Everything(p) && p.ring == Last(p.client, 512)
  {
    var start := Next(Start(capacity), Attach);
    assert ([Attach] + schedule)[1..] == schedule;
    assert start.client + start.buffer == [];
    EverythingArrives(start, schedule);
    RingIsTail(start, schedule);
  }
}
