/** The harness as it runs: the character loop over a mutable grid, and the reader that keeps a
    bounded tail of everything the terminal printed. */
module Harness {
  import opened Text
  import opened Utf8
  import opened Terminal
  import opened TerminalTheorems

  function RowOf(grid: array2<char>, i: nat): (s: string)
    requires i < grid.Length0
    reads grid
    ensures |s| == grid.Length1 && forall j :: 0 <= j < grid.Length1 ==> s[j] == grid[i, j]
  {
    seq(grid.Length1, j requires 0 <= j < grid.Length1 reads grid => grid[i, j])
  }

  function CellsOf(grid: array2<char>): (s: seq<seq<char>>)
    reads grid
    ensures |s| == grid.Length0 && forall i :: 0 <= i < grid.Length0 ==> s[i] == RowOf(grid, i)
  {
    seq(grid.Length0, i requires 0 <= i < grid.Length0 reads grid => RowOf(grid, i))
  }

  function ScreenOf(grid: array2<char>, row: nat, col: nat): Screen
    reads grid
  {
    Screen(grid.Length0, grid.Length1, CellsOf(grid), row, col)
  }

  method BlankGrid(rows: nat, cols: nat) returns (grid: array2<char>)
    ensures fresh(grid) && grid.Length0 == rows && grid.Length1 == cols
    ensures CellsOf(grid) == Blank(rows, cols).cells
  {
    grid := new char[rows, cols]((_, _) => ' ');
    assert forall i :: 0 <= i < rows ==> RowOf(grid, i) == Spaces(cols);
  }

  method PutCell(grid: array2<char>, row: nat, col: nat, c: char)
    requires row < grid.Length0
    modifies grid
    ensures CellsOf(grid) == Put(old(CellsOf(grid)), row, col, c)
  {
    ghost var was := CellsOf(grid);
    if col < grid.Length1 {
      grid[row, col] := c;
      assert RowOf(grid, row) == was[row][col := c];
      assert forall i :: 0 <= i < grid.Length0 && i != row ==> RowOf(grid, i) == was[i];
    }
    assert CellsOf(grid) == Put(was, row, col, c);
  }

  method EraseRow(grid: array2<char>, row: nat, col: nat)
    requires row < grid.Length0
    modifies grid
    ensures CellsOf(grid) == old(CellsOf(grid))[row := Erased(old(CellsOf(grid))[row], col)]
  {
    ghost var was := CellsOf(grid);
    var j := col;
    while j < grid.Length1
      invariant forall i, k :: 0 <= i < grid.Length0 && 0 <= k < grid.Length1 ==>
                  grid[i, k] == if i == row && col <= k < j then ' ' else was[i][k]
    {
      grid[row, j] := ' ';
      j := j + 1;
    }
    assert RowOf(grid, row) == Erased(was[row], col);
    assert forall i :: 0 <= i < grid.Length0 && i != row ==> RowOf(grid, i) == was[i];
  }

  /** One control sequence; `ok` is false when a cursor sum overflows the machine word. */
  method Execute(grid: array2<char>, row: nat, col: nat, final: char, nums: seq<nat>)
    returns (ok: bool, grid': array2<char>, row': nat, col': nat)
    requires grid.Length0 >= 1 && grid.Length1 >= 1
    modifies grid
    ensures ok == ControlFits(final, nums, old(ScreenOf(grid, row, col)), USIZE)
    ensures ok ==> ScreenOf(grid', row', col') == Control(final, nums, old(ScreenOf(grid, row, col)))
    ensures grid' == grid || fresh(grid')
  {
    ok, grid', row', col' := true, grid, row, col;
    if final == 'H' || final == 'f' {
      row', col' := Monus(Arg(nums, 0), 1), Monus(Arg(nums, 1), 1);
    } else if final == 'A' {
      row' := Monus(row, Arg(nums, 0));
    } else if final == 'B' {
      ok := row + Arg(nums, 0) < USIZE;
      row' := Min(row + Arg(nums, 0), grid.Length0 - 1);
    } else if final == 'C' {
      ok := col + Arg(nums, 0) < USIZE;
      col' := Min(col + Arg(nums, 0), grid.Length1 - 1);
    } else if final == 'D' {
      col' := Monus(col, Arg(nums, 0));
    } else if final == 'J' {
      grid' := BlankGrid(grid.Length0, grid.Length1);
      row', col' := 0, 0;
    } else if final == 'K' && row < grid.Length0 {
      EraseRow(grid, row, col);
    }
  }

  /** One character outside an escape. */
  method Type(grid: array2<char>, row: nat, col: nat, c: char)
    returns (ok: bool, row': nat, col': nat)
    requires grid.Length0 >= 1 && grid.Length1 >= 1 && c != ESC
    modifies grid
    ensures ok == Fits([c], old(ScreenOf(grid, row, col)), USIZE)
    ensures ok ==> ScreenOf(grid, row', col') == Glyph(c, old(ScreenOf(grid, row, col)))
  {
    ok, row', col' := true, row, col;
    if c == '\r' {
      col' := 0;
    } else if c == '\n' {
      ok := row + 1 < USIZE;
      row', col' := Min(row + 1, grid.Length0 - 1), 0;
    } else if c == '\U{8}' {
      col' := Monus(col, 1);
    } else if !IsControl(c) && row < grid.Length0 {
      PutCell(grid, row, col, c);
      ok := col + 1 < USIZE;
      col' := Min(col + 1, grid.Length1 - 1);
    }
  }

  /** One turn: a character, a control sequence, or an escape that does nothing. */
  method Obey(grid: array2<char>, row: nat, col: nat, token: string)
    returns (ok: bool, grid': array2<char>, row': nat, col': nat)
    requires grid.Length0 >= 1 && grid.Length1 >= 1 && token != []
    requires token[0] != ESC ==> |token| == 1
    modifies grid
    ensures ok == Fits(token, old(ScreenOf(grid, row, col)), USIZE)
    ensures ok ==> ScreenOf(grid', row', col') == Apply(token, old(ScreenOf(grid, row, col)))
    ensures grid' == grid || fresh(grid')
  {
    ok, grid', row', col' := true, grid, row, col;
    if token[0] != ESC {
      assert token == [token[0]];
      ok, row', col' := Type(grid, row, col, token[0]);
    } else if IsCsi(token) {
      var nums := Params(token[2..|token| - 1]);
      ok, grid', row', col' := Execute(grid, row, col, token[|token| - 1], nums);
    }
  }

  /** The end of the token at `i`: the parameter loop that looks for a final byte. */
  method ScanToken(raw: string, i: nat) returns (next: nat)
    requires i < |raw|
    ensures next == i + TokenLength(raw[i..])
  {
    if raw[i] != ESC || i + 1 == |raw| {
      next := i + 1;
    } else if raw[i + 1] == '[' {
      next := i + 2;
      while next < |raw| && !IsFinal(raw[next])
        invariant i + 2 <= next <= |raw|
        invariant FinalAt(raw[i + 2..]) == next - (i + 2) + FinalAt(raw[next..])
      {
        assert raw[next..][1..] == raw[next + 1..];
        next := next + 1;
      }
      assert raw[i..][2..] == raw[i + 2..];
      next := Min(next + 1, |raw|);
    } else if raw[i + 1] == '(' || raw[i + 1] == ')' {
      next := Min(i + 3, |raw|);
    } else {
      next := i + 2;
    }
  }

  lemma CheckedTurn(raw: string, i: nat, next: nat, st: Screen)
    requires i < |raw| && next == i + TokenLength(raw[i..]) && |st.cells| == st.rows
    ensures next <= |raw| && (raw[i] != ESC ==> next == i + 1)
    ensures Checked(raw[i..], st, USIZE)
         == if Fits(raw[i..next], st, USIZE)
            then Checked(raw[next..], Apply(raw[i..next], st), USIZE) else None
  {
    DropTake(raw, i, next - i);
    DropDrop(raw, i, next - i);
    CheckedStep(raw[i..], st, USIZE, raw[i..next], raw[next..]);
  }

  /** `render_screen`: `None` is the overflow panic of a machine addition. */
  method RenderScreen(raw: string, rows0: nat, cols0: nat) returns (out: Option<string>)
    ensures var start := Blank(Max(rows0, 1), Max(cols0, 1));
            && (out.None? <==> Checked(raw, start, USIZE).None?)
            && (out.Some? ==> out.value == Render(raw, rows0, cols0))
  {
    var rows, cols := Max(rows0, 1), Max(cols0, 1);
    ghost var start := Blank(rows, cols);
    CheckedAgrees(raw, start, USIZE);
    var grid := BlankGrid(rows, cols);
    var row, col, i := 0, 0, 0;
    while i < |raw|
      invariant fresh(grid) && grid.Length0 == rows && grid.Length1 == cols && i <= |raw|
      invariant Checked(raw[i..], ScreenOf(grid, row, col), USIZE) == Checked(raw, start, USIZE)
    {
      var next := ScanToken(raw, i);
      var token := raw[i..next];
      CheckedTurn(raw, i, next, ScreenOf(grid, row, col));
      var ok;
      ok, grid, row, col := Obey(grid, row, col, token);
      if !ok {
        return None;
      }
      i := next;
    }
    assert raw[i..] == [];
    out := Some(Show(ScreenOf(grid, row, col)));
  }

  // ---------------------------------------------------------------- the bounded transcript

  const HIGH_WATER: nat := 0x40_0000
  const LOW_WATER: nat := 0x20_0000

  /** What the reader keeps of `kept` followed by one more read. */
  function Absorb(kept: seq<Byte>, read: seq<Byte>): seq<Byte> {
    var all := kept + read;
    if |all| > HIGH_WATER then all[|all| - LOW_WATER..] else all
  }

  function Absorbed(kept: seq<Byte>, chunks: seq<seq<Byte>>): seq<Byte>
    decreases |chunks|
  {
    if chunks == [] then kept else Absorbed(Absorb(kept, chunks[0]), chunks[1..])
  }

  /** The reads before the one that reports the end of the stream. */
  function UntilEmpty(chunks: seq<seq<Byte>>): seq<seq<Byte>> {
    if chunks == [] || chunks[0] == [] then [] else [chunks[0]] + UntilEmpty(chunks[1..])
  }

  /** The same, read by read. */
  ghost function AbsorbedFrom(kept: seq<Byte>, chunks: seq<seq<Byte>>, i: nat): seq<Byte>
    requires i <= |chunks|
    decreases |chunks| - i
  {
    if i == |chunks| || chunks[i] == [] then kept
    else AbsorbedFrom(Absorb(kept, chunks[i]), chunks, i + 1)
  }

  lemma {:induction false} AbsorbedFromIs(kept: seq<Byte>, chunks: seq<seq<Byte>>, i: nat, rest: seq<seq<Byte>>)
    requires i <= |chunks| && rest == chunks[i..]
    ensures AbsorbedFrom(kept, chunks, i) == Absorbed(kept, UntilEmpty(rest))
    decreases |chunks| - i
  {
    if i < |chunks| && chunks[i] != [] {
      DropDrop(chunks, i, 1);
      AbsorbedFromIs(Absorb(kept, chunks[i]), chunks, i + 1, rest[1..]);
      var more := UntilEmpty(rest[1..]);
      assert ([rest[0]] + more)[1..] == more;
    }
  }

  class Transcript {
    var sink: seq<Byte>

    constructor ()
      ensures sink == []
    {
      sink := [];
    }

    method Read(buf: seq<Byte>)
      modifies this
      ensures sink == Absorb(old(sink), buf)
    {
      sink := sink + buf;
      var len := |sink|;
      if len > HIGH_WATER {
        sink := sink[len - LOW_WATER..];
      }
    }

    /** The reader thread: one read after another, until a read of length zero. */
    method ReadAll(chunks: seq<seq<Byte>>)
      modifies this
      ensures sink == Absorbed(old(sink), UntilEmpty(chunks))
    {
      AbsorbedFromIs(sink, chunks, 0, chunks);
      var i := 0;
      while i < |chunks| && chunks[i] != []
        invariant i <= |chunks|
        invariant AbsorbedFrom(sink, chunks, i) == AbsorbedFrom(old(sink), chunks, 0)
      {
        Read(chunks[i]);
        i := i + 1;
      }
    }

    method ShowScreen(rows: nat, cols: nat) returns (out: Option<string>)
      ensures out.Some? ==> out.value == Render(Decode(sink), rows, cols)
      ensures out.None? <==> Checked(Decode(sink), Blank(Max(rows, 1), Max(cols, 1)), USIZE).None?
    {
      out := RenderScreen(Decode(sink), rows, cols);
    }
  }

  ghost predicate IsTailOf(kept: seq<Byte>, all: seq<Byte>) {
    && |kept| <= |all| && kept == all[|all| - |kept|..]
    && |kept| <= 4 * 1024 * 1024 && |kept| >= Min(|all|, 2 * 1024 * 1024)
  }

  lemma TailAppend(kept: seq<Byte>, all: seq<Byte>, read: seq<Byte>)
    requires |kept| <= |all| && kept == all[|all| - |kept|..]
    ensures kept + read == (all + read)[|all| - |kept|..]
  {
    SliceConcat(all, read, |all| - |kept|);
  }

  lemma SliceConcat(all: seq<Byte>, read: seq<Byte>, k: nat)
    requires k <= |all|
    ensures (all + read)[k..] == all[k..] + read
  {
  }

  lemma AbsorbIsTail(kept: seq<Byte>, all: seq<Byte>, read: seq<Byte>)
    requires IsTailOf(kept, all)
    ensures IsTailOf(Absorb(kept, read), all + read)
  {
    TailAppend(kept, all, read);
    DrainIsTail(kept + read, all + read);
  }

  /** Draining keeps a tail a tail. */
  lemma DrainIsTail(extended: seq<Byte>, all: seq<Byte>)
    requires |extended| <= |all| && extended == all[|all| - |extended|..]
    requires |extended| >= Min(|all|, 2 * 1024 * 1024)
    ensures IsTailOf(if |extended| > HIGH_WATER then extended[|extended| - LOW_WATER..] else extended, all)
  {
    if |extended| > HIGH_WATER {
      DropDrop(all, |all| - |extended|, |extended| - LOW_WATER);
    }
  }

  /** Nothing is dropped before the sink holds more than four MiB; then the last two stay. */
  lemma AbsorbExactly(kept: seq<Byte>, read: seq<Byte>)
    ensures |kept + read| <= 4 * 1024 * 1024 ==> Absorb(kept, read) == kept + read
    ensures |kept + read| > 4 * 1024 * 1024 ==>
              Absorb(kept, read) == (kept + read)[|kept + read| - 2 * 1024 * 1024..]
  {
  }

  /** A stream of at most four MiB is kept whole, however it is read. */
  lemma {:induction false} ShortStreamIsKept(kept: seq<Byte>, chunks: seq<seq<Byte>>)
    requires |kept + Concat(chunks)| <= 4 * 1024 * 1024
    ensures Absorbed(kept, chunks) == kept + Concat(chunks)
    decreases |chunks|
  {
    if chunks == [] {
      assert kept + Concat(chunks) == kept;
    } else {
      Associative(kept, chunks[0], Concat(chunks[1..]));
      AbsorbExactly(kept, chunks[0]);
      ShortStreamIsKept(kept + chunks[0], chunks[1..]);
    }
  }

  /** The empty read ends the stream: what would come after it is never read. */
  lemma {:induction false} EmptyReadEnds(before: seq<seq<Byte>>, after: seq<seq<Byte>>)
    requires forall i :: 0 <= i < |before| ==> before[i] != []
    ensures UntilEmpty(before + ([[]] + after)) == before
    decreases |before|
  {
    var all := before + ([[]] + after);
    if before == [] {
      assert all == [[]] + after;
    } else {
      assert all[0] == before[0] && all[1..] == before[1..] + ([[]] + after);
      EmptyReadEnds(before[1..], after);
    }
  }

  /** For every chunking into reads the sink is a suffix of everything read, never longer than the
      high-water mark, and never shorter than the low-water mark unless nothing was dropped. */
  lemma {:induction false} SinkIsTail(kept: seq<Byte>, all: seq<Byte>, chunks: seq<seq<Byte>>)
    requires IsTailOf(kept, all)
    ensures IsTailOf(Absorbed(kept, chunks), all + Concat(chunks))
    decreases |chunks|
  {
    if chunks == [] {
      assert all + Concat(chunks) == all;
    } else {
      AbsorbIsTail(kept, all, chunks[0]);
      SinkIsTail(Absorb(kept, chunks[0]), all + chunks[0], chunks[1..]);
      Associative(all, chunks[0], Concat(chunks[1..]));
    }
  }

  const ESC_BYTE: Byte := 0x1b

  /** One complete clear starts at byte `p`. */
  ghost predicate ClearsAtByte(all: seq<Byte>, p: nat) {
    p < |all| && all[p] == ESC_BYTE && ClearsAt(Decode(all[p..]), 0)
  }

  /** The decoded text around a byte that starts a clear, for the whole stream and for a cut of it:
      the cut is some debris and a suffix of the whole, and the clear is in both. */
  lemma CutOfText(all: seq<Byte>, cut: nat, p: nat) returns (debris: string, k: nat, at: nat)
    requires cut <= p && ClearsAtByte(all, p)
    ensures k <= at && ClearsAt(Decode(all), at) && ESC !in debris
    ensures Decode(all[cut..]) == debris + Decode(all)[k..]
  {
    var head, tail := all[..p], all[p..];
    debris, k := DecodeCut(head, cut, head[cut..]);
    at := |Decode(head)|;
    assert all == head + tail && all[cut..] == head[cut..] + tail;
    DecodeAppend(head, tail);
    DecodeAppend(head[cut..], tail);
    ClearsAfter(Decode(head), Decode(tail));
    SplitText(debris, Decode(head), Decode(tail), k);
  }

  lemma ClearsAfter(head: string, tail: string)
    requires ClearsAt(tail, 0)
    ensures ClearsAt(head + tail, |head|)
  {
    ConcatDrop(head, tail, 0);
    ClearsAtItself(head + tail, |head|);
  }

  lemma SplitText(debris: string, head: string, tail: string, k: nat)
    requires k <= |head|
    ensures debris + head[k..] + tail == debris + (head + tail)[k..]
  {
    Associative(debris, head[k..], tail);
    assert (head + tail)[k..] == head[k..] + tail;
  }

  /** Cutting a byte stream anywhere, even inside a character, keeps the screen. */
  lemma ByteCutRenders(all: seq<Byte>, cut: nat, kept: seq<Byte>, p: nat, rows: nat, cols: nat)
    requires EscapeClean(Decode(all)) && cut <= p && ClearsAtByte(all, p) && kept == all[cut..]
    ensures Render(Decode(kept), rows, cols) == Render(Decode(all), rows, cols)
  {
    var debris, k, at := CutOfText(all, cut, p);
    TrimmingKeepsScreen(Decode(all), k, debris, at, rows, cols);
  }

  /** Trimming never changes the screen the harness sees: for every stream of bytes that decodes to an
      escape-clean text and every chunking of it, if one complete clear lies in the part the sink kept
      (for one, anywhere in the last two MiB), the sink renders as the whole stream does. */
  lemma SinkRendersWholeStream(chunks: seq<seq<Byte>>, p: nat, rows: nat, cols: nat)
    requires EscapeClean(Decode(Concat(chunks))) && ClearsAtByte(Concat(chunks), p)
    requires p >= |Concat(chunks)| - |Absorbed([], chunks)| || p + 2 * 1024 * 1024 >= |Concat(chunks)|
    ensures Render(Decode(Absorbed([], chunks)), rows, cols) == Render(Decode(Concat(chunks)), rows, cols)
  {
    assert IsTailOf([], []);
    SinkIsTail([], [], chunks);
    assert [] + Concat(chunks) == Concat(chunks);
    TailRenders(Absorbed([], chunks), Concat(chunks), p, rows, cols);
  }

  lemma TailRenders(kept: seq<Byte>, all: seq<Byte>, p: nat, rows: nat, cols: nat)
    requires IsTailOf(kept, all) && EscapeClean(Decode(all)) && ClearsAtByte(all, p)
    requires p >= |all| - |kept| || p + 2 * 1024 * 1024 >= |all|
    ensures Render(Decode(kept), rows, cols) == Render(Decode(all), rows, cols)
  {
    ByteCutRenders(all, |all| - |kept|, kept, p, rows, cols);
  }
}
