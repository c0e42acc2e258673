/** The screen rebuilder of the harness: an escape-sequence interpreter over a grid of cells. */
module Terminal {
  import opened Text

  /** The machine word of the 64-bit targets. */
  const USIZE: nat := U64

  /** The grid, and a cursor that an address may leave outside of it. */
  datatype Screen = Screen(rows: nat, cols: nat, cells: seq<seq<char>>, row: nat, col: nat)

  ghost predicate Valid(st: Screen) {
    st.rows >= 1 && st.cols >= 1 && ValidCells(st.cells, st.rows, st.cols)
  }

  function Spaces(n: nat): (s: string)
    ensures |s| == n && forall i :: 0 <= i < n ==> s[i] == ' '
  {
    seq(n, _ => ' ')
  }

  function Blank(rows: nat, cols: nat): Screen {
    Screen(rows, cols, seq(rows, _ => Spaces(cols)), 0, 0)
  }

  /** `saturating_sub`. */
  function Monus(a: nat, b: nat): nat { if a <= b then 0 else a - b }

  // ---------------------------------------------------------------- the tokens of a stream

  /** The final byte of a control sequence (section 5.4 of ECMA-48). */
  predicate IsFinal(c: char) { '@' <= c <= '~' }

  function FinalAt(s: string): (k: nat)
    ensures k <= |s| && (k < |s| ==> IsFinal(s[k]))
    ensures forall i :: 0 <= i < k ==> !IsFinal(s[i])
  {
    if s == [] || IsFinal(s[0]) then 0 else 1 + FinalAt(s[1..])
  }

  /** How much of a non-empty stream one turn of the interpreter consumes. */
  function TokenLength(s: string): (n: nat)
    requires s != []
    ensures 1 <= n <= |s|
  {
    if s[0] != ESC || |s| == 1 then 1
    else if s[1] == '[' then Min(3 + FinalAt(s[2..]), |s|)
    else if s[1] == '(' || s[1] == ')' then Min(3, |s|)
    else 2
  }

  predicate IsCsi(t: string) { |t| >= 3 && t[0] == ESC && t[1] == '[' && IsFinal(t[|t| - 1]) }

  predicate IsCharset(t: string) { |t| == 3 && t[0] == ESC && (t[1] == '(' || t[1] == ')') }

  // ---------------------------------------------------------------- what one token does

  function Params(body: string): seq<nat> {
    Numbers(Split(TrimStartChar(body, '?'), ';'), USIZE)
  }

  function Arg(nums: seq<nat>, i: nat): nat { if i < |nums| then nums[i] else 1 }

  function Erased(line: string, col: nat): string {
    line[..Min(col, |line|)] + Spaces(Monus(|line|, col))
  }

  /** Where a control sequence leaves the cursor. */
  function ControlRow(final: char, nums: seq<nat>, st: Screen): nat {
    match final
    case 'H' => Monus(Arg(nums, 0), 1)
    case 'f' => Monus(Arg(nums, 0), 1)
    case 'A' => Monus(st.row, Arg(nums, 0))
    case 'B' => Min(st.row + Arg(nums, 0), Monus(st.rows, 1))
    case 'J' => 0
    case _ => st.row
  }

  function ControlCol(final: char, nums: seq<nat>, st: Screen): nat {
    match final
    case 'H' => Monus(Arg(nums, 1), 1)
    case 'f' => Monus(Arg(nums, 1), 1)
    case 'C' => Min(st.col + Arg(nums, 0), Monus(st.cols, 1))
    case 'D' => Monus(st.col, Arg(nums, 0))
    case 'J' => 0
    case _ => st.col
  }

  /** What a control sequence does to the cells: `J` clears all of them, whatever its parameter,
      and `K` the rest of the cursor's row. */
  function ControlCells(final: char, st: Screen): (cells: seq<seq<char>>)
    requires |st.cells| == st.rows
    ensures |cells| == st.rows
  {
    if final == 'J' then Blank(st.rows, st.cols).cells
    else if final == 'K' && st.row < st.rows then
      st.cells[st.row := Erased(st.cells[st.row], st.col)]
    else st.cells
  }

  function Control(final: char, nums: seq<nat>, st: Screen): Screen
    requires |st.cells| == st.rows
  {
    Screen(st.rows, st.cols, ControlCells(final, st),
           ControlRow(final, nums, st), ControlCol(final, nums, st))
  }

  function Put(cells: seq<seq<char>>, row: nat, col: nat, c: char): (r: seq<seq<char>>)
    ensures |r| == |cells|
  {
    if row < |cells| && col < |cells[row]| then cells[row := cells[row][col := c]] else cells
  }

  function GlyphCells(c: char, st: Screen): (cells: seq<seq<char>>)
    ensures |cells| == |st.cells|
  {
    if IsControl(c) then st.cells else Put(st.cells, st.row, st.col, c)
  }

  function GlyphRow(c: char, st: Screen): nat {
    if c == '\n' then Min(st.row + 1, Monus(st.rows, 1)) else st.row
  }

  /** A full row keeps overwriting its last column: printing never wraps. */
  function GlyphCol(c: char, st: Screen): nat {
    if c == '\r' || c == '\n' then 0
    else if c == '\U{8}' then Monus(st.col, 1)
    else if IsControl(c) || st.row >= st.rows then st.col
    else Min(st.col + 1, Monus(st.cols, 1))
  }

  function Glyph(c: char, st: Screen): Screen {
    Screen(st.rows, st.cols, GlyphCells(c, st), GlyphRow(c, st), GlyphCol(c, st))
  }

  function Apply(t: string, st: Screen): (r: Screen)
    requires t != [] && |st.cells| == st.rows
    ensures r.rows == st.rows && r.cols == st.cols && |r.cells| == r.rows
  {
    if t[0] != ESC then Glyph(t[0], st)
    else if IsCsi(t) then Control(t[|t| - 1], Params(t[2..|t| - 1]), st)
    else st
  }

  function Run(s: string, st: Screen): (r: Screen)
    requires |st.cells| == st.rows
    ensures r.rows == st.rows && r.cols == st.cols && |r.cells| == r.rows
    decreases |s|
  {
    if s == [] then st
    else var n := TokenLength(s); Run(s[n..], Apply(s[..n], st))
  }

  function TrimmedRows(cells: seq<seq<char>>): (lines: seq<string>)
    ensures |lines| == |cells|
    ensures forall i :: 0 <= i < |cells| ==> lines[i] == TrimEnd(cells[i])
  {
    seq(|cells|, i requires 0 <= i < |cells| => TrimEnd(cells[i]))
  }

  function Show(st: Screen): string
    requires |st.cells| >= 1
  {
    Join(TrimmedRows(st.cells), '\n')
  }

  /** What the harness sees: the stream rendered on a blank grid of at least one cell. */
  function Render(raw: string, rows: nat, cols: nat): string {
    Show(Run(raw, Blank(Max(rows, 1), Max(cols, 1))))
  }

  // ---------------------------------------------------------------- shape

  ghost predicate ValidCells(cells: seq<seq<char>>, rows: nat, cols: nat) {
    && |cells| == rows
    && (forall i :: 0 <= i < rows ==> |cells[i]| == cols)
    && (forall i, j :: 0 <= i < rows && 0 <= j < cols ==> !IsControl(cells[i][j]))
  }

  lemma ControlCellsValid(final: char, st: Screen)
    requires ValidCells(st.cells, st.rows, st.cols)
    ensures ValidCells(ControlCells(final, st), st.rows, st.cols)
  {
  }

  lemma GlyphCellsValid(c: char, st: Screen)
    requires ValidCells(st.cells, st.rows, st.cols)
    ensures ValidCells(GlyphCells(c, st), st.rows, st.cols)
  {
  }

  lemma ApplyValid(t: string, st: Screen)
    requires t != [] && Valid(st)
    ensures Valid(Apply(t, st))
  {
    if t[0] != ESC {
      GlyphCellsValid(t[0], st);
    } else if IsCsi(t) {
      ControlCellsValid(t[|t| - 1], st);
    }
  }

  lemma {:induction false} RunValid(s: string, st: Screen)
    requires Valid(st)
    ensures Valid(Run(s, st))
    decreases |s|
  {
    if s != [] {
      var n := TokenLength(s);
      ApplyValid(s[..n], st);
      RunValid(s[n..], Apply(s[..n], st));
    }
  }

  /** For every stream the output is exactly `max(rows, 1)` lines of at most `max(cols, 1)`
      characters: splitting it on newlines gives back the trimmed grid rows. */
  lemma OutputShape(raw: string, rows: nat, cols: nat)
    ensures var lines := Split(Render(raw, rows, cols), '\n');
            && |lines| == Max(rows, 1)
            && (forall i :: 0 <= i < |lines| ==> |lines[i]| <= Max(cols, 1))
            && lines == TrimmedRows(Run(raw, Blank(Max(rows, 1), Max(cols, 1))).cells)
  {
    var start := Blank(Max(rows, 1), Max(cols, 1));
    RunValid(raw, start);
    var end := Run(raw, start);
    var lines := TrimmedRows(end.cells);
    forall i | 0 <= i < |lines|
      ensures '\n' !in lines[i]
    {
      assert forall j :: 0 <= j < |lines[i]| ==> lines[i][j] == end.cells[i][j];
    }
    SplitJoin(lines, '\n');
  }

  // ---------------------------------------------------------------- machine arithmetic

  predicate ControlFits(final: char, nums: seq<nat>, st: Screen, limit: nat) {
    && (final == 'B' ==> st.row + Arg(nums, 0) < limit)
    && (final == 'C' ==> st.col + Arg(nums, 0) < limit)
  }

  /** The additions this token performs stay below `limit`; every other operation saturates. */
  predicate Fits(t: string, st: Screen, limit: nat)
    requires t != []
  {
    if t[0] == '\n' then st.row + 1 < limit
    else if t[0] != ESC then
      t[0] == '\r' || t[0] == '\U{8}' || IsControl(t[0]) || st.row >= st.rows || st.col + 1 < limit
    else IsCsi(t) ==> ControlFits(t[|t| - 1], Params(t[2..|t| - 1]), st, limit)
  }

  /** The same run on a machine word of `limit` values, where an overflowing addition panics. */
  function Checked(s: string, st: Screen, limit: nat): Option<Screen>
    requires |st.cells| == st.rows
    decreases |s|
  {
    if s == [] then Some(st)
    else
      var n := TokenLength(s);
      if !Fits(s[..n], st, limit) then None else Checked(s[n..], Apply(s[..n], st), limit)
  }

  predicate AllBelow(nums: seq<nat>, bound: nat) { forall i :: 0 <= i < |nums| ==> nums[i] < bound }

  predicate TokenBelow(t: string, bound: nat) {
    IsCsi(t) ==> AllBelow(Params(t[2..|t| - 1]), bound)
  }

  /** Every number in every control sequence of the stream is below `bound`. */
  predicate ParamsBelow(s: string, bound: nat)
    decreases |s|
  {
    s == [] ||
    var n := TokenLength(s);
    && TokenBelow(s[..n], bound)
    && ParamsBelow(s[n..], bound)
  }

  lemma {:induction false} CheckedAgrees(s: string, st: Screen, limit: nat)
    requires |st.cells| == st.rows
    ensures Checked(s, st, limit).Some? ==> Checked(s, st, limit).value == Run(s, st)
    decreases |s|
  {
    if s != [] {
      var n := TokenLength(s);
      CheckedAgrees(s[n..], Apply(s[..n], st), limit);
    }
  }

  lemma CheckedStep(s: string, st: Screen, limit: nat, token: string, rest: string)
    requires |st.cells| == st.rows && s != []
    requires token == s[..TokenLength(s)] && rest == s[TokenLength(s)..]
    ensures Checked(s, st, limit)
         == if Fits(token, st, limit) then Checked(rest, Apply(token, st), limit) else None
  {
  }

  predicate CursorBelow(st: Screen, bound: nat) {
    st.rows <= bound && st.cols <= bound && st.row < bound && st.col < bound
  }

  lemma ControlBounded(final: char, nums: seq<nat>, st: Screen, bound: nat)
    requires |st.cells| == st.rows && CursorBelow(st, bound) && AllBelow(nums, bound) && bound >= 2
    ensures CursorBelow(Control(final, nums, st), bound) && ControlFits(final, nums, st, 2 * bound)
  {
  }

  lemma GlyphBounded(c: char, st: Screen, bound: nat)
    requires CursorBelow(st, bound) && bound >= 2
    ensures CursorBelow(Glyph(c, st), bound)
  {
  }

  lemma TokenBounded(t: string, st: Screen, bound: nat)
    requires t != [] && |st.cells| == st.rows && CursorBelow(st, bound) && bound >= 2
    requires TokenBelow(t, bound)
    ensures Fits(t, st, 2 * bound) && CursorBelow(Apply(t, st), bound)
  {
    if t[0] != ESC {
      GlyphBounded(t[0], st, bound);
    } else if IsCsi(t) {
      ControlBounded(t[|t| - 1], Params(t[2..|t| - 1]), st, bound);
    }
  }

  /** With the dimensions and every parameter below `bound`, no sum reaches `2 * bound`. */
  lemma {:induction false} SumsBounded(s: string, st: Screen, bound: nat)
    requires bound >= 2 && |st.cells| == st.rows && CursorBelow(st, bound) && ParamsBelow(s, bound)
    ensures Checked(s, st, 2 * bound).Some?
    decreases |s|
  {
    if s != [] {
      var n := TokenLength(s);
      TokenBounded(s[..n], st, bound);
      SumsBounded(s[n..], Apply(s[..n], st), bound);
      CheckedStep(s, st, 2 * bound, s[..n], s[n..]);
    }
  }

  /** The real bound: below 2^31 every cursor sum stays below 2^32, so a run on the 64-bit (or
      even a 32-bit) machine never overflows and computes the unbounded result. */
  lemma RenderNeverOverflows(raw: string, rows: nat, cols: nat, limit: nat)
    requires rows < 0x8000_0000 && cols < 0x8000_0000 && ParamsBelow(raw, 0x8000_0000)
    requires limit >= 0x1_0000_0000
    ensures var start := Blank(Max(rows, 1), Max(cols, 1));
            Checked(raw, start, limit) == Some(Run(raw, start))
  {
    var start := Blank(Max(rows, 1), Max(cols, 1));
    SumsBounded(raw, start, 0x8000_0000);
    CheckedWider(raw, start, 0x1_0000_0000, limit);
    CheckedAgrees(raw, start, limit);
  }

  lemma {:induction false} CheckedWider(s: string, st: Screen, narrow: nat, wide: nat)
    requires |st.cells| == st.rows && narrow <= wide && Checked(s, st, narrow).Some?
    ensures Checked(s, st, wide).Some?
    decreases |s|
  {
    if s != [] {
      var n := TokenLength(s);
      CheckedWider(s[n..], Apply(s[..n], st), narrow, wide);
    }
  }
}
