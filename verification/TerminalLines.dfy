/** Plain text on the rebuilt screen: lines, carriage returns, backspaces, the default parameters, and
    everything that leaves no mark. */
module TerminalLines {
  import opened Text
  import opened Terminal
  import opened TerminalTheorems
  import opened TerminalLaws

  predicate Plain(text: string) { forall k :: 0 <= k < |text| ==> !IsControl(text[k]) }

  // ---------------------------------------------------------------- single characters

  lemma RunOne(c: char, rest: string, st: Screen, next: Screen)
    requires c != ESC && |st.cells| == st.rows && next == Glyph(c, st)
    ensures Run([c] + rest, st) == Run(rest, next)
  {
    RunTyped([c], rest, st);
    assert [c][1..] == [];
  }

  /** The start of the next row, or of the last one. */
  function Below(st: Screen): Screen {
    st.(row := if st.row + 1 < st.rows then st.row + 1 else st.row, col := 0)
  }

  lemma GlyphNewline(st: Screen)
    requires Valid(st) && st.row < st.rows
    ensures Glyph('\n', st) == Below(st)
  {
  }

  /** A newline moves to the start of the next row, and stays in the last one. */
  lemma NewlineMovesDown(rest: string, st: Screen)
    requires Valid(st) && st.row < st.rows
    ensures Run(['\n'] + rest, st) == Run(rest, Below(st))
  {
    GlyphNewline(st);
    RunOne('\n', rest, st, Below(st));
  }

  /** A carriage return moves to the start of the row. */
  lemma ReturnMovesBack(rest: string, st: Screen)
    requires Valid(st)
    ensures Run(['\r'] + rest, st) == Run(rest, st.(col := 0))
  {
    assert Glyph('\r', st) == st.(col := 0);
    RunOne('\r', rest, st, st.(col := 0));
  }

  /** A backspace moves one column to the left, and erases nothing. */
  lemma BackspaceMovesLeft(rest: string, st: Screen)
    requires Valid(st)
    ensures Run(['\U{8}'] + rest, st) == Run(rest, st.(col := if st.col == 0 then 0 else st.col - 1))
  {
    RunOne('\U{8}', rest, st, Glyph('\U{8}', st));
  }

  /** Every other control character is ignored. */
  lemma ControlsAreIgnored(c: char, rest: string, st: Screen)
    requires Valid(st) && IsControl(c) && c != ESC && c != '\n' && c != '\r' && c != '\U{8}'
    ensures Run([c] + rest, st) == Run(rest, st)
  {
    RunOne(c, rest, st, Glyph(c, st));
  }

  /** Below the grid nothing is printed and nothing moves. */
  lemma BelowTheGrid(c: char, rest: string, st: Screen)
    requires Valid(st) && !IsControl(c) && st.row >= st.rows
    ensures Run([c] + rest, st) == Run(rest, st)
  {
    RunOne(c, rest, st, Glyph(c, st));
  }

  /** To the right of the grid nothing is printed, and the cursor comes back to the last column. */
  lemma RightOfTheGrid(c: char, rest: string, st: Screen)
    requires Valid(st) && !IsControl(c) && st.row < st.rows && st.col >= st.cols
    ensures Run([c] + rest, st) == Run(rest, st.(col := st.cols - 1))
  {
    RunOne(c, rest, st, Glyph(c, st));
  }

  // ---------------------------------------------------------------- sequences that leave no mark

  /** A charset designation takes one more character with it. */
  lemma CharsetIsSilent(open: char, designator: char, rest: string, st: Screen)
    requires Valid(st) && (open == '(' || open == ')')
    ensures Run([ESC, open, designator] + rest, st) == Run(rest, st)
  {
    var s := [ESC, open, designator] + rest;
    assert s[..3] == [ESC, open, designator] && s[3..] == rest;
    RunStep(s, st, s[..3], rest);
  }

  /** Any other character after an escape is dropped with it. */
  lemma EscapeDropsOne(c: char, rest: string, st: Screen)
    requires Valid(st) && c != '[' && c != '(' && c != ')'
    ensures Run([ESC, c] + rest, st) == Run(rest, st)
  {
    var s := [ESC, c] + rest;
    assert s[..2] == [ESC, c] && s[2..] == rest;
    RunStep(s, st, s[..2], rest);
  }

  /** None of the characters from `@` to `~`, one of which ends a control sequence. */
  ghost predicate Unfinal(body: string) { forall i :: 0 <= i < |body| ==> !('@' <= body[i] <= '~') }

  /** A control sequence with any other final byte is dropped. */
  lemma OtherFinalIsSilent(body: string, final: char, rest: string, st: Screen)
    requires Valid(st) && Unfinal(body) && '@' <= final <= '~' && final !in "HfABCDJK"
    ensures Run([ESC, '['] + body + [final] + rest, st) == Run(rest, st)
  {
    RunCsi(body, final, rest, st);
    assert forall c :: c in ['H', 'f', 'A', 'B', 'C', 'D', 'J', 'K'] ==> c in "HfABCDJK";
    assert final != 'H' && final != 'f' && final != 'A' && final != 'B';
    assert final != 'C' && final != 'D' && final != 'J' && final != 'K';
  }

  /** A stream that ends inside a control sequence drops what it has of it. */
  lemma UnfinishedIsSilent(body: string, st: Screen)
    requires Valid(st) && Unfinal(body)
    ensures Run([ESC, '['] + body, st) == st && Run([ESC], st) == st
  {
    var s := [ESC, '['] + body;
    assert s[2..] == body;
    assert FinalAt(body) == |body|;
    RunStep(s, st, s, []);
    assert !IsCsi(s) by {
      assert |s| >= 3 ==> s[|s| - 1] == body[|body| - 1];
    }
    RunStep([ESC], st, [ESC], []);
  }

  // ---------------------------------------------------------------- default parameters

  lemma ParamsOfNothing()
    ensures Params("") == []
  {
    assert Split("", ';') == [""];
    assert Numbers([""], USIZE) == [] by { assert [""][1..] == []; }
  }

  /** A question mark in front of the parameters is no part of them. */
  lemma QuestionMarkIsDropped(body: string)
    ensures Params("?" + body) == Params(body)
  {
    assert ("?" + body)[1..] == body;
  }

  lemma RunBare(final: char, rest: string, st: Screen)
    requires Valid(st) && IsFinal(final)
    ensures Run([ESC, '[', final] + rest, st) == Run(rest, Control(final, [], st))
  {
    RunCsi([], final, rest, st);
    ParamsOfNothing();
    assert [ESC, '['] + [] + [final] + rest == [ESC, '[', final] + rest;
  }

  /** Without a parameter an address is the first cell, and a move is by one. */
  lemma BareSequences(rest: string, st: Screen)
    requires Valid(st) && st.row < st.rows && st.col < st.cols
    ensures Run([ESC, '[', 'H'] + rest, st) == Run(rest, st.(row := 0, col := 0))
    ensures Run([ESC, '[', 'f'] + rest, st) == Run(rest, st.(row := 0, col := 0))
    ensures Run([ESC, '[', 'A'] + rest, st) == Run(rest, st.(row := if st.row == 0 then 0 else st.row - 1))
    ensures Run([ESC, '[', 'D'] + rest, st) == Run(rest, st.(col := if st.col == 0 then 0 else st.col - 1))
    ensures Run([ESC, '[', 'B'] + rest, st)
         == Run(rest, st.(row := if st.row + 1 < st.rows then st.row + 1 else st.row))
    ensures Run([ESC, '[', 'C'] + rest, st)
         == Run(rest, st.(col := if st.col + 1 < st.cols then st.col + 1 else st.col))
  {
    BareAddress(st);
    BareMoves(st);
    RunBare('H', rest, st);
    RunBare('f', rest, st);
    RunBare('A', rest, st);
    RunBare('B', rest, st);
    RunBare('C', rest, st);
    RunBare('D', rest, st);
  }

  lemma BareAddress(st: Screen)
    requires Valid(st)
    ensures Control('H', [], st) == Control('f', [], st) == st.(row := 0, col := 0)
  {
  }

  lemma BareMoves(st: Screen)
    requires Valid(st) && st.row < st.rows && st.col < st.cols
    ensures Control('A', [], st) == st.(row := if st.row == 0 then 0 else st.row - 1)
    ensures Control('B', [], st) == st.(row := if st.row + 1 < st.rows then st.row + 1 else st.row)
    ensures Control('C', [], st) == st.(col := if st.col + 1 < st.cols then st.col + 1 else st.col)
    ensures Control('D', [], st) == st.(col := if st.col == 0 then 0 else st.col - 1)
  {
  }

  /** An address with a row only is the first column. */
  lemma RowAddress(row: nat, rest: string, st: Screen)
    requires Valid(st) && row + 1 < USIZE
    ensures Run([ESC, '['] + Decimal(row + 1) + ['H'] + rest, st) == Run(rest, st.(row := row, col := 0))
  {
    ParamsOfPair(row + 1, 0);
    AddressCursor([row + 1], st);
    RunControl([ESC, '['] + Decimal(row + 1) + ['H'], Decimal(row + 1), 'H', [row + 1], rest,
               st, st.(row := row, col := 0));
  }

  /** `f` addresses as `H` does. */
  lemma OtherAddress(t: string, row: nat, col: nat, rest: string, st: Screen)
    requires Valid(st) && row + 1 < USIZE && col + 1 < USIZE && t == [ESC, '['] + AddressBody(row, col) + ['f']
    ensures Run(t + rest, st) == Run(rest, st.(row := row, col := col))
  {
    AddressHasNoFinal(row, col);
    AddressParams(row, col, [row + 1, col + 1]);
    RunOther(t, AddressBody(row, col), [row + 1, col + 1], rest, st, st.(row := row, col := col));
  }

  lemma AddressParams(row: nat, col: nat, nums: seq<nat>)
    requires row + 1 < USIZE && col + 1 < USIZE && nums == [row + 1, col + 1]
    ensures Params(AddressBody(row, col)) == nums
  {
    ParamsOfPair(row + 1, col + 1);
  }

  lemma RunOther(t: string, body: string, nums: seq<nat>, rest: string, st: Screen, next: Screen)
    requires Valid(st) && t == [ESC, '['] + body + ['f'] && nums == Params(body)
    requires |nums| == 2 && nums[0] > 0 && nums[1] > 0 && forall i :: 0 <= i < |body| ==> !IsFinal(body[i])
    requires next == st.(row := nums[0] - 1, col := nums[1] - 1)
    ensures Run(t + rest, st) == Run(rest, next)
  {
    ControlOther(nums, st);
    RunControl(t, body, 'f', nums, rest, st, next);
  }

  lemma ControlOther(nums: seq<nat>, st: Screen)
    requires |st.cells| == st.rows && |nums| == 2 && nums[0] > 0 && nums[1] > 0
    ensures Control('f', nums, st) == st.(row := nums[0] - 1, col := nums[1] - 1)
    ensures ControlFits('f', nums, st, USIZE)
  {
  }

  lemma AddressCursor(nums: seq<nat>, st: Screen)
    requires |st.cells| == st.rows && |nums| == 1 && nums[0] > 0
    ensures Control('H', nums, st) == st.(row := nums[0] - 1, col := 0)
  {
  }

  // ---------------------------------------------------------------- lines

  /** A line of text and how it ends: with a newline, or with a carriage return and a newline. */
  datatype Line = Line(text: string, carriage: bool)

  function Ending(line: Line): string { if line.carriage then "\r\n" else "\n" }

  function Typescript(lines: seq<Line>): string {
    if lines == [] then [] else lines[0].text + (Ending(lines[0]) + Typescript(lines[1..]))
  }

  /** `row` with `text` written over its beginning. */
  function Overlay(row: string, text: string): (r: string)
    requires |text| <= |row|
    ensures |r| == |row|
    ensures forall j :: 0 <= j < |row| ==> r[j] == if j < |text| then text[j] else row[j]
  {
    seq(|row|, j requires 0 <= j < |row| => if j < |text| then text[j] else row[j])
  }

  ghost predicate Fit(lines: seq<Line>, cols: nat) {
    forall i :: 0 <= i < |lines| ==> Plain(lines[i].text) && |lines[i].text| <= cols
  }

  /** The rows after the lines: each goes over the row below the one before it, and those that do not
      fit below the last row go over the last row. */
  function Page(cells: seq<string>, row: nat, lines: seq<Line>, cols: nat): (page: seq<string>)
    requires row < |cells| && (forall i :: 0 <= i < |cells| ==> |cells[i]| == cols) && Fit(lines, cols)
    ensures |page| == |cells| && forall i :: 0 <= i < |page| ==> |page[i]| == cols
    decreases |lines|
  {
    if lines == [] then cells
    else Page(cells[row := Overlay(cells[row], lines[0].text)],
              if row + 1 < |cells| then row + 1 else row, lines[1..], cols)
  }

  lemma TypedRow(text: string, st: Screen)
    requires Valid(st) && st.row < st.rows && st.col == 0 && Plain(text) && |text| <= st.cols
    ensures var next := Typed(text, st);
            && Valid(next) && next.row == st.row
            && next.cells == st.cells[st.row := Overlay(st.cells[st.row], text)]
  {
    TypingReadsBack(text, st);
    var cells, line := Typed(text, st).cells, Overlay(st.cells[st.row], text);
    forall j | 0 <= j < st.cols
      ensures cells[st.row][j] == line[j]
    {
      TypedFromStart(text, st.cols, j, st.cells[st.row][j]);
    }
    SameCells(cells, st.cells, st.row, line, st.cols);
  }

  lemma TypedFromStart(text: string, cols: nat, j: nat, was: char)
    requires |text| <= cols && j < cols
    ensures TypedCell(text, 0, cols, j, was) == if j < |text| then text[j] else was
  {
  }

  /** A grid that differs from another in one row. */
  lemma SameCells(cells: seq<seq<char>>, was: seq<seq<char>>, row: nat, line: string, cols: nat)
    requires |cells| == |was| && row < |was| && |line| == cols
    requires forall i :: 0 <= i < |was| ==> |cells[i]| == |was[i]| == cols
    requires forall j :: 0 <= j < cols ==> cells[row][j] == line[j]
    requires forall i, j :: 0 <= i < |was| && i != row && 0 <= j < cols ==> cells[i][j] == was[i][j]
    ensures cells == was[row := line]
  {
    forall i | 0 <= i < |was|
      ensures cells[i] == was[row := line][i]
    {
      if i == row {
        assert forall j :: 0 <= j < cols ==> cells[i][j] == line[j];
        assert cells[i] == line;
      } else {
        assert forall j :: 0 <= j < cols ==> cells[i][j] == was[i][j];
        assert cells[i] == was[i];
      }
    }
  }

  lemma RunPlain(text: string, rest: string, st: Screen)
    requires Valid(st) && Plain(text)
    ensures Run(text + rest, st) == Run(rest, Typed(text, st))
  {
    assert ESC !in text;
    RunTyped(text, rest, st);
  }

  lemma RunEnding(line: Line, rest: string, st: Screen)
    requires Valid(st) && st.row < st.rows
    ensures Run(Ending(line) + rest, st) == Run(rest, Below(st))
  {
    if line.carriage {
      RunReturnNewline(rest, st, st.(col := 0));
    } else {
      assert "\n" == ['\n'];
      NewlineMovesDown(rest, st);
    }
  }

  lemma RunReturnNewline(rest: string, st: Screen, back: Screen)
    requires Valid(st) && st.row < st.rows && back == st.(col := 0)
    ensures Run("\r\n" + rest, st) == Run(rest, Below(st))
  {
    var tail := ['\n'] + rest;
    assert "\r\n" + rest == ['\r'] + tail;
    ReturnMovesBack(tail, st);
    NewlineMovesDown(rest, back);
    assert Below(back) == Below(st);
  }

  /** Every stream of lines that fit prints them row by row. */
  lemma {:induction false} LinesPrint(lines: seq<Line>, st: Screen)
    requires Valid(st) && st.row < st.rows && st.col == 0 && Fit(lines, st.cols)
    ensures Run(Typescript(lines), st).cells == Page(st.cells, st.row, lines, st.cols)
    decreases |lines|
  {
    if lines != [] {
      var next := RunLine(lines[0], Typescript(lines[1..]), st);
      TailFits(lines, lines[1..], st.cols);
      LinesPrint(lines[1..], next);
    }
  }

  lemma TailFits(lines: seq<Line>, tail: seq<Line>, cols: nat)
    requires Fit(lines, cols) && lines != [] && tail == lines[1..]
    ensures Fit(tail, cols) && Plain(lines[0].text) && |lines[0].text| <= cols
  {
  }

  lemma RunLine(line: Line, more: string, st: Screen) returns (next: Screen)
    requires Valid(st) && st.row < st.rows && st.col == 0 && Plain(line.text) && |line.text| <= st.cols
    ensures Valid(next) && next.rows == st.rows && next.cols == st.cols && next.col == 0
    ensures Run(line.text + (Ending(line) + more), st) == Run(more, next)
    ensures next.row == if st.row + 1 < st.rows then st.row + 1 else st.row
    ensures |st.cells[st.row]| == st.cols
    ensures next.cells == st.cells[st.row := Overlay(st.cells[st.row], line.text)]
  {
    var typed := Typed(line.text, st);
    TypedRow(line.text, st);
    RunPlain(line.text, Ending(line) + more, st);
    RunEnding(line, more, typed);
    next := Below(typed);
  }

  /** A row of the page above the last one: the line that was printed there, if any. */
  lemma {:induction false} PageAbove(cells: seq<string>, row: nat, lines: seq<Line>, cols: nat, i: nat)
    requires row < |cells| && (forall i :: 0 <= i < |cells| ==> |cells[i]| == cols) && Fit(lines, cols)
    requires i + 1 < |cells|
    ensures Page(cells, row, lines, cols)[i]
         == if row <= i < row + |lines| then Overlay(cells[i], lines[i - row].text) else cells[i]
    decreases |lines|
  {
    if lines != [] {
      var next := if row + 1 < |cells| then row + 1 else row;
      PageAbove(cells[row := Overlay(cells[row], lines[0].text)], next, lines[1..], cols, i);
    }
  }

  /** The last row: all the lines that came to it, one over the other. */
  lemma {:induction false} PageLast(cells: seq<string>, row: nat, lines: seq<Line>, cols: nat, last: nat)
    requires row < |cells| && (forall i :: 0 <= i < |cells| ==> |cells[i]| == cols) && Fit(lines, cols)
    requires last == |cells| - 1
    ensures Page(cells, row, lines, cols)[last] == Overlays(cells[last], From(lines, last - row, cols), cols)
    decreases |lines|
  {
    if lines != [] {
      var next := if row + 1 < |cells| then row + 1 else row;
      PageLast(cells[row := Overlay(cells[row], lines[0].text)], next, lines[1..], cols, last);
      FromStep(lines, last - row, cols);
    }
  }

  /** The lines from the k-th on. */
  function From(lines: seq<Line>, k: nat, cols: nat): (rest: seq<Line>)
    requires Fit(lines, cols)
    ensures Fit(rest, cols)
  {
    if k <= |lines| then lines[k..] else []
  }

  lemma FromStep(lines: seq<Line>, k: nat, cols: nat)
    requires Fit(lines, cols) && lines != []
    ensures k > 0 ==> From(lines[1..], k - 1, cols) == From(lines, k, cols)
    ensures From(lines, 0, cols) == lines && From(lines[1..], 0, cols) == lines[1..]
  {
    if 0 < k <= |lines| {
      DropDrop(lines, 1, k - 1);
    }
  }

  function Overlays(row: string, lines: seq<Line>, cols: nat): (r: string)
    requires |row| == cols && Fit(lines, cols)
    ensures |r| == cols
    decreases |lines|
  {
    if lines == [] then row else Overlays(Overlay(row, lines[0].text), lines[1..], cols)
  }

  /** What the harness sees of lines that fit: line `i` in row `i` without its trailing blanks, blank
      rows after the last line, and in the last row every line from there on, one over the other. */
  lemma LinesRender(lines: seq<Line>, rows: nat, cols: nat, i: nat)
    requires rows >= 1 && cols >= 1 && Fit(lines, cols) && i < rows
    ensures var shown := Split(Render(Typescript(lines), rows, cols), '\n');
            && |shown| == rows
            && (i < rows - 1 ==> shown[i] == if i < |lines| then TrimEnd(lines[i].text) else "")
            && (i == rows - 1 ==>
                  shown[i] == TrimEnd(Overlays(Spaces(cols), From(lines, i, cols), cols)))
  {
    LinesShown(lines, rows, cols);
    PageOnBlank(lines, Blank(rows, cols).cells, cols, i);
  }

  lemma PageOnBlank(lines: seq<Line>, cells: seq<string>, cols: nat, i: nat)
    requires Fit(lines, cols) && i < |cells|
    requires forall k :: 0 <= k < |cells| ==> |cells[k]| == cols && cells[k] == Spaces(cols)
    ensures var row := TrimEnd(Page(cells, 0, lines, cols)[i]);
            && (i < |cells| - 1 ==> row == if i < |lines| then TrimEnd(lines[i].text) else "")
            && (i == |cells| - 1 ==>
                  row == TrimEnd(Overlays(Spaces(cols), From(lines, i, cols), cols)))
  {
    if i == |cells| - 1 {
      PageLast(cells, 0, lines, cols, i);
    } else {
      PageAbove(cells, 0, lines, cols, i);
      TrimSpaces(cols);
      if i < |lines| {
        OverlayOnBlank(lines[i].text, cols);
      }
    }
  }

  lemma LinesShown(lines: seq<Line>, rows: nat, cols: nat)
    requires rows >= 1 && cols >= 1 && Fit(lines, cols)
    ensures Split(Render(Typescript(lines), rows, cols), '\n')
         == TrimmedRows(Page(Blank(rows, cols).cells, 0, lines, cols))
  {
    OutputShape(Typescript(lines), rows, cols);
    BlankValid(rows, cols);
    LinesPrint(lines, Blank(rows, cols));
  }

  lemma OverlayOnBlank(text: string, cols: nat)
    requires |text| <= cols
    ensures TrimEnd(Overlay(Spaces(cols), text)) == TrimEnd(text)
  {
    PaddedText(text, cols, Overlay(Spaces(cols), text));
    TrimPadded(text, cols - |text|);
  }

  lemma PaddedText(text: string, cols: nat, row: string)
    requires |text| <= cols == |row|
    requires forall j :: 0 <= j < cols ==> row[j] == if j < |text| then text[j] else ' '
    ensures row == text + Spaces(cols - |text|)
  {
  }

  lemma {:induction false} TrimPadded(text: string, n: nat)
    ensures TrimEnd(text + Spaces(n)) == TrimEnd(text)
  {
    if n == 0 {
      assert text + Spaces(0) == text;
    } else {
      var s := text + Spaces(n);
      assert s[|s| - 1] == ' ' && s[..|s| - 1] == text + Spaces(n - 1);
      TrimPadded(text, n - 1);
    }
  }

  /** As many lines as rows: each is one line of the output, in order. */
  lemma ScreenfulRenders(lines: seq<Line>, cols: nat)
    requires lines != [] && cols >= 1 && Fit(lines, cols)
    ensures var shown := Split(Render(Typescript(lines), |lines|, cols), '\n');
            |shown| == |lines| && forall i :: 0 <= i < |lines| ==> shown[i] == TrimEnd(lines[i].text)
  {
    var n := |lines|;
    var shown := Split(Render(Typescript(lines), n, cols), '\n');
    LinesRender(lines, n, cols, 0);
    forall i | 0 <= i < n
      ensures shown[i] == TrimEnd(lines[i].text)
    {
      LinesRender(lines, n, cols, i);
      if i == n - 1 {
        OneOverlay(lines[i], lines[i..], cols);
      }
    }
  }

  lemma OneOverlay(line: Line, lines: seq<Line>, cols: nat)
    requires lines == [line] && Fit(lines, cols)
    ensures TrimEnd(Overlays(Spaces(cols), lines, cols)) == TrimEnd(line.text)
  {
    assert lines[0] == line && lines[1..] == [];
    OverlayOnBlank(line.text, cols);
  }

  // ---------------------------------------------------------------- going back in a row

  /** After a carriage return the next text overwrites the row from its start. */
  lemma ReturnOverwrites(first: string, second: string, st: Screen)
    requires Valid(st) && st.row < st.rows && st.col == 0
    requires Plain(first) && Plain(second) && |first| <= st.cols && |second| <= st.cols
    ensures Run(first + (['\r'] + second), st).cells
         == st.cells[st.row := Overlay(Overlay(st.cells[st.row], first), second)]
  {
    var typed := Typed(first, st);
    TypedRow(first, st);
    RunPlain(first, ['\r'] + second, st);
    RunAfterReturn(second, typed, typed.(col := 0));
    OverlaidTwice(st.cells, st.row, Overlay(st.cells[st.row], first),
                  Overlay(Overlay(st.cells[st.row], first), second));
  }

  lemma RunAfterReturn(text: string, st: Screen, back: Screen)
    requires Valid(st) && st.row < st.rows && back == st.(col := 0) && Plain(text) && |text| <= st.cols
    ensures Run(['\r'] + text, st).cells == st.cells[st.row := Overlay(st.cells[st.row], text)]
  {
    ReturnMovesBack(text, st);
    RunWholeLine(text, back);
  }

  lemma OverlaidTwice(cells: seq<string>, row: nat, first: string, second: string)
    requires row < |cells|
    ensures cells[row := first][row := second] == cells[row := second]
  {
  }

  lemma RunWholeLine(text: string, st: Screen)
    requires Valid(st) && st.row < st.rows && st.col == 0 && Plain(text) && |text| <= st.cols
    ensures Run(text, st).cells == st.cells[st.row := Overlay(st.cells[st.row], text)]
  {
    RunPlain(text, [], st);
    assert text + [] == text;
    TypedRow(text, st);
  }

  /** After a backspace the next character replaces the one before it, and the row goes on there. */
  lemma BackspaceReplaces(text: string, wrong: char, right: char, st: Screen)
    requires Valid(st) && st.row < st.rows && st.col == 0 && |text| + 1 < st.cols
    requires Plain(text) && !IsControl(wrong) && !IsControl(right)
    ensures Run(text + [wrong] + (['\U{8}'] + [right]), st).cells
         == st.cells[st.row := Overlay(st.cells[st.row], text + [right])]
  {
    var typed := Typed(text + [wrong], st);
    RunPlain(text + [wrong], ['\U{8}'] + [right], st);
    TypedRow(text + [wrong], st);
    TypingReadsBack(text + [wrong], st);
    BackspaceMovesLeft([right], typed);
    var back := typed.(col := |text|);
    RunPlain([right], [], back);
    assert [right] + [] == [right];
    TypingReadsBack([right], back);
    SameCells(Typed([right], back).cells, st.cells, st.row, Overlay(st.cells[st.row], text + [right]), st.cols);
  }
}
