/** Laws of the single sequences: relative moves, erasing a row, and typing without wrapping. */
module TerminalLaws {
  import opened Text
  import opened Terminal
  import opened TerminalTheorems

  /** A control sequence with one number. */
  function Sequence(n: nat, final: char): string { [ESC, '['] + Decimal(n) + [final] }

  lemma RunSequence(n: nat, final: char, rest: string, st: Screen)
    requires n < USIZE && IsFinal(final) && |st.cells| == st.rows
    ensures Run(Sequence(n, final) + rest, st) == Run(rest, Control(final, [n], st))
  {
    RunCsi(Decimal(n), final, rest, st);
    ParamsOfPair(n, 0);
  }

  lemma RunLast(n: nat, final: char, st: Screen)
    requires n < USIZE && IsFinal(final) && |st.cells| == st.rows
    ensures Run(Sequence(n, final), st) == Control(final, [n], st)
  {
    RunSequence(n, final, [], st);
    assert Sequence(n, final) + [] == Sequence(n, final);
  }

  /** Moving down and up again by the same number returns to the row exactly when the move stays
      inside the grid or starts in the first row; right and left behave alike. */
  lemma MovesUndo(n: nat, st: Screen)
    requires n < USIZE && Valid(st) && st.row < st.rows && st.col < st.cols
    ensures Run(Sequence(n, 'B') + Sequence(n, 'A'), st) == st <==> st.row == 0 || st.row + n < st.rows
    ensures Run(Sequence(n, 'C') + Sequence(n, 'D'), st) == st <==> st.col == 0 || st.col + n < st.cols
  {
    RunSequence(n, 'B', Sequence(n, 'A'), st);
    RunLast(n, 'A', Control('B', [n], st));
    RunSequence(n, 'C', Sequence(n, 'D'), st);
    RunLast(n, 'D', Control('C', [n], st));
    VerticalMoves([n], st);
    HorizontalMoves([n], st);
  }

  lemma VerticalMoves(nums: seq<nat>, st: Screen)
    requires Valid(st) && |nums| == 1 && st.row < st.rows
    ensures Control('A', nums, Control('B', nums, st))
         == st.(row := Monus(Min(st.row + nums[0], st.rows - 1), nums[0]))
  {
  }

  lemma HorizontalMoves(nums: seq<nat>, st: Screen)
    requires Valid(st) && |nums| == 1 && st.col < st.cols
    ensures Control('D', nums, Control('C', nums, st))
         == st.(col := Monus(Min(st.col + nums[0], st.cols - 1), nums[0]))
  {
  }

  /** Erasing from an address to the end of the line blanks exactly those cells of that row. */
  lemma EraseReadsBack(row: nat, col: nat, n: nat, st: Screen)
    requires row + 1 < USIZE && col + 1 < USIZE && n < USIZE && Valid(st)
    ensures var after := Run(Address(row, col) + Sequence(n, 'K'), st);
            && Valid(after) && after.row == row && after.col == col
            && forall i, j :: 0 <= i < st.rows && 0 <= j < st.cols ==>
                 after.cells[i][j] == if i == row && j >= col then ' ' else st.cells[i][j]
  {
    var at := st.(row := row, col := col);
    RunErase(row, col, n, st);
    ControlCellsValid('K', at);
    EraseCells(at);
  }

  lemma RunErase(row: nat, col: nat, n: nat, st: Screen)
    requires row + 1 < USIZE && col + 1 < USIZE && n < USIZE && |st.cells| == st.rows
    ensures var at := st.(row := row, col := col);
            Run(Address(row, col) + Sequence(n, 'K'), st) == at.(cells := ControlCells('K', at))
  {
    RunAddress(row, col, Sequence(n, 'K'), st);
    RunLast(n, 'K', st.(row := row, col := col));
    EraseMovesNothing([n], st.(row := row, col := col));
  }

  lemma EraseMovesNothing(nums: seq<nat>, st: Screen)
    requires |st.cells| == st.rows
    ensures Control('K', nums, st) == st.(cells := ControlCells('K', st))
  {
  }

  lemma EraseCells(st: Screen)
    requires Valid(st)
    ensures var cells := ControlCells('K', st);
            && |cells| == st.rows && (forall i :: 0 <= i < st.rows ==> |cells[i]| == st.cols)
            && forall i, j :: 0 <= i < st.rows && 0 <= j < st.cols ==>
                 cells[i][j] == if i == st.row && j >= st.col then ' ' else st.cells[i][j]
  {
  }

  /** What typing leaves in column `j` of the cursor's row: the character that landed there, or in
      the last column, which every further character overwrites, the last one typed. */
  function TypedCell(text: string, col: nat, cols: nat, j: nat, was: char): char
    requires col < cols
  {
    if text == [] || j < col then was
    else if j < cols - 1 then if j - col < |text| then text[j - col] else was
    else if col + |text| >= cols then text[|text| - 1] else was
  }

  lemma TypeOne(c: char, st: Screen)
    requires Valid(st) && st.row < st.rows && st.col < st.cols && !IsControl(c)
    ensures var next := Glyph(c, st);
            && Valid(next) && next.row == st.row && next.col == Min(st.col + 1, st.cols - 1)
            && forall i, j :: 0 <= i < st.rows && 0 <= j < st.cols ==>
                 next.cells[i][j] == if i == st.row && j == st.col then c else st.cells[i][j]
  {
    GlyphCellsValid(c, st);
  }

  /** Typing printable text writes it from the cursor on, never leaves the row, and never wraps. */
  lemma {:induction false} TypingReadsBack(text: string, st: Screen)
    requires Valid(st) && st.row < st.rows && st.col < st.cols
    requires forall k :: 0 <= k < |text| ==> !IsControl(text[k])
    ensures var after := Typed(text, st);
            && Valid(after) && after.row == st.row && after.col == Min(st.col + |text|, st.cols - 1)
            && forall i, j :: 0 <= i < st.rows && 0 <= j < st.cols ==>
                 after.cells[i][j] == if i == st.row
                                      then TypedCell(text, st.col, st.cols, j, st.cells[i][j])
                                      else st.cells[i][j]
    decreases |text|
  {
    if text != [] {
      var next := Glyph(text[0], st);
      TypeOne(text[0], st);
      TypingReadsBack(text[1..], next);
      forall j | 0 <= j < st.cols
        ensures TypedCell(text[1..], next.col, st.cols, j, if j == st.col then text[0] else st.cells[st.row][j])
             == TypedCell(text, st.col, st.cols, j, st.cells[st.row][j])
      {
        TypedCellStep(text, st.col, st.cols, j, st.cells[st.row][j]);
      }
    }
  }

  lemma TypedCellStep(text: string, col: nat, cols: nat, j: nat, was: char)
    requires text != [] && col < cols && j < cols
    ensures TypedCell(text[1..], Min(col + 1, cols - 1), cols, j, if j == col then text[0] else was)
         == TypedCell(text, col, cols, j, was)
  {
  }

  /** The whole stream that is printable text is typed. */
  lemma RenderOfText(text: string, rows: nat, cols: nat)
    requires rows >= 1 && cols >= 1 && forall k :: 0 <= k < |text| ==> !IsControl(text[k])
    ensures var lines := Split(Render(text, rows, cols), '\n');
            && |lines| == rows
            && lines[0] == TrimEnd(seq(cols, j requires 0 <= j => TypedCell(text, 0, cols, j, ' ')))
            && forall i :: 0 < i < rows ==> lines[i] == ""
  {
    OutputShape(text, rows, cols);
    TextCells(text, rows, cols);
    TrimSpaces(cols);
  }

  lemma TextCells(text: string, rows: nat, cols: nat)
    requires rows >= 1 && cols >= 1 && forall k :: 0 <= k < |text| ==> !IsControl(text[k])
    ensures var cells := Run(text, Blank(rows, cols)).cells;
            && |cells| == rows && (forall i :: 0 < i < rows ==> cells[i] == Spaces(cols))
            && cells[0] == seq(cols, j requires 0 <= j => TypedCell(text, 0, cols, j, ' '))
  {
    var start := Blank(rows, cols);
    RunTyped(text, [], start);
    assert text + [] == text;
    TypingReadsBack(text, start);
  }

  lemma {:induction false} TrimSpaces(n: nat)
    ensures TrimEnd(Spaces(n)) == ""
  {
    if n > 0 {
      TrimSpaces(n - 1);
      assert Spaces(n)[..n - 1] == Spaces(n - 1);
    }
  }
}
