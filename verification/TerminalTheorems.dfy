/** What the screen rebuilder promises: losing the start of a stream, and losing its styling, does
    not change the screen, and painted cells read back. */
module TerminalTheorems {
  import opened Text
  import opened Terminal

  /** A token that ends before the stream does keeps its length whatever follows it. */
  lemma TokenIsSelfDelimiting(s: string, rest: string)
    requires s != [] && TokenLength(s) < |s|
    ensures TokenLength(s[..TokenLength(s)] + rest) == TokenLength(s)
  {
    var n := TokenLength(s);
    var t := s[..n] + rest;
    assert t[0] == s[0];
    if s[0] == ESC {
      assert t[1] == s[1];
      if s[1] == '[' {
        var k := FinalAt(s[2..]);
        assert n == 3 + k;
        assert forall i :: 0 <= i <= k ==> t[2..][i] == s[2..][i];
      }
    }
  }

  // ---------------------------------------------------------------- cutting the stream

  /** No escape character inside a token, other than the one that starts it. */
  predicate EscapeClean(s: string)
    decreases |s|
  {
    s == [] || (ESC !in s[1..TokenLength(s)] && EscapeClean(s[TokenLength(s)..]))
  }

  /** One complete `CSI ... J` starts at `p`. */
  predicate ClearsAt(s: string, p: nat) {
    && p + 2 < |s| && s[p] == ESC && s[p + 1] == '['
    && var k := FinalAt(s[p + 2..]); p + 2 + k < |s| && s[p + 2 + k] == 'J'
  }

  /** The interpreter comes to read exactly `v`: it is a suffix of the stream, and a token starts
      there. */
  predicate Reaches(s: string, v: string)
    decreases |s|
  {
    s == v || (s != [] && Reaches(s[TokenLength(s)..], v))
  }

  lemma ReachesStep(s: string, v: string, rest: string)
    requires s != [] && rest == s[TokenLength(s)..] && Reaches(rest, v)
    ensures Reaches(s, v)
  {
  }

  lemma RunStep(s: string, st: Screen, token: string, rest: string)
    requires s != [] && |st.cells| == st.rows
    requires token == s[..TokenLength(s)] && rest == s[TokenLength(s)..]
    ensures Run(s, st) == Run(rest, Apply(token, st))
  {
  }

  ghost predicate SameSize(a: Screen, b: Screen) {
    |a.cells| == a.rows == b.rows == |b.cells| && a.cols == b.cols
  }

  /** A run goes on from every point it reaches, on some screen. */
  lemma {:induction false} RunFrom(s: string, v: string, st: Screen) returns (mid: Screen)
    requires Reaches(s, v) && |st.cells| == st.rows
    ensures SameSize(st, mid) && Run(s, st) == Run(v, mid)
    decreases |s|
  {
    if s == v {
      mid := st;
    } else {
      var n := TokenLength(s);
      RunStep(s, st, s[..n], s[n..]);
      mid := RunFrom(s[n..], v, Apply(s[..n], st));
    }
  }

  /** A clear forgets the screen it acts on. */
  lemma ClearForgets(s: string, st: Screen)
    requires ClearsAt(s, 0) && |st.cells| == st.rows
    ensures Apply(s[..TokenLength(s)], st) == Blank(st.rows, st.cols)
  {
    ClearToken(s);
    ControlsUsed(Params(s[2..TokenLength(s) - 1]), st);
    assert s[..TokenLength(s)][2..TokenLength(s) - 1] == s[2..TokenLength(s) - 1];
  }

  lemma ClearToken(s: string)
    requires ClearsAt(s, 0)
    ensures var t := s[..TokenLength(s)]; IsCsi(t) && t[|t| - 1] == 'J'
  {
    var n := TokenLength(s);
    assert s[..n][n - 1] == 'J';
  }

  lemma RunClear(s: string, a: Screen, b: Screen)
    requires ClearsAt(s, 0) && SameSize(a, b)
    ensures Run(s, a) == Run(s, b)
  {
    var n := TokenLength(s);
    ClearForgets(s, a);
    ClearForgets(s, b);
    RunStep(s, a, s[..n], s[n..]);
    RunStep(s, b, s[..n], s[n..]);
  }

  /** Two streams that both come to one clear end on the same screen, whatever came before. */
  lemma ClearMerges(s: string, t: string, v: string, a: Screen, b: Screen)
    requires Reaches(s, v) && Reaches(t, v) && ClearsAt(v, 0) && SameSize(a, b)
    ensures Run(s, a) == Run(t, b)
  {
    var x := RunFrom(s, v, a);
    var y := RunFrom(t, v, b);
    RunClear(v, x, y);
  }

  // ---------------------------------------------------------------- where tokens start

  lemma CleanStep(s: string, n: nat, rest: string)
    requires EscapeClean(s) && s != [] && n == TokenLength(s) && rest == s[n..]
    ensures ESC !in s[1..n] && EscapeClean(rest)
  {
  }

  lemma EscapeStartsToken(s: string, p: nat)
    requires EscapeClean(s) && 0 < p < |s| && s[p] == ESC
    ensures TokenLength(s) <= p
  {
    CleanStep(s, TokenLength(s), s[TokenLength(s)..]);
    NotInSlice(ESC, s, 1, TokenLength(s));
  }

  /** In an escape-clean stream every escape starts a token. */
  lemma {:induction false} CleanReaches(s: string, p: nat, v: string)
    requires EscapeClean(s) && p < |s| && s[p] == ESC && v == s[p..]
    ensures Reaches(s, v)
    decreases |s|
  {
    if p > 0 {
      var n := TokenLength(s);
      var rest := s[n..];
      EscapeBeyond(s, n, rest, p);
      CleanReaches(rest, p - n, v);
      ReachesStep(s, v, rest);
    } else {
      assert s[0..] == s;
    }
  }

  /** Characters that start no escape are tokens of their own. */
  lemma {:induction false} TextReaches(text: string, rest: string, v: string)
    requires ESC !in text && Reaches(rest, v)
    ensures Reaches(text + rest, v)
  {
    if text == [] {
      assert text + rest == rest;
    } else {
      var s := text + rest;
      assert s[1..] == text[1..] + rest;
      assert s[0] == text[0];
      TextReaches(text[1..], rest, v);
      ReachesStep(s, v, s[1..]);
    }
  }

  lemma CutText(s: string, cut: nat, n: nat, debris: string)
    requires 0 < cut <= n <= |s| && ESC !in s[1..n] && ESC !in debris
    ensures debris + s[cut..] == (debris + s[cut..n]) + s[n..]
    ensures ESC !in debris + s[cut..n]
  {
    assert s[cut..] == s[cut..n] + s[n..];
    NotInSlice(ESC, s, 1, n);
  }

  lemma CutInsideToken(s: string, cut: nat, debris: string, n: nat, v: string, kept: string)
    requires 0 < cut <= n <= |s| && Reaches(s[n..], v) && ESC !in s[1..n] && ESC !in debris
    requires kept == debris + s[cut..]
    ensures Reaches(kept, v)
  {
    CutText(s, cut, n, debris);
    TextReaches(debris + s[cut..n], s[n..], v);
  }

  lemma CutNothing(s: string, debris: string, v: string, kept: string)
    requires Reaches(s, v) && ESC !in debris && kept == debris + s[0..]
    ensures Reaches(kept, v)
  {
    assert s[0..] == s;
    TextReaches(debris, s, v);
  }

  /** Past the first token of an escape-clean stream, an escape is where it was. */
  lemma EscapeBeyond(s: string, n: nat, rest: string, p: nat)
    requires EscapeClean(s) && 0 < p < |s| && s[p] == ESC && n == TokenLength(s) && rest == s[n..]
    ensures n <= p && EscapeClean(rest) && p - n < |rest| && rest[p - n] == ESC && rest[p - n..] == s[p..]
    ensures ESC !in s[1..n]
  {
    EscapeStartsToken(s, p);
    CleanStep(s, n, rest);
    DropDrop(s, n, p - n);
  }

  /** The cut of an escape-clean stream: drop any prefix, even in the middle of a sequence, and put
      any escape-free debris in its place (such as the replacement character of a character cut in
      half).  Every escape that is kept still starts a token. */
  lemma {:induction false} CutReaches(s: string, cut: nat, debris: string, p: nat, v: string, kept: string)
    requires EscapeClean(s) && cut <= p < |s| && s[p] == ESC && ESC !in debris && v == s[p..]
    requires kept == debris + s[cut..]
    ensures Reaches(kept, v)
    decreases |s|
  {
    if cut == 0 {
      CleanReaches(s, p, v);
      CutNothing(s, debris, v, kept);
    } else {
      var n := TokenLength(s);
      var rest := s[n..];
      EscapeBeyond(s, n, rest, p);
      if n <= cut {
        CutBeyondToken(s, cut, debris, n, rest, kept);
        CutReaches(rest, cut - n, debris, p - n, v, kept);
      } else {
        CleanReaches(rest, p - n, v);
        CutInsideToken(s, cut, debris, n, v, kept);
      }
    }
  }

  lemma CutBeyondToken(s: string, cut: nat, debris: string, n: nat, rest: string, kept: string)
    requires n <= cut <= |s| && rest == s[n..] && kept == debris + s[cut..]
    ensures kept == debris + rest[cut - n..]
  {
    DropDrop(s, n, cut - n);
  }

  // ---------------------------------------------------------------- the cut

  lemma ClearsAtItself(s: string, p: nat)
    requires p <= |s|
    ensures ClearsAt(s, p) <==> ClearsAt(s[p..], 0)
  {
    if p + 2 < |s| {
      DropDrop(s, p, 2);
    }
  }

  /** The cut, for any stream and anything put in the place of what was dropped: if one complete clear
      is kept, and it starts a token of the stream and of what is left of it, the two runs end on the
      same screen. */
  lemma CutMerges(s: string, cut: nat, debris: string, p: nat, a: Screen, b: Screen)
    requires ClearsAt(s, p) && cut <= p && SameSize(a, b)
    requires Reaches(s, s[p..]) && Reaches(debris + s[cut..], s[p..])
    ensures Run(debris + s[cut..], b) == Run(s, a)
  {
    ClearsAtItself(s, p);
    ClearMerges(s, debris + s[cut..], s[p..], a, b);
  }

  /** Trimming an escape-clean stream never changes what is seen of it. */
  lemma TrimmingKeepsScreen(s: string, cut: nat, debris: string, p: nat, rows: nat, cols: nat)
    requires EscapeClean(s) && cut <= p && ClearsAt(s, p) && ESC !in debris
    ensures Render(debris + s[cut..], rows, cols) == Render(s, rows, cols)
  {
    var start := Blank(Max(rows, 1), Max(cols, 1));
    CleanReaches(s, p, s[p..]);
    CutReaches(s, cut, debris, p, s[p..], debris + s[cut..]);
    CutMerges(s, cut, debris, p, start, start);
  }

  // ---------------------------------------------------------------- plain text

  /** Characters that start no escape are consumed one by one. */
  function Typed(text: string, st: Screen): (r: Screen)
    requires |st.cells| == st.rows
    ensures r.rows == st.rows && r.cols == st.cols && |r.cells| == r.rows
  {
    if text == [] then st else Typed(text[1..], Glyph(text[0], st))
  }

  lemma {:induction false} RunTyped(text: string, rest: string, st: Screen)
    requires ESC !in text && |st.cells| == st.rows
    ensures Run(text + rest, st) == Run(rest, Typed(text, st))
  {
    if text == [] {
      assert text + rest == rest;
    } else {
      var s := text + rest;
      assert s[0] == text[0] && TokenLength(s) == 1 && s[1..] == text[1..] + rest;
      RunTyped(text[1..], rest, Glyph(text[0], st));
    }
  }

  // ---------------------------------------------------------------- styling

  const MEANINGFUL := "HfABCDJK"

  /** A complete control sequence that only styles, or a complete charset designation. */
  predicate Styling(t: string) {
    IsCharset(t) || (IsCsi(t) && t[|t| - 1] !in MEANINGFUL)
  }

  function EraseStyling(s: string): string
    decreases |s|
  {
    if s == [] then []
    else
      var n := TokenLength(s);
      (if Styling(s[..n]) then [] else s[..n]) + EraseStyling(s[n..])
  }

  lemma StylingDoesNothing(t: string, st: Screen)
    requires t != [] && Styling(t) && |st.cells| == st.rows
    ensures Apply(t, st) == st
  {
    if IsCsi(t) && t[|t| - 1] !in MEANINGFUL {
      var f := t[|t| - 1];
      assert forall c :: c in ['H', 'f', 'A', 'B', 'C', 'D', 'J', 'K'] ==> c in MEANINGFUL;
      assert f != 'H' && f != 'f' && f != 'A' && f != 'B' && f != 'C' && f != 'D' && f != 'J' && f != 'K';
    }
  }

  lemma KeptTokenFirst(s: string)
    requires s != []
    ensures var n := TokenLength(s);
            && TokenLength(s[..n] + EraseStyling(s[n..])) == n
            && (s[..n] + EraseStyling(s[n..]))[..n] == s[..n]
            && (s[..n] + EraseStyling(s[n..]))[n..] == EraseStyling(s[n..])
  {
    var n := TokenLength(s);
    if n < |s| {
      TokenIsSelfDelimiting(s, EraseStyling(s[n..]));
    } else {
      assert s[..n] + EraseStyling(s[n..]) == s;
    }
  }

  /** Styling is not content: deleting every styling sequence from any stream leaves the run of any
      screen, and so the rendered text, identical. */
  lemma {:induction false} StylingIsNotContent(s: string, st: Screen)
    requires |st.cells| == st.rows
    ensures Run(EraseStyling(s), st) == Run(s, st)
    decreases |s|
  {
    if s != [] {
      var n := TokenLength(s);
      StylingIsNotContent(s[n..], Apply(s[..n], st));
      if Styling(s[..n]) {
        StylingDoesNothing(s[..n], st);
        assert EraseStyling(s) == EraseStyling(s[n..]);
      } else {
        KeptTokenFirst(s);
      }
    }
  }

  /** The erasure is complete: erasing again removes nothing. */
  lemma {:induction false} ErasureIsComplete(s: string)
    ensures EraseStyling(EraseStyling(s)) == EraseStyling(s)
    decreases |s|
  {
    if s != [] {
      var n := TokenLength(s);
      ErasureIsComplete(s[n..]);
      if Styling(s[..n]) {
        assert EraseStyling(s) == EraseStyling(s[n..]);
      } else {
        KeptTokenFirst(s);
      }
    }
  }

  // ---------------------------------------------------------------- painting

  datatype Write = Write(row: nat, col: nat, glyph: char)

  ghost predicate InBounds(w: Write, rows: nat, cols: nat) {
    w.row < rows && w.col < cols && w.row + 1 < USIZE && w.col + 1 < USIZE && !IsControl(w.glyph)
  }

  /** The 1-based cursor address of a cell. */
  function Address(row: nat, col: nat): string {
    [ESC, '['] + AddressBody(row, col) + ['H']
  }

  function AddressBody(row: nat, col: nat): string { Decimal(row + 1) + ";" + Decimal(col + 1) }

  function Painted(writes: seq<Write>): string {
    if writes == [] then []
    else Address(writes[0].row, writes[0].col) + ([writes[0].glyph] + Painted(writes[1..]))
  }

  /** The cell as the last write to it left it. */
  function LastWritten(writes: seq<Write>, row: nat, col: nat, was: char): char {
    if writes == [] then was
    else LastWritten(writes[1..], row, col,
                     if writes[0].row == row && writes[0].col == col then writes[0].glyph else was)
  }

  lemma ParamsOfPair(a: nat, b: nat)
    requires a < USIZE && b < USIZE
    ensures Params(Decimal(a) + ";" + Decimal(b)) == [a, b]
    ensures Params(Decimal(a)) == [a]
  {
    var body := Decimal(a) + ";" + Decimal(b);
    assert IsDigit(Decimal(a)[0]) && body[0] == Decimal(a)[0];
    assert TrimStartChar(body, '?') == body;
    assert ';' !in Decimal(a) && ';' !in Decimal(b);
    SplitCons(Decimal(a), Decimal(b), ';');
    SplitCons(Decimal(b), [], ';');
    ParseDecimal(a, USIZE);
    ParseDecimal(b, USIZE);
    NumbersOne(Decimal(a));
    NumbersOne(Decimal(b));
    assert Split(body, ';') == [Decimal(a), Decimal(b)];
    assert Split(body, ';')[1..] == [Decimal(b)];
  }

  lemma NumbersOne(field: string)
    ensures Numbers([field], USIZE)
         == match ParseUnsigned(field, USIZE) case Some(n) => [n] case None => []
  {
    assert [field][1..] == [];
  }

  /** A sequence with a digits-and-semicolons body is one token. */
  lemma CsiFirst(body: string, final: char, rest: string)
    requires IsFinal(final) && forall i :: 0 <= i < |body| ==> !IsFinal(body[i])
    ensures var s := [ESC, '['] + body + [final] + rest;
            && s != [] && TokenLength(s) == |body| + 3
            && s[..|body| + 3] == [ESC, '['] + body + [final]
            && s[|body| + 3..] == rest
  {
    var s := [ESC, '['] + body + [final] + rest;
    assert s[2..] == body + [final] + rest;
    var k := FinalAt(s[2..]);
    assert forall i :: 0 <= i < |body| ==> s[2..][i] == body[i];
    assert s[2..][|body|] == final;
  }

  lemma RunCsi(body: string, final: char, rest: string, st: Screen)
    requires IsFinal(final) && forall i :: 0 <= i < |body| ==> !IsFinal(body[i])
    requires |st.cells| == st.rows
    ensures Run([ESC, '['] + body + [final] + rest, st)
         == Run(rest, Control(final, Params(body), st))
    ensures Checked([ESC, '['] + body + [final] + rest, st, USIZE)
         == if ControlFits(final, Params(body), st, USIZE)
            then Checked(rest, Control(final, Params(body), st), USIZE) else None
  {
    CsiFirst(body, final, rest);
    var t := [ESC, '['] + body + [final];
    assert t[2..|t| - 1] == body && IsCsi(t);
  }

  lemma RunControl(t: string, body: string, final: char, nums: seq<nat>, rest: string,
                   st: Screen, next: Screen)
    requires IsFinal(final) && forall i :: 0 <= i < |body| ==> !IsFinal(body[i])
    requires |st.cells| == st.rows && t == [ESC, '['] + body + [final] && nums == Params(body)
    requires next == Control(final, nums, st) && ControlFits(final, nums, st, USIZE)
    ensures |next.cells| == next.rows
    ensures Run(t + rest, st) == Run(rest, next)
    ensures Checked(t + rest, st, USIZE) == Checked(rest, next, USIZE)
  {
    RunCsi(body, final, rest, st);
  }

  lemma AddressHasNoFinal(row: nat, col: nat)
    ensures forall i :: 0 <= i < |AddressBody(row, col)| ==> !IsFinal(AddressBody(row, col)[i])
  {
  }

  lemma RunAddress(row: nat, col: nat, rest: string, st: Screen)
    requires row + 1 < USIZE && col + 1 < USIZE && |st.cells| == st.rows
    ensures Run(Address(row, col) + rest, st) == Run(rest, st.(row := row, col := col))
    ensures Checked(Address(row, col) + rest, st, USIZE)
         == Checked(rest, st.(row := row, col := col), USIZE)
  {
    AddressHasNoFinal(row, col);
    ParamsOfPair(row + 1, col + 1);
    ControlAddress([row + 1, col + 1], st);
    RunControl(Address(row, col), AddressBody(row, col), 'H', [row + 1, col + 1], rest,
               st, st.(row := row, col := col));
  }

  lemma ControlAddress(nums: seq<nat>, st: Screen)
    requires |st.cells| == st.rows && |nums| == 2 && nums[0] > 0 && nums[1] > 0
    ensures Control('H', nums, st) == st.(row := nums[0] - 1, col := nums[1] - 1)
    ensures ControlFits('H', nums, st, USIZE)
  {
  }

  lemma {:induction false} RunPainted(writes: seq<Write>, st: Screen)
    requires Valid(st)
    requires forall k :: 0 <= k < |writes| ==> InBounds(writes[k], st.rows, st.cols)
    ensures Valid(Run(Painted(writes), st))
    ensures forall i, j :: 0 <= i < st.rows && 0 <= j < st.cols ==>
              Run(Painted(writes), st).cells[i][j] == LastWritten(writes, i, j, st.cells[i][j])
  {
    RunValid(Painted(writes), st);
    if writes != [] {
      var w := writes[0];
      var at := st.(row := w.row, col := w.col);
      var next := Glyph(w.glyph, at);
      RunWrite(w, Painted(writes[1..]), st, next);
      GlyphCellsValid(w.glyph, at);
      RunPainted(writes[1..], next);
    }
  }

  lemma RunWrite(w: Write, more: string, st: Screen, next: Screen)
    requires |st.cells| == st.rows && InBounds(w, st.rows, st.cols)
    requires next == Glyph(w.glyph, st.(row := w.row, col := w.col))
    ensures Run(Address(w.row, w.col) + ([w.glyph] + more), st) == Run(more, next)
  {
    var at := st.(row := w.row, col := w.col);
    RunAddress(w.row, w.col, [w.glyph] + more, st);
    RunTyped([w.glyph], more, at);
    assert Typed([w.glyph], at) == next;
  }

  /** Cursor-addressed painting reads back exactly: every line of the rendered text is the
      last-write-wins row of the grid, without its trailing whitespace. */
  lemma PaintingReadsBack(writes: seq<Write>, rows: nat, cols: nat)
    requires rows >= 1 && cols >= 1
    requires forall k :: 0 <= k < |writes| ==> InBounds(writes[k], rows, cols)
    ensures var lines := Split(Render(Painted(writes), rows, cols), '\n');
            && |lines| == rows
            && forall i :: 0 <= i < rows ==>
                 lines[i] == TrimEnd(seq(cols, j requires 0 <= j => LastWritten(writes, i, j, ' ')))
  {
    var start := Blank(rows, cols);
    RunPainted(writes, start);
    OutputShape(Painted(writes), rows, cols);
    var cells := Run(Painted(writes), start).cells;
    forall i | 0 <= i < rows
      ensures cells[i] == seq(cols, j requires 0 <= j => LastWritten(writes, i, j, ' '))
    {
    }
  }

  /** The bound on the parameters is needed: an address followed by a downward move overflows the
      machine word exactly when their sum does. */
  lemma DownOverflowsExactly(row: nat, n: nat, rows: nat, cols: nat)
    requires row + 1 < USIZE && n < USIZE && rows >= 1 && cols >= 1
    ensures var s := Address(row, 0) + ([ESC, '['] + Decimal(n) + "B");
            Checked(s, Blank(rows, cols), USIZE).None? <==> row + n >= USIZE
  {
    var down := [ESC, '['] + Decimal(n) + "B";
    var at := Blank(rows, cols).(row := row, col := 0);
    RunAddress(row, 0, down, Blank(rows, cols));
    RunCsi(Decimal(n), 'B', [], at);
    ParamsOfPair(n, 0);
    assert down == [ESC, '['] + Decimal(n) + ['B'] + [];
  }

  /** ... and so does a move to the right. */
  lemma RightOverflowsExactly(col: nat, n: nat, rows: nat, cols: nat)
    requires col + 1 < USIZE && n < USIZE && rows >= 1 && cols >= 1
    ensures var s := Address(0, col) + ([ESC, '['] + Decimal(n) + "C");
            Checked(s, Blank(rows, cols), USIZE).None? <==> col + n >= USIZE
  {
    var right := [ESC, '['] + Decimal(n) + "C";
    var at := Blank(rows, cols).(row := 0, col := col);
    RunAddress(0, col, right, Blank(rows, cols));
    RunCsi(Decimal(n), 'C', [], at);
    ParamsOfPair(n, 0);
    assert right == [ESC, '['] + Decimal(n) + ['C'] + [];
  }

  /** A stream whose second escape is a parameter of its first control sequence. */
  function Unclean(d: char): string { [ESC, '['] + [ESC] + ['['] + [d, 'J'] }

  /** Escape-clean is needed: on every grid an unclean stream prints its tail as text, while its
      suffix, which is one complete clear, leaves the grid blank. */
  lemma CutNeedsCleanTokens(d: char, rows: nat, cols: nat)
    requires IsDigit(d) && rows >= 1 && cols >= 2
    ensures ClearsAt(Unclean(d), 2) && !EscapeClean(Unclean(d))
    ensures Run(Unclean(d), Blank(rows, cols)).cells != Run(Unclean(d)[2..], Blank(rows, cols)).cells
  {
    var s, start := Unclean(d), Blank(rows, cols);
    UncleanClearsAt(d);
    UncleanSuffixClears(d, start);
    BlankValid(rows, cols);
    CsiFirst([ESC], '[', [d, 'J']);
    assert s[1..TokenLength(s)][1] == ESC;
    RunCsi([ESC], '[', [d, 'J'], start);
    ControlsUsed(Params([ESC]), start);
    PrintsTail(d, start);
  }

  lemma ControlsUsed(nums: seq<nat>, st: Screen)
    requires |st.cells| == st.rows
    ensures Control('[', nums, st) == st && Control('J', nums, st) == Blank(st.rows, st.cols)
  {
  }

  lemma BlankValid(rows: nat, cols: nat)
    requires rows >= 1 && cols >= 1
    ensures Valid(Blank(rows, cols))
  {
  }

  lemma UncleanClearsAt(d: char)
    requires IsDigit(d)
    ensures ClearsAt(Unclean(d), 2)
  {
    assert Unclean(d)[4..] == [d, 'J'];
    assert FinalAt([d, 'J']) == 1 by { assert [d, 'J'][1..] == ['J']; }
  }

  lemma UncleanSuffixClears(d: char, st: Screen)
    requires IsDigit(d) && |st.cells| == st.rows
    ensures Run(Unclean(d)[2..], st) == Blank(st.rows, st.cols)
  {
    assert Unclean(d)[2..] == [ESC, '['] + [d] + ['J'] + [];
    RunCsi([d], 'J', [], st);
    ControlsUsed(Params([d]), st);
  }

  lemma PrintsTail(d: char, st: Screen)
    requires IsDigit(d) && Valid(st) && st.row == st.col == 0 && st.cols >= 2
    ensures Run([d, 'J'], st).cells != Blank(st.rows, st.cols).cells
  {
    var one := Glyph(d, st);
    RunTyped([d, 'J'], [], st);
    assert [d, 'J'] + [] == [d, 'J'] && [d, 'J'][1..] == ['J'];
    assert Typed([d, 'J'], st) == Typed(['J'], one);
    assert one.cells[0][0] == d && one.col == 1;
    assert Typed(['J'], one) == Glyph('J', one);
    assert Glyph('J', one).cells[0][0] == d;
    assert Blank(st.rows, st.cols).cells[0][0] == ' ';
  }
}
