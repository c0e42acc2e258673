/** Extracting the targets of markdown links, and why that inverts writing them. */
module Links {
  import opened Text

  const OPEN := "]("

  const MARK := "]: "

  /** How far the target runs: to the parenthesis that closes it, or to the end of the text. */
  function TargetEnd(s: string, depth: nat): (e: nat)
    ensures e <= |s|
  {
    if s == [] || (s[0] == ')' && depth == 0) then 0
    else if s[0] == '(' then 1 + TargetEnd(s[1..], depth + 1)
    else if s[0] == ')' then 1 + TargetEnd(s[1..], depth - 1)
    else 1 + TargetEnd(s[1..], depth)
  }

  function Clean(target: string): string { TrimChar(Trim(target), '"') }

  /** The inline links of one line. */
  function InlineLinks(rest: string): seq<string>
    decreases |rest|
  {
    match Find(rest, OPEN)
    case None => []
    case Some(at) =>
      var after := rest[at + 2..];
      var end := TargetEnd(after, 0);
      [Clean(after[..end])] + InlineLinks(after[end..])
  }

  /** The target of a line that has the mark in front of `text`. */
  function Reference(line: string, text: string): seq<string> {
    if StartsWith(TrimStart(line), "[") && Trim(text) != [] then [Clean(text)] else []
  }

  /** The reference definition of one line, if it is one. */
  function ReferenceLinks(line: string): seq<string> {
    match Find(line, MARK)
    case None => []
    case Some(colon) => Reference(line, line[colon + 3..])
  }

  function LineLinks(line: string): seq<string> { InlineLinks(line) + ReferenceLinks(line) }

  function LinksOf(lines: seq<string>): seq<string> {
    if lines == [] then [] else LineLinks(lines[0]) + LinksOf(lines[1..])
  }

  // ---------------------------------------------------------------- the loops

  /** The depth counter never underflows: a closing parenthesis at depth zero ends the loop. */
  method ScanTarget(after: string) returns (end: nat)
    ensures end == TargetEnd(after, 0)
  {
    var depth: nat := 0;
    end := |after|;
    for index := 0 to |after|
      invariant end == |after| && TargetEnd(after, 0) == index + TargetEnd(after[index..], depth)
    {
      assert after[index..][1..] == after[index + 1..];
      if after[index] == '(' {
        depth := depth + 1;
      } else if after[index] == ')' && depth == 0 {
        return index;
      } else if after[index] == ')' {
        depth := depth - 1;
      }
    }
  }

  lemma InlineUnrolls(rest: string, after: string, end: nat)
    requires Find(rest, OPEN).Some? && after == rest[Find(rest, OPEN).value + 2..]
    requires end == TargetEnd(after, 0)
    ensures InlineLinks(rest) == [Clean(after[..end])] + InlineLinks(after[end..])
  {
  }

  method ScanInline(line: string) returns (links: seq<string>)
    ensures links == InlineLinks(line)
  {
    links := [];
    var rest := line;
    var at := Find(rest, OPEN);
    while at.Some?
      invariant at == Find(rest, OPEN)
      invariant links + InlineLinks(rest) == InlineLinks(line)
      decreases |rest|
    {
      var after := rest[at.value + 2..];
      var end := ScanTarget(after);
      var link := Clean(after[..end]);
      InlineUnrolls(rest, after, end);
      Associative(links, [link], InlineLinks(after[end..]));
      links := links + [link];
      rest := after[end..];
      at := Find(rest, OPEN);
    }
    assert links + [] == links;
  }

  method MarkdownLinks(text: string) returns (links: seq<string>)
    ensures links == LinksOf(Lines(text))
  {
    links := [];
    var lines := Lines(text);
    for i := 0 to |lines|
      invariant links + LinksOf(lines[i..]) == LinksOf(lines)
    {
      var inline := ScanInline(lines[i]);
      var found := inline + ReferenceLinks(lines[i]);
      assert lines[i..][1..] == lines[i + 1..];
      Associative(links, found, LinksOf(lines[i + 1..]));
      links := links + found;
    }
  }

  // ---------------------------------------------------------------- writing links

  /** The text up to a link's closing bracket, and its target. */
  datatype Link = Link(text: string, target: string)

  function Written(links: seq<Link>, tail: string): string {
    if links == [] then tail
    else links[0].text + OPEN + (links[0].target + (")" + Written(links[1..], tail)))
  }

  function Targets(links: seq<Link>): seq<string> {
    if links == [] then [] else [Clean(links[0].target)] + Targets(links[1..])
  }

  /** The depth after `s`, or `None` when a parenthesis closes that was not open. */
  function Balance(s: string, depth: nat): Option<nat> {
    if s == [] then Some(depth)
    else if s[0] == '(' then Balance(s[1..], depth + 1)
    else if s[0] == ')' then if depth == 0 then None else Balance(s[1..], depth - 1)
    else Balance(s[1..], depth)
  }

  predicate Balanced(s: string) { Balance(s, 0) == Some(0) }

  lemma {:induction false} TargetEndSkips(t: string, depth: nat, rest: string)
    requires Balance(t, depth).Some?
    ensures TargetEnd(t + rest, depth) == |t| + TargetEnd(rest, Balance(t, depth).value)
  {
    if t == [] {
      assert t + rest == rest;
    } else {
      assert (t + rest)[1..] == t[1..] + rest;
      TargetEndSkips(t[1..],
                     if t[0] == '(' then depth + 1 else if t[0] == ')' then depth - 1 else depth, rest);
    }
  }

  ghost predicate Free(s: string, needle: string) { forall p: nat :: !OccursAt(s, needle, p) }

  lemma FindAtEnd(text: string, rest: string)
    requires Free(text, OPEN)
    ensures Find(text + OPEN + rest, OPEN) == Some(|text|)
  {
    var s := text + OPEN + rest;
    assert s[|text|..|text| + 2] == OPEN;
    forall q: nat | q < |text|
      ensures !OccursAt(s, OPEN, q)
    {
      assert !OccursAt(text, OPEN, q);
      assert q + 2 <= |text| ==> s[q..q + 2] == text[q..q + 2];
      assert q + 2 > |text| ==> s[q..q + 2][1] == ']';
    }
    FindIs(s, OPEN, 0, |text|);
  }

  lemma FreeAfterParenthesis(text: string)
    requires Free(text, OPEN)
    ensures Free(")" + text, OPEN)
  {
    var s := ")" + text;
    forall q: nat
      ensures !OccursAt(s, OPEN, q)
    {
      if q == 0 {
        assert |s| >= 2 ==> s[0..2][0] == ')';
      } else {
        OccursAtShift(")", text, OPEN, q - 1);
      }
    }
  }

  lemma InlineStep(text: string, target: string, rest: string)
    requires Free(text, OPEN) && Balanced(target)
    ensures InlineLinks(text + OPEN + (target + (")" + rest))) == [Clean(target)] + InlineLinks(")" + rest)
  {
    var after := target + (")" + rest);
    var s := text + OPEN + after;
    FindAtEnd(text, after);
    ConcatDrop(text + OPEN, after, 0);
    TargetEndSkips(target, 0, ")" + rest);
    InlineUnrolls(s, after, |target|);
    ConcatDrop(target, ")" + rest, 0);
    assert after[..|target|] == target;
  }

  lemma InlineTail(tail: string)
    requires Free(tail, OPEN)
    ensures InlineLinks(tail) == []
  {
  }

  ghost predicate Writable(links: seq<Link>, tail: string) {
    && Free(tail, OPEN)
    && forall i :: 0 <= i < |links| ==> Free(links[i].text, OPEN) && Balanced(links[i].target)
  }

  lemma WrittenCons(links: seq<Link>, tail: string, before: string, found: seq<string>)
    requires links != [] && Free(before + links[0].text, OPEN) && Balanced(links[0].target)
    requires InlineLinks(")" + Written(links[1..], tail)) == found
    ensures InlineLinks(before + Written(links, tail)) == [Clean(links[0].target)] + found
  {
    var first, rest := links[0], Written(links[1..], tail);
    var after := first.target + (")" + rest);
    InlineStep(before + first.text, first.target, rest);
    Associative(before, first.text + OPEN, after);
    Associative(before, first.text, OPEN);
  }

  /** Link extraction inverts link writing: for text free of the link opener and targets balanced to
      any depth, the scan returns exactly the cleaned targets, in order. */
  lemma {:induction false} InlineInvertsWriting(links: seq<Link>, tail: string)
    requires Writable(links, tail)
    ensures InlineLinks("" + Written(links, tail)) == Targets(links)
    ensures InlineLinks(")" + Written(links, tail)) == Targets(links)
    decreases |links|
  {
    if links == [] {
      FreeAfterParenthesis(tail);
      assert "" + tail == tail;
      InlineTail(tail);
      InlineTail(")" + tail);
    } else {
      InlineInvertsWriting(links[1..], tail);
      FreeAfterParenthesis(links[0].text);
      assert "" + links[0].text == links[0].text;
      WrittenCons(links, tail, "", Targets(links[1..]));
      WrittenCons(links, tail, ")", Targets(links[1..]));
    }
  }

  // ---------------------------------------------------------------- reference definitions

  ghost predicate OpensAt(line: string, i: nat) { i < |line| && line[i] == '[' && AllBlank(line[..i]) }

  /** The first character that is not blank is an opening bracket. */
  ghost predicate Bracketed(line: string) { exists i: nat :: OpensAt(line, i) }

  ghost predicate MarkedAt(line: string, k: nat) { OccursAt(line, MARK, k) && !AllBlank(line[k + 3..]) }

  /** The mark occurs, and something that is not blank comes after it. */
  ghost predicate MarksText(line: string) { exists k: nat :: MarkedAt(line, k) }

  /** A line the scanner takes for a reference definition. */
  ghost predicate Definition(line: string) { Bracketed(line) && MarksText(line) }

  lemma {:induction false} TrimStartSkipsBlanks(s: string) returns (i: nat)
    ensures i <= |s| && TrimStart(s) == s[i..] && AllBlank(s[..i]) && (i < |s| ==> !IsWhitespace(s[i]))
  {
    i := 0;
    if s != [] && IsWhitespace(s[0]) {
      i := TrimStartSkipsBlanks(s[1..]);
      DropDrop(s, 1, i);
      BlankCons(s, i);
      i := i + 1;
    }
  }

  lemma BlankCons(s: string, i: nat)
    requires i + 1 <= |s| && IsWhitespace(s[0]) && AllBlank(s[1..][..i])
    ensures AllBlank(s[..i + 1])
  {
    var blank := s[..i + 1];
    forall j | 0 <= j < |blank|
      ensures IsWhitespace(blank[j])
    {
      if j > 0 {
        assert blank[j] == s[1..][..i][j - 1];
      }
    }
  }

  lemma {:induction false} TrimEndKeepsText(s: string)
    ensures TrimEnd(s) == [] <==> AllBlank(s)
  {
    if s != [] && IsWhitespace(s[|s| - 1]) {
      TrimEndKeepsText(s[..|s| - 1]);
    }
  }

  lemma TrimKeepsText(s: string)
    ensures Trim(s) == [] <==> AllBlank(s)
  {
    var i := TrimStartSkipsBlanks(s);
    TrimEndKeepsText(s[i..]);
    if i < |s| {
      assert s[i..][0] == s[i];
    } else {
      assert s[..i] == s;
    }
  }

  lemma BracketedStarts(line: string)
    ensures StartsWith(TrimStart(line), "[") <==> Bracketed(line)
  {
    var i := TrimStartSkipsBlanks(line);
    var rest := line[i..];
    assert |rest| >= 1 ==> rest[0..1] == [rest[0]] && rest[0] == line[i];
    assert StartsWith(rest, "[") <==> i < |line| && line[i] == '[';
    assert i < |line| && line[i] == '[' ==> OpensAt(line, i);
    if Bracketed(line) {
      var k: nat :| OpensAt(line, k);
      SameFirst(line, i, k);
    }
  }

  /** A line has only one first character that is not blank. */
  lemma SameFirst(line: string, i: nat, k: nat)
    requires i <= |line| && k < |line| && AllBlank(line[..i]) && AllBlank(line[..k])
    requires !IsWhitespace(line[k]) && (i < |line| ==> !IsWhitespace(line[i]))
    ensures i == k
  {
    assert forall j :: 0 <= j < i ==> line[j] == line[..i][j];
    assert forall j :: 0 <= j < k ==> line[j] == line[..k][j];
  }

  /** Text after some occurrence of the mark is text after its first. */
  lemma FirstMarkDecides(line: string)
    ensures match Find(line, MARK)
            case None => !MarksText(line)
            case Some(k) => k + 3 <= |line| && (MarksText(line) <==> !AllBlank(line[k + 3..]))
  {
    FindIsFirst(line, MARK);
    assert Find(line, MARK).Some? && !AllBlank(line[Find(line, MARK).value + 3..]) ==>
        MarkedAt(line, Find(line, MARK).value);
    if MarksText(line) {
      var k: nat :| MarkedAt(line, k);
      var i :| 0 <= i < |line[k + 3..]| && !IsWhitespace(line[k + 3..][i]);
      var first := Find(line, MARK).value;
      assert line[first + 3..][k - first + i] == line[k + 3 + i];
    }
  }

  /** Exactly the definitions yield a reference link, and they yield one. */
  lemma ReferenceExactly(line: string)
    ensures |ReferenceLinks(line)| == if Definition(line) then 1 else 0
  {
    BracketedStarts(line);
    FirstMarkDecides(line);
    if Find(line, MARK).Some? {
      TrimKeepsText(line[Find(line, MARK).value + 3..]);
    }
  }

  /** A line of links returns its targets and nothing else if and only if it does not look like a
      reference definition: a bracket first, the mark, and text after it. */
  lemma LineInvertsWriting(links: seq<Link>, tail: string)
    requires Writable(links, tail)
    ensures LineLinks(Written(links, tail)) == Targets(links) <==> !Definition(Written(links, tail))
    ensures |LineLinks(Written(links, tail))|
         == |Targets(links)| + if Definition(Written(links, tail)) then 1 else 0
  {
    InlineInvertsWriting(links, tail);
    assert "" + Written(links, tail) == Written(links, tail);
    ReferenceExactly(Written(links, tail));
    if !Definition(Written(links, tail)) {
      assert ReferenceLinks(Written(links, tail)) == [];
    }
  }

  // ---------------------------------------------------------------- no accidental definitions

  lemma FreeConcat(a: string, b: string)
    requires Free(a, MARK) && Free(b, MARK)
    requires a == "" || b == "" || (b[0] != ':' && b[0] != ' ') || (a[|a| - 1] != ']' && a[|a| - 1] != ':')
    ensures Free(a + b, MARK)
  {
    var s := a + b;
    forall q: nat
      ensures !OccursAt(s, MARK, q)
    {
      if q + 3 <= |a| {
        assert s[q..q + 3] == a[q..q + 3];
        assert !OccursAt(a, MARK, q);
      } else if q >= |a| {
        OccursAtShift(a, b, MARK, q - |a|);
      } else if q + 3 <= |s| {
        assert s[q..q + 3] == [s[q], s[q + 1], s[q + 2]];
      }
    }
  }

  lemma FreeLiteral(s: string)
    requires |s| < 3
    ensures Free(s, MARK)
  {
  }

  /** No text of the line spells the mark; its targets may. */
  ghost predicate UnmarkedText(links: seq<Link>, tail: string) {
    Free(tail, MARK) && forall i :: 0 <= i < |links| ==> Free(links[i].text, MARK)
  }

  ghost predicate UnmarkedTargets(links: seq<Link>) {
    forall i :: 0 <= i < |links| ==> Free(links[i].target, MARK)
  }

  lemma FreeStep(link: Link, rest: string)
    requires Free(link.text, MARK) && Free(link.target, MARK) && Free(")" + rest, MARK)
    ensures Free(link.text + OPEN + (link.target + (")" + rest)), MARK)
  {
    FreeLiteral(OPEN);
    FreeConcat(link.text, OPEN);
    FreeConcat(link.target, ")" + rest);
    FreeConcat(link.text + OPEN, link.target + (")" + rest));
  }

  lemma {:induction false} WrittenIsFree(links: seq<Link>, tail: string)
    requires UnmarkedText(links, tail) && UnmarkedTargets(links)
    ensures Free(Written(links, tail), MARK)
    decreases |links|
  {
    if links != [] {
      WrittenIsFree(links[1..], tail);
      FreeLiteral(")");
      FreeConcat(")", Written(links[1..], tail));
      FreeStep(links[0], Written(links[1..], tail));
    }
  }

  /** Text put in front of a line does not hide a mark in it. */
  lemma MarksTextAfter(head: string, line: string)
    requires MarksText(line)
    ensures MarksText(head + line)
  {
    var k: nat :| MarkedAt(line, k);
    OccursAtShift(head, line, MARK, k);
    ConcatDrop(head, line, k + 3);
    assert MarkedAt(head + line, |head| + k);
  }

  lemma MarkedTarget(target: string, rest: string, k: nat)
    requires OccursAt(target, MARK, k)
    ensures MarksText(target + (")" + rest))
  {
    var s := target + (")" + rest);
    assert s[k..k + 3] == target[k..k + 3];
    assert s[k + 3..][|target| - (k + 3)] == s[|target|] == ')';
    assert MarkedAt(s, k);
  }

  /** A target that spells the mark is followed by its parenthesis, so there is text after it. */
  lemma {:induction false} MarkedTargetMarks(links: seq<Link>, tail: string, i: nat, k: nat)
    requires i < |links| && OccursAt(links[i].target, MARK, k)
    ensures MarksText(Written(links, tail))
    decreases i
  {
    var rest := Written(links[1..], tail);
    var after := links[0].target + (")" + rest);
    if i == 0 {
      MarkedTarget(links[0].target, rest, k);
    } else {
      MarkedTargetMarks(links[1..], tail, i - 1, k);
      MarksTextAfter(")", rest);
      MarksTextAfter(links[0].target, ")" + rest);
    }
    MarksTextAfter(links[0].text + OPEN, after);
  }

  /** The whole line, in terms of what was written: where no text spells the mark, the links of the
      line are exactly its targets if and only if it does not begin with a bracket or no target
      spells the mark. */
  lemma WrittenLineReadsBack(links: seq<Link>, tail: string)
    requires Writable(links, tail) && UnmarkedText(links, tail)
    ensures LineLinks(Written(links, tail)) == Targets(links)
            <==> !Bracketed(Written(links, tail)) || UnmarkedTargets(links)
  {
    LineInvertsWriting(links, tail);
    if UnmarkedTargets(links) {
      WrittenIsFree(links, tail);
    } else {
      var i, k: nat :| 0 <= i < |links| && OccursAt(links[i].target, MARK, k);
      MarkedTargetMarks(links, tail, i, k);
    }
  }

  /** The other shape: `[label]: target` returns the target. */
  lemma ReferenceReadsBack(name: string, target: string)
    requires Free(name, MARK) && Trim(target) != []
    ensures ReferenceLinks("[" + (name + (MARK + target))) == [Clean(target)]
  {
    FreeLiteral("[");
    FreeConcat("[", name);
    Associative("[", name, MARK + target);
    ReferenceAfter("[" + name, target);
  }

  lemma ReferenceAfter(head: string, target: string)
    requires Free(head, MARK) && head != [] && head[0] == '[' && Trim(target) != []
    ensures ReferenceLinks(head + (MARK + target)) == [Clean(target)]
  {
    FindMark(head, target);
    MarkSkipped(head, target);
    ReferenceAt(head + (MARK + target), |head|, target);
  }

  lemma MarkSkipped(head: string, target: string)
    ensures (head + (MARK + target))[|head| + 3..] == target
  {
    ConcatDrop(head, MARK + target, 3);
    ConcatDrop(MARK, target, 0);
  }

  lemma ReferenceAt(line: string, k: nat, target: string)
    requires Find(line, MARK) == Some(k) && k + 3 <= |line| && line[k + 3..] == target
    requires line[0] == '[' && Trim(target) != []
    ensures ReferenceLinks(line) == [Clean(target)]
  {
    BracketFirst(line);
    assert Reference(line, target) == [Clean(target)];
  }

  lemma BracketFirst(line: string)
    requires line != [] && line[0] == '['
    ensures StartsWith(TrimStart(line), "[")
  {
    assert TrimStart(line) == line && line[0..1] == "[";
  }

  lemma FindMark(head: string, target: string)
    requires Free(head, MARK)
    ensures Find(head + (MARK + target), MARK) == Some(|head|)
  {
    var line, k := head + (MARK + target), |head|;
    assert line[k..k + 3] == MARK;
    forall q: nat | q < k
      ensures !OccursAt(line, MARK, q)
    {
      assert !OccursAt(head, MARK, q);
      assert q + 3 <= k ==> line[q..q + 3] == head[q..q + 3];
      assert q + 2 == k ==> line[q..q + 3][2] == ']';
      assert q + 1 == k ==> line[q..q + 3][1] == ']';
    }
    FindIs(line, MARK, 0, k);
  }

  lemma FreeAfterBracket(text: string)
    requires Free(text, OPEN)
    ensures Free("[" + text, OPEN)
  {
    var s := "[" + text;
    forall q: nat
      ensures !OccursAt(s, OPEN, q)
    {
      if q == 0 {
        assert |s| >= 2 ==> s[0..2][0] == '[';
      } else {
        OccursAtShift("[", text, OPEN, q - 1);
      }
    }
  }

  /** A line whose only link has a target that spells the mark. */
  function MarkedLine(text: string, before: string, after: string): string {
    Written([Link("[" + text, before + (MARK + after))], "")
  }

  lemma WrittenOne(text: string, target: string)
    ensures Written([Link(text, target)], "") == text + OPEN + (target + ")")
  {
    var links := [Link(text, target)];
    assert links[1..] == [] && Written([], "") == "";
    assert ")" + Written(links[1..], "") == ")";
  }

  lemma MarkedLineParts(text: string, before: string, after: string)
    ensures MarkedLine(text, before, after) == "[" + ((text + OPEN + before) + (MARK + (after + ")")))
  {
    WrittenOne("[" + text, before + (MARK + after));
    Associative("[", text, OPEN);
    var target := before + (MARK + after);
    assert MarkedLine(text, before, after) == "[" + text + OPEN + (target + ")");
    Associative("[", text + OPEN, target + ")");
    Associative(before, MARK + after, ")");
    Associative(MARK, after, ")");
    Associative(text + OPEN, before, MARK + (after + ")"));
  }

  lemma MarkedLineTargets(text: string, target: string)
    requires Free(text, OPEN) && Balanced(target)
    ensures InlineLinks(Written([Link("[" + text, target)], "")) == [Clean(target)]
  {
    FreeAfterBracket(text);
    OneLinkReadsBack([Link("[" + text, target)], "");
  }

  lemma OneLinkReadsBack(links: seq<Link>, tail: string)
    requires |links| == 1 && Free(links[0].text, OPEN) && Balanced(links[0].target) && Free(tail, OPEN)
    ensures InlineLinks(Written(links, tail)) == [Clean(links[0].target)]
  {
    InlineInvertsWriting(links, tail);
    OneTarget(links);
    EmptyPrefix(Written(links, tail));
  }

  lemma OneTarget(links: seq<Link>)
    requires |links| == 1
    ensures Targets(links) == [Clean(links[0].target)]
  {
    assert links[1..] == [];
  }

  lemma MarkedLineReference(text: string, before: string, after: string)
    requires Free(text, MARK) && Free(before, MARK)
    ensures ReferenceLinks(MarkedLine(text, before, after)) == [Clean(after + ")")]
  {
    FreeLiteral(OPEN);
    FreeConcat(text, OPEN);
    FreeConcat(text + OPEN, before);
    MarkedLineParts(text, before, after);
    ParenthesisIsText(after);
    ReferenceReadsBack(text + OPEN + before, after + ")");
  }

  lemma ParenthesisIsText(after: string)
    ensures Trim(after + ")") != []
  {
    assert (after + ")")[|after|] == ')';
    TrimKeepsText(after + ")");
  }

  lemma OneOfEach(line: string, inline: string, reference: string)
    requires InlineLinks(line) == [inline] && ReferenceLinks(line) == [reference]
    ensures LineLinks(line) == [inline, reference]
  {
  }

  /** Such lines fail for every text and every target of that shape: the rest of the target, with the
      closing parenthesis, is returned as a second link. */
  lemma MarkedTargetAddsLink(text: string, before: string, after: string)
    requires Free(text, OPEN) && Free(text, MARK) && Free(before, MARK)
    requires Balanced(before + (MARK + after))
    ensures LineLinks(MarkedLine(text, before, after))
         == [Clean(before + (MARK + after)), Clean(after + ")")]
  {
    MarkedLineTargets(text, before + (MARK + after));
    MarkedLineReference(text, before, after);
    OneOfEach(MarkedLine(text, before, after), Clean(before + (MARK + after)), Clean(after + ")"));
  }

  // ---------------------------------------------------------------- whole texts

  datatype Line = Line(links: seq<Link>, tail: string)

  function WrittenLine(line: Line): string { Written(line.links, line.tail) }

  /** Every line ends in a newline. */
  function WrittenText(lines: seq<Line>): string {
    if lines == [] then [] else WrittenLine(lines[0]) + "\n" + WrittenText(lines[1..])
  }

  function AllTargets(lines: seq<Line>): seq<string> {
    if lines == [] then [] else Targets(lines[0].links) + AllTargets(lines[1..])
  }

  ghost predicate WritableText(lines: seq<Line>) {
    forall i :: 0 <= i < |lines| ==>
      Writable(lines[i].links, lines[i].tail) && '\n' !in WrittenLine(lines[i])
  }

  /** The lines of the text that look like reference definitions. */
  ghost function Definitions(lines: seq<Line>): nat {
    if lines == [] then 0
    else (if Definition(StripCarriageReturn(WrittenLine(lines[0]))) then 1 else 0) + Definitions(lines[1..])
  }

  /** A carriage return at the end of a written line is the end of its tail. */
  lemma {:induction false} StripWritten(links: seq<Link>, tail: string)
    ensures StripCarriageReturn(Written(links, tail)) == Written(links, StripCarriageReturn(tail))
    decreases |links|
  {
    if links != [] {
      StripWritten(links[1..], tail);
      var rest := Written(links[1..], tail);
      StripAfter(")", rest);
      StripAfter(links[0].target, ")" + rest);
      StripAfter(links[0].text + OPEN, links[0].target + (")" + rest));
    }
  }

  lemma StripAfter(head: string, s: string)
    requires s != [] || head == ")"
    ensures StripCarriageReturn(head + s) == head + StripCarriageReturn(s)
  {
    if s == [] {
      assert head + s == head;
    } else {
      assert (head + s)[|head + s| - 1] == s[|s| - 1];
      assert (head + s)[..|head + s| - 1] == head + s[..|s| - 1];
    }
  }

  lemma StripFree(tail: string)
    requires Free(tail, OPEN)
    ensures Free(StripCarriageReturn(tail), OPEN)
  {
    var s := StripCarriageReturn(tail);
    forall q: nat
      ensures !OccursAt(s, OPEN, q)
    {
      assert !OccursAt(tail, OPEN, q);
      assert q + 2 <= |s| ==> s[q..q + 2] == tail[q..q + 2];
    }
  }

  lemma {:induction false} TextLengths(lines: seq<Line>)
    requires WritableText(lines)
    ensures |LinksOf(Lines(WrittenText(lines)))| == |AllTargets(lines)| + Definitions(lines)
    ensures Definitions(lines) == 0 ==> LinksOf(Lines(WrittenText(lines))) == AllTargets(lines)
    decreases |lines|
  {
    if lines != [] {
      var line, rest := WrittenLine(lines[0]), WrittenText(lines[1..]);
      var found := [StripCarriageReturn(line)] + Lines(rest);
      LinesCons(line, rest);
      assert found[1..] == Lines(rest);
      StripWritten(lines[0].links, lines[0].tail);
      StripFree(lines[0].tail);
      LineInvertsWriting(lines[0].links, StripCarriageReturn(lines[0].tail));
      TextLengths(lines[1..]);
    }
  }

  /** A text of written lines returns the targets of all its lines, in order, and nothing else if and
      only if none of them looks like a reference definition. */
  lemma TextInvertsWriting(lines: seq<Line>)
    requires WritableText(lines)
    ensures LinksOf(Lines(WrittenText(lines))) == AllTargets(lines) <==> Definitions(lines) == 0
  {
    TextLengths(lines);
  }

  // ---------------------------------------------------------------- what a target is cleaned of

  function Repeated(c: char, n: nat): (s: string)
    ensures |s| == n && forall i :: 0 <= i < n ==> s[i] == c
  {
    seq(n, _ => c)
  }

  lemma {:induction false} TrimStartCharSkips(n: nat, c: char, text: string)
    requires text != [] && text[0] != c
    ensures TrimStartChar(Repeated(c, n) + text, c) == text
  {
    if n == 0 {
      assert Repeated(c, 0) + text == text;
    } else {
      var s := Repeated(c, n) + text;
      assert s[0] == c && s[1..] == Repeated(c, n - 1) + text;
      TrimStartCharSkips(n - 1, c, text);
    }
  }

  lemma {:induction false} TrimEndCharSkips(n: nat, c: char, text: string)
    requires text != [] && text[|text| - 1] != c
    ensures TrimEndChar(text + Repeated(c, n), c) == text
  {
    if n == 0 {
      assert text + Repeated(c, 0) == text;
    } else {
      var s := text + Repeated(c, n);
      assert s[|s| - 1] == c && s[..|s| - 1] == text + Repeated(c, n - 1);
      TrimEndCharSkips(n - 1, c, text);
    }
  }

  /** Text with neither a blank nor a quote at its ends. */
  ghost predicate Bare(text: string) {
    && text != [] && !IsWhitespace(text[0]) && !IsWhitespace(text[|text| - 1])
    && text[0] != '"' && text[|text| - 1] != '"'
  }

  /** Cleaning takes the blanks around a target and then the quotes around it, and nothing else. */
  lemma CleanTakesPadding(before: string, m: nat, target: string, n: nat, after: string)
    requires AllBlank(before) && AllBlank(after) && Bare(target)
    ensures Clean(before + (Repeated('"', m) + target + Repeated('"', n) + after)) == target
  {
    var open, close := Repeated('"', m), Repeated('"', n);
    var core := open + target + close;
    assert core[0] == if m > 0 then '"' else target[0];
    assert core[|core| - 1] == if n > 0 then '"' else target[|target| - 1];
    TrimCore(before, core, after);
    Associative(open, target, close);
    assert (target + close)[0] == target[0];
    TrimStartCharSkips(m, '"', target + close);
    TrimEndCharSkips(n, '"', target);
  }

  lemma CleanBare(target: string)
    requires Bare(target)
    ensures Clean(target) == target
  {
    CleanTakesPadding([], 0, target, 0, []);
    assert Repeated('"', 0) == [];
    assert [] + ([] + target + [] + []) == target;
  }

  // ---------------------------------------------------------------- the two shapes, spelled out

  /** One inline link in a line of plain text. */
  lemma InlineShape(text: string, target: string, tail: string)
    requires Free(text, "](") && Free(tail, "](") && Balanced(target) && Bare(target)
    ensures InlineLinks(text + "](" + (target + (")" + tail))) == [target]
  {
    var links := [Link(text, target)];
    assert links[1..] == [] && Written([], tail) == tail;
    assert Written(links, tail) == text + "](" + (target + (")" + tail));
    InlineInvertsWriting(links, tail);
    EmptyPrefix(Written(links, tail));
    CleanBare(target);
    OneTarget(links);
  }

  /** A link that is never closed runs to the end of the line. */
  lemma UnclosedRunsOn(text: string, rest: string)
    requires Free(text, "](") && Balance(rest, 0).Some? && Bare(rest)
    ensures InlineLinks(text + "](" + rest) == [rest]
  {
    var s := text + OPEN + rest;
    FindAtEnd(text, rest);
    ConcatDrop(text + OPEN, rest, 0);
    TargetEndSkips(rest, 0, []);
    assert rest + [] == rest && rest[..|rest|] == rest && rest[|rest|..] == [];
    InlineUnrolls(s, rest, |rest|);
    CleanBare(rest);
    assert InlineLinks([]) == [];
  }

  /** A reference definition, spelled out. */
  lemma ReferenceShape(name: string, target: string)
    requires Free(name, "]: ") && Bare(target)
    ensures ReferenceLinks("[" + (name + ("]: " + target))) == [target]
  {
    CleanBare(target);
    TrimCore([], target, []);
    assert [] + (target + []) == target;
    ReferenceReadsBack(name, target);
  }
}
