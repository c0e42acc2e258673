/** The golden-symbol check of the foreign interface: which identifiers a generated file declares, and
    what a passing check says about them. */
module Surface {
  import opened Text

  predicate IsIdentChar(c: char) { IsAlphabetic(c) || IsDigit(c) || c == '_' }

  predicate IsIdentifier(s: string) { forall i :: 0 <= i < |s| ==> IsIdentChar(s[i]) }

  const NEEDLE := "uniffi_arreo_core_ffi_fn_"

  const FUNCTION := "_fn_func_"

  /** The first position from `at` on that is not part of an identifier, or the end. */
  function IdentEnd(text: string, at: nat): (e: nat)
    requires at <= |text|
    ensures at <= e <= |text|
    decreases |text| - at
  {
    if at == |text| || !IsIdentChar(text[at]) then at else IdentEnd(text, at + 1)
  }

  lemma {:induction false} IdentEndIsMaximal(text: string, at: nat)
    requires at <= |text|
    ensures forall i :: at <= i < IdentEnd(text, at) ==> IsIdentChar(text[i])
    ensures IdentEnd(text, at) < |text| ==> !IsIdentChar(text[IdentEnd(text, at)])
    decreases |text| - at
  {
    if at < |text| && IsIdentChar(text[at]) {
      IdentEndIsMaximal(text, at + 1);
    }
  }

  datatype Span = Span(start: nat, end: nat)

  /** The tokens of the scan: from each needle to the end of the identifier it begins, then on. */
  function Spans(text: string, needle: string, from: nat): seq<Span>
    requires needle != "" && IsIdentifier(needle)
    decreases |text| - from
  {
    match FindFrom(text, needle, from)
    case None => []
    case Some(p) =>
      var end := IdentEnd(text, p);
      NeedleInside(text, needle, p);
      [Span(p, end)] + Spans(text, needle, end)
  }

  /** An occurrence of an identifier never reaches past the end of the identifier around it. */
  lemma NeedleInside(text: string, needle: string, p: nat)
    requires IsIdentifier(needle) && OccursAt(text, needle, p)
    ensures p + |needle| <= IdentEnd(text, p)
  {
    OccursAtChars(text, needle, p);
    assert forall j :: p <= j < p + |needle| ==> IsIdentChar(text[j]);
    IdentEndIsMaximal(text, p);
  }

  function Token(text: string, s: Span): string
    requires s.start <= s.end <= |text|
  {
    text[s.start..s.end]
  }

  /** A token begins with the needle, is an identifier, and cannot be extended to the right. */
  ghost predicate IsToken(text: string, needle: string, s: Span) {
    && s.start + |needle| <= s.end <= |text| && OccursAt(text, needle, s.start)
    && (forall i :: s.start <= i < s.end ==> IsIdentChar(text[i]))
    && (s.end < |text| ==> !IsIdentChar(text[s.end]))
  }

  ghost predicate Holds(s: Span, needle: string, p: nat) { s.start <= p && p + |needle| <= s.end }

  ghost predicate AllTokens(text: string, needle: string, from: nat, ss: seq<Span>) {
    forall i :: 0 <= i < |ss| ==> IsToken(text, needle, ss[i]) && from <= ss[i].start
  }

  ghost predicate InOrder(ss: seq<Span>) {
    forall i, j :: 0 <= i < j < |ss| ==> ss[i].end <= ss[j].start
  }

  ghost predicate InText(text: string, ss: seq<Span>) {
    forall i :: 0 <= i < |ss| ==> ss[i].start <= ss[i].end <= |text|
  }

  /** Every token of the scan is one, and they follow each other. */
  lemma {:induction false} SpansAreTokens(text: string, needle: string, from: nat)
    requires needle != "" && IsIdentifier(needle)
    ensures AllTokens(text, needle, from, Spans(text, needle, from))
    ensures InOrder(Spans(text, needle, from)) && InText(text, Spans(text, needle, from))
    decreases |text| - from
  {
    var found := FindFrom(text, needle, from);
    if found.Some? {
      var end := IdentEnd(text, found.value);
      NeedleInside(text, needle, found.value);
      IdentEndIsMaximal(text, found.value);
      SpansAreTokens(text, needle, end);
      TokensCons(text, needle, from, Span(found.value, end), Spans(text, needle, end));
    }
  }

  lemma TokensCons(text: string, needle: string, from: nat, s: Span, rest: seq<Span>)
    requires IsToken(text, needle, s) && from <= s.start
    requires AllTokens(text, needle, s.end, rest) && InOrder(rest)
    ensures AllTokens(text, needle, from, [s] + rest) && InOrder([s] + rest) && InText(text, [s] + rest)
  {
    var ss := [s] + rest;
    assert forall i :: 0 < i < |ss| ==> ss[i] == rest[i - 1];
  }

  /** Every occurrence of the needle lies inside a token. */
  lemma {:induction false} NeedleIsInToken(text: string, needle: string, from: nat, p: nat) returns (k: nat)
    requires needle != "" && IsIdentifier(needle) && from <= p && OccursAt(text, needle, p)
    ensures k < |Spans(text, needle, from)| && Holds(Spans(text, needle, from)[k], needle, p)
    decreases |text| - from
  {
    FindFromIsFirst(text, needle, from);
    var first := FindFrom(text, needle, from).value;
    var end := IdentEnd(text, first);
    NeedleInside(text, needle, first);
    var ss := Spans(text, needle, from);
    if end <= p {
      var j := NeedleIsInToken(text, needle, end, p);
      k := j + 1;
      assert ss[k] == Spans(text, needle, end)[j];
    } else {
      k := 0;
      NeedleInside(text, needle, p);
      assert IdentEnd(text, p) <= end by { SameIdentEnd(text, first, p); }
    }
  }

  lemma {:induction false} SameIdentEnd(text: string, at: nat, p: nat)
    requires at <= |text| && at <= p < IdentEnd(text, at)
    ensures IdentEnd(text, p) == IdentEnd(text, at)
    decreases p - at
  {
    if at < p {
      SameIdentEnd(text, at + 1, p);
    }
  }

  /** ... and in no other one. */
  lemma NeedleInOneToken(text: string, needle: string, p: nat, i: nat, j: nat)
    requires needle != "" && IsIdentifier(needle)
    requires i < |Spans(text, needle, 0)| && j < |Spans(text, needle, 0)|
    requires Holds(Spans(text, needle, 0)[i], needle, p) && Holds(Spans(text, needle, 0)[j], needle, p)
    ensures i == j
  {
    SpansAreTokens(text, needle, 0);
  }

  // ---------------------------------------------------------------- the scan

  function Tokens(text: string, spans: seq<Span>): (ts: seq<string>)
    requires InText(text, spans)
    ensures |ts| == |spans| && forall i :: 0 <= i < |ts| ==> ts[i] == Token(text, spans[i])
  {
    seq(|spans|, i requires 0 <= i < |spans| => Token(text, spans[i]))
  }

  lemma NeedleIsIdentifier()
    ensures NEEDLE != "" && IsIdentifier(NEEDLE)
  {
  }

  /** The identifiers the scan collects. */
  function Symbols(text: string): seq<string> {
    NeedleIsIdentifier();
    SpansAreTokens(text, NEEDLE, 0);
    Tokens(text, Spans(text, NEEDLE, 0))
  }

  method GeneratedSymbols(text: string) returns (out: seq<string>)
    ensures out == Symbols(text)
  {
    NeedleIsIdentifier();
    SpansAreTokens(text, NEEDLE, 0);
    out := ScanSymbols(text, NEEDLE);
  }

  /** The rest of the text that is still to scan is `text[at..]`. */
  method ScanSymbols(text: string, needle: string) returns (out: seq<string>)
    requires needle != "" && IsIdentifier(needle) && InText(text, Spans(text, needle, 0))
    ensures out == Tokens(text, Spans(text, needle, 0))
  {
    out := [];
    ghost var spans: seq<Span> := [];
    var at := 0;
    var found := FindFrom(text, needle, at);
    while found.Some?
      invariant at <= |text| && found == FindFrom(text, needle, at)
      invariant spans + Spans(text, needle, at) == Spans(text, needle, 0)
      invariant InText(text, spans) && out == Tokens(text, spans)
      decreases |text| - at
    {
      var p := found.value;
      var end := IdentEnd(text, p);
      SpansStep(text, needle, at, p, end);
      Associative(spans, [Span(p, end)], Spans(text, needle, end));
      TokensSnoc(text, spans, Span(p, end));
      spans := spans + [Span(p, end)];
      out := out + [text[p..end]];
      at := end;
      found := FindFrom(text, needle, at);
    }
    assert spans + [] == spans;
  }

  lemma SpansStep(text: string, needle: string, at: nat, p: nat, e: nat)
    requires needle != "" && IsIdentifier(needle) && FindFrom(text, needle, at) == Some(p)
    requires e == IdentEnd(text, p)
    ensures p < e && Spans(text, needle, at) == [Span(p, e)] + Spans(text, needle, e)
  {
    NeedleInside(text, needle, p);
  }

  lemma TokensSnoc(text: string, spans: seq<Span>, s: Span)
    requires InText(text, spans) && s.start <= s.end <= |text|
    ensures InText(text, spans + [s])
    ensures Tokens(text, spans + [s]) == Tokens(text, spans) + [Token(text, s)]
  {
  }

  // ---------------------------------------------------------------- the check

  /** Missing golden symbols in the list's order; unnamed functions without repetition, and the one a
      sorted list of them begins with. */
  datatype Verdict = Ok | Missing(absent: seq<string>) | Unnamed(extra: set<string>, first: string)

  /** The order of strings: character by character, a prefix first. */
  predicate AtMost(a: string, b: string) {
    a == "" || (b != "" && (a[0] < b[0] || (a[0] == b[0] && AtMost(a[1..], b[1..]))))
  }

  lemma {:induction false} AtMostIsTotal(a: string, b: string)
    ensures AtMost(a, a) && (AtMost(a, b) || AtMost(b, a))
  {
    if a != "" {
      AtMostIsTotal(a[1..], if b != "" then b[1..] else b);
    }
  }

  lemma {:induction false} AtMostIsTransitive(a: string, b: string, c: string)
    requires AtMost(a, b) && AtMost(b, c)
    ensures AtMost(a, c)
  {
    if a != "" && a[0] == b[0] == c[0] {
      AtMostIsTransitive(a[1..], b[1..], c[1..]);
    }
  }

  ghost predicate IsFirst(s: string, among: set<string>) {
    s in among && forall t :: t in among ==> AtMost(s, t)
  }

  method AssertSurface(generated: string, golden: seq<string>) returns (v: Verdict)
    ensures v.Missing? <==> exists i :: 0 <= i < |golden| && !Contains(generated, golden[i])
    ensures v.Missing? ==> v.absent == Absent(generated, golden)
    ensures v.Unnamed? ==> IsFirst(v.first, v.extra)
    ensures v.Unnamed? ==>
              forall s :: s in v.extra <==> s in Symbols(generated) && Contains(s, FUNCTION) && s !in golden
    ensures v.Ok? <==> Passes(generated, golden)
  {
    var missing := AbsentSymbols(generated, golden);
    AbsentExactly(generated, golden);
    if missing != [] {
      assert missing[0] in missing;
      return Missing(missing);
    }
    assert forall i :: 0 <= i < |golden| ==> golden[i] in golden && golden[i] !in missing;
    var symbols := GeneratedSymbols(generated);
    var unnamed, first := UnnamedFunctions(symbols, golden);
    if unnamed != {} {
      return Unnamed(unnamed, first);
    }
    return Ok;
  }

  /** The golden symbols the file does not spell, in the order of the list. */
  function Absent(generated: string, golden: seq<string>): seq<string> {
    if golden == [] then []
    else (if Contains(generated, golden[0]) then [] else [golden[0]]) + Absent(generated, golden[1..])
  }

  lemma {:induction false} AbsentExactly(generated: string, golden: seq<string>)
    ensures forall s :: s in Absent(generated, golden) <==> s in golden && !Contains(generated, s)
  {
    if golden != [] {
      AbsentExactly(generated, golden[1..]);
      assert golden == [golden[0]] + golden[1..];
    }
  }

  method AbsentSymbols(generated: string, golden: seq<string>) returns (missing: seq<string>)
    ensures missing == Absent(generated, golden)
  {
    missing := [];
    for i := 0 to |golden|
      invariant missing + Absent(generated, golden[i..]) == Absent(generated, golden)
    {
      var found := if Contains(generated, golden[i]) then [] else [golden[i]];
      assert golden[i..][1..] == golden[i + 1..];
      Associative(missing, found, Absent(generated, golden[i + 1..]));
      missing := missing + found;
    }
    assert missing + [] == missing;
  }

  method UnnamedFunctions(symbols: seq<string>, golden: seq<string>)
    returns (unnamed: set<string>, first: string)
    ensures forall s :: s in unnamed <==> s in symbols && Contains(s, FUNCTION) && s !in golden
    ensures unnamed != {} ==> IsFirst(first, unnamed)
  {
    unnamed, first := {}, "";
    for i := 0 to |symbols|
      invariant forall s :: s in unnamed <==> s in symbols[..i] && Contains(s, FUNCTION) && s !in golden
      invariant unnamed != {} ==> IsFirst(first, unnamed)
    {
      if Contains(symbols[i], FUNCTION) && symbols[i] !in golden {
        FirstOf(unnamed, first, symbols[i]);
        if unnamed == {} || AtMost(symbols[i], first) {
          first := symbols[i];
        }
        unnamed := unnamed + {symbols[i]};
      }
    }
    assert symbols[..|symbols|] == symbols;
  }

  lemma FirstOf(among: set<string>, first: string, s: string)
    requires among != {} ==> IsFirst(first, among)
    ensures IsFirst(if among == {} || AtMost(s, first) then s else first, among + {s})
  {
    AtMostIsTotal(s, first);
    forall t | t in among && AtMost(s, first)
      ensures AtMost(s, t)
    {
      AtMostIsTransitive(s, first, t);
    }
  }

  ghost predicate Passes(generated: string, golden: seq<string>) {
    && (forall i :: 0 <= i < |golden| ==> Contains(generated, golden[i]))
    && (forall s :: s in Symbols(generated) && Contains(s, FUNCTION) ==> s in golden)
  }

  lemma ContainsTransfers(token: string, symbol: string, at: nat, part: string)
    requires OccursAt(token, symbol, at) && Contains(symbol, part)
    ensures Contains(token, part)
  {
    FindIsFirst(symbol, part);
    var q := Find(symbol, part).value;
    assert token[at + q..at + q + |part|] == token[at..at + |symbol|][q..q + |part|] == symbol[q..q + |part|];
    FindIsFirst(token, part);
    assert OccursAt(token, part, at + q);
  }

  /** No symbol of the list spells the needle again after its start. */
  ghost predicate NeedleOnce(golden: seq<string>) {
    forall h, q :: h in golden && OccursAt(h, NEEDLE, q) ==> q == 0
  }

  /** What a passing check means for one golden function: it is spelled inside a generated token that
      the golden list names; where the list spells the needle only at the start of its symbols, the
      function is that token itself or a proper prefix of it. */
  lemma GoldenFunctionIsGenerated(generated: string, golden: seq<string>, g: string)
    returns (token: string, at: nat)
    requires Passes(generated, golden) && g in golden
    requires IsIdentifier(g) && StartsWith(g, NEEDLE) && Contains(g, FUNCTION)
    ensures token in Symbols(generated) && token in golden && OccursAt(token, g, at)
    ensures NeedleOnce(golden) ==> token == g || (|g| < |token| && token[..|g|] == g)
  {
    NeedleIsIdentifier();
    FindIsFirst(generated, g);
    assert Contains(generated, g);
    var p := Find(generated, g).value;
    NeedleOfSymbol(generated, g, p);
    var k := NeedleIsInToken(generated, NEEDLE, 0, p);
    SpansAreTokens(generated, NEEDLE, 0);
    var s := Spans(generated, NEEDLE, 0)[k];
    token, at := Symbols(generated)[k], p - s.start;
    SymbolInToken(generated, g, p, s);
    ContainsTransfers(token, g, at, FUNCTION);
    NeedleOfSymbol(token, g, at);
    assert at == 0 ==> token[0..|g|] == g;
  }

  lemma WholeToken(text: string)
    requires IsIdentifier(text) && StartsWith(text, NEEDLE)
    ensures Symbols(text) == [text]
  {
    NeedleIsIdentifier();
    FindIs(text, NEEDLE, 0, 0);
    IdentEndIsMaximal(text, 0);
    SpansStep(text, NEEDLE, 0, 0, |text|);
    assert Spans(text, NEEDLE, |text|) == [];
    assert text[0..|text|] == text;
  }

  lemma Spelled(head: string, g: string)
    ensures Contains(head + g, g)
  {
    assert (head + g)[|head|..|head| + |g|] == g;
    FindIsFirst(head + g, g);
    assert OccursAt(head + g, g, |head|);
  }

  /** Where the list does spell the needle inside a symbol, a golden function may be missing: for every
      such function `g` and every `pad` that keeps it from being a prefix, a file with one longer
      symbol passes, and `g` is neither generated nor a prefix of what is. */
  lemma HiddenGoldenFunction(pad: string, g: string)
    requires IsIdentifier(g) && StartsWith(g, NEEDLE) && IsIdentifier(pad)
    requires var long := NEEDLE + pad + g; long[..|g|] != g
    ensures var long := NEEDLE + pad + g;
            && Passes(long, [g, long]) && !NeedleOnce([g, long])
            && Symbols(long) == [long] && g != long && long[..|g|] != g
  {
    NeedleIsIdentifier();
    HiddenAfter(NEEDLE + pad, g, NEEDLE + pad + g);
  }

  lemma HiddenAfter(head: string, g: string, long: string)
    requires IsIdentifier(g) && StartsWith(g, NEEDLE) && IsIdentifier(head) && StartsWith(head, NEEDLE)
    requires long == head + g && head != [] && long[..|g|] != g
    ensures Passes(long, [g, long]) && !NeedleOnce([g, long]) && Symbols(long) == [long] && g != long
  {
    assert long[0..|NEEDLE|] == head[0..|NEEDLE|];
    WholeToken(long);
    OneTokenPasses(head, g, long);
    assert OccursAt(long, g, |head|);
    NeedleOfSymbol(long, g, |head|);
    NeedleTwice(g, long, |head|);
  }

  lemma OneTokenPasses(head: string, g: string, long: string)
    requires long == head + g && Symbols(long) == [long]
    ensures Passes(long, [g, long])
  {
    Spelled(head, g);
    Spelled("", long);
    assert "" + long == long;
  }

  lemma NeedleTwice(g: string, long: string, q: nat)
    requires q > 0 && OccursAt(long, NEEDLE, q)
    ensures !NeedleOnce([g, long])
  {
    assert long in [g, long];
  }

  lemma NeedleOfSymbol(text: string, g: string, p: nat)
    requires OccursAt(text, g, p) && StartsWith(g, NEEDLE)
    ensures OccursAt(text, NEEDLE, p)
  {
    assert text[p..p + |NEEDLE|] == text[p..p + |g|][0..|NEEDLE|] == g[0..|NEEDLE|];
  }

  /** An identifier that starts in a token ends in it. */
  lemma SymbolInToken(text: string, g: string, p: nat, s: Span)
    requires IsToken(text, NEEDLE, s) && IsIdentifier(g) && OccursAt(text, g, p) && s.start <= p < s.end
    ensures p + |g| <= s.end && OccursAt(Token(text, s), g, p - s.start)
  {
    OccursAtChars(text, g, p);
    assert forall j :: p <= j < p + |g| ==> IsIdentChar(text[j]);
    assert s.end < |text| ==> !(p <= s.end < p + |g|);
    SliceSlice(text, s.start, s.end, p - s.start, p - s.start + |g|);
  }

  // ---------------------------------------------------------------- spelled out

  /** The order of the report: by the first character that differs, and a prefix before what it begins. */
  lemma {:induction false} AtMostIsLexical(p: string, x: char, a: string, y: char, b: string)
    requires x < y
    ensures AtMost(p + ([x] + a), p + ([y] + b)) && !AtMost(p + ([y] + b), p + ([x] + a))
    ensures AtMost(p, p + ([x] + a)) && !AtMost(p + ([x] + a), p)
  {
    if p == [] {
      assert p + ([x] + a) == [x] + a && p + ([y] + b) == [y] + b;
    } else {
      AtMostIsLexical(p[1..], x, a, y, b);
      assert (p + ([x] + a))[1..] == p[1..] + ([x] + a) && (p + ([y] + b))[1..] == p[1..] + ([y] + b);
    }
  }

  /** Text without a symbol, and the name of the symbol after it. */
  datatype Declaration = Declaration(text: string, name: string)

  function Declared(needle: string, ds: seq<Declaration>, tail: string): string {
    if ds == [] then tail
    else ds[0].text + (needle + (ds[0].name + Declared(needle, ds[1..], tail)))
  }

  function Names(needle: string, ds: seq<Declaration>): seq<string> {
    if ds == [] then [] else [needle + ds[0].name] + Names(needle, ds[1..])
  }

  ghost predicate Without(s: string, needle: string) { forall q: nat :: !OccursAt(s, needle, q) }

  /** A letter, a digit or an underscore. */
  predicate NameChar(c: char) { 'a' <= c <= 'z' || 'A' <= c <= 'Z' || '0' <= c <= '9' || c == '_' }

  /** What follows a name ends it. */
  ghost predicate Separates(s: string) { s != [] && !NameChar(s[0]) }

  ghost predicate Declarable(needle: string, ds: seq<Declaration>, tail: string) {
    && Without(tail, needle) && (tail == [] || Separates(tail))
    && (forall i :: 0 <= i < |ds| ==>
          Without(ds[i].text, needle) && forall k :: 0 <= k < |ds[i].name| ==> NameChar(ds[i].name[k]))
    && forall i :: 0 < i < |ds| ==> Separates(ds[i].text)
  }

  /** An identifier whose first character does not come again in it. */
  ghost predicate Sharp(needle: string) {
    needle != "" && IsIdentifier(needle) && forall i :: 0 < i < |needle| ==> needle[i] != needle[0]
  }

  /** Text without a needle followed by one: the first occurrence is where it begins. */
  lemma FirstAfterText(text: string, needle: string, rest: string, all: string)
    requires Sharp(needle) && Without(text, needle) && all == text + (needle + rest)
    ensures OccursAt(all, needle, |text|) && forall q: nat :: q < |text| ==> !OccursAt(all, needle, q)
  {
    assert all[|text|..|text| + |needle|] == needle;
    assert all[|text|] == needle[0];
    forall q: nat | q < |text|
      ensures !OccursAt(all, needle, q)
    {
      if OccursAt(all, needle, q) {
        OccursAtChars(all, needle, q);
        if q + |needle| <= |text| {
          SlicesAgree(all, q, text, q, |needle|);
          assert OccursAt(text, needle, q);
        }
      }
    }
  }

  /** Where the scan that resumes after `before` finds the next symbol. */
  lemma FindNext(before: string, text: string, needle: string, rest: string, all: string)
    requires Sharp(needle) && Without(text, needle) && all == before + (text + (needle + rest))
    ensures FindFrom(all, needle, |before|) == Some(|before| + |text|)
  {
    var behind := text + (needle + rest);
    FirstAfterText(text, needle, rest, behind);
    OccursAtShift(before, behind, needle, |text|);
    forall q | |before| <= q < |before| + |text|
      ensures !OccursAt(all, needle, q)
    {
      OccursAtShift(before, behind, needle, q - |before|);
    }
    FindIs(all, needle, |before|, |before| + |text|);
  }

  lemma FindNoMore(before: string, needle: string, tail: string, all: string)
    requires Without(tail, needle) && all == before + tail
    ensures FindFrom(all, needle, |before|) == None
  {
    if FindFrom(all, needle, |before|).Some? {
      OccursAtShift(before, tail, needle, FindFrom(all, needle, |before|).value - |before|);
    }
  }

  lemma {:induction false} IdentEndIs(text: string, at: nat, end: nat)
    requires at <= end <= |text| && (forall i :: at <= i < end ==> IsIdentChar(text[i]))
    requires end < |text| ==> !IsIdentChar(text[end])
    ensures IdentEnd(text, at) == end
    decreases end - at
  {
    if at < end {
      IdentEndIs(text, at + 1, end);
    }
  }

  /** A symbol runs to the character that ends its name. */
  lemma SymbolEnds(start: string, symbol: string, rest: string, all: string)
    requires IsIdentifier(symbol) && (rest == [] || Separates(rest)) && all == start + symbol + rest
    ensures IdentEnd(all, |start|) == |start| + |symbol|
    ensures all[|start|..|start| + |symbol|] == symbol
  {
    forall i | |start| <= i < |start| + |symbol|
      ensures IsIdentChar(all[i])
    {
      assert all[i] == symbol[i - |start|];
    }
    IdentEndIs(all, |start|, |start| + |symbol|);
  }

  /** One turn of the scan over a declaration. */
  lemma TakeSymbol(needle: string, from: nat, start: string, symbol: string, more: string, all: string, next: string)
    requires Sharp(needle) && IsIdentifier(symbol) && (more == [] || Separates(more))
    requires next == start + symbol && all == next + more && FindFrom(all, needle, from) == Some(|start|)
    ensures |start| < |next| <= |all| && Token(all, Span(|start|, |next|)) == symbol
    ensures Spans(all, needle, from) == [Span(|start|, |next|)] + Spans(all, needle, |next|)
  {
    SymbolEnds(start, symbol, more, all);
    SpansStep(all, needle, from, |start|, |next|);
  }

  lemma RestSeparates(needle: string, ds: seq<Declaration>, tail: string)
    requires ds != [] && Declarable(needle, ds, tail)
    ensures Declarable(needle, ds[1..], tail)
    ensures Declared(needle, ds[1..], tail) == [] || Separates(Declared(needle, ds[1..], tail))
  {
    if |ds| > 1 {
      assert Separates(ds[1].text) && Declared(needle, ds[1..], tail)[0] == ds[1].text[0];
    }
  }

  lemma Regroup(before: string, text: string, needle: string, name: string, more: string)
    ensures before + (text + (needle + (name + more))) == before + text + (needle + name) + more
  {
    Associative(needle, name, more);
    Associative(before + text, needle + name, more);
    Associative(before, text, needle + name + more);
  }

  lemma TokensFirst(text: string, s: Span, rest: seq<Span>)
    requires s.start <= s.end <= |text| && InText(text, rest)
    ensures InText(text, [s] + rest) && Tokens(text, [s] + rest) == [Token(text, s)] + Tokens(text, rest)
  {
  }

  lemma {:induction false} ScanInvertsDeclaring(needle: string, before: string, ds: seq<Declaration>,
                                                tail: string, all: string)
    requires Sharp(needle) && Declarable(needle, ds, tail) && all == before + Declared(needle, ds, tail)
    ensures InText(all, Spans(all, needle, |before|))
    ensures Tokens(all, Spans(all, needle, |before|)) == Names(needle, ds)
    decreases |ds|
  {
    SpansAreTokens(all, needle, |before|);
    if ds == [] {
      FindNoMore(before, needle, tail, all);
    } else {
      var d, more := ds[0], Declared(needle, ds[1..], tail);
      var start, symbol := before + d.text, needle + d.name;
      RestSeparates(needle, ds, tail);
      FindNext(before, d.text, needle, d.name + more, all);
      Regroup(before, d.text, needle, d.name, more);
      TakeSymbol(needle, |before|, start, symbol, more, all, start + symbol);
      ScanInvertsDeclaring(needle, start + symbol, ds[1..], tail, all);
      TokensFirst(all, Span(|start|, |start + symbol|), Spans(all, needle, |start + symbol|));
    }
  }

  lemma NeedleIsSharp()
    ensures NEEDLE == "uniffi_arreo_core_ffi_fn_" && Sharp(NEEDLE)
  {
    NeedleIsIdentifier();
  }

  /** The scan inverts writing: of a file of declarations and other text it returns exactly the declared
      symbols, in order. */
  lemma DeclaredSymbols(ds: seq<Declaration>, tail: string)
    requires Declarable("uniffi_arreo_core_ffi_fn_", ds, tail)
    ensures Symbols(Declared("uniffi_arreo_core_ffi_fn_", ds, tail)) == Names("uniffi_arreo_core_ffi_fn_", ds)
  {
    NeedleIsSharp();
    var text := Declared(NEEDLE, ds, tail);
    EmptyPrefix(text);
    ScanInvertsDeclaring(NEEDLE, [], ds, tail, text);
  }
}
