/** The report of the load benchmark as JSON, and the counter that reads it without a parser. */
module Report {
  import opened Text

  datatype Check = Check(name: string, actual: string, target: string, pass: bool)

  datatype Report = Report(panes: nat, checks: seq<Check>, elapsedMs: nat)

  predicate Failed(r: Report) { exists i :: 0 <= i < |r.checks| && !r.checks[i].pass }

  function Bool(b: bool): string { if b then "true" else "false" }

  function Quoted(text: string): string { "\"" + text + "\"" }

  /** `"key":"value",` */
  function Field(key: string, value: string): string { Quoted(key) + ":" + (Quoted(value) + ",") }

  /** `"key":text`, for text without quotes. */
  function Bare(key: string, text: string): string { Quoted(key) + (":" + text) }

  function CheckJson(c: Check): string {
    "{" + (Field("name", c.name)
           + (Field("actual", c.actual) + (Field("target", c.target) + Bare("pass", Bool(c.pass) + "}"))))
  }

  /** The checks with a comma before every one but the first. */
  function ChecksJson(checks: seq<Check>): string {
    if checks == [] then ""
    else ChecksJson(checks[..|checks| - 1]) + (if |checks| > 1 then "," else "")
         + CheckJson(checks[|checks| - 1])
  }

  function Head(r: Report): string {
    "{" + Bare("panes", Decimal(r.panes) + ",") + Bare("checks", "[")
  }

  function Foot(r: Report): string {
    "]," + (Bare("pass", Bool(!Failed(r)) + ",") + Bare("elapsed_ms", Decimal(r.elapsedMs) + "}"))
  }

  function Json(r: Report): string { Head(r) + ChecksJson(r.checks) + Foot(r) }

  lemma ChecksJsonSnoc(head: string, checks: seq<Check>, i: nat)
    requires i < |checks|
    ensures head + ChecksJson(checks[..i + 1])
         == head + ChecksJson(checks[..i]) + (if i > 0 then "," else "") + CheckJson(checks[i])
  {
    var json, comma := ChecksJson(checks[..i]), if i > 0 then "," else "";
    assert checks[..i + 1][..i] == checks[..i];
    assert ChecksJson(checks[..i + 1]) == json + comma + CheckJson(checks[i]);
    Associative(head, json + comma, CheckJson(checks[i]));
    Associative(head, json, comma);
  }

  method ToJson(r: Report) returns (out: string)
    ensures out == Json(r)
  {
    out := Head(r);
    for i := 0 to |r.checks|
      invariant out == Head(r) + ChecksJson(r.checks[..i])
    {
      ChecksJsonSnoc(Head(r), r.checks, i);
      if i > 0 {
        out := out + ",";
      } else {
        assert out + "" == out;
      }
      out := out + CheckJson(r.checks[i]);
    }
    assert r.checks[..|r.checks|] == r.checks;
    out := out + Foot(r);
  }

  // ---------------------------------------------------------------- counting

  const PASS_NEEDLE := "\"pass\":true}"
  const NAME_NEEDLE := "\"name\""

  function Summary(json: string): string {
    Decimal(|Matches(json, PASS_NEEDLE, 0)|) + "/" + Decimal(|Matches(json, NAME_NEEDLE, 0)|)
    + " budget checks"
  }

  /** The same count by walking the text. */
  function Count(s: string, needle: string): nat
    requires needle != []
    decreases |s|
  {
    if |s| < |needle| then 0
    else if OccursAt(s, needle, 0) then 1 + Count(s[|needle|..], needle)
    else Count(s[1..], needle)
  }

  lemma {:induction false} CountIsMatches(s: string, needle: string, from: nat, rest: string)
    requires needle != [] && from <= |s| && rest == s[from..]
    ensures Count(rest, needle) == |Matches(s, needle, from)|
    decreases |s| - from
  {
    OccursAtRest(s, needle, from, rest);
    if from + |needle| > |s| {
      CountNone(s, needle, from, rest);
    } else if OccursAt(s, needle, from) {
      var next := s[from + |needle|..];
      CountIsMatches(s, needle, from + |needle|, next);
      CountOne(s, needle, from, rest, next);
    } else {
      var next := s[from + 1..];
      CountIsMatches(s, needle, from + 1, next);
      CountPassed(s, needle, from, rest, next);
    }
  }

  lemma CountPassed(s: string, needle: string, from: nat, rest: string, next: string)
    requires needle != [] && from + |needle| <= |s| && !OccursAt(s, needle, from)
    requires rest == s[from..] && next == s[from + 1..] && !OccursAt(rest, needle, 0)
    requires Count(next, needle) == |Matches(s, needle, from + 1)|
    ensures Count(rest, needle) == |Matches(s, needle, from)|
  {
    DropDrop(s, from, 1);
    MatchesStep(s, needle, from);
    CountShort(rest, needle);
  }

  lemma CountNone(s: string, needle: string, from: nat, rest: string)
    requires needle != [] && from <= |s| && rest == s[from..] && from + |needle| > |s|
    ensures Count(rest, needle) == |Matches(s, needle, from)|
  {
    MatchesStep(s, needle, from);
  }

  lemma CountOne(s: string, needle: string, from: nat, rest: string, next: string)
    requires needle != [] && OccursAt(s, needle, from) && OccursAt(rest, needle, 0)
    requires rest == s[from..] && next == s[from + |needle|..]
    requires Count(next, needle) == |Matches(s, needle, from + |needle|)|
    ensures Count(rest, needle) == |Matches(s, needle, from)|
  {
    DropDrop(s, from, |needle|);
    MatchesStep(s, needle, from);
  }

  lemma OccursAtRest(s: string, needle: string, from: nat, rest: string)
    requires from <= |s| && rest == s[from..]
    ensures OccursAt(rest, needle, 0) <==> OccursAt(s, needle, from)
  {
    if from + |needle| <= |s| {
      SliceSlice(s, from, |s|, 0, |needle|);
      assert rest == s[from..|s|];
    }
  }

  lemma MatchesStep(s: string, needle: string, from: nat)
    requires needle != []
    ensures |Matches(s, needle, from)|
         == if from + |needle| > |s| then 0
            else if OccursAt(s, needle, from) then 1 + |Matches(s, needle, from + |needle|)|
            else |Matches(s, needle, from + 1)|
  {
  }

  lemma {:induction false} CountSkips(plain: string, rest: string, needle: string)
    requires needle != [] && needle[0] == '"' && '"' !in plain
    ensures Count(plain + rest, needle) == Count(rest, needle)
  {
    var s := plain + rest;
    if plain == [] {
      assert s == rest;
    } else if |s| >= |needle| {
      assert s[0] == plain[0] && s[0..|needle|][0] == s[0];
      assert s[1..] == plain[1..] + rest;
      CountSkips(plain[1..], rest, needle);
    }
  }

  /** A quoted string and the text up to the next quote. */
  datatype Part = Part(quoted: string, plain: string)

  function PartsText(parts: seq<Part>): string {
    if parts == [] then "" else Quoted(parts[0].quoted) + (parts[0].plain + PartsText(parts[1..]))
  }

  ghost predicate QuoteFree(p: Part) { '"' !in p.quoted && '"' !in p.plain }

  predicate Hit(p: Part, word: string, tail: string) { p.quoted == word && StartsWith(p.plain, tail) }

  function Hits(parts: seq<Part>, word: string, tail: string): nat {
    if parts == [] then 0
    else (if Hit(parts[0], word, tail) then 1 else 0) + Hits(parts[1..], word, tail)
  }

  function Needle(word: string, tail: string): (n: string)
    ensures n != [] && n[0] == '"'
  {
    "\"" + word + "\"" + tail
  }

  /** A word between quotes, and what follows. */
  ghost predicate Spells(s: string, q: string, rest: string) {
    && |s| == |q| + |rest| + 2 && s[0] == '"' && s[1 + |q|] == '"'
    && (forall i :: 0 <= i < |q| ==> s[1 + i] == q[i])
    && (forall i :: 0 <= i < |rest| ==> s[2 + |q| + i] == rest[i])
  }

  lemma SpellsOut(q: string, rest: string)
    ensures Spells("\"" + q + "\"" + rest, q, rest)
  {
  }

  lemma NoQuoteInside(s: string, q: string, rest: string)
    requires Spells(s, q, rest) && '"' !in q
    ensures forall i :: 1 <= i <= |q| ==> s[i] != '"'
  {
    forall i | 1 <= i <= |q|
      ensures s[i] != '"'
    {
      assert s[1 + (i - 1)] == q[i - 1];
    }
  }

  /** Two quote-free words followed by their closing quotes agree when one text begins like the other. */
  lemma SameWord(s: string, q: string, rest: string, n: string, word: string, tail: string)
    requires Spells(s, q, rest) && Spells(n, word, tail) && '"' !in q && '"' !in word
    requires |n| <= |s| && forall i :: 0 <= i < |n| ==> s[i] == n[i]
    ensures q == word && |tail| <= |rest| && forall i :: 0 <= i < |tail| ==> rest[i] == tail[i]
  {
    NoQuoteInside(s, q, rest);
    NoQuoteInside(n, word, tail);
    assert |q| == |word|;
    assert forall i :: 0 <= i < |q| ==> q[i] == s[1 + i] == word[i];
    assert forall i :: 0 <= i < |tail| ==> tail[i] == n[2 + |q| + i] == s[2 + |q| + i] == rest[i];
  }

  lemma StartsByChars(s: string, n: string)
    ensures OccursAt(s, n, 0) <==> |n| <= |s| && forall i :: 0 <= i < |n| ==> s[i] == n[i]
  {
    if |n| <= |s| {
      if OccursAt(s, n, 0) {
        OccursAtChars(s, n, 0);
      }
      if forall i :: 0 <= i < |n| ==> s[i] == n[i] {
        SlicesAgree(s, 0, n, 0, |n|);
      }
    }
  }

  /** Quote-free words between quotes match exactly when they are equal. */
  lemma QuotedMatches(q: string, rest: string, word: string, tail: string)
    requires '"' !in q && '"' !in word
    ensures OccursAt("\"" + q + "\"" + rest, Needle(word, tail), 0) <==> q == word && StartsWith(rest, tail)
  {
    SpellsOut(q, rest);
    SpellsOut(word, tail);
    SpelledMatches("\"" + q + "\"" + rest, q, rest, Needle(word, tail), word, tail);
  }

  lemma SpelledMatches(s: string, q: string, rest: string, n: string, word: string, tail: string)
    requires Spells(s, q, rest) && Spells(n, word, tail) && '"' !in q && '"' !in word
    ensures OccursAt(s, n, 0) <==> q == word && StartsWith(rest, tail)
  {
    StartsByChars(s, n);
    StartsByChars(rest, tail);
    if OccursAt(s, n, 0) {
      SameWord(s, q, rest, n, word, tail);
    } else if q == word && StartsWith(rest, tail) {
      SpellsAlike(s, q, rest, n, tail);
    }
  }

  lemma SpellsAlike(s: string, q: string, rest: string, n: string, tail: string)
    requires Spells(s, q, rest) && Spells(n, q, tail)
    requires |tail| <= |rest| && forall i :: 0 <= i < |tail| ==> rest[i] == tail[i]
    ensures |n| <= |s| && forall i :: 0 <= i < |n| ==> s[i] == n[i]
  {
    forall i | 0 <= i < |n|
      ensures s[i] == n[i]
    {
      if 0 < i <= |q| {
        assert s[1 + (i - 1)] == q[i - 1] == n[1 + (i - 1)];
      } else if i > 1 + |q| {
        var k := i - 2 - |q|;
        assert s[2 + |q| + k] == rest[k] && n[2 + |q| + k] == tail[k];
      }
    }
  }

  /** After a plain piece comes a quote or nothing, so a quote-free tail stays inside the piece. */
  lemma TailStaysInside(plain: string, rest: string, tail: string)
    requires '"' !in tail && (rest == [] || rest[0] == '"')
    ensures StartsWith(plain + rest, tail) <==> StartsWith(plain, tail)
  {
    var s := plain + rest;
    if |tail| <= |plain| {
      assert s[0..|tail|] == plain[0..|tail|];
    } else if |tail| <= |s| {
      assert s[0..|tail|][|plain|] == '"';
    }
  }

  lemma CountOnePart(p: Part, rest: string, word: string, tail: string)
    requires QuoteFree(p) && p.plain != word && '"' !in word && '"' !in tail
    requires rest == [] || rest[0] == '"'
    ensures Count(Quoted(p.quoted) + (p.plain + rest), Needle(word, tail))
         == (if Hit(p, word, tail) then 1 else 0) + Count(rest, Needle(word, tail))
  {
    QuotedMatches(p.quoted, p.plain + rest, word, tail);
    TailStaysInside(p.plain, rest, tail);
    if Hit(p, word, tail) {
      CountHit(p, rest, word, tail);
    } else {
      CountMiss(p, rest, word, tail);
    }
  }

  lemma CountHit(p: Part, rest: string, word: string, tail: string)
    requires QuoteFree(p) && Hit(p, word, tail)
    requires OccursAt(Quoted(p.quoted) + (p.plain + rest), Needle(word, tail), 0)
    ensures Count(Quoted(p.quoted) + (p.plain + rest), Needle(word, tail))
         == 1 + Count(rest, Needle(word, tail))
  {
    var n, s := Needle(word, tail), Quoted(p.quoted) + (p.plain + rest);
    var after := p.plain[|tail|..];
    assert p.plain == tail + after;
    Associative(tail, after, rest);
    Associative(Quoted(word), tail, after + rest);
    ConcatDrop(n, after + rest, 0);
    CountSkips(after, rest, n);
  }

  lemma CountMiss(p: Part, rest: string, word: string, tail: string)
    requires QuoteFree(p) && p.plain != word && '"' !in word && '"' !in tail
    requires rest == [] || rest[0] == '"'
    requires !OccursAt(Quoted(p.quoted) + (p.plain + rest), Needle(word, tail), 0)
    ensures Count(Quoted(p.quoted) + (p.plain + rest), Needle(word, tail))
         == Count(rest, Needle(word, tail))
  {
    var n, s := Needle(word, tail), Quoted(p.quoted) + (p.plain + rest);
    var closing := "\"" + p.plain + rest;
    OpenQuote(p.quoted, p.plain, rest);
    CountShort(s, n);
    CountSkips(p.quoted, closing, n);
    CountFromClosingQuote(p.plain, rest, word, tail);
  }

  lemma OpenQuote(quoted: string, plain: string, rest: string)
    ensures (Quoted(quoted) + (plain + rest))[1..] == quoted + ("\"" + plain + rest)
  {
    Associative("\"", quoted, "\"");
    Associative("\"", quoted + "\"", plain + rest);
    Associative(quoted, "\"", plain + rest);
    Associative("\"", plain, rest);
    ConcatDrop("\"", (quoted + "\"") + (plain + rest), 0);
  }

  lemma CountShort(s: string, needle: string)
    requires needle != [] && s != [] && !OccursAt(s, needle, 0)
    ensures Count(s, needle) == Count(s[1..], needle)
  {
  }

  /** The closing quote of one string never opens a match, because the piece after it is no word. */
  lemma CountFromClosingQuote(plain: string, rest: string, word: string, tail: string)
    requires '"' !in plain && plain != word && '"' !in word && '"' !in tail
    requires rest == [] || rest[0] == '"'
    ensures Count("\"" + plain + rest, Needle(word, tail)) == Count(rest, Needle(word, tail))
  {
    var s, n := "\"" + plain + rest, Needle(word, tail);
    ClosingQuoteOpensNothing(plain, rest, word, tail);
    CountShort(s, n);
    Associative("\"", plain, rest);
    ConcatDrop("\"", plain + rest, 0);
    CountSkips(plain, rest, n);
  }

  lemma ClosingQuoteOpensNothing(plain: string, rest: string, word: string, tail: string)
    requires '"' !in plain && plain != word && '"' !in word && (rest == [] || rest[0] == '"')
    ensures !OccursAt("\"" + plain + rest, Needle(word, tail), 0)
  {
    if rest == [] {
      SpellsOut(word, tail);
      NoClosingQuote("\"" + plain + rest, plain, Needle(word, tail), word, tail);
    } else {
      assert "\"" + plain + rest == "\"" + plain + "\"" + rest[1..];
      QuotedMatches(plain, rest[1..], word, tail);
    }
  }

  lemma NoClosingQuote(s: string, plain: string, n: string, word: string, tail: string)
    requires '"' !in plain && s == "\"" + plain + "" && Spells(n, word, tail)
    ensures !OccursAt(s, n, 0)
  {
    StartsByChars(s, n);
    assert |n| <= |s| ==> s[1 + |word|] == plain[|word|] && n[1 + |word|] == '"';
  }

  /** Counting a quoted word followed by a quote-free tail counts the parts that spell it. */
  lemma {:induction false} CountParts(parts: seq<Part>, word: string, tail: string)
    requires forall i :: 0 <= i < |parts| ==> QuoteFree(parts[i]) && parts[i].plain != word
    requires '"' !in word && '"' !in tail
    ensures Count(PartsText(parts), Needle(word, tail)) == Hits(parts, word, tail)
  {
    if parts != [] {
      CountParts(parts[1..], word, tail);
      CountOnePart(parts[0], PartsText(parts[1..]), word, tail);
    }
  }

  // ---------------------------------------------------------------- the report as parts

  /** A check between its opening brace and whatever follows its closing brace. */
  function CheckParts(c: Check, after: string): seq<Part> {
    [Part("name", ":"), Part(c.name, ","), Part("actual", ":"), Part(c.actual, ","),
     Part("target", ":"), Part(c.target, ","), Part("pass", ":" + ((Bool(c.pass) + "}") + after))]
  }

  /** The checks from the one at `i` on, up to the closing bracket. */
  function ChecksParts(checks: seq<Check>): seq<Part> {
    if checks == [] then []
    else CheckParts(checks[0], if |checks| == 1 then "]," else ",{") + ChecksParts(checks[1..])
  }

  function FootParts(r: Report): seq<Part> {
    [Part("pass", ":" + ((Bool(!Failed(r)) + ",") + "")),
     Part("elapsed_ms", ":" + ((Decimal(r.elapsedMs) + "}") + ""))]
  }

  function HeadParts(r: Report): seq<Part> {
    [Part("panes", ":" + ((Decimal(r.panes) + ",") + "")),
     Part("checks", ":" + ("[" + if r.checks == [] then "]," else "{"))]
  }

  function ReportParts(r: Report): seq<Part> { HeadParts(r) + (ChecksParts(r.checks) + FootParts(r)) }

  /** The checks by walking from the first one. */
  function ChecksText(checks: seq<Check>): string {
    if checks == [] then ""
    else CheckJson(checks[0]) + (if |checks| == 1 then "" else ",") + ChecksText(checks[1..])
  }

  lemma SnocGroups(first: string, comma: string, more: string, last: string)
    ensures first + "," + (more + comma + last) == first + "," + more + comma + last
  {
    Associative(first + ",", more + comma, last);
    Associative(first + ",", more, comma);
  }

  lemma OneText(text: string)
    ensures text + "" + "" == "" + "" + text
  {
  }

  lemma TwoTexts(first: string, last: string)
    ensures first + "," + ("" + "" + last) == first + "" + "" + "," + last
  {
    assert "" + "" + last == last && first + "" + "" == first;
  }

  /** Texts with commas between them. */
  function Joined(texts: seq<string>): string {
    if texts == [] then "" else texts[0] + (if |texts| == 1 then "" else ",") + Joined(texts[1..])
  }

  function Texts(checks: seq<Check>): (texts: seq<string>)
    ensures |texts| == |checks| && forall i :: 0 <= i < |texts| ==> texts[i] == CheckJson(checks[i])
  {
    seq(|checks|, i requires 0 <= i < |checks| => CheckJson(checks[i]))
  }

  lemma {:induction false} ChecksTextIsJoined(checks: seq<Check>, texts: seq<string>)
    requires texts == Texts(checks)
    ensures ChecksText(checks) == Joined(texts)
  {
    if checks != [] {
      assert texts[1..] == Texts(checks[1..]);
      ChecksTextIsJoined(checks[1..], texts[1..]);
    }
  }

  lemma JoinedCons(first: string, more: seq<string>, texts: seq<string>)
    requires texts == [first] + more
    ensures Joined(texts) == first + (if more == [] then "" else ",") + Joined(more)
  {
    assert texts[1..] == more;
  }

  lemma {:induction false} JoinedSnoc(texts: seq<string>, last: string)
    ensures Joined(texts + [last]) == Joined(texts) + (if texts == [] then "" else ",") + last
  {
    if texts == [] {
      JoinedCons(last, [], texts + [last]);
      OneText(last);
    } else {
      var first, more := texts[0], texts[1..];
      JoinedSnoc(more, last);
      assert texts + [last] == [first] + (more + [last]);
      JoinedCons(first, more + [last], texts + [last]);
      JoinedCons(first, more, texts);
      StepTexts(first, Joined(more), more == [], last);
    }
  }

  lemma StepTexts(first: string, more: string, single: bool, last: string)
    requires single ==> more == ""
    ensures first + "," + (more + (if single then "" else ",") + last)
         == first + (if single then "" else ",") + more + "," + last
  {
    if single {
      TwoTexts(first, last);
    } else {
      SnocGroups(first, ",", more, last);
    }
  }

  lemma ChecksTextSnoc(checks: seq<Check>, last: Check)
    ensures ChecksText(checks + [last])
         == ChecksText(checks) + (if checks == [] then "" else ",") + CheckJson(last)
  {
    var texts := Texts(checks);
    assert Texts(checks + [last]) == texts + [CheckJson(last)];
    ChecksTextIsJoined(checks, texts);
    ChecksTextIsJoined(checks + [last], texts + [CheckJson(last)]);
    JoinedSnoc(texts, CheckJson(last));
  }

  lemma {:induction false} ChecksTextIsJson(checks: seq<Check>)
    ensures ChecksJson(checks) == ChecksText(checks)
  {
    if checks != [] {
      var init, last := checks[..|checks| - 1], checks[|checks| - 1];
      assert checks == init + [last];
      ChecksTextIsJson(init);
      ChecksTextSnoc(init, last);
    }
  }

  lemma FieldText(key: string, value: string, rest: seq<Part>)
    ensures PartsText([Part(key, ":"), Part(value, ",")] + rest) == Field(key, value) + PartsText(rest)
  {
    var parts := [Part(key, ":"), Part(value, ",")] + rest;
    assert parts[1..][0] == Part(value, ",") && parts[1..][1..] == rest;
    var k, v, t := Quoted(key), Quoted(value), PartsText(rest);
    assert PartsText(parts) == k + (":" + (v + ("," + t)));
  }

  lemma BareText(key: string, text: string, after: string, rest: seq<Part>)
    ensures PartsText([Part(key, ":" + (text + after))] + rest)
         == Bare(key, text) + (after + PartsText(rest))
  {
    var parts := [Part(key, ":" + (text + after))] + rest;
    assert parts[1..] == rest;
    var k, t := Quoted(key), PartsText(rest);
    assert PartsText(parts) == k + ((":" + (text + after)) + t);
  }

  lemma CheckPartsText(c: Check, after: string, rest: seq<Part>)
    ensures "{" + PartsText(CheckParts(c, after) + rest) == CheckJson(c) + (after + PartsText(rest))
  {
    var last := [Part("pass", ":" + ((Bool(c.pass) + "}") + after))] + rest;
    var third := [Part("target", ":"), Part(c.target, ",")] + last;
    var second := [Part("actual", ":"), Part(c.actual, ",")] + third;
    var first := [Part("name", ":"), Part(c.name, ",")] + second;
    assert CheckParts(c, after) + rest == first;
    BareText("pass", Bool(c.pass) + "}", after, rest);
    FieldText("target", c.target, last);
    FieldText("actual", c.actual, third);
    FieldText("name", c.name, second);
    var n, a, t := Field("name", c.name), Field("actual", c.actual), Field("target", c.target);
    var p := Bare("pass", Bool(c.pass) + "}");
    assert PartsText(first) == n + (a + (t + (p + (after + PartsText(rest)))));
    assert "{" + (n + (a + (t + (p + (after + PartsText(rest))))))
        == "{" + (n + (a + (t + p))) + (after + PartsText(rest));
  }

  lemma {:induction false} ChecksPartsText(checks: seq<Check>, rest: seq<Part>)
    requires checks != []
    ensures "{" + PartsText(ChecksParts(checks) + rest) == ChecksText(checks) + ("]," + PartsText(rest))
  {
    var c, more := checks[0], checks[1..];
    if more == [] {
      LastCheckText(c, checks, rest);
    } else {
      var tail := ChecksParts(more) + rest;
      assert ChecksParts(checks) + rest == CheckParts(c, ",{") + tail;
      CheckPartsText(c, ",{", tail);
      ChecksPartsText(more, rest);
      Regroup(CheckJson(c), PartsText(tail), ChecksText(more), "]," + PartsText(rest));
    }
  }

  lemma LastCheckText(c: Check, checks: seq<Check>, rest: seq<Part>)
    requires checks == [c]
    ensures "{" + PartsText(ChecksParts(checks) + rest) == ChecksText(checks) + ("]," + PartsText(rest))
  {
    assert checks[1..] == [];
    assert ChecksParts(checks) == CheckParts(c, "],") + [] == CheckParts(c, "],");
    assert ChecksText(checks) == CheckJson(c) + "" + "" == CheckJson(c);
    CheckPartsText(c, "],", rest);
  }

  lemma Regroup(first: string, tail: string, more: string, end: string)
    requires "{" + tail == more + end
    ensures first + (",{" + tail) == first + "," + more + end
  {
    assert ",{" + tail == "," + ("{" + tail);
    assert first + ("," + (more + end)) == first + "," + more + end;
  }

  /** The parts spell the report. */
  lemma ReportText(r: Report)
    ensures "{" + PartsText(ReportParts(r)) == Json(r)
  {
    var body := ChecksParts(r.checks) + FootParts(r);
    var opening := if r.checks == [] then "]," else "{";
    var panes := Part("panes", ":" + ((Decimal(r.panes) + ",") + ""));
    var list := Part("checks", ":" + ("[" + opening));
    assert ReportParts(r) == [panes] + ([list] + body);
    BareText("panes", Decimal(r.panes) + ",", "", [list] + body);
    BareText("checks", "[", opening, body);
    BodyText(r);
    HeadText(Bare("panes", Decimal(r.panes) + ","), Bare("checks", "["), ChecksJson(r.checks), Foot(r));
  }

  lemma HeadText(a: string, b: string, checks: string, foot: string)
    ensures "{" + (a + ("" + (b + (checks + foot)))) == ("{" + a + b) + checks + foot
  {
    assert "" + (b + (checks + foot)) == b + (checks + foot);
    assert a + (b + (checks + foot)) == (a + b) + (checks + foot);
    assert "{" + ((a + b) + (checks + foot)) == ("{" + (a + b)) + checks + foot;
    assert "{" + (a + b) == "{" + a + b;
  }

  lemma BodyText(r: Report)
    ensures (if r.checks == [] then "]," else "{") + PartsText(ChecksParts(r.checks) + FootParts(r))
         == ChecksJson(r.checks) + Foot(r)
  {
    FootText(r);
    ChecksTextIsJson(r.checks);
    if r.checks == [] {
      assert ChecksParts(r.checks) + FootParts(r) == FootParts(r);
      assert "" + Foot(r) == Foot(r);
    } else {
      ChecksPartsText(r.checks, FootParts(r));
    }
  }

  lemma FootText(r: Report)
    ensures "]," + PartsText(FootParts(r)) == Foot(r)
  {
    var pass := Part("pass", ":" + ((Bool(!Failed(r)) + ",") + ""));
    var elapsed := Part("elapsed_ms", ":" + ((Decimal(r.elapsedMs) + "}") + ""));
    BareEnd("pass", Bool(!Failed(r)) + ",", [elapsed]);
    BareEnd("elapsed_ms", Decimal(r.elapsedMs) + "}", []);
    assert [elapsed] + [] == [elapsed] && [pass] + [elapsed] == [pass, elapsed];
    assert Bare("elapsed_ms", Decimal(r.elapsedMs) + "}") + [] == Bare("elapsed_ms", Decimal(r.elapsedMs) + "}");
  }

  lemma BareEnd(key: string, text: string, rest: seq<Part>)
    ensures PartsText([Part(key, ":" + (text + ""))] + rest) == Bare(key, text) + PartsText(rest)
  {
    BareText(key, text, "", rest);
    assert "" + PartsText(rest) == PartsText(rest);
  }

  // ---------------------------------------------------------------- the counts

  function Passing(checks: seq<Check>): nat {
    if checks == [] then 0 else (if checks[0].pass then 1 else 0) + Passing(checks[1..])
  }

  function One(b: bool): nat { if b then 1 else 0 }

  /** How many of the checks' strings are exactly `name`. */
  function NameStrings(checks: seq<Check>): nat {
    if checks == [] then 0
    else One(checks[0].name == "name") + One(checks[0].actual == "name") + One(checks[0].target == "name")
         + NameStrings(checks[1..])
  }

  ghost predicate Plain(c: Check) { '"' !in c.name && '"' !in c.actual && '"' !in c.target }

  lemma {:induction false} HitsAppend(a: seq<Part>, b: seq<Part>, word: string, tail: string)
    ensures Hits(a + b, word, tail) == Hits(a, word, tail) + Hits(b, word, tail)
  {
    if a == [] {
      assert a + b == b;
    } else {
      assert (a + b)[0] == a[0] && (a + b)[1..] == a[1..] + b;
      HitsAppend(a[1..], b, word, tail);
    }
  }

  lemma HitsTwo(p: Part, q: Part, word: string, tail: string)
    ensures Hits([p, q], word, tail) == One(Hit(p, word, tail)) + One(Hit(q, word, tail))
    ensures Hits([p], word, tail) == One(Hit(p, word, tail))
  {
    assert [p][1..] == [] && [q][1..] == [];
    assert Hits([q], word, tail) == One(Hit(q, word, tail));
    assert [p, q] == [p] + [q];
    HitsAppend([p], [q], word, tail);
  }

  lemma CheckHits(c: Check, after: string, word: string, tail: string)
    ensures Hits(CheckParts(c, after), word, tail)
         == One(Hit(Part("name", ":"), word, tail)) + One(Hit(Part(c.name, ","), word, tail))
            + One(Hit(Part("actual", ":"), word, tail)) + One(Hit(Part(c.actual, ","), word, tail))
            + One(Hit(Part("target", ":"), word, tail)) + One(Hit(Part(c.target, ","), word, tail))
            + One(Hit(Part("pass", ":" + ((Bool(c.pass) + "}") + after)), word, tail))
  {
    var n := [Part("name", ":"), Part(c.name, ",")];
    var a := [Part("actual", ":"), Part(c.actual, ",")];
    var t := [Part("target", ":"), Part(c.target, ",")];
    var p := [Part("pass", ":" + ((Bool(c.pass) + "}") + after))];
    assert CheckParts(c, after) == n + (a + (t + p));
    HitsAppend(n, a + (t + p), word, tail);
    HitsAppend(a, t + p, word, tail);
    HitsAppend(t, p, word, tail);
    HitsTwo(n[0], n[1], word, tail);
    HitsTwo(a[0], a[1], word, tail);
    HitsTwo(t[0], t[1], word, tail);
    HitsTwo(p[0], p[0], word, tail);
  }

  lemma CheckNameHits(c: Check, after: string)
    ensures Hits(CheckParts(c, after), "name", "")
         == 1 + One(c.name == "name") + One(c.actual == "name") + One(c.target == "name")
  {
    CheckHits(c, after, "name", "");
  }

  const PASS_TAIL := ":true}"

  /** Only a passing check's own key is followed by the tail of the needle. */
  lemma PassTails(b: bool, after: string)
    ensures StartsWith(":" + ((Bool(b) + "}") + after), PASS_TAIL) <==> b
    ensures !StartsWith(":" + ((Bool(b) + ",") + ""), PASS_TAIL)
    ensures !StartsWith(",", PASS_TAIL) && !StartsWith(":", PASS_TAIL)
  {
    var s := ":" + ((Bool(b) + "}") + after);
    if b {
      assert s[0..6] == PASS_TAIL;
    } else {
      assert s[1] == 'f' && PASS_TAIL[1] == 't';
      assert |s| >= 6 ==> s[0..6][1] == s[1];
    }
    var t := ":" + ((Bool(b) + ",") + "");
    assert |t| >= 6 ==> t[0..6][5] == t[5] && t[0..6][1] == t[1];
  }

  lemma CheckPassHits(c: Check, after: string)
    ensures Hits(CheckParts(c, after), "pass", PASS_TAIL) == One(c.pass)
  {
    CheckHits(c, after, "pass", PASS_TAIL);
    PassTails(c.pass, after);
  }

  lemma {:induction false} ChecksHits(checks: seq<Check>)
    ensures Hits(ChecksParts(checks), "name", "") == |checks| + NameStrings(checks)
    ensures Hits(ChecksParts(checks), "pass", PASS_TAIL) == Passing(checks)
  {
    if checks != [] {
      var after := if |checks| == 1 then "]," else ",{";
      var first, rest := CheckParts(checks[0], after), ChecksParts(checks[1..]);
      ChecksHits(checks[1..]);
      HitsAppend(first, rest, "name", "");
      HitsAppend(first, rest, "pass", PASS_TAIL);
      CheckNameHits(checks[0], after);
      CheckPassHits(checks[0], after);
    }
  }

  lemma ReportHits(r: Report)
    ensures Hits(ReportParts(r), "name", "") == |r.checks| + NameStrings(r.checks)
    ensures Hits(ReportParts(r), "pass", PASS_TAIL) == Passing(r.checks)
  {
    var head := HeadParts(r);
    var foot := FootParts(r);
    var body := ChecksParts(r.checks);
    ChecksHits(r.checks);
    HitsAppend(head, body + foot, "name", "");
    HitsAppend(body, foot, "name", "");
    HitsAppend(head, body + foot, "pass", PASS_TAIL);
    HitsAppend(body, foot, "pass", PASS_TAIL);
    HitsTwo(head[0], head[1], "name", "");
    HitsTwo(head[0], head[1], "pass", PASS_TAIL);
    HitsTwo(foot[0], foot[1], "name", "");
    HitsTwo(foot[0], foot[1], "pass", PASS_TAIL);
    PassTails(!Failed(r), "");
  }

  ghost predicate Tidy(p: Part) {
    QuoteFree(p) && p.plain != "" && (p.plain[0] == ':' || p.plain[0] == ',')
  }

  lemma DigitsHaveNoQuote(n: nat)
    ensures '"' !in Decimal(n)
  {
  }

  lemma CheckPartsTidy(c: Check, after: string)
    requires Plain(c) && '"' !in after
    ensures forall i :: 0 <= i < |CheckParts(c, after)| ==> Tidy(CheckParts(c, after)[i])
  {
    assert '"' !in Bool(c.pass);
  }

  lemma {:induction false} ChecksPartsTidy(checks: seq<Check>)
    requires forall i :: 0 <= i < |checks| ==> Plain(checks[i])
    ensures forall i :: 0 <= i < |ChecksParts(checks)| ==> Tidy(ChecksParts(checks)[i])
  {
    if checks != [] {
      var after := if |checks| == 1 then "]," else ",{";
      CheckPartsTidy(checks[0], after);
      ChecksPartsTidy(checks[1..]);
    }
  }

  lemma ReportPartsTidy(r: Report)
    requires forall i :: 0 <= i < |r.checks| ==> Plain(r.checks[i])
    ensures forall i :: 0 <= i < |ReportParts(r)| ==> Tidy(ReportParts(r)[i])
  {
    ChecksPartsTidy(r.checks);
    FootPartsTidy(r);
    HeadPartsTidy(r);
  }

  lemma FootPartsTidy(r: Report)
    ensures forall i :: 0 <= i < |FootParts(r)| ==> Tidy(FootParts(r)[i])
  {
    DigitsHaveNoQuote(r.elapsedMs);
    assert '"' !in Bool(!Failed(r));
  }

  lemma HeadPartsTidy(r: Report)
    ensures forall i :: 0 <= i < |HeadParts(r)| ==> Tidy(HeadParts(r)[i])
  {
    DigitsHaveNoQuote(r.panes);
  }

  lemma ReportCount(r: Report, word: string, tail: string)
    requires forall i :: 0 <= i < |r.checks| ==> Plain(r.checks[i])
    requires word != "" && word[0] != ':' && word[0] != ',' && '"' !in word && '"' !in tail
    ensures |Matches(Json(r), Needle(word, tail), 0)| == Hits(ReportParts(r), word, tail)
  {
    var text := PartsText(ReportParts(r));
    ReportText(r);
    ReportPartsTidy(r);
    CountParts(ReportParts(r), word, tail);
    CountSkips("{", text, Needle(word, tail));
    assert Json(r)[0..] == Json(r);
    CountIsMatches(Json(r), Needle(word, tail), 0, Json(r));
  }

  lemma NeedlesAre()
    ensures PASS_NEEDLE == Needle("pass", PASS_TAIL) && NAME_NEEDLE == Needle("name", "")
  {
  }

  lemma PassCount(r: Report)
    requires forall i :: 0 <= i < |r.checks| ==> Plain(r.checks[i])
    ensures |Matches(Json(r), PASS_NEEDLE, 0)| == Passing(r.checks)
  {
    NeedlesAre();
    ReportHits(r);
    ReportCount(r, "pass", PASS_TAIL);
  }

  lemma NameCount(r: Report)
    requires forall i :: 0 <= i < |r.checks| ==> Plain(r.checks[i])
    ensures |Matches(Json(r), NAME_NEEDLE, 0)| == |r.checks| + NameStrings(r.checks)
  {
    NeedlesAre();
    ReportHits(r);
    ReportCount(r, "name", "");
  }

  lemma SummaryIs(json: string, passing: nat, all: nat, n: nat)
    requires |Matches(json, PASS_NEEDLE, 0)| == passing && |Matches(json, NAME_NEEDLE, 0)| == all
    ensures Summary(json) == Decimal(passing) + "/" + Decimal(n) + " budget checks" <==> all == n
  {
    SameSummary(Decimal(passing) + "/", all, n);
  }

  /** The printed report and its counter agree, for every report whose strings hold no quote: the
      passing checks are counted exactly, the overall verdict is never counted among them, and the
      checks are counted exactly if and only if no string is exactly `name`. */
  lemma CountsAgree(r: Report)
    requires forall i :: 0 <= i < |r.checks| ==> Plain(r.checks[i])
    ensures |Matches(Json(r), PASS_NEEDLE, 0)| == Passing(r.checks)
    ensures |Matches(Json(r), NAME_NEEDLE, 0)| == |r.checks| + NameStrings(r.checks)
    ensures NameStrings(r.checks) == 0 <==>
              Summary(Json(r)) == Decimal(Passing(r.checks)) + "/" + Decimal(|r.checks|) + " budget checks"
  {
    PassCount(r);
    NameCount(r);
    SummaryIs(Json(r), Passing(r.checks), |r.checks| + NameStrings(r.checks), |r.checks|);
  }

  lemma SameSummary(head: string, m: nat, n: nat)
    ensures head + Decimal(m) + " budget checks" == head + Decimal(n) + " budget checks" <==> m == n
  {
    var a, b := head + Decimal(m) + " budget checks", head + Decimal(n) + " budget checks";
    DecimalValue(m);
    DecimalValue(n);
    if a == b {
      assert Decimal(m) == a[|head|..|a| - 14] == b[|head|..|b| - 14] == Decimal(n);
    }
  }

  lemma {:induction false} NameStringsZero(checks: seq<Check>)
    ensures NameStrings(checks) == 0 <==>
              forall i :: 0 <= i < |checks| ==>
                checks[i].name != "name" && checks[i].actual != "name" && checks[i].target != "name"
  {
    if checks != [] {
      NameStringsZero(checks[1..]);
      assert forall i :: 0 < i < |checks| ==> checks[i] == checks[1..][i - 1];
    }
  }

  // ---------------------------------------------------------------- the text itself

  function Word(b: bool): string { if b then "true" else "false" }

  /** A check as the format writes it. */
  lemma CheckPrinted(c: Check)
    ensures CheckJson(c)
         == "{\"name\":\"" + (c.name + ("\",\"actual\":\"" + (c.actual + ("\",\"target\":\"" + (c.target
            + ("\",\"pass\":" + (Word(c.pass) + "}")))))))
  {
    var p := Bare("pass", Word(c.pass) + "}");
    var t := Field("target", c.target) + p;
    var a := Field("actual", c.actual) + t;
    BarePrinted("pass", Word(c.pass) + "}");
    FieldPrinted("target", c.target, p);
    FieldPrinted("actual", c.actual, t);
    FieldPrinted("name", c.name, a);
    PassKey(Word(c.pass) + "}");
    TargetKey(c.target + ("\"," + p));
    ActualKey(c.actual + ("\"," + t));
    NameKey(c.name + ("\"," + a));
  }

  lemma FieldPrinted(key: string, value: string, rest: string)
    ensures Field(key, value) + rest == "\"" + (key + ("\":\"" + (value + ("\"," + rest))))
  {
    assert Field(key, value) == "\"" + key + "\"" + ":" + ("\"" + value + "\"" + ",");
  }

  lemma BarePrinted(key: string, text: string)
    ensures Bare(key, text) == "\"" + (key + ("\":" + text))
  {
  }

  lemma NameKey(x: string)
    ensures "{" + ("\"" + ("name" + ("\":\"" + x))) == "{\"name\":\"" + x
  {
  }

  lemma ActualKey(x: string)
    ensures "\"," + ("\"" + ("actual" + ("\":\"" + x))) == "\",\"actual\":\"" + x
  {
  }

  lemma TargetKey(x: string)
    ensures "\"," + ("\"" + ("target" + ("\":\"" + x))) == "\",\"target\":\"" + x
  {
  }

  lemma PassKey(x: string)
    ensures "\"," + ("\"" + ("pass" + ("\":" + x))) == "\",\"pass\":" + x
  {
  }

  /** The report as the format writes it: the panes, the checks with commas between them, the verdict,
      which is positive exactly when every check passed, and the time. */
  lemma ReportPrinted(r: Report)
    ensures Json(r)
         == "{\"panes\":" + (Decimal(r.panes) + (",\"checks\":[" + (Joined(Texts(r.checks)) + ("],\"pass\":"
            + (Word(forall i :: 0 <= i < |r.checks| ==> r.checks[i].pass) + (",\"elapsed_ms\":"
            + (Decimal(r.elapsedMs) + "}")))))))
  {
    var verdict := Word(forall i :: 0 <= i < |r.checks| ==> r.checks[i].pass);
    assert verdict == Bool(!Failed(r));
    HeadPrinted(r);
    FootPrinted(r, verdict);
    ChecksTextIsJson(r.checks);
    ChecksTextIsJoined(r.checks, Texts(r.checks));
    HeadBodyFoot("{\"panes\":", Decimal(r.panes), ",\"checks\":[", Joined(Texts(r.checks)), Foot(r));
  }

  lemma HeadBodyFoot(a: string, b: string, c: string, body: string, foot: string)
    ensures (a + (b + c)) + body + foot == a + (b + (c + (body + foot)))
  {
    Associative(a + (b + c), body, foot);
    Associative(a, b + c, body + foot);
    Associative(b, c, body + foot);
  }

  lemma HeadPrinted(r: Report)
    ensures Head(r) == "{\"panes\":" + (Decimal(r.panes) + ",\"checks\":[")
  {
    var n := Decimal(r.panes);
    BarePrinted("panes", n + ",");
    BarePrinted("checks", "[");
    HeadKeys(n);
  }

  lemma HeadKeys(n: string)
    ensures "{" + ("\"" + ("panes" + ("\":" + (n + ",")))) + ("\"" + ("checks" + ("\":" + "[")))
         == "{\"panes\":" + (n + ",\"checks\":[")
  {
    assert "{" + ("\"" + ("panes" + ("\":" + (n + ",")))) == "{\"panes\":" + (n + ",");
    assert "\"" + ("checks" + ("\":" + "[")) == "\"checks\":[";
    Associative("{\"panes\":", n + ",", "\"checks\":[");
    Associative(n, ",", "\"checks\":[");
    assert "," + "\"checks\":[" == ",\"checks\":[";
  }

  lemma FootPrinted(r: Report, verdict: string)
    requires verdict == Bool(!Failed(r))
    ensures Foot(r) == "],\"pass\":" + (verdict + (",\"elapsed_ms\":" + (Decimal(r.elapsedMs) + "}")))
  {
    var n := Decimal(r.elapsedMs) + "}";
    BarePrinted("pass", verdict + ",");
    BarePrinted("elapsed_ms", n);
    FootKeys(verdict, n);
  }

  lemma FootKeys(verdict: string, n: string)
    ensures "]," + (("\"" + ("pass" + ("\":" + (verdict + ",")))) + ("\"" + ("elapsed_ms" + ("\":" + n))))
         == "],\"pass\":" + (verdict + (",\"elapsed_ms\":" + n))
  {
    var time := "\"" + ("elapsed_ms" + ("\":" + n));
    assert "," + time == ",\"elapsed_ms\":" + n;
    assert "\"" + ("pass" + ("\":" + (verdict + ","))) == "\"pass\":" + (verdict + ",");
    Associative("\"pass\":", verdict + ",", time);
    Associative(verdict, ",", time);
    var rest := verdict + ("," + time);
    assert "]," + ("\"pass\":" + rest) == "],\"pass\":" + rest;
  }
}
