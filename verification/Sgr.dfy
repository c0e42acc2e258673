/** The three scanners of the theme slice that read select-graphic-rendition sequences (section
    8.3.117 of ECMA-48), and the one question they share. */
module Sgr {
  import opened Text

  function AlphabeticAt(s: string): (k: nat)
    ensures k <= |s| && (k < |s| ==> IsAlphabetic(s[k]))
  {
    if s == [] || IsAlphabetic(s[0]) then 0 else 1 + AlphabeticAt(s[1..])
  }

  function Codes(params: string): seq<nat> { Numbers(Split(params, ';'), U16) }

  /** What one turn of a scanner finds, and what is left of the text. */
  datatype Turn = Done | Skip(rest: string) | Sequence(params: string, rest: string)

  /** A turn that has just passed an escape character. */
  function ScanAfterEscape(rest: string): (t: Turn)
    ensures !t.Done? && |t.rest| <= |rest|
  {
    if rest == [] || rest[0] != '[' then Skip(rest)
    else
      var body := rest[1..];
      var end := AlphabeticAt(body);
      if end == |body| then Skip(rest)
      else if body[end] != 'm' then Skip(body[end + 1..])
      else Sequence(body[..end], body[end + 1..])
  }

  function Scan(text: string): (t: Turn)
    ensures !t.Done? ==> |t.rest| < |text|
  {
    var at := IndexOf(text, ESC);
    if at == |text| then Done else ScanAfterEscape(text[at + 1..])
  }

  /** The parameter text of each sequence, in order. */
  function Bodies(text: string): seq<string>
    decreases |text|
  {
    match Scan(text)
    case Done => []
    case Skip(rest) => Bodies(rest)
    case Sequence(params, rest) => [params] + Bodies(rest)
  }

  function CodesOf(bodies: seq<string>): seq<seq<nat>> {
    if bodies == [] then [] else [Codes(bodies[0])] + CodesOf(bodies[1..])
  }

  /** The parameters of each sequence of the text, in order. */
  function Groups(text: string): seq<seq<nat>> { CodesOf(Bodies(text)) }

  function AllCodes(text: string): seq<nat> { Concat(Groups(text)) }

  predicate IsColor(code: nat) { 30 <= code <= 38 || 40 <= code <= 48 || 90 <= code <= 107 }

  /** One of the codes is a colour: 30 to 37 and 90 to 97 for the text, 40 to 47 and 100 to 107 for what is
      behind it, 38 and 48 for extended colours. */
  ghost predicate SomeColor(codes: seq<nat>) {
    exists i :: 0 <= i < |codes| && (30 <= codes[i] <= 38 || 40 <= codes[i] <= 48 || 90 <= codes[i] <= 107)
  }

  /** The sequence turns on modifier `code` as an attribute, not inside an extended colour. */
  predicate Modifies(codes: seq<nat>, code: nat) { code in codes && 38 !in codes && 48 !in codes }

  /** Some sequence carries the code and neither introducer of an extended colour. */
  ghost predicate SomeModifier(groups: seq<seq<nat>>, code: nat) {
    exists i :: 0 <= i < |groups| && code in groups[i] && 38 !in groups[i] && 48 !in groups[i]
  }

  // ---------------------------------------------------------------- the three loops

  method SgrParams(raw: string) returns (out: seq<nat>)
    ensures out == AllCodes(raw)
  {
    out := [];
    var rest := raw;
    while true
      invariant out + AllCodes(rest) == AllCodes(raw)
      decreases |rest|
    {
      var turn := Scan(rest);
      TurnCodes(rest, turn);
      if turn.Done? {
        return;
      }
      if turn.Sequence? {
        Associative(out, Codes(turn.params), AllCodes(turn.rest));
        out := out + Codes(turn.params);
      }
      rest := turn.rest;
    }
  }

  method SgrSetsModifier(raw: string, code: nat) returns (set': bool)
    ensures set' <==> SomeModifier(Groups(raw), code)
  {
    var rest := raw;
    while true
      invariant SomeModifier(Groups(raw), code) <==> SomeModifier(Groups(rest), code)
      decreases |rest|
    {
      var turn := Scan(rest);
      TurnGroups(rest, turn);
      if turn.Done? {
        return false;
      }
      if turn.Sequence? {
        var codes := Codes(turn.params);
        ModifierCons(codes, Groups(turn.rest), code);
        if Modifies(codes, code) {
          return true;
        }
      }
      rest := turn.rest;
    }
  }

  /** The loop of `has_color_sgr` looks at one sequence at a time and stops at the first colour. */
  method HasColorSgr(raw: string) returns (found: bool)
    ensures found <==> SomeColor(AllCodes(raw))
  {
    var rest := raw;
    while true
      invariant SomeColor(AllCodes(raw)) <==> SomeColor(AllCodes(rest))
      decreases |rest|
    {
      var turn := Scan(rest);
      TurnCodes(rest, turn);
      if turn.Done? {
        return false;
      }
      if turn.Sequence? {
        var codes := Codes(turn.params);
        ColorAppend(codes, AllCodes(turn.rest));
        var here := AnyColor(codes);
        if here {
          return true;
        }
      }
      rest := turn.rest;
    }
  }

  method AnyColor(codes: seq<nat>) returns (found: bool)
    ensures found <==> SomeColor(codes)
  {
    for i := 0 to |codes|
      invariant forall k :: 0 <= k < i ==> !IsColor(codes[k])
    {
      if IsColor(codes[i]) {
        return true;
      }
    }
    return false;
  }

  /** What one turn contributes. */
  lemma TurnGroups(text: string, turn: Turn)
    requires turn == Scan(text)
    ensures Groups(text)
         == match turn
            case Done => []
            case Skip(rest) => Groups(rest)
            case Sequence(params, rest) => [Codes(params)] + Groups(rest)
  {
    if turn.Sequence? {
      assert ([turn.params] + Bodies(turn.rest))[1..] == Bodies(turn.rest);
    }
  }

  lemma TurnCodes(text: string, turn: Turn)
    requires turn == Scan(text)
    ensures AllCodes(text)
         == match turn
            case Done => []
            case Skip(rest) => AllCodes(rest)
            case Sequence(params, rest) => Codes(params) + AllCodes(rest)
  {
    TurnGroups(text, turn);
    if turn.Sequence? {
      ConcatCons(Codes(turn.params), Groups(turn.rest));
    }
  }

  lemma ConcatCons(first: seq<nat>, rest: seq<seq<nat>>)
    ensures Concat([first] + rest) == first + Concat(rest)
  {
    assert ([first] + rest)[1..] == rest;
  }

  lemma ModifierCons(codes: seq<nat>, groups: seq<seq<nat>>, code: nat)
    ensures SomeModifier([codes] + groups, code) <==> Modifies(codes, code) || SomeModifier(groups, code)
  {
    var all := [codes] + groups;
    assert all[0] == codes;
    assert forall i :: 0 <= i < |groups| ==> all[i + 1] == groups[i];
    if SomeModifier(groups, code) {
      var i :| 0 <= i < |groups| && code in groups[i] && 38 !in groups[i] && 48 !in groups[i];
      assert Modifies(all[i + 1], code);
    }
  }

  lemma ColorAppend(a: seq<nat>, b: seq<nat>)
    ensures SomeColor(a + b) <==> SomeColor(a) || SomeColor(b)
  {
    assert forall i :: 0 <= i < |a| ==> (a + b)[i] == a[i];
    assert forall i :: 0 <= i < |b| ==> (a + b)[|a| + i] == b[i];
    if SomeColor(b) {
      var i :| 0 <= i < |b| && (30 <= b[i] <= 38 || 40 <= b[i] <= 48 || 90 <= b[i] <= 107);
      assert (a + b)[|a| + i] == b[i];
    }
  }

  // ---------------------------------------------------------------- they agree

  datatype Color = Rgb(r: nat, g: nat, b: nat) | Ansi(index: nat) | NoColor

  function Payload(color: Color): seq<nat> {
    match color
    case Rgb(r, g, b) => [38, 2, r, g, b]
    case Ansi(index) => [38, 5, index]
    case NoColor => []
  }

  /** The stream carries this exact colour as a foreground payload. */
  predicate CarriesColor(raw: string, color: Color) {
    color != NoColor && Contains(AllCodes(raw), Payload(color))
  }

  /** Whatever colour a stream carries, the colour detector sees. */
  lemma CarriedColorIsSeen(raw: string, color: Color)
    requires CarriesColor(raw, color)
    ensures SomeColor(AllCodes(raw))
  {
    var codes := AllCodes(raw);
    FindIsFirst(codes, Payload(color));
    var p := Find(codes, Payload(color)).value;
    OccursAtChars(codes, Payload(color), p);
    assert codes[p] == Payload(color)[0] == 38;
    assert IsColor(codes[p]);
  }

  /** A colour is carried exactly where its five or three numbers stand in a row. */
  lemma CarriesExactly(raw: string, r: nat, g: nat, b: nat)
    ensures CarriesColor(raw, Rgb(r, g, b)) <==>
              exists p: nat :: OccursAt(AllCodes(raw), [38, 2, r, g, b], p)
    ensures CarriesColor(raw, Ansi(r)) <==> exists p: nat :: OccursAt(AllCodes(raw), [38, 5, r], p)
    ensures !CarriesColor(raw, NoColor)
  {
    FindIsFirst(AllCodes(raw), [38, 2, r, g, b]);
    FindIsFirst(AllCodes(raw), [38, 5, r]);
  }

  lemma {:induction false} InConcat(groups: seq<seq<nat>>, i: nat, x: nat)
    requires i < |groups| && x in groups[i]
    ensures x in Concat(groups)
  {
    if i > 0 {
      InConcat(groups[1..], i - 1, x);
    }
  }

  /** A modifier the detector reports is a parameter the scanner lists. */
  lemma ModifierIsListed(raw: string, code: nat)
    requires SomeModifier(Groups(raw), code)
    ensures code in AllCodes(raw)
  {
    var i :| 0 <= i < |Groups(raw)| && code in Groups(raw)[i] && 38 !in Groups(raw)[i] && 48 !in Groups(raw)[i];
    InConcat(Groups(raw), i, code);
  }

  // ---------------------------------------------------------------- they invert printing

  /** A parameter as it is printed: a number, or nothing. */
  datatype Param = Number(n: nat) | Empty

  /** Text, a styling sequence, any other control sequence, or an escape that begins none. */
  datatype Item = Plain(text: string) | Style(params: seq<Param>) | Other(body: string, final: char) | Lone(c: char)

  function Field(p: Param): string { match p case Number(n) => Decimal(n) case Empty => "" }

  function Fields(params: seq<Param>): (fs: seq<string>)
    ensures |fs| == |params|
    ensures forall i :: 0 <= i < |fs| ==> fs[i] == Field(params[i])
  {
    seq(|params|, i requires 0 <= i < |params| => Field(params[i]))
  }

  function StyleBody(params: seq<Param>): string {
    if params == [] then "" else Join(Fields(params), ';')
  }

  /** The numbers among the parameters that fit sixteen bits. */
  function Kept(params: seq<Param>): seq<nat> {
    if params == [] then []
    else (if params[0].Number? && params[0].n < 65536 then [params[0].n] else []) + Kept(params[1..])
  }

  function PrintItem(item: Item): string {
    match item
    case Plain(text) => text
    case Style(params) => [ESC, '['] + StyleBody(params) + "m"
    case Other(body, final) => [ESC, '['] + body + [final]
    case Lone(c) => [ESC] + [c]
  }

  function Print(items: seq<Item>): string {
    if items == [] then [] else PrintItem(items[0]) + Print(items[1..])
  }

  function Styles(items: seq<Item>): seq<seq<nat>> {
    if items == [] then []
    else (if items[0].Style? then [Kept(items[0].params)] else []) + Styles(items[1..])
  }

  ghost predicate Unlettered(body: string) { forall i :: 0 <= i < |body| ==> !IsAlphabetic(body[i]) }

  ghost predicate Printable(item: Item) {
    match item
    case Plain(text) => ESC !in text
    case Style(_) => true
    case Other(body, final) => Unlettered(body) && IsAlphabetic(final) && final != 'm'
    case Lone(c) => c != '[' && c != ESC
  }

  lemma {:induction false} IndexOfSkips(text: string, rest: string, sep: char)
    requires sep !in text
    ensures IndexOf(text + rest, sep) == |text| + IndexOf(rest, sep)
  {
    if text == [] {
      assert text + rest == rest;
    } else {
      assert (text + rest)[1..] == text[1..] + rest;
      IndexOfSkips(text[1..], rest, sep);
    }
  }

  lemma ScanPlain(text: string, rest: string)
    requires ESC !in text
    ensures Scan(text + rest) == Scan(rest)
  {
    IndexOfSkips(text, rest, ESC);
    ScanSame(text + rest, rest, |text| + IndexOf(rest, ESC), IndexOf(rest, ESC));
  }

  /** The scan depends only on what follows the first escape. */
  lemma ScanSame(all: string, rest: string, at: nat, k: nat)
    requires at == IndexOf(all, ESC) && k == IndexOf(rest, ESC) && k <= at && |all| - at == |rest| - k
    requires all[at - k..] == rest
    ensures Scan(all) == Scan(rest)
  {
    ScanAt(all, at);
    ScanAt(rest, k);
    if k < |rest| {
      DropDrop(all, at - k, k + 1);
    }
  }

  lemma ScanAt(text: string, at: nat)
    requires at == IndexOf(text, ESC)
    ensures at < |text| ==> Scan(text) == ScanAfterEscape(text[at + 1..])
    ensures at == |text| ==> Scan(text) == Done
  {
  }

  lemma GroupsPlain(text: string, rest: string)
    requires ESC !in text
    ensures Groups(text + rest) == Groups(rest)
  {
    ScanPlain(text, rest);
    assert Bodies(text + rest) == Bodies(rest);
  }

  lemma {:induction false} AlphabeticAtSkips(body: string, rest: string)
    requires forall i :: 0 <= i < |body| ==> !IsAlphabetic(body[i])
    requires rest != [] && IsAlphabetic(rest[0])
    ensures AlphabeticAt(body + rest) == |body|
  {
    if body == [] {
      assert body + rest == rest;
    } else {
      assert (body + rest)[1..] == body[1..] + rest;
      AlphabeticAtSkips(body[1..], rest);
    }
  }

  lemma {:induction false} JoinHasNoLetters(fields: seq<string>)
    requires |fields| >= 1 && forall i :: 0 <= i < |fields| ==> AllDigits(fields[i])
    ensures Unlettered(Join(fields, ';'))
  {
    if |fields| > 1 {
      JoinHasNoLetters(fields[1..]);
      assert forall i :: 0 <= i < |fields[0]| ==> IsDigit(fields[0][i]);
    }
  }

  lemma FieldsCons(params: seq<Param>)
    requires params != []
    ensures Fields(params) == [Field(params[0])] + Fields(params[1..])
  {
  }

  lemma NumbersCons(field: string, fields: seq<string>, limit: nat)
    ensures Numbers([field] + fields, limit)
         == (match ParseUnsigned(field, limit) case Some(n) => [n] case None => []) + Numbers(fields, limit)
  {
    assert ([field] + fields)[1..] == fields;
  }

  lemma FieldParses(p: Param)
    ensures ParseUnsigned(Field(p), U16) == if p.Number? && p.n < 65536 then Some(p.n) else None
  {
    if p.Number? {
      ParseDecimal(p.n, U16);
    }
  }

  lemma {:induction false} NumbersOfFields(params: seq<Param>)
    ensures Numbers(Fields(params), U16) == Kept(params)
  {
    if params != [] {
      FieldParses(params[0]);
      FieldsCons(params);
      NumbersOfFields(params[1..]);
      NumbersCons(Field(params[0]), Fields(params[1..]), U16);
    }
  }

  lemma FieldIsDigits(p: Param)
    ensures ';' !in Field(p) && AllDigits(Field(p))
  {
  }

  lemma BodyReadsBack(params: seq<Param>)
    ensures Codes(StyleBody(params)) == Kept(params) && Unlettered(StyleBody(params))
  {
    if params == [] {
      assert Split("", ';') == [""];
      assert Numbers([""], U16) == [] by { assert [""][1..] == []; }
    } else {
      var fields := Fields(params);
      forall i | 0 <= i < |fields|
        ensures ';' !in fields[i] && AllDigits(fields[i])
      {
        FieldIsDigits(params[i]);
      }
      SplitJoin(fields, ';');
      NumbersOfFields(params);
      JoinHasNoLetters(fields);
    }
  }

  /** A control sequence: what the scanner makes of its final character. */
  lemma ScanControl(body: string, final: char, rest: string)
    requires Unlettered(body) && IsAlphabetic(final)
    ensures Scan([ESC] + (['['] + (body + ([final] + rest))))
         == if final == 'm' then Sequence(body, rest) else Skip(rest)
  {
    var after := ['['] + (body + ([final] + rest));
    ConcatDrop([ESC], after, 0);
    ScanAt([ESC] + after, 0);
    ScanAfterControl(body, final, rest);
  }

  lemma ControlText(body: string, final: char, rest: string)
    ensures [ESC, '['] + body + [final] + rest == [ESC] + (['['] + (body + ([final] + rest)))
  {
    assert [ESC, '['] == [ESC] + ['['];
    Associative([ESC] + ['['] + body, [final], rest);
    Associative([ESC] + ['['], body, [final] + rest);
    Associative([ESC], ['['], body + ([final] + rest));
  }

  lemma ScanAfterControl(body: string, final: char, rest: string)
    requires Unlettered(body) && IsAlphabetic(final)
    ensures ScanAfterEscape(['['] + (body + ([final] + rest)))
         == if final == 'm' then Sequence(body, rest) else Skip(rest)
  {
    var tail := body + ([final] + rest);
    ConcatDrop(['['], tail, 0);
    AlphabeticAtSkips(body, [final] + rest);
    assert tail[|body|] == final && tail[..|body|] == body;
    ConcatDrop(body, [final] + rest, 1);
    ConcatDrop([final], rest, 0);
  }

  lemma GroupsStyle(params: seq<Param>, rest: string)
    ensures Groups(PrintItem(Style(params)) + rest) == [Kept(params)] + Groups(rest)
  {
    var text := PrintItem(Style(params)) + rest;
    BodyReadsBack(params);
    assert "m" == ['m'];
    ControlText(StyleBody(params), 'm', rest);
    ScanControl(StyleBody(params), 'm', rest);
    TurnGroups(text, Scan(text));
  }

  lemma GroupsOther(body: string, final: char, rest: string)
    requires Unlettered(body) && IsAlphabetic(final) && final != 'm'
    ensures Groups(PrintItem(Other(body, final)) + rest) == Groups(rest)
  {
    var text := PrintItem(Other(body, final)) + rest;
    ControlText(body, final, rest);
    ScanControl(body, final, rest);
    TurnGroups(text, Scan(text));
  }

  /** An escape that begins no control sequence is passed over. */
  lemma GroupsLone(c: char, rest: string)
    requires c != '[' && c != ESC
    ensures Groups(PrintItem(Lone(c)) + rest) == Groups(rest)
  {
    var text := [ESC] + ([c] + rest);
    Associative([ESC], [c], rest);
    ConcatDrop([ESC], [c] + rest, 0);
    ScanAt(text, 0);
    assert Scan(text) == Skip([c] + rest);
    TurnGroups(text, Scan(text));
    GroupsPlain([c], rest);
  }

  /** A control sequence that the stream cuts off counts for nothing. */
  lemma GroupsUnfinished(body: string)
    requires Unlettered(body) && ESC !in body
    ensures Groups([ESC] + (['['] + body)) == []
  {
    var after := ['['] + body;
    var text := [ESC] + after;
    ConcatDrop([ESC], after, 0);
    ConcatDrop(['['], body, 0);
    ScanAt(text, 0);
    NoLetter(body);
    TurnGroups(text, Scan(text));
    IndexOfSkips(after, [], ESC);
    assert after + [] == after;
    ScanAt(after, |after|);
    TurnGroups(after, Scan(after));
  }

  lemma {:induction false} NoLetter(body: string)
    requires Unlettered(body)
    ensures AlphabeticAt(body) == |body|
  {
    if body != [] {
      NoLetter(body[1..]);
    }
  }

  /** The scanner inverts printing: for every interleaving of escape-free text, styling sequences,
      other control sequences and lone escapes, it returns exactly the parameters of the styling
      sequences that are numbers of sixteen bits, sequence by sequence and in order. */
  lemma {:induction false} ScannerInvertsPrinting(items: seq<Item>)
    requires forall i :: 0 <= i < |items| ==> Printable(items[i])
    ensures Groups(Print(items)) == Styles(items)
    ensures AllCodes(Print(items)) == Concat(Styles(items))
  {
    if items != [] {
      assert Printable(items[0]);
      ScannerInvertsPrinting(items[1..]);
      match items[0]
      case Plain(text) => GroupsPlain(text, Print(items[1..]));
      case Style(params) => GroupsStyle(params, Print(items[1..]));
      case Other(body, final) => GroupsOther(body, final, Print(items[1..]));
      case Lone(c) => GroupsLone(c, Print(items[1..]));
    }
  }
}
