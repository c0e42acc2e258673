/** Escaping text into a JSON string and editing one field of a pretty-printed document in place
    (section 7 of RFC 8259). */
module Json {
  import opened Text

  // ---------------------------------------------------------------- escaping

  /** The two escapers of the harness: `json_escape` of the mesh slice and `json_string` of the
      demo.  They differ in the short escapes they know and in which controls they escape. */
  datatype Style = Mesh | Demo

  function HexDigit(d: nat): (c: char)
    requires d < 16
    ensures c != '"' && c != '\\' && c != '\n'
  {
    if d < 10 then ('0' as nat + d) as char else ('a' as nat + d - 10) as char
  }

  /** `{:04x}` */
  function Hex4(n: nat): (s: string)
    requires n < 0x10000
    ensures |s| == 4 && forall i :: 0 <= i < 4 ==> s[i] != '"' && s[i] != '\\' && s[i] != '\n'
  {
    [HexDigit(n / 0x1000), HexDigit(n / 0x100 % 16), HexDigit(n / 16 % 16), HexDigit(n % 16)]
  }

  function EscapedChar(style: Style, c: char): (s: string)
    ensures s != []
  {
    if c == '"' then "\\\""
    else if c == '\\' then "\\\\"
    else if c == '\n' then "\\n"
    else if style.Mesh? && c == '\r' then "\\r"
    else if style.Mesh? && c == '\t' then "\\t"
    else if c < ' ' || (style.Demo? && IsControl(c)) then "\\u" + Hex4(c as nat)
    else [c]
  }

  /** The table of the two escapers, spelled out. */
  lemma EscapeTable(c: char)
    ensures EscapedChar(Mesh, '"') == EscapedChar(Demo, '"') == "\\\""
    ensures EscapedChar(Mesh, '\\') == EscapedChar(Demo, '\\') == "\\\\"
    ensures EscapedChar(Mesh, '\n') == EscapedChar(Demo, '\n') == "\\n"
    ensures EscapedChar(Mesh, '\r') == "\\r" && EscapedChar(Mesh, '\t') == "\\t"
    ensures EscapedChar(Demo, '\r') == "\\u000d" && EscapedChar(Demo, '\t') == "\\u0009"
    ensures EscapedChar(Mesh, '\U{1f}') == "\\u001f" && EscapedChar(Demo, '\U{7f}') == "\\u007f"
    ensures c < ' ' && c != '\n' && c != '\r' && c != '\t' ==>
              |EscapedChar(Mesh, c)| == 6 && EscapedChar(Mesh, c) == EscapedChar(Demo, c)
    ensures c >= ' ' && c != '"' && c != '\\' ==> EscapedChar(Mesh, c) == [c]
    ensures !IsControl(c) && c != '"' && c != '\\' ==> EscapedChar(Demo, c) == [c]
  {
    assert '\r' as nat == 13 && '\t' as nat == 9;
  }

  function Escaped(style: Style, text: string): string {
    if text == [] then [] else EscapedChar(style, text[0]) + Escaped(style, text[1..])
  }

  lemma {:induction false} EscapedSnoc(style: Style, text: string, c: char)
    ensures Escaped(style, text + [c]) == Escaped(style, text) + EscapedChar(style, c)
  {
    if text == [] {
      assert text + [c] == [c];
    } else {
      assert (text + [c])[1..] == text[1..] + [c];
      EscapedSnoc(style, text[1..], c);
    }
  }

  lemma EscapedNext(style: Style, text: string, i: nat)
    requires i < |text|
    ensures Escaped(style, text[..i + 1]) == Escaped(style, text[..i]) + EscapedChar(style, text[i])
  {
    EscapedSnoc(style, text[..i], text[i]);
    assert text[..i + 1] == text[..i] + [text[i]];
  }

  method JsonEscape(text: string) returns (out: string)
    ensures out == Escaped(Mesh, text)
  {
    out := "";
    for i := 0 to |text|
      invariant out == Escaped(Mesh, text[..i])
    {
      EscapedNext(Mesh, text, i);
      out := out + EscapedChar(Mesh, text[i]);
    }
    assert text[..|text|] == text;
  }

  method JsonString(text: string) returns (out: string)
    ensures out == "\"" + Escaped(Demo, text) + "\""
  {
    out := "\"";
    for i := 0 to |text|
      invariant out == "\"" + Escaped(Demo, text[..i])
    {
      EscapedNext(Demo, text, i);
      Associative("\"", Escaped(Demo, text[..i]), EscapedChar(Demo, text[i]));
      out := out + EscapedChar(Demo, text[i]);
    }
    assert text[..|text|] == text;
    out := out + "\"";
  }

  // ---------------------------------------------------------------- decoding

  function HexValue(c: char): (d: nat)
    ensures d <= 16
  {
    if '0' <= c <= '9' then c as nat - '0' as nat
    else if 'a' <= c <= 'f' then c as nat - 'a' as nat + 10
    else if 'A' <= c <= 'F' then c as nat - 'A' as nat + 10
    else 16
  }

  /** The code unit four hexadecimal digits name. */
  function CodeUnit(s: string): (r: Option<nat>)
    ensures r.Some? ==> |s| >= 4 && r.value < 0x10000
  {
    if |s| < 4 || exists i :: 0 <= i < 4 && HexValue(s[i]) == 16 then None
    else
      var v := HexValue(s[0]) * 0x1000 + HexValue(s[1]) * 0x100 + HexValue(s[2]) * 16 + HexValue(s[3]);
      Some(v)
  }

  function ShortEscape(c: char): Option<char> {
    match c
    case '"' => Some('"')
    case '\\' => Some('\\')
    case '/' => Some('/')
    case 'b' => Some('\U{8}')
    case 'f' => Some('\U{c}')
    case 'n' => Some('\n')
    case 'r' => Some('\r')
    case 't' => Some('\t')
    case _ => None
  }

  datatype Piece = Piece(c: char, length: nat)

  /** The character at the front of a JSON string body, and how much of the body spells it. */
  function DecodeFirst(s: string): (r: Option<Piece>)
    requires s != []
    ensures r.Some? ==> 1 <= r.value.length <= |s|
  {
    if s[0] == '"' || s[0] < ' ' then None
    else if s[0] != '\\' then Some(Piece(s[0], 1))
    else if |s| == 1 then None
    else if s[1] != 'u' then
      match ShortEscape(s[1]) case Some(c) => Some(Piece(c, 2)) case None => None
    else match CodeUnit(s[2..])
      case None => None
      case Some(u) =>
        if u < 0xD800 || 0xE000 <= u then Some(Piece(u as char, 6))
        else if u < 0xDC00 && |s| >= 8 && s[6] == '\\' && s[7] == 'u' then
          match CodeUnit(s[8..])
          case Some(low) =>
            if 0xDC00 <= low < 0xE000 then
              Some(Piece((0x10000 + (u - 0xD800) * 0x400 + (low - 0xDC00)) as char, 12))
            else None
          case None => None
        else None
  }

  /** A JSON string body, decoded. */
  function Decode(s: string): Option<string>
    decreases |s|
  {
    if s == [] then Some([])
    else match DecodeFirst(s)
      case None => None
      case Some(p) =>
        match Decode(s[p.length..]) case None => None case Some(t) => Some([p.c] + t)
  }

  lemma CodeUnitOfHex4(n: nat, rest: string)
    requires n < 0x10000
    ensures CodeUnit(Hex4(n) + rest) == Some(n)
  {
    var s := Hex4(n) + rest;
    HexDigitValue(n / 0x1000);
    HexDigitValue(n / 0x100 % 16);
    HexDigitValue(n / 16 % 16);
    HexDigitValue(n % 16);
    assert s[0] == Hex4(n)[0] && s[1] == Hex4(n)[1] && s[2] == Hex4(n)[2] && s[3] == Hex4(n)[3];
    HexExpansion(n);
  }

  lemma HexDigitValue(d: nat)
    requires d < 16
    ensures HexValue(HexDigit(d)) == d
  {
  }

  lemma HexExpansion(n: nat)
    requires n < 0x10000
    ensures n / 0x1000 * 0x1000 + n / 0x100 % 16 * 0x100 + n / 16 % 16 * 16 + n % 16 == n
  {
    assert n / 0x100 == n / 16 / 16 && n / 0x1000 == n / 16 / 16 / 16;
  }

  lemma DecodeEscapedChar(style: Style, c: char, rest: string)
    ensures DecodeFirst(EscapedChar(style, c) + rest) == Some(Piece(c, |EscapedChar(style, c)|))
  {
    var e := EscapedChar(style, c);
    var s := e + rest;
    if |e| == 6 {
      assert s[2..] == Hex4(c as nat) + rest;
      CodeUnitOfHex4(c as nat, rest);
    }
  }

  /** Round trip: decoding what either escaper wrote gives back the text, for every text. */
  lemma {:induction false} DecodeEscaped(style: Style, text: string)
    ensures Decode(Escaped(style, text)) == Some(text)
  {
    if text != [] {
      var e, rest := EscapedChar(style, text[0]), Escaped(style, text[1..]);
      DecodeEscapedChar(style, text[0], rest);
      assert (e + rest)[|e|..] == rest;
      DecodeEscaped(style, text[1..]);
      assert [text[0]] + text[1..] == text;
    }
  }

  // ---------------------------------------------------------------- the quote scan

  function Shift(r: Option<nat>, n: nat): Option<nat> {
    match r case Some(k) => Some(k + n) case None => None
  }

  /** The first quote that no backslash escapes. */
  function ScanQuote(s: string): (r: Option<nat>)
    ensures r.Some? ==> r.value < |s| && s[r.value] == '"'
    decreases |s|
  {
    if s == [] then None
    else if s[0] == '\\' then if |s| == 1 then None else Shift(ScanQuote(s[2..]), 2)
    else if s[0] == '"' then Some(0)
    else Shift(ScanQuote(s[1..]), 1)
  }

  lemma {:induction false} ScanPlain(plain: string, rest: string)
    requires '"' !in plain && '\\' !in plain
    ensures ScanQuote(plain + rest) == Shift(ScanQuote(rest), |plain|)
  {
    if plain == [] {
      assert plain + rest == rest;
    } else {
      assert (plain + rest)[1..] == plain[1..] + rest;
      ScanPlain(plain[1..], rest);
    }
  }

  lemma ScanEscapedChar(style: Style, c: char, rest: string)
    ensures ScanQuote(EscapedChar(style, c) + rest)
         == Shift(ScanQuote(rest), |EscapedChar(style, c)|)
  {
    var e := EscapedChar(style, c);
    if e[0] == '\\' {
      assert (e + rest)[2..] == e[2..] + rest;
      ScanPlain(e[2..], rest);
    } else {
      ScanPlain(e, rest);
    }
  }

  /** The scanner and the escapers agree: over escaped text and a closing quote, whatever follows,
      the scan stops exactly at the end of the escaped text. */
  lemma {:induction false} ScanEscaped(style: Style, text: string, rest: string)
    ensures ScanQuote(Escaped(style, text) + ("\"" + rest)) == Some(|Escaped(style, text)|)
  {
    if text == [] {
      assert Escaped(style, text) + ("\"" + rest) == "\"" + rest;
    } else {
      ScanEscaped(style, text[1..], rest);
      ScanEscapedCons(style, text[0], Escaped(style, text[1..]), "\"" + rest);
    }
  }

  lemma ScanEscapedCons(style: Style, c: char, tail: string, rest: string)
    requires ScanQuote(tail + rest) == Some(|tail|)
    ensures ScanQuote(EscapedChar(style, c) + tail + rest) == Some(|EscapedChar(style, c) + tail|)
  {
    ScanEscapedChar(style, c, tail + rest);
    Associative(EscapedChar(style, c), tail, rest);
  }

  /** The scan looks no further than the quote it stops at. */
  lemma {:induction false} ScanDependsOnPrefix(s: string, t: string, k: nat)
    requires ScanQuote(s) == Some(k) && k < |t| && s[..k + 1] == t[..k + 1]
    ensures ScanQuote(t) == Some(k)
    decreases |s|
  {
    assert s[0] == s[..k + 1][0] == t[0];
    if s[0] == '\\' {
      assert s[2..][..k - 1] == s[..k + 1][2..] == t[..k + 1][2..] == t[2..][..k - 1];
      ScanDependsOnPrefix(s[2..], t[2..], k - 2);
    } else if s[0] != '"' {
      assert s[1..][..k] == s[..k + 1][1..] == t[..k + 1][1..] == t[1..][..k];
      ScanDependsOnPrefix(s[1..], t[1..], k - 1);
    }
  }
}
