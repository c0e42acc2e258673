/** Lossy decoding of UTF-8 (section 3 of RFC 3629), as `String::from_utf8_lossy` does it: every
    ill-formed stretch becomes one replacement character. */
module Utf8 {
  import opened Text

  const REPLACEMENT: char := '\U{fffd}'

  predicate IsContinuation(b: Byte) { 0x80 <= b <= 0xbf }

  /** How many bytes the character takes that this byte starts; zero when it starts none. */
  function Width(b: Byte): (n: nat)
    ensures n <= 4
  {
    if b < 0x80 then 1
    else if 0xc2 <= b <= 0xdf then 2
    else if 0xe0 <= b <= 0xef then 3
    else if 0xf0 <= b <= 0xf4 then 4
    else 0
  }

  /** The second byte shuts out overlong forms, surrogates and what lies beyond the last character. */
  predicate SecondFits(first: Byte, second: Byte) {
    && IsContinuation(second)
    && (first == 0xe0 ==> second >= 0xa0) && (first == 0xed ==> second <= 0x9f)
    && (first == 0xf0 ==> second >= 0x90) && (first == 0xf4 ==> second <= 0x8f)
  }

  /** The first character, or the first ill-formed stretch: as far as a character could have begun. */
  function ChunkLength(s: seq<Byte>): (n: nat)
    requires s != []
    ensures 1 <= n <= |s| && n <= 4
  {
    var width := Width(s[0]);
    if width <= 1 || |s| < 2 || !SecondFits(s[0], s[1]) then 1
    else if width == 2 || |s| < 3 || !IsContinuation(s[2]) then 2
    else if width == 3 || |s| < 4 || !IsContinuation(s[3]) then 3
    else 4
  }

  function Tail6(b: Byte): (n: nat)
    requires IsContinuation(b)
    ensures n < 64
  {
    b - 0x80
  }

  function ChunkChar(s: seq<Byte>): char
    requires s != []
  {
    var n := ChunkLength(s);
    if Width(s[0]) != n then REPLACEMENT
    else if n == 1 then s[0] as char
    else if n == 2 then ((s[0] - 0xc0) * 64 + Tail6(s[1])) as char
    else if n == 3 then ((s[0] - 0xe0) * 4096 + Tail6(s[1]) * 64 + Tail6(s[2])) as char
    else ((s[0] - 0xf0) * 0x4_0000 + Tail6(s[1]) * 4096 + Tail6(s[2]) * 64 + Tail6(s[3])) as char
  }

  function Decode(s: seq<Byte>): string
    decreases |s|
  {
    if s == [] then [] else [ChunkChar(s)] + Decode(s[ChunkLength(s)..])
  }

  /** Every byte of a chunk after its first is a continuation. */
  lemma ChunkContinues(s: seq<Byte>)
    requires s != []
    ensures forall i :: 0 < i < ChunkLength(s) ==> IsContinuation(s[i])
  {
  }

  ghost predicate StartsChunk(s: seq<Byte>) { s == [] || !IsContinuation(s[0]) }

  /** No chunk reaches over a byte that is no continuation. */
  lemma ChunkStops(u: seq<Byte>, v: seq<Byte>)
    requires u != [] && StartsChunk(v)
    ensures ChunkLength(u + v) == ChunkLength(u) && ChunkChar(u + v) == ChunkChar(u)
  {
    var s := u + v;
    assert forall i :: 0 <= i < |u| ==> s[i] == u[i];
    assert |s| > |u| ==> s[|u|] == v[0];
  }

  /** Decoding splits before every byte that is no continuation. */
  lemma {:induction false} DecodeAppend(u: seq<Byte>, v: seq<Byte>)
    requires StartsChunk(v)
    ensures Decode(u + v) == Decode(u) + Decode(v)
    decreases |u|
  {
    if u == [] {
      assert u + v == v;
    } else {
      var n := ChunkLength(u);
      ChunkStops(u, v);
      assert (u + v)[n..] == u[n..] + v;
      DecodeAppend(u[n..], v);
      Associative([ChunkChar(u)], Decode(u[n..]), Decode(v));
    }
  }

  function Replacements(n: nat): (s: string)
    ensures |s| == n && forall i :: 0 <= i < n ==> s[i] == REPLACEMENT
  {
    seq(n, _ => REPLACEMENT)
  }

  lemma ReplacementsCons(n: nat, rest: string)
    ensures Replacements(n + 1) + rest == [REPLACEMENT] + (Replacements(n) + rest)
  {
  }

  /** A continuation without a beginning is replaced on its own. */
  lemma LoneContinuation(s: seq<Byte>)
    requires s != [] && IsContinuation(s[0])
    ensures Decode(s) == [REPLACEMENT] + Decode(s[1..])
  {
    assert Width(s[0]) == 0;
  }

  lemma {:induction false} LoneContinuations(s: seq<Byte>, n: nat)
    requires n <= |s| && forall i :: 0 <= i < n ==> IsContinuation(s[i])
    ensures Decode(s) == Replacements(n) + Decode(s[n..])
    decreases n
  {
    if n > 0 {
      LoneContinuation(s);
      LoneContinuations(s[1..], n - 1);
      DropDrop(s, 1, n - 1);
      ReplacementsCons(n - 1, Decode(s[n..]));
    }
  }

  lemma CutInChunk(s: seq<Byte>, cut: nat, n: nat, kept: seq<Byte>, rest: seq<Byte>)
    requires s != [] && n == ChunkLength(s) && 0 < cut < n && kept == s[cut..] && rest == s[n..]
    ensures Decode(kept) == Replacements(n - cut) + Decode(rest)
  {
    ChunkContinues(s);
    DropDrop(s, cut, n - cut);
    KeptContinues(s, cut, n, kept);
    LoneContinuations(kept, n - cut);
  }

  lemma KeptContinues(s: seq<Byte>, cut: nat, n: nat, kept: seq<Byte>)
    requires 0 < cut < n <= |s| && kept == s[cut..] && forall i :: 0 < i < n ==> IsContinuation(s[i])
    ensures forall i :: 0 <= i < n - cut ==> IsContinuation(kept[i])
  {
    assert forall i :: 0 <= i < n - cut ==> kept[i] == s[cut + i];
  }

  /** `kept` is some debris and a suffix of `text`. */
  ghost predicate IsCut(kept: string, text: string, debris: string, k: nat) {
    k <= |text| && kept == debris + text[k..] && ESC !in debris
  }

  lemma CutStep(s: seq<Byte>, n: nat, kept: string, debris: string, k: nat)
    requires s != [] && n == ChunkLength(s) && IsCut(kept, Decode(s[n..]), debris, k)
    ensures IsCut(kept, Decode(s), debris, k + 1)
  {
    ConcatDrop([ChunkChar(s)], Decode(s[n..]), k);
  }

  lemma CutNowhere(text: string)
    ensures IsCut(text, text, [], 0)
  {
    assert [] + text[0..] == text;
  }

  lemma CutToRest(n: nat, rest: string)
    ensures IsCut(Replacements(n) + rest, rest, Replacements(n), 0)
  {
    assert rest[0..] == rest;
  }

  /** Dropping any bytes from the front leaves some replacement characters, for a character cut in
      half, and a suffix of the decoded text. */
  lemma {:induction false} DecodeCut(s: seq<Byte>, cut: nat, kept: seq<Byte>) returns (debris: string, k: nat)
    requires cut <= |s| && kept == s[cut..]
    ensures IsCut(Decode(kept), Decode(s), debris, k)
    decreases |s|
  {
    if cut == 0 {
      debris, k := [], 0;
      assert kept == s;
      CutNowhere(Decode(s));
    } else {
      var n := ChunkLength(s);
      var rest := s[n..];
      if n <= cut {
        DropDrop(s, n, cut - n);
        debris, k := DecodeCut(rest, cut - n, kept);
      } else {
        debris, k := Replacements(n - cut), 0;
        CutInChunk(s, cut, n, kept, rest);
        CutToRest(n - cut, Decode(rest));
      }
      CutStep(s, n, Decode(kept), debris, k);
      k := k + 1;
    }
  }

  // ---------------------------------------------------------------- decoding inverts encoding

  /** The bytes of a character (the table of section 3 of RFC 3629). */
  function EncodeChar(c: char): (s: seq<Byte>)
    ensures s != []
  {
    var n := c as int;
    if n < 0x80 then [n]
    else if n < 0x800 then [0xc0 + n / 64, 0x80 + n % 64]
    else if n < 0x1_0000 then [0xe0 + n / 4096, 0x80 + n / 64 % 64, 0x80 + n % 64]
    else [0xf0 + n / 0x4_0000, 0x80 + n / 4096 % 64, 0x80 + n / 64 % 64, 0x80 + n % 64]
  }

  function Encode(text: string): seq<Byte> {
    if text == [] then [] else EncodeChar(text[0]) + Encode(text[1..])
  }

  /** Six bits and the rest. */
  lemma Sextets(n: nat)
    ensures n == n / 64 * 64 + n % 64
    ensures n == n / 4096 * 4096 + n / 64 % 64 * 64 + n % 64
    ensures n == n / 0x4_0000 * 0x4_0000 + n / 4096 % 64 * 4096 + n / 64 % 64 * 64 + n % 64
  {
    assert n / 64 / 64 == n / 4096;
    assert n / 4096 / 64 == n / 0x4_0000;
  }

  lemma DecodeTwo(c: char, s: seq<Byte>)
    requires 0x80 <= c as int < 0x800 && |s| >= 2
    requires s[0] == 0xc0 + c as int / 64 && s[1] == 0x80 + c as int % 64
    ensures ChunkLength(s) == 2 && ChunkChar(s) == c
  {
    Sextets(c as int);
  }

  lemma DecodeThree(c: char, s: seq<Byte>)
    requires 0x800 <= c as int < 0x1_0000 && |s| >= 3
    requires var n := c as int;
             s[0] == 0xe0 + n / 4096 && s[1] == 0x80 + n / 64 % 64 && s[2] == 0x80 + n % 64
    ensures ChunkLength(s) == 3 && ChunkChar(s) == c
  {
    Sextets(c as int);
  }

  lemma DecodeFour(c: char, s: seq<Byte>)
    requires 0x1_0000 <= c as int && |s| >= 4
    requires var n := c as int;
             && s[0] == 0xf0 + n / 0x4_0000 && s[1] == 0x80 + n / 4096 % 64
             && s[2] == 0x80 + n / 64 % 64 && s[3] == 0x80 + n % 64
    ensures ChunkLength(s) == 4 && ChunkChar(s) == c
  {
    Sextets(c as int);
  }

  lemma DecodeOneChar(c: char, rest: seq<Byte>)
    ensures var s := EncodeChar(c) + rest;
            ChunkLength(s) == |EncodeChar(c)| && ChunkChar(s) == c
  {
    var s, n := EncodeChar(c) + rest, c as int;
    assert forall i :: 0 <= i < |EncodeChar(c)| ==> s[i] == EncodeChar(c)[i];
    if n >= 0x1_0000 {
      DecodeFour(c, s);
    } else if n >= 0x800 {
      DecodeThree(c, s);
    } else if n >= 0x80 {
      DecodeTwo(c, s);
    }
  }

  /** Every text survives its encoding, whatever follows. */
  lemma {:induction false} DecodeEncoded(text: string, rest: seq<Byte>)
    ensures Decode(Encode(text) + rest) == text + Decode(rest)
    ensures Decode(Encode(text)) == text
  {
    if text == [] {
      assert Encode(text) + rest == rest && text + Decode(rest) == Decode(rest);
    } else {
      var c, more := text[0], Encode(text[1..]);
      DecodeEncoded(text[1..], rest);
      DecodeFirstChar(c, more + rest);
      DecodeFirstChar(c, more);
      Associative(EncodeChar(c), more, rest);
      Associative([c], text[1..], Decode(rest));
      assert [c] + text[1..] == text;
    }
  }

  lemma DecodeFirstChar(c: char, rest: seq<Byte>)
    ensures Decode(EncodeChar(c) + rest) == [c] + Decode(rest)
  {
    DecodeOneChar(c, rest);
    ConcatDrop(EncodeChar(c), rest, 0);
  }

  // ---------------------------------------------------------------- what is replaced

  /** Only encodings are decoded: a chunk is the encoding of the character it yields, or it is
      replaced.  Overlong forms, surrogates and values beyond the last character are not encodings. */
  lemma DecodedIsEncoding(s: seq<Byte>)
    requires s != []
    ensures s[..ChunkLength(s)] == EncodeChar(ChunkChar(s))
            || (ChunkChar(s) == REPLACEMENT && Width(s[0]) != ChunkLength(s))
  {
    var n := ChunkLength(s);
    if Width(s[0]) == n {
      if n == 2 {
        TwoIsEncoding(s[0], s[1], ChunkChar(s));
      } else if n == 3 {
        ThreeIsEncoding(s[0], s[1], s[2], ChunkChar(s));
      } else if n == 4 {
        FourIsEncoding(s[0], s[1], s[2], s[3], ChunkChar(s));
      }
      assert s[..n] == EncodeChar(ChunkChar(s));
    }
  }

  lemma TwoIsEncoding(a: Byte, b: Byte, c: char)
    requires Width(a) == 2 && SecondFits(a, b) && c as int == (a - 0xc0) * 64 + (b - 0x80)
    ensures EncodeChar(c) == [a, b]
  {
    Sextets(c as int);
  }

  lemma ThreeIsEncoding(a: Byte, b: Byte, d: Byte, c: char)
    requires Width(a) == 3 && SecondFits(a, b) && IsContinuation(d)
    requires c as int == (a - 0xe0) * 4096 + (b - 0x80) * 64 + (d - 0x80)
    ensures EncodeChar(c) == [a, b, d]
  {
    var n := c as int;
    assert n / 64 == (a - 0xe0) * 64 + (b - 0x80) && n % 64 == d - 0x80;
  }

  lemma FourIsEncoding(a: Byte, b: Byte, d: Byte, e: Byte, c: char)
    requires Width(a) == 4 && SecondFits(a, b) && IsContinuation(d) && IsContinuation(e)
    requires c as int == (a - 0xf0) * 0x4_0000 + (b - 0x80) * 4096 + (d - 0x80) * 64 + (e - 0x80)
    ensures EncodeChar(c) == [a, b, d, e]
  {
    var n := c as int;
    assert n / 64 == (a - 0xf0) * 4096 + (b - 0x80) * 64 + (d - 0x80) && n % 64 == e - 0x80;
    assert n / 4096 == (a - 0xf0) * 64 + (b - 0x80) && n / 64 % 64 == d - 0x80;
  }

  /** The bytes begin like the encoding of some character, `k` of them. */
  ghost predicate Begins(s: seq<Byte>, k: nat, c: char) {
    k <= |s| && k <= |EncodeChar(c)| && s[..k] == EncodeChar(c)[..k]
  }

  /** A chunk takes in everything that begins like a character. */
  lemma ChunkTakesAll(s: seq<Byte>, k: nat, c: char)
    requires 1 <= k && Begins(s, k, c)
    ensures ChunkLength(s) >= k
  {
    var e := EncodeChar(c);
    DecodeOneChar(c, []);
    assert e + [] == e;
    assert forall i :: 0 <= i < k ==> s[i] == s[..k][i] == e[..k][i] == e[i];
  }

  /** ... and nothing more: an ill-formed chunk of several bytes begins like a character, so it is the
      longest stretch that does. */
  lemma ChunkBegins(s: seq<Byte>) returns (c: char)
    requires s != [] && ChunkLength(s) >= 2
    ensures Begins(s, ChunkLength(s), c)
  {
    var n := ChunkLength(s);
    var filled := s[..n] + seq(Width(s[0]) - n, _ => 0x80);
    assert forall i :: 0 <= i < n ==> filled[i] == s[i];
    assert ChunkLength(filled) == Width(s[0]) == |filled|;
    c := ChunkChar(filled);
    DecodedIsEncoding(filled);
    assert filled[..|filled|] == filled && filled[..n] == s[..n];
  }
}
