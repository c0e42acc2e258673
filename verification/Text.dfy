/** Character classes, decimal numbers, splitting, trimming and substring search, as the Rust
    standard library defines them.  Every scanner of the harness is written on top of these. */
module Text {

  datatype Option<+T> = None | Some(value: T)

  type Byte = b: int | 0 <= b < 256

  function Min(a: nat, b: nat): nat { if a <= b then a else b }

  function Max(a: nat, b: nat): nat { if a <= b then b else a }

  const ESC: char := '\U{1b}'

  // ---------------------------------------------------------------- character classes

  predicate IsDigit(c: char) { '0' <= c <= '9' }

  predicate IsAlphabetic(c: char) { 'a' <= c <= 'z' || 'A' <= c <= 'Z' }

  /** `char::is_control`: the Unicode category Cc. */
  predicate IsControl(c: char) { c < ' ' || '\U{7f}' <= c <= '\U{9f}' }

  /** `char::is_whitespace`: the Unicode property White_Space. */
  predicate IsWhitespace(c: char) {
    || '\t' <= c <= '\r' || c == ' ' || c == '\U{85}' || c == '\U{a0}' || c == '\U{1680}'
    || '\U{2000}' <= c <= '\U{200a}' || c == '\U{2028}' || c == '\U{2029}' || c == '\U{202f}'
    || c == '\U{205f}' || c == '\U{3000}'
  }

  // ---------------------------------------------------------------- decimal numbers

  function DigitChar(d: nat): (c: char)
    requires d < 10
    ensures IsDigit(c) && c as nat - '0' as nat == d
  {
    ('0' as nat + d) as char
  }

  function Decimal(n: nat): (s: string)
    ensures |s| >= 1 && forall i :: 0 <= i < |s| ==> IsDigit(s[i])
  {
    if n < 10 then [DigitChar(n)] else Decimal(n / 10) + [DigitChar(n % 10)]
  }

  predicate AllDigits(s: string) { forall i :: 0 <= i < |s| ==> IsDigit(s[i]) }

  function DigitsValue(s: string): nat
    requires AllDigits(s)
  {
    if s == [] then 0
    else DigitsValue(s[..|s| - 1]) * 10 + (s[|s| - 1] as nat - '0' as nat)
  }

  /** `str::parse` into an unsigned integer of `limit` values: one optional `+`, then at least one
      digit, and an overflow is an error. */
  function ParseUnsigned(s: string, limit: nat): Option<nat> {
    var digits := if s != [] && s[0] == '+' then s[1..] else s;
    if digits == [] || !AllDigits(digits) || DigitsValue(digits) >= limit then None
    else Some(DigitsValue(digits))
  }

  lemma {:induction false} DecimalValue(n: nat)
    ensures DigitsValue(Decimal(n)) == n
  {
    if n >= 10 {
      DecimalValue(n / 10);
      assert Decimal(n)[..|Decimal(n)| - 1] == Decimal(n / 10);
    }
  }

  /** Printing a number in decimal and parsing it back is the identity below the limit. */
  lemma ParseDecimal(n: nat, limit: nat)
    ensures ParseUnsigned(Decimal(n), limit) == if n < limit then Some(n) else None
  {
    DecimalValue(n);
    assert IsDigit(Decimal(n)[0]);
  }

  /** A plus sign in front of the number is part of it; anything else is no number. */
  lemma ParseSigned(n: nat, limit: nat)
    ensures ParseUnsigned("+" + Decimal(n), limit) == if n < limit then Some(n) else None
    ensures ParseUnsigned("", limit) == ParseUnsigned("+", limit) == None
  {
    assert ("+" + Decimal(n))[1..] == Decimal(n) && "+"[1..] == "";
    DecimalValue(n);
  }

  // ---------------------------------------------------------------- machine words

  const U16: nat := 0x1_0000
  const U32: nat := 0x1_0000_0000
  const U64: nat := 0x1_0000_0000_0000_0000

  // ---------------------------------------------------------------- splitting and joining

  /** The index of the first `sep`, or the length. */
  function IndexOf(s: string, sep: char): (k: nat)
    ensures k <= |s| && (k < |s| ==> s[k] == sep)
  {
    if s == [] || s[0] == sep then 0 else 1 + IndexOf(s[1..], sep)
  }

  /** `str::split` on one character. */
  function Split(s: string, sep: char): (parts: seq<string>)
    ensures |parts| >= 1
    decreases |s|
  {
    var k := IndexOf(s, sep);
    if k == |s| then [s] else [s[..k]] + Split(s[k + 1..], sep)
  }

  function Join(parts: seq<string>, sep: char): string
    requires |parts| >= 1
  {
    if |parts| == 1 then parts[0] else parts[0] + [sep] + Join(parts[1..], sep)
  }

  lemma IndexOfPrefix(a: string, rest: string, sep: char)
    requires sep !in a
    requires rest == [] || rest[0] == sep
    ensures IndexOf(a + rest, sep) == |a|
  {
    if a == [] {
      assert a + rest == rest;
    } else {
      assert (a + rest)[1..] == a[1..] + rest;
      IndexOfPrefix(a[1..], rest, sep);
    }
  }

  lemma SplitCons(a: string, rest: string, sep: char)
    requires sep !in a
    ensures Split(a, sep) == [a]
    ensures Split(a + [sep] + rest, sep) == [a] + Split(rest, sep)
  {
    IndexOfPrefix(a, [], sep);
    assert a + [] == a;
    var s := a + ([sep] + rest);
    assert s == a + [sep] + rest;
    IndexOfPrefix(a, [sep] + rest, sep);
    assert s[..|a|] == a && s[|a| + 1..] == rest;
  }

  lemma {:induction false} SplitJoin(parts: seq<string>, sep: char)
    requires |parts| >= 1
    requires forall i :: 0 <= i < |parts| ==> sep !in parts[i]
    ensures Split(Join(parts, sep), sep) == parts
  {
    if |parts| == 1 {
      SplitCons(parts[0], [], sep);
    } else {
      SplitCons(parts[0], Join(parts[1..], sep), sep);
      SplitJoin(parts[1..], sep);
    }
  }

  lemma DropDrop<T>(s: seq<T>, a: nat, b: nat)
    requires a + b <= |s|
    ensures s[a..][b..] == s[a + b..]
  {
  }

  lemma DropTake<T>(s: seq<T>, a: nat, k: nat)
    requires a + k <= |s|
    ensures s[a..][..k] == s[a..a + k]
  {
  }

  lemma SliceSlice<T>(s: seq<T>, a: nat, b: nat, lo: nat, hi: nat)
    requires a <= b <= |s| && lo <= hi <= b - a
    ensures s[a..b][lo..hi] == s[a + lo..a + hi]
  {
    var left, right := s[a..b][lo..hi], s[a + lo..a + hi];
    assert forall i :: 0 <= i < |left| ==> left[i] == s[a..b][lo + i] == s[a + lo + i] == right[i];
  }

  lemma SliceJoin<T>(s: seq<T>, a: nat, b: nat, c: nat)
    requires a <= b <= c <= |s|
    ensures s[a..b] + s[b..c] == s[a..c]
  {
  }

  /** Two slices that agree element by element. */
  lemma SlicesAgree<T>(a: seq<T>, i: nat, b: seq<T>, j: nat, n: nat)
    requires i + n <= |a| && j + n <= |b| && forall k :: i <= k < i + n ==> a[k] == b[k - i + j]
    ensures a[i..i + n] == b[j..j + n]
  {
    var left, right := a[i..i + n], b[j..j + n];
    assert forall k :: 0 <= k < n ==> left[k] == a[i + k] && right[k] == b[j + k];
  }

  lemma EmptyPrefix<T>(s: seq<T>)
    ensures [] + s == s
  {
  }

  lemma EmptySuffix<T>(s: seq<T>)
    ensures s + [] == s
  {
  }

  lemma ConcatDrop<T>(a: seq<T>, b: seq<T>, k: nat)
    requires k <= |b|
    ensures (a + b)[|a| + k..] == b[k..]
  {
    assert (a + b)[|a| + k..] == b[k..];
  }

  lemma Associative<T>(a: seq<T>, b: seq<T>, c: seq<T>)
    ensures a + b + c == a + (b + c)
  {
  }

  function Concat<T>(parts: seq<seq<T>>): seq<T> {
    if parts == [] then [] else parts[0] + Concat(parts[1..])
  }

  /** `filter_map(parse)`: the fields that are numbers. */
  function Numbers(fields: seq<string>, limit: nat): seq<nat> {
    if fields == [] then []
    else (match ParseUnsigned(fields[0], limit) case Some(n) => [n] case None => [])
         + Numbers(fields[1..], limit)
  }

  // ---------------------------------------------------------------- lines

  function StripCarriageReturn(s: string): string {
    if s != [] && s[|s| - 1] == '\r' then s[..|s| - 1] else s
  }

  /** `str::lines`: split on newlines, drop one trailing carriage return of each line, and ignore
      the empty remainder after a final newline. */
  function Lines(s: string): seq<string>
    decreases |s|
  {
    if s == [] then []
    else
      var k := IndexOf(s, '\n');
      if k == |s| then [s]
      else [StripCarriageReturn(s[..k])] + Lines(s[k + 1..])
  }

  /** A newline-terminated first line is the first element of `Lines`. */
  lemma LinesCons(line: string, rest: string)
    requires '\n' !in line
    ensures Lines(line + "\n" + rest) == [StripCarriageReturn(line)] + Lines(rest)
  {
    IndexOfPrefix(line, "\n" + rest, '\n');
    var s := line + ("\n" + rest);
    assert s == line + "\n" + rest;
    assert s[..|line|] == line && s[|line| + 1..] == rest;
  }

  /** A line ends at its newline, and one carriage return before that is not part of it. */
  lemma LinesReturned(line: string, rest: string)
    requires '\n' !in line
    ensures Lines(line + "\r" + "\n" + rest) == [line] + Lines(rest)
  {
    LinesCons(line + "\r", rest);
    assert (line + "\r")[..|line|] == line;
  }

  /** A last line without its newline is a line, as it stands. */
  lemma LinesLast(line: string)
    requires '\n' !in line && line != []
    ensures Lines(line) == [line]
  {
    IndexOfPrefix(line, [], '\n');
    assert line + [] == line;
  }

  // ---------------------------------------------------------------- trimming

  function TrimStart(s: string): (r: string)
    ensures |r| <= |s| && s[|s| - |r|..] == r
  {
    if s != [] && IsWhitespace(s[0]) then TrimStart(s[1..]) else s
  }

  function TrimEnd(s: string): (r: string)
    ensures |r| <= |s| && s[..|r|] == r
  {
    if s != [] && IsWhitespace(s[|s| - 1]) then TrimEnd(s[..|s| - 1]) else s
  }

  function Trim(s: string): string { TrimEnd(TrimStart(s)) }

  /** Trimming the end takes every blank from there, and nothing else. */
  lemma {:induction false} TrimEndIsExact(s: string)
    ensures var r := TrimEnd(s);
            && |r| <= |s| && s[..|r|] == r && (r != [] ==> !IsWhitespace(r[|r| - 1]))
            && forall i :: |r| <= i < |s| ==> IsWhitespace(s[i])
  {
    if s != [] && IsWhitespace(s[|s| - 1]) {
      var init := s[..|s| - 1];
      TrimEndIsExact(init);
      assert forall i :: 0 <= i < |init| ==> init[i] == s[i];
    }
  }

  /** ... and likewise at the start. */
  lemma {:induction false} TrimStartIsExact(s: string)
    ensures var r := TrimStart(s);
            && |r| <= |s| && s[|s| - |r|..] == r && (r != [] ==> !IsWhitespace(r[0]))
            && forall i :: 0 <= i < |s| - |r| ==> IsWhitespace(s[i])
  {
    if s != [] && IsWhitespace(s[0]) {
      var rest := s[1..];
      TrimStartIsExact(rest);
      assert forall i :: 1 <= i < |s| ==> s[i] == rest[i - 1];
    }
  }

  ghost predicate AllBlank(s: string) { forall i :: 0 <= i < |s| ==> IsWhitespace(s[i]) }

  lemma {:induction false} TrimStartSkips(pad: string, text: string)
    requires AllBlank(pad) && text != [] && !IsWhitespace(text[0])
    ensures TrimStart(pad + text) == text
  {
    if pad == [] {
      assert pad + text == text;
    } else {
      assert (pad + text)[0] == pad[0] && (pad + text)[1..] == pad[1..] + text;
      TrimStartSkips(pad[1..], text);
    }
  }

  lemma {:induction false} TrimEndSkips(text: string, pad: string)
    requires AllBlank(pad) && text != [] && !IsWhitespace(text[|text| - 1])
    ensures TrimEnd(text + pad) == text
  {
    if pad == [] {
      assert text + pad == text;
    } else {
      var s := text + pad;
      assert s[|s| - 1] == pad[|pad| - 1] && s[..|s| - 1] == text + pad[..|pad| - 1];
      TrimEndSkips(text, pad[..|pad| - 1]);
    }
  }

  /** Blanks around solid text are trimmed, and nothing else. */
  lemma TrimCore(before: string, core: string, after: string)
    requires AllBlank(before) && AllBlank(after) && core != []
    requires !IsWhitespace(core[0]) && !IsWhitespace(core[|core| - 1])
    ensures Trim(before + (core + after)) == core
  {
    assert (core + after)[0] == core[0];
    TrimStartSkips(before, core + after);
    TrimEndSkips(core, after);
  }

  lemma DigitsTrimmed(digits: string)
    requires AllDigits(digits)
    ensures Trim(digits) == digits
  {
    if digits != [] {
      assert IsDigit(digits[0]) && IsDigit(digits[|digits| - 1]);
      DigitIsSolid(digits[0]);
      DigitIsSolid(digits[|digits| - 1]);
      SolidTrimmed(digits);
    }
  }

  lemma DigitIsSolid(c: char)
    requires IsDigit(c)
    ensures !IsWhitespace(c)
  {
  }

  /** Text that neither begins nor ends with whitespace. */
  lemma SolidTrimmed(s: string)
    requires s != [] && !IsWhitespace(s[0]) && !IsWhitespace(s[|s| - 1])
    ensures Trim(s) == s
  {
    assert TrimStart(s) == s;
    assert TrimEnd(s) == s;
  }

  /** `trim_start_matches` on one character. */
  function TrimStartChar(s: string, c: char): (r: string)
    ensures |r| <= |s| && s[|s| - |r|..] == r
    ensures r == [] || r[0] != c
  {
    if s != [] && s[0] == c then TrimStartChar(s[1..], c) else s
  }

  /** `trim_matches` on one character. */
  function TrimChar(s: string, c: char): string { TrimEndChar(TrimStartChar(s, c), c) }

  function TrimEndChar(s: string, c: char): (r: string)
    ensures |r| <= |s| && s[..|r|] == r
  {
    if s != [] && s[|s| - 1] == c then TrimEndChar(s[..|s| - 1], c) else s
  }

  // ---------------------------------------------------------------- substring search

  predicate OccursAt<T(==)>(s: seq<T>, needle: seq<T>, p: nat) {
    p + |needle| <= |s| && s[p..p + |needle|] == needle
  }

  predicate StartsWith(s: string, prefix: string) { OccursAt(s, prefix, 0) }

  /** The first occurrence of `needle` at or after `from`. */
  function FindFrom<T(==)>(s: seq<T>, needle: seq<T>, from: nat): (r: Option<nat>)
    ensures r.Some? ==> from <= r.value && OccursAt(s, needle, r.value)
    decreases |s| - from
  {
    if from + |needle| > |s| then None
    else if OccursAt(s, needle, from) then Some(from)
    else FindFrom(s, needle, from + 1)
  }

  function Find<T(==)>(s: seq<T>, needle: seq<T>): Option<nat> { FindFrom(s, needle, 0) }

  lemma FindIsFirst<T>(s: seq<T>, needle: seq<T>)
    ensures Find(s, needle).Some? ==> OccursAt(s, needle, Find(s, needle).value)
    ensures forall p: nat :: (Find(s, needle).Some? ==> p < Find(s, needle).value) ==>
              !OccursAt(s, needle, p)
  {
    FindFromIsFirst(s, needle, 0);
  }

  predicate Contains<T(==)>(s: seq<T>, needle: seq<T>) { Find(s, needle).Some? }

  lemma {:induction false} FindFromIsFirst<T>(s: seq<T>, needle: seq<T>, from: nat)
    ensures var r := FindFrom(s, needle, from);
            forall p: nat :: from <= p && (r.Some? ==> p < r.value) ==> !OccursAt(s, needle, p)
    decreases |s| - from
  {
    if from + |needle| <= |s| && !OccursAt(s, needle, from) {
      FindFromIsFirst(s, needle, from + 1);
    }
  }

  /** The first occurrence is the only value `FindFrom` can have. */
  lemma FindIs<T>(s: seq<T>, needle: seq<T>, from: nat, p: nat)
    requires from <= p && OccursAt(s, needle, p)
    requires forall q :: from <= q < p ==> !OccursAt(s, needle, q)
    ensures FindFrom(s, needle, from) == Some(p)
  {
    FindFromIsFirst(s, needle, from);
  }

  lemma NotInSlice<T>(x: T, s: seq<T>, lo: nat, hi: nat)
    requires lo <= hi <= |s| && x !in s[lo..hi]
    ensures forall i :: lo <= i < hi ==> s[i] != x
  {
    assert forall i :: lo <= i < hi ==> s[i] == s[lo..hi][i - lo];
  }

  /** An occurrence, character by character. */
  lemma OccursAtChars<T>(s: seq<T>, needle: seq<T>, p: nat)
    requires OccursAt(s, needle, p)
    ensures forall j :: p <= j < p + |needle| ==> s[j] == needle[j - p]
  {
    assert forall j :: p <= j < p + |needle| ==> s[j] == s[p..p + |needle|][j - p];
  }

  /** `matches`: the leftmost non-overlapping occurrences at or after `from`. */
  function Matches<T(==)>(s: seq<T>, needle: seq<T>, from: nat): (ms: seq<nat>)
    requires needle != []
    decreases |s| - from
  {
    match FindFrom(s, needle, from)
    case None => []
    case Some(p) => [p] + Matches(s, needle, p + |needle|)
  }

  lemma OccursAtShift<T>(a: seq<T>, s: seq<T>, needle: seq<T>, p: nat)
    ensures OccursAt(a + s, needle, |a| + p) <==> OccursAt(s, needle, p)
  {
    if p + |needle| <= |s| {
      assert (a + s)[|a| + p..|a| + p + |needle|] == s[p..p + |needle|];
    }
  }
}
