/** Rewriting one string field of a document that holds one field per line. */
module JsonFields {
  import opened Text
  import opened Json

  function Needle(field: string): (n: string)
    ensures |n| == |field| + 8 && n[0] == '\n'
  {
    "\n  \"" + (field + "\": \"")
  }

  /** Where a field's value lies. */
  datatype Place = Missing | Unterminated | At(start: nat, end: nat)

  /** The first quote from `i` on that no backslash escapes. */
  function ScanFrom(s: string, i: nat): (r: Option<nat>)
    ensures r.Some? ==> i <= r.value < |s| && s[r.value] == '"'
    decreases |s| - i
  {
    if i >= |s| then None
    else if s[i] == '\\' then ScanFrom(s, i + 2)
    else if s[i] == '"' then Some(i)
    else ScanFrom(s, i + 1)
  }

  /** The value that begins at `start` and ends at the quote the scan stops at. */
  function PlaceFrom(json: string, start: nat): (r: Place)
    ensures r.At? ==> r.start == start <= r.end < |json| && json[r.end] == '"'
  {
    match ScanFrom(json, start) case None => Unterminated case Some(e) => At(start, e)
  }

  /** The value after the first needle. */
  function Locate(json: string, field: string): (r: Place)
    ensures r.At? ==> |Needle(field)| <= r.start <= r.end < |json| && json[r.end] == '"'
  {
    match Find(json, Needle(field))
    case None => Missing
    case Some(p) => PlaceFrom(json, p + |Needle(field)|)
  }

  function Value(json: string, field: string): Option<string> {
    match Locate(json, field) case At(s, e) => Some(json[s..e]) case _ => None
  }

  datatype Result = Ok(json: string) | NoField | NoEnd

  function Spliced(json: string, start: nat, end: nat, value: string): string
    requires start <= end <= |json|
  {
    json[..start] + value + json[end..]
  }

  function Rewrite(json: string, field: string, value: string): Result {
    match Locate(json, field)
    case Missing => NoField
    case Unterminated => NoEnd
    case At(s, e) => Ok(Spliced(json, s, e, value))
  }

  method ScanLoop(rest: string) returns (end: Option<nat>)
    ensures end == ScanFrom(rest, 0)
  {
    end := None;
    var i := 0;
    while i < |rest|
      invariant end.None? && ScanFrom(rest, 0) == ScanFrom(rest, i)
    {
      if rest[i] == '\\' {
        i := i + 2;
      } else if rest[i] == '"' {
        return Some(i);
      } else {
        i := i + 1;
      }
    }
  }

  method RewriteField(json: string, field: string, value: string) returns (r: Result)
    ensures r == Rewrite(json, field, value)
  {
    var needle := Needle(field);
    var found := Find(json, needle);
    if found.None? {
      return NoField;
    }
    var start := found.value + |needle|;
    var rest := json[start..];
    var end := ScanLoop(rest);
    LocateFound(json, field, found.value);
    SameScan(rest, 0, json, start);
    if end.None? {
      return NoEnd;
    }
    DropDrop(json, start, end.value);
    r := Ok(json[..start] + value + rest[end.value..]);
  }

  lemma LocateFound(json: string, field: string, p: nat)
    requires Find(json, Needle(field)) == Some(p)
    ensures p + |Needle(field)| <= |json| && Locate(json, field) == PlaceFrom(json, p + |Needle(field)|)
  {
  }

  // ---------------------------------------------------------------- the scan

  /** The same text from `i` and from `j` on. */
  ghost predicate SameTail(s: string, i: nat, t: string, j: nat) {
    |s| - i == |t| - j && forall k :: i <= k < |s| ==> s[k] == t[k - i + j]
  }

  lemma TailChars(s: string, i: nat, t: string, j: nat)
    requires i <= |s| && j <= |t| && s[i..] == t[j..]
    ensures SameTail(s, i, t, j)
  {
    forall k | i <= k < |s|
      ensures s[k] == t[k - i + j]
    {
      assert s[k] == s[i..][k - i] == t[j..][k - i];
    }
  }

  lemma {:induction false} ScanTail(s: string, i: nat, t: string, j: nat)
    requires SameTail(s, i, t, j)
    ensures match ScanFrom(s, i) case None => ScanFrom(t, j) == None case Some(e) => ScanFrom(t, j) == Some(e - i + j)
    decreases |s| - i
  {
    if i < |s| && s[i] != '"' {
      if s[i] == '\\' {
        ScanTail(s, i + 2, t, j + 2);
      } else {
        ScanTail(s, i + 1, t, j + 1);
      }
    }
  }

  /** The scan depends only on what follows. */
  lemma SameScan(s: string, i: nat, t: string, j: nat)
    requires i <= |s| && j <= |t| && s[i..] == t[j..]
    ensures match ScanFrom(s, i) case None => ScanFrom(t, j) == None case Some(e) => ScanFrom(t, j) == Some(e - i + j)
  {
    TailChars(s, i, t, j);
    ScanTail(s, i, t, j);
  }

  /** ... and looks no further than the quote it stops at. */
  lemma {:induction false} ScanKept(s: string, t: string, i: nat, e: nat)
    requires ScanFrom(s, i) == Some(e) && e < |t| && forall k :: i <= k <= e ==> s[k] == t[k]
    ensures ScanFrom(t, i) == Some(e)
    decreases |s| - i
  {
    if s[i] == '\\' {
      ScanKept(s, t, i + 2, e);
    } else if s[i] != '"' {
      ScanKept(s, t, i + 1, e);
    }
  }

  /** The scan never passes a quote that follows a character other than a backslash. */
  lemma {:induction false} ScanStopsBy(s: string, i: nat, k: nat)
    requires i < k < |s| && s[k] == '"' && s[k - 1] != '\\'
    ensures ScanFrom(s, i).Some? && ScanFrom(s, i).value <= k
    decreases |s| - i
  {
    if s[i] == '\\' {
      if i + 2 < k {
        ScanStopsBy(s, i + 2, k);
      }
    } else if s[i] != '"' && i + 1 < k {
      ScanStopsBy(s, i + 1, k);
    }
  }

  /** The same scan as the one that reads escaped text. */
  lemma {:induction false} ScanIs(s: string, i: nat)
    requires i <= |s|
    ensures ScanFrom(s, i) == Shift(ScanQuote(s[i..]), i)
    decreases |s| - i
  {
    var rest := s[i..];
    if i < |s| && s[i] != '"' {
      if s[i] != '\\' {
        DropDrop(s, i, 1);
        ScanIs(s, i + 1);
      } else if i + 2 <= |s| {
        DropDrop(s, i, 2);
        ScanIs(s, i + 2);
      }
    }
  }

  // ---------------------------------------------------------------- reading a rewrite back

  /** A value that fits between quotes: the scan stops exactly at its end. */
  ghost predicate Closed(value: string) { ScanQuote(value + "\"") == Some(|value|) }

  lemma EscapedIsClosed(style: Style, text: string)
    ensures Closed(Escaped(style, text)) && '\n' !in Escaped(style, text)
  {
    ScanEscaped(style, text, []);
    assert "\"" + [] == "\"";
    EscapedIsOneLine(style, text);
  }

  lemma {:induction false} EscapedIsOneLine(style: Style, text: string)
    ensures '\n' !in Escaped(style, text)
  {
    if text != [] {
      EscapedIsOneLine(style, text[1..]);
      assert '\n' !in EscapedChar(style, text[0]);
    }
  }

  lemma ScanClosed(value: string, rest: string)
    requires Closed(value)
    ensures ScanQuote(value + ("\"" + rest)) == Some(|value|)
  {
    var s, t := value + "\"", value + ("\"" + rest);
    assert s[..|value| + 1] == s == t[..|value| + 1];
    ScanDependsOnPrefix(s, t, |value|);
  }

  /** The needle of a rewritten field is found where it was, and its value is the new one. */
  lemma RewrittenPlace(json: string, field: string, value: string)
    requires Locate(json, field).At? && Closed(value)
    ensures var At(s, e) := Locate(json, field);
            Locate(Spliced(json, s, e, value), field) == At(s, s + |value|)
  {
    var At(s, e) := Locate(json, field);
    FindKept(json, field, s, e, value);
    SplicedValue(json, s, e, value);
    ScanClosed(value, json[e + 1..]);
    ScanIs(Spliced(json, s, e, value), s);
    LocateFound(Spliced(json, s, e, value), field, s - |Needle(field)|);
  }

  lemma SplicedValue(json: string, s: nat, e: nat, value: string)
    requires s <= e < |json| && json[e] == '"'
    ensures Spliced(json, s, e, value)[s..] == value + ("\"" + json[e + 1..])
  {
    assert json[e..] == "\"" + json[e + 1..];
    Associative(json[..s], value, json[e..]);
    ConcatDrop(json[..s], value + json[e..], 0);
  }

  /** The needle before a splice stays the first one. */
  lemma FindKept(json: string, field: string, s: nat, e: nat, value: string)
    requires Find(json, Needle(field)).Some? && s <= e <= |json|
    requires s == Find(json, Needle(field)).value + |Needle(field)|
    ensures Find(Spliced(json, s, e, value), Needle(field)) == Find(json, Needle(field))
  {
    var needle, doc := Needle(field), Spliced(json, s, e, value);
    var p := s - |needle|;
    forall q: nat | q <= p
      ensures OccursAt(doc, needle, q) <==> OccursAt(json, needle, q)
    {
      assert doc[q..q + |needle|] == json[q..q + |needle|];
    }
    FindIsFirst(json, needle);
    FindIs(doc, needle, 0, p);
  }

  /** Re-reading a rewritten field gives the new text, and the last write wins. */
  lemma LastWriteWins(json: string, field: string, first: string, second: string)
    requires Rewrite(json, field, first).Ok? && Closed(first)
    ensures var doc := Rewrite(json, field, first).json;
            && Value(doc, field) == Some(first)
            && Rewrite(doc, field, second) == Rewrite(json, field, second)
  {
    var At(s, e) := Locate(json, field);
    var doc := Spliced(json, s, e, first);
    RewrittenPlace(json, field, first);
    assert doc[s..s + |first|] == first;
    assert doc[..s] == json[..s] && doc[s + |first|..] == json[e..];
  }

  lemma RewrittenTextReadsBack(json: string, field: string, style: Style, text: string)
    requires Rewrite(json, field, Escaped(style, text)).Ok?
    ensures var raw := Value(Rewrite(json, field, Escaped(style, text)).json, field);
            raw.Some? && Decode(raw.value) == Some(text)
  {
    EscapedIsClosed(style, text);
    LastWriteWins(json, field, Escaped(style, text), []);
    DecodeEscaped(style, text);
  }

  // ---------------------------------------------------------------- two fields

  ghost predicate PlainName(field: string) {
    '"' !in field && '\\' !in field && '\n' !in field
  }

  /** Needles of different plain names cannot overlap: the only newline of each is its first
      character, and at one position only one of them fits. */
  lemma NeedlesApart(s: string, a: string, b: string, p: nat, q: nat)
    requires PlainName(a) && PlainName(b) && a != b
    requires OccursAt(s, Needle(a), p) && OccursAt(s, Needle(b), q)
    ensures p + |Needle(a)| <= q || q + |Needle(b)| <= p
  {
    OccursAtChars(s, Needle(a), p);
    OccursAtChars(s, Needle(b), q);
    NeedleOneNewline(a);
    NeedleOneNewline(b);
    if p == q {
      SameNeedle(a, b, s[p..]);
      assert false;
    }
  }

  lemma NeedleOneNewline(field: string)
    requires PlainName(field)
    ensures forall i :: 0 < i < |Needle(field)| ==> Needle(field)[i] != '\n'
  {
    var n := Needle(field);
    assert n == "\n  \"" + (field + "\": \"");
    assert forall i :: 4 <= i < 4 + |field| ==> n[i] == field[i - 4];
  }

  lemma NeedleName(field: string)
    ensures Needle(field)[4..4 + |field|] == field
  {
  }

  lemma SameNeedle(a: string, b: string, s: string)
    requires PlainName(a) && PlainName(b)
    requires |s| >= |Needle(a)| && s[..|Needle(a)|] == Needle(a)
    requires |s| >= |Needle(b)| && s[..|Needle(b)|] == Needle(b)
    ensures a == b
  {
    var na, nb := Needle(a), Needle(b);
    assert s[4 + |a|] == na[4 + |a|] == '"' && s[4 + |b|] == nb[4 + |b|] == '"';
    SliceSlice(s, 0, |na|, 4, 4 + |a|);
    SliceSlice(s, 0, |nb|, 4, 4 + |b|);
    NeedleName(a);
    NeedleName(b);
    assert s[0..|na|] == na && s[0..|nb|] == nb;
    NotInSlice('"', s, 4, 4 + |a|);
    NotInSlice('"', s, 4, 4 + |b|);
  }

  // ---------------------------------------------------------------- one needle across a splice

  /** The value at `s..e` follows a needle of `b`. */
  ghost predicate Follows(json: string, b: string, s: nat, e: nat) {
    |Needle(b)| <= s <= e <= |json| && OccursAt(json, Needle(b), s - |Needle(b)|)
  }

  lemma SplicedHead(json: string, s: nat, e: nat, v: string, lo: nat, hi: nat)
    requires lo <= hi <= s <= e <= |json|
    ensures Spliced(json, s, e, v)[lo..hi] == json[lo..hi]
  {
  }

  lemma SplicedTail(json: string, s: nat, e: nat, v: string, lo: nat, hi: nat)
    requires s <= e <= lo <= hi <= |json|
    ensures Spliced(json, s, e, v)[lo - e + s + |v|..hi - e + s + |v|] == json[lo..hi]
  {
    var head := json[..s] + v;
    assert |head| == s + |v|;
    var left := (head + json[e..])[lo - e + |head|..hi - e + |head|];
    assert forall i :: 0 <= i < |left| ==> left[i] == json[e..][lo - e + i] == json[lo + i];
    assert left == json[lo..hi];
  }

  lemma SplicedMiddle(json: string, s: nat, e: nat, v: string, q: nat)
    requires s <= e <= |json| && s <= q < s + |v|
    ensures Spliced(json, s, e, v)[q] == v[q - s]
  {
  }

  /** Where the splice takes a position outside the value it replaces. */
  function Moved(p: nat, s: nat, e: nat, length: nat): (q: int) {
    if p < s then p else p - e + s + length
  }

  /** A needle of another field that does not start inside the value survives as a whole. */
  lemma NeedleForth(json: string, a: string, b: string, s: nat, e: nat, v: string, p: nat)
    requires PlainName(a) && PlainName(b) && a != b && Follows(json, b, s, e)
    requires OccursAt(json, Needle(a), p) && !(s <= p < e)
    ensures p < s ==> p + |Needle(a)| <= s - |Needle(b)|
    ensures OccursAt(Spliced(json, s, e, v), Needle(a), Moved(p, s, e, |v|))
  {
    NeedlesApart(json, a, b, p, s - |Needle(b)|);
    if p < s {
      SplicedHead(json, s, e, v, p, p + |Needle(a)|);
    } else {
      SplicedTail(json, s, e, v, p, p + |Needle(a)|);
    }
  }

  lemma NeedleKept(json: string, b: string, s: nat, e: nat, v: string)
    requires Follows(json, b, s, e)
    ensures OccursAt(Spliced(json, s, e, v), Needle(b), s - |Needle(b)|)
  {
    SplicedHead(json, s, e, v, s - |Needle(b)|, s);
  }

  /** No needle of another field appears inside a one-line value or across its ends: each one after
      the splice was there before. */
  lemma NeedleBack(json: string, a: string, b: string, s: nat, e: nat, v: string, q: nat)
    requires PlainName(a) && PlainName(b) && a != b && Follows(json, b, s, e) && '\n' !in v
    requires OccursAt(Spliced(json, s, e, v), Needle(a), q)
    ensures q < s || s + |v| <= q
    ensures q < s ==> q + |Needle(a)| <= s - |Needle(b)| && OccursAt(json, Needle(a), q)
    ensures q >= s ==> OccursAt(json, Needle(a), q - |v| - s + e)
  {
    var doc := Spliced(json, s, e, v);
    NeedleKept(json, b, s, e, v);
    NeedlesApart(doc, a, b, q, s - |Needle(b)|);
    OccursAtChars(doc, Needle(a), q);
    if q < s {
      SplicedHead(json, s, e, v, q, q + |Needle(a)|);
    } else {
      if q < s + |v| {
        SplicedMiddle(json, s, e, v, q);
        assert false;
      }
      var p := q - |v| - s + e;
      SplicedTail(json, s, e, v, p, p + |Needle(a)|);
    }
  }

  // ---------------------------------------------------------------- places by their parts

  /** The first needle of the field is at `p`. */
  ghost predicate First(json: string, field: string, p: nat) {
    OccursAt(json, Needle(field), p) && forall q: nat :: q < p ==> !OccursAt(json, Needle(field), q)
  }

  ghost predicate Absent(json: string, field: string) {
    forall q: nat :: !OccursAt(json, Needle(field), q)
  }

  /** The scan that begins at `s` stops at `e`. */
  ghost predicate Stops(json: string, s: nat, e: nat) {
    ScanFrom(json, s) == Some(e)
  }

  ghost predicate Endless(json: string, s: nat) { s <= |json| && ScanFrom(json, s).None? }

  ghost predicate Located(json: string, field: string, s: nat, e: nat) {
    |Needle(field)| <= s && First(json, field, s - |Needle(field)|) && Stops(json, s, e)
  }

  lemma FirstIsFound(json: string, field: string, p: nat)
    requires First(json, field, p)
    ensures Find(json, Needle(field)) == Some(p)
  {
    FindIs(json, Needle(field), 0, p);
  }

  lemma LocateIs(json: string, field: string, s: nat, e: nat)
    ensures Located(json, field, s, e) <==> Locate(json, field) == At(s, e)
  {
    FindIsFirst(json, Needle(field));
    if Located(json, field, s, e) {
      FirstIsFound(json, field, s - |Needle(field)|);
      LocateFound(json, field, s - |Needle(field)|);
    }
    if Locate(json, field) == At(s, e) {
      LocateFound(json, field, Find(json, Needle(field)).value);
    }
  }

  lemma NotLocated(json: string, field: string, p: nat)
    requires Absent(json, field) || (First(json, field, p) && Endless(json, p + |Needle(field)|))
    ensures !Locate(json, field).At?
  {
    FindIsFirst(json, Needle(field));
    if !Absent(json, field) {
      FirstIsFound(json, field, p);
    }
  }

  lemma NotLocatedParts(json: string, field: string) returns (p: nat)
    requires !Locate(json, field).At?
    ensures Absent(json, field) || (First(json, field, p) && Endless(json, p + |Needle(field)|))
  {
    FindIsFirst(json, Needle(field));
    p := if Find(json, Needle(field)).Some? then Find(json, Needle(field)).value else 0;
  }

  lemma RewriteLocated(json: string, field: string, s: nat, e: nat, value: string)
    requires Located(json, field, s, e)
    ensures Rewrite(json, field, value) == Ok(Spliced(json, s, e, value))
  {
    LocateIs(json, field, s, e);
  }

  // ---------------------------------------------------------------- the needle of the other field

  lemma FirstMoves(json: string, a: string, b: string, s: nat, e: nat, v: string, p: nat)
    requires PlainName(a) && PlainName(b) && a != b && Follows(json, b, s, e) && '\n' !in v
    requires First(json, a, p) && !(s <= p < e)
    ensures p < s ==> p + |Needle(a)| <= s - |Needle(b)|
    ensures First(Spliced(json, s, e, v), a, Moved(p, s, e, |v|))
  {
    var doc := Spliced(json, s, e, v);
    NeedleForth(json, a, b, s, e, v, p);
    forall q: nat | q < Moved(p, s, e, |v|)
      ensures !OccursAt(doc, Needle(a), q)
    {
      if OccursAt(doc, Needle(a), q) {
        NeedleBack(json, a, b, s, e, v, q);
      }
    }
  }

  lemma AbsentMoves(json: string, a: string, b: string, s: nat, e: nat, v: string)
    requires PlainName(a) && PlainName(b) && a != b && Follows(json, b, s, e) && '\n' !in v
    requires Absent(json, a)
    ensures Absent(Spliced(json, s, e, v), a)
  {
    forall q: nat
      ensures !OccursAt(Spliced(json, s, e, v), Needle(a), q)
    {
      if OccursAt(Spliced(json, s, e, v), Needle(a), q) {
        NeedleBack(json, a, b, s, e, v, q);
      }
    }
  }

  // ---------------------------------------------------------------- the scan across a splice

  lemma StopsBefore(json: string, s: nat, e: nat, v: string, sa: nat, ea: nat)
    requires s <= e <= |json| && Stops(json, sa, ea) && ea < s
    ensures Stops(Spliced(json, s, e, v), sa, ea)
  {
    ScanKept(json, Spliced(json, s, e, v), sa, ea);
  }

  lemma SplicedRest(json: string, s: nat, e: nat, v: string, lo: nat)
    requires s <= e <= lo <= |json|
    ensures Spliced(json, s, e, v)[lo - e + s + |v|..] == json[lo..]
  {
    var head := json[..s] + v;
    assert |head| == s + |v|;
    ConcatDrop(head, json[e..], lo - e);
    DropDrop(json, e, lo - e);
  }

  lemma StopsAfter(json: string, s: nat, e: nat, v: string, sa: nat, ea: nat)
    requires s <= e <= sa && Stops(json, sa, ea)
    ensures Stops(Spliced(json, s, e, v), sa - e + s + |v|, ea - e + s + |v|)
  {
    SplicedRest(json, s, e, v, sa);
    SameScan(json, sa, Spliced(json, s, e, v), sa - e + s + |v|);
  }

  lemma EndlessAfter(json: string, s: nat, e: nat, v: string, sa: nat)
    requires s <= e <= sa && Endless(json, sa)
    ensures Endless(Spliced(json, s, e, v), sa - e + s + |v|)
  {
    SplicedRest(json, s, e, v, sa);
    SameScan(json, sa, Spliced(json, s, e, v), sa - e + s + |v|);
  }

  // ---------------------------------------------------------------- a needle inside a value

  /** The scan of a value does not get past the name's quote of a needle that follows. */
  lemma ScanStopsAtNeedle(json: string, s: nat, field: string, p: nat)
    requires s <= p && OccursAt(json, Needle(field), p)
    ensures !Endless(json, s) && forall e: nat :: Stops(json, s, e) ==> e <= p + 3
  {
    OccursAtChars(json, Needle(field), p);
    assert json[p + 3] == Needle(field)[3] == '"' && json[p + 2] == Needle(field)[2] == ' ';
    ScanStopsBy(json, s, p + 3);
  }

  /** So a needle that starts inside a value has the value end right before its name's quote. */
  lemma NeedleInValue(json: string, s: nat, e: nat, b: string, p: nat)
    requires Stops(json, s, e) && s <= p && OccursAt(json, Needle(b), p)
    ensures e < p || e == p + 3
  {
    ScanStopsAtNeedle(json, s, b, p);
    OccursAtChars(json, Needle(b), p);
    assert json[p] == '\n' && json[p + 1] == Needle(b)[1] == ' ' && json[p + 2] == Needle(b)[2] == ' ';
  }

  /** The value of `a` runs into the first needle of `b`: it ends in a line break and two spaces,
      right before `b`'s name. */
  predicate RunsInto(json: string, a: string, b: string) {
    && Locate(json, a).At? && Locate(json, b).At?
    && Locate(json, a).end == Locate(json, b).start - |Needle(b)| + 3
  }

  /** Which is to say: the first needle of `b` starts inside the value of `a`. */
  lemma RunsIntoIsInside(json: string, a: string, b: string)
    requires Locate(json, a).At? && Locate(json, b).At? && PlainName(a) && PlainName(b) && a != b
    ensures var pb := Locate(json, b).start - |Needle(b)|;
            RunsInto(json, a, b) <==> Locate(json, a).start <= pb < Locate(json, a).end
  {
    var At(sa, ea) := Locate(json, a);
    var At(sb, eb) := Locate(json, b);
    LocateIs(json, a, sa, ea);
    LocateIs(json, b, sb, eb);
    InsideValue(json, a, b, sa, ea, sb, eb);
  }

  lemma InsideValue(json: string, a: string, b: string, sa: nat, ea: nat, sb: nat, eb: nat)
    requires PlainName(a) && PlainName(b) && a != b && Located(json, a, sa, ea) && Located(json, b, sb, eb)
    ensures ea == sb - |Needle(b)| + 3 <==> sa <= sb - |Needle(b)| < ea
  {
    NeedlesApart(json, a, b, sa - |Needle(a)|, sb - |Needle(b)|);
    if sa <= sb - |Needle(b)| {
      NeedleInValue(json, sa, ea, b, sb - |Needle(b)|);
    }
  }

  /** A value on one line runs into nothing. */
  lemma OneLineRunsIntoNothing(json: string, a: string, b: string)
    requires PlainName(a) && PlainName(b) && a != b
    requires Value(json, a).Some? ==> '\n' !in Value(json, a).value
    ensures !RunsInto(json, a, b)
  {
    if RunsInto(json, a, b) {
      var At(sa, ea) := Locate(json, a);
      var At(sb, eb) := Locate(json, b);
      RunsIntoIsInside(json, a, b);
      LocateIs(json, b, sb, eb);
      OccursAtChars(json, Needle(b), sb - |Needle(b)|);
      NotInSlice('\n', json, sa, ea);
      assert false;
    }
  }

  // ---------------------------------------------------------------- the place of the other field

  /** Of two fields, the earlier one stays where it is when the later one is rewritten, even when its
      value runs into the later one's needle. */
  lemma EarlierPlace(json: string, a: string, b: string, sa: nat, ea: nat, sb: nat, eb: nat, vb: string)
    requires PlainName(a) && PlainName(b) && a != b && '\n' !in vb
    requires Located(json, a, sa, ea) && Located(json, b, sb, eb) && sa <= sb
    ensures ea < sb && Located(Spliced(json, sb, eb, vb), a, sa, ea)
  {
    NeedlesApart(json, a, b, sa - |Needle(a)|, sb - |Needle(b)|);
    NeedleInValue(json, sa, ea, b, sb - |Needle(b)|);
    FirstMoves(json, a, b, sb, eb, vb, sa - |Needle(a)|);
    StopsBefore(json, sb, eb, vb, sa, ea);
  }

  lemma LaterNeedle(json: string, a: string, b: string, sa: nat, ea: nat, pb: nat, va: string, doc: string)
    requires PlainName(a) && PlainName(b) && a != b && '\n' !in va
    requires Located(json, a, sa, ea) && First(json, b, pb) && sa <= pb + |Needle(b)| && ea != pb + 3
    requires doc == Spliced(json, sa, ea, va)
    ensures ea <= pb && First(doc, b, pb - ea + sa + |va|)
  {
    NeedlesApart(json, a, b, sa - |Needle(a)|, pb);
    NeedleInValue(json, sa, ea, b, pb);
    FirstMoves(json, b, a, sa, ea, va, pb);
  }

  /** The later one moves by the change in length, unless the earlier one's value ran into it. */
  lemma LaterPlace(json: string, a: string, b: string, sa: nat, ea: nat, sb: nat, eb: nat,
                   va: string, doc: string, at: nat, end: nat)
    requires PlainName(a) && PlainName(b) && a != b && '\n' !in va
    requires Located(json, a, sa, ea) && Located(json, b, sb, eb) && sa <= sb
    requires ea != sb - |Needle(b)| + 3 && doc == Spliced(json, sa, ea, va)
    requires at == sb - ea + sa + |va| && end == eb - ea + sa + |va|
    ensures ea <= sb && Located(doc, b, at, end)
  {
    LaterNeedle(json, a, b, sa, ea, sb - |Needle(b)|, va, doc);
    StopsAfter(json, sa, ea, va, sb, eb);
    LocatedFrom(doc, b, at - |Needle(b)|, at, end);
  }

  lemma LocatedFrom(json: string, field: string, p: nat, s: nat, e: nat)
    requires First(json, field, p) && s == p + |Needle(field)| && Stops(json, s, e)
    ensures Located(json, field, s, e)
  {
  }

  /** A field that cannot be rewritten cannot be rewritten after the other one either. */
  lemma FailsAfterToo(json: string, a: string, b: string, s: nat, e: nat, v: string)
    requires PlainName(a) && PlainName(b) && a != b && '\n' !in v
    requires !Locate(json, a).At? && Located(json, b, s, e)
    ensures !Locate(Spliced(json, s, e, v), a).At?
  {
    var p := NotLocatedParts(json, a);
    if Absent(json, a) {
      AbsentMoves(json, a, b, s, e, v);
      NotLocated(Spliced(json, s, e, v), a, 0);
    } else {
      UnterminatedAfterToo(json, a, b, s, e, v, p);
    }
  }

  lemma UnterminatedAfterToo(json: string, a: string, b: string, s: nat, e: nat, v: string, p: nat)
    requires PlainName(a) && PlainName(b) && a != b && '\n' !in v && Follows(json, b, s, e)
    requires First(json, a, p) && Endless(json, p + |Needle(a)|)
    ensures !Locate(Spliced(json, s, e, v), a).At?
  {
    UnterminatedIsLater(json, a, b, s, p);
    if e <= p {
      FirstMoves(json, a, b, s, e, v, p);
      EndlessAfter(json, s, e, v, p + |Needle(a)|);
      NotLocated(Spliced(json, s, e, v), a, Moved(p, s, e, |v|));
    } else {
      UnterminatedIsLost(json, a, b, s, e, v, p);
      NotLocated(Spliced(json, s, e, v), a, 0);
    }
  }

  lemma UnterminatedIsLater(json: string, a: string, b: string, s: nat, p: nat)
    requires PlainName(a) && PlainName(b) && a != b && |Needle(b)| <= s
    requires OccursAt(json, Needle(b), s - |Needle(b)|)
    requires OccursAt(json, Needle(a), p) && Endless(json, p + |Needle(a)|)
    ensures s <= p
  {
    NeedlesApart(json, a, b, p, s - |Needle(b)|);
    if p < s {
      ScanStopsAtNeedle(json, p + |Needle(a)|, b, s - |Needle(b)|);
      assert false;
    }
  }

  /** An unterminated field has no second needle, so when its only one is overwritten it is gone. */
  lemma UnterminatedIsLost(json: string, a: string, b: string, s: nat, e: nat, v: string, p: nat)
    requires PlainName(a) && PlainName(b) && a != b && '\n' !in v && Follows(json, b, s, e)
    requires First(json, a, p) && Endless(json, p + |Needle(a)|) && s <= p < e
    ensures Absent(Spliced(json, s, e, v), a)
  {
    forall q: nat
      ensures !OccursAt(Spliced(json, s, e, v), Needle(a), q)
    {
      if OccursAt(Spliced(json, s, e, v), Needle(a), q) {
        NeedleBack(json, a, b, s, e, v, q);
        NoNeedleAfterEndless(json, a, p, q - |v| - s + e);
      }
    }
  }

  lemma NoNeedleAfterEndless(json: string, a: string, p: nat, p': nat)
    requires PlainName(a) && OccursAt(json, Needle(a), p) && Endless(json, p + |Needle(a)|) && p < p'
    ensures !OccursAt(json, Needle(a), p')
  {
    if OccursAt(json, Needle(a), p') {
      NextNeedle(json, a, p, p');
      ScanStopsAtNeedle(json, p + |Needle(a)|, a, p');
    }
  }

  /** Two needles of one plain name do not overlap. */
  lemma NextNeedle(json: string, a: string, p: nat, p': nat)
    requires PlainName(a) && OccursAt(json, Needle(a), p) && OccursAt(json, Needle(a), p') && p < p'
    ensures p + |Needle(a)| <= p'
  {
    OccursAtChars(json, Needle(a), p);
    OccursAtChars(json, Needle(a), p');
    NeedleOneNewline(a);
  }

  // ---------------------------------------------------------------- both orders

  function Then(r: Result, field: string, value: string): Result {
    if r.Ok? then Rewrite(r.json, field, value) else r
  }

  /** Both orders give the same document, or both fail. */
  predicate Commute(json: string, a: string, b: string, va: string, vb: string) {
    var ab, ba := Then(Rewrite(json, a, va), b, vb), Then(Rewrite(json, b, vb), a, va);
    ab == ba || (!ab.Ok? && !ba.Ok?)
  }

  lemma SplicesCommute(json: string, s: nat, e: nat, v: string, s': nat, e': nat, v': string,
                       left: string, right: string, at: nat, end: nat)
    requires s <= e <= s' <= e' <= |json| && at == s' - e + s + |v| && end == e' - e + s + |v|
    requires left == Spliced(json, s, e, v) && right == Spliced(json, s', e', v')
    ensures Spliced(left, at, end, v') == Spliced(right, s, e, v)
  {
    var both := json[..s] + v + json[e..s'] + v' + json[e'..];
    assert left[..at] == json[..s] + v + json[e..s'];
    assert left[end..] == json[e'..];
    assert right[..s] == json[..s] && right[e..] == json[e..s'] + v' + json[e'..];
    assert Spliced(left, at, end, v') == both;
    assert Spliced(right, s, e, v) == both;
  }

  lemma RewriteTwice(json: string, a: string, b: string, s: nat, e: nat, at: nat, end: nat,
                     va: string, vb: string, doc: string)
    requires Located(json, a, s, e) && doc == Spliced(json, s, e, va) && Located(doc, b, at, end)
    ensures Then(Rewrite(json, a, va), b, vb) == Ok(Spliced(doc, at, end, vb))
  {
    RewriteLocated(json, a, s, e, va);
    RewriteLocated(doc, b, at, end, vb);
  }

  /** Rewriting the later field first, then the earlier one, always succeeds. */
  lemma LaterFirst(json: string, a: string, b: string, sa: nat, ea: nat, sb: nat, eb: nat,
                   va: string, vb: string, docB: string)
    requires PlainName(a) && PlainName(b) && a != b && '\n' !in vb
    requires Located(json, a, sa, ea) && Located(json, b, sb, eb) && sa <= sb
    requires docB == Spliced(json, sb, eb, vb)
    ensures ea < sb && ea <= |docB|
    ensures Then(Rewrite(json, b, vb), a, va) == Ok(Spliced(docB, sa, ea, va))
  {
    EarlierPlace(json, a, b, sa, ea, sb, eb, vb);
    RewriteTwice(json, b, a, sb, eb, sa, ea, vb, va, docB);
  }

  /** Where both fields are present and apart, the two splices can be swapped. */
  lemma OrdersAgree(json: string, a: string, b: string, sa: nat, ea: nat, sb: nat, eb: nat,
                    va: string, vb: string)
    requires PlainName(a) && PlainName(b) && a != b && '\n' !in va && '\n' !in vb
    requires Located(json, a, sa, ea) && Located(json, b, sb, eb) && sa <= sb
    requires ea != sb - |Needle(b)| + 3
    ensures Then(Rewrite(json, a, va), b, vb) == Then(Rewrite(json, b, vb), a, va)
    ensures Then(Rewrite(json, a, va), b, vb).Ok?
  {
    var docA, docB := Spliced(json, sa, ea, va), Spliced(json, sb, eb, vb);
    LaterFirst(json, a, b, sa, ea, sb, eb, va, vb, docB);
    var at, end := sb - ea + sa + |va|, eb - ea + sa + |va|;
    LaterPlace(json, a, b, sa, ea, sb, eb, va, docA, at, end);
    RewriteTwice(json, a, b, sa, ea, at, end, va, vb, docA);
    SplicesCommute(json, sa, ea, va, sb, eb, vb, docA, docB, at, end);
  }

  lemma BothFail(json: string, a: string, b: string, va: string, vb: string)
    requires PlainName(a) && PlainName(b) && a != b && '\n' !in vb && !Locate(json, a).At?
    ensures !Then(Rewrite(json, a, va), b, vb).Ok? && !Then(Rewrite(json, b, vb), a, va).Ok?
  {
    if Locate(json, b).At? {
      var At(s, e) := Locate(json, b);
      LocateIs(json, b, s, e);
      RewriteLocated(json, b, s, e, vb);
      FailsAfterToo(json, a, b, s, e, vb);
    }
  }

  lemma PresentOrdersAgree(json: string, a: string, b: string, va: string, vb: string)
    requires PlainName(a) && PlainName(b) && a != b && '\n' !in va && '\n' !in vb
    requires Locate(json, a).At? && Locate(json, b).At?
    requires !RunsInto(json, a, b) && !RunsInto(json, b, a)
    ensures Then(Rewrite(json, a, va), b, vb) == Then(Rewrite(json, b, vb), a, va)
    ensures Then(Rewrite(json, a, va), b, vb).Ok?
  {
    var At(sa, ea) := Locate(json, a);
    var At(sb, eb) := Locate(json, b);
    LocateIs(json, a, sa, ea);
    LocateIs(json, b, sb, eb);
    if sa <= sb {
      OrdersAgree(json, a, b, sa, ea, sb, eb, va, vb);
    } else {
      OrdersAgree(json, b, a, sb, eb, sa, ea, vb, va);
    }
  }

  /** Rewriting two distinct fields commutes unless one value runs into the other field. */
  lemma RewritesCommute(json: string, a: string, b: string, va: string, vb: string)
    requires PlainName(a) && PlainName(b) && a != b && '\n' !in va && '\n' !in vb
    requires !RunsInto(json, a, b) && !RunsInto(json, b, a)
    ensures Commute(json, a, b, va, vb)
    ensures Then(Rewrite(json, a, va), b, vb).Ok? <==> Locate(json, a).At? && Locate(json, b).At?
  {
    if !Locate(json, a).At? {
      BothFail(json, a, b, va, vb);
    } else if !Locate(json, b).At? {
      BothFail(json, b, a, vb, va);
    } else {
      PresentOrdersAgree(json, a, b, va, vb);
    }
  }

  // ---------------------------------------------------------------- exactly when

  /** A one-line value as long as the document. */
  function LongValue(json: string): (v: string)
    ensures |v| == |json| && '\n' !in v
  {
    seq(|json|, _ => 'x')
  }

  /** Where the value of `a` runs into `b`, rewriting `a` loses that needle of `b`; the next one, if
      any, comes after where `b`'s value began. */
  lemma NextNeedleOf(json: string, a: string, b: string, sa: nat, ea: nat, sb: nat, eb: nat,
                     va: string, q: nat)
    requires PlainName(a) && PlainName(b) && a != b && '\n' !in va
    requires Located(json, a, sa, ea) && Located(json, b, sb, eb) && sa <= sb - |Needle(b)| < ea <= sb
    requires OccursAt(Spliced(json, sa, ea, va), Needle(b), q)
    ensures var at := sb - ea + sa + |va|; at <= q < at + |json|
  {
    NeedleBack(json, b, a, sa, ea, va, q);
    var p := q - |va| - sa + ea;
    assert OccursAt(json, Needle(b), p) && p >= ea;
    NextNeedle(json, b, sb - |Needle(b)|, p);
  }

  /** There the first order leaves a newline, and the second one has written its value. */
  lemma DocumentsDiffer(json: string, a: string, b: string, sa: nat, ea: nat, sb: nat, eb: nat,
                        va: string, vb: string, s2: nat, e2: nat)
    requires PlainName(a) && PlainName(b) && a != b && '\n' !in va && '\n' !in vb && |vb| == |json|
    requires Located(json, a, sa, ea) && Located(json, b, sb, eb) && sa <= sb - |Needle(b)| < ea <= sb
    requires Located(Spliced(json, sa, ea, va), b, s2, e2)
    ensures ea <= |Spliced(json, sb, eb, vb)|
    ensures Spliced(Spliced(json, sa, ea, va), s2, e2, vb) != Spliced(Spliced(json, sb, eb, vb), sa, ea, va)
  {
    var docA, q := Spliced(json, sa, ea, va), s2 - |Needle(b)|;
    NextNeedleOf(json, a, b, sa, ea, sb, eb, va, q);
    StillNewline(docA, b, s2, e2, vb);
    LongValueAt(json, sa, ea, sb, eb, va, vb, q);
  }

  lemma StillNewline(doc: string, b: string, s: nat, e: nat, v: string)
    requires Follows(doc, b, s, e)
    ensures Spliced(doc, s, e, v)[s - |Needle(b)|] == '\n'
  {
    NeedleKept(doc, b, s, e, v);
    OccursAtChars(Spliced(doc, s, e, v), Needle(b), s - |Needle(b)|);
  }

  lemma LongValueAt(json: string, sa: nat, ea: nat, sb: nat, eb: nat, va: string, vb: string, q: nat)
    requires sa <= ea <= sb <= eb <= |json|
    requires sb - ea + sa + |va| <= q < sb - ea + sa + |va| + |vb|
    ensures ea <= |Spliced(json, sb, eb, vb)| && q < |Spliced(Spliced(json, sb, eb, vb), sa, ea, va)|
    ensures Spliced(Spliced(json, sb, eb, vb), sa, ea, va)[q] == vb[q - (sb - ea + sa + |va|)]
  {
    var docB, at := Spliced(json, sb, eb, vb), sb - ea + sa + |va|;
    SplicedRest(docB, sa, ea, va, sb);
    assert Spliced(docB, sa, ea, va)[q] == Spliced(docB, sa, ea, va)[at..][q - at] == docB[sb..][q - at];
    assert docB[sb..][q - at] == docB[q - at + sb];
    SplicedMiddle(json, sb, eb, vb, q - at + sb);
  }

  lemma OrdersDiffer(json: string, a: string, b: string, sa: nat, ea: nat, sb: nat, eb: nat,
                     va: string, vb: string)
    requires PlainName(a) && PlainName(b) && a != b && '\n' !in va && '\n' !in vb && |vb| == |json|
    requires Located(json, a, sa, ea) && Located(json, b, sb, eb) && sa <= sb - |Needle(b)| < ea
    ensures !Commute(json, a, b, va, vb)
  {
    var docA := Spliced(json, sa, ea, va);
    LaterFirst(json, a, b, sa, ea, sb, eb, va, vb, Spliced(json, sb, eb, vb));
    RewriteLocated(json, a, sa, ea, va);
    if Locate(docA, b).At? {
      var At(s2, e2) := Locate(docA, b);
      LocateIs(docA, b, s2, e2);
      RewriteLocated(docA, b, s2, e2, vb);
      DocumentsDiffer(json, a, b, sa, ea, sb, eb, va, vb, s2, e2);
    }
  }

  lemma RunsIntoDiffers(json: string, a: string, b: string, va: string)
    requires PlainName(a) && PlainName(b) && a != b && '\n' !in va && RunsInto(json, a, b)
    ensures !Commute(json, a, b, va, LongValue(json))
  {
    var At(sa, ea) := Locate(json, a);
    var At(sb, eb) := Locate(json, b);
    RunsIntoIsInside(json, a, b);
    LocateIs(json, a, sa, ea);
    LocateIs(json, b, sb, eb);
    OrdersDiffer(json, a, b, sa, ea, sb, eb, va, LongValue(json));
  }

  lemma CommuteSwaps(json: string, a: string, b: string, va: string, vb: string)
    ensures Commute(json, a, b, va, vb) <==> Commute(json, b, a, vb, va)
  {
  }

  /** Rewriting two fields commutes for every two one-line values exactly when neither field's value
      runs into the other's name. */
  lemma RewritesCommuteExactly(json: string, a: string, b: string)
    requires PlainName(a) && PlainName(b) && a != b
    ensures (forall va, vb :: '\n' !in va && '\n' !in vb ==> Commute(json, a, b, va, vb))
       <==> !RunsInto(json, a, b) && !RunsInto(json, b, a)
  {
    if RunsInto(json, a, b) {
      RunsIntoDiffers(json, a, b, "");
      assert !Commute(json, a, b, "", LongValue(json));
    } else if RunsInto(json, b, a) {
      RunsIntoDiffers(json, b, a, "");
      CommuteSwaps(json, a, b, LongValue(json), "");
      assert !Commute(json, a, b, LongValue(json), "");
    } else {
      forall va, vb | '\n' !in va && '\n' !in vb ensures Commute(json, a, b, va, vb) {
        RewritesCommute(json, a, b, va, vb);
      }
    }
  }

  // ---------------------------------------------------------------- a value that runs on

  /** Field `a` whose value runs over the line break into the needle of `b`. */
  function RunOn(a: string, b: string): string { Needle(a) + Needle(b) + "\"" }

  lemma NoSecondNewline(s: string, a: string, b: string)
    requires PlainName(a) && PlainName(b) && a != b && OccursAt(s, Needle(a), 0)
    requires forall i :: 0 < i < |s| ==> s[i] != '\n'
    ensures Find(s, Needle(b)).None?
  {
    FindIsFirst(s, Needle(b));
    if Find(s, Needle(b)).Some? {
      var q := Find(s, Needle(b)).value;
      OccursAtChars(s, Needle(b), q);
      NeedlesApart(s, a, b, 0, q);
      assert false;
    }
  }

  lemma RunOnPlaces(a: string, b: string)
    requires PlainName(a) && PlainName(b) && a != b
    ensures Locate(RunOn(a, b), a) == At(|Needle(a)|, |Needle(a)| + 3)
    ensures var k := |Needle(a)| + |Needle(b)|; Locate(RunOn(a, b), b) == At(k, k)
  {
    RunOnFirst(a, b);
    RunOnSecond(a, b);
  }

  lemma RunOnFirst(a: string, b: string)
    ensures OccursAt(RunOn(a, b), Needle(a), 0)
    ensures Locate(RunOn(a, b), a) == At(|Needle(a)|, |Needle(a)| + 3)
  {
    var s, na := RunOn(a, b), Needle(a);
    var tail := "\"" + (b + "\": \"" + "\"");
    assert s[0..|na|] == na;
    FindIs(s, na, 0, 0);
    LocateFound(s, a, 0);
    assert s[|na|..] == "\n  " + tail;
    ScanPlain("\n  ", tail);
    ScanIs(s, |na|);
  }

  lemma RunOnSecond(a: string, b: string)
    requires PlainName(a) && PlainName(b) && a != b
    ensures var k := |Needle(a)| + |Needle(b)|; Locate(RunOn(a, b), b) == At(k, k)
  {
    var s, n := RunOn(a, b), |Needle(a)|;
    var k := n + |Needle(b)|;
    assert s[n..k] == Needle(b);
    assert s[k] == '"';
    RunOnFirst(a, b);
    SecondIsFirst(s, a, b);
    LocatedFrom(s, b, n, k, k);
    LocateIs(s, b, k, k);
  }

  lemma SecondIsFirst(s: string, a: string, b: string)
    requires PlainName(a) && PlainName(b) && a != b
    requires OccursAt(s, Needle(a), 0) && OccursAt(s, Needle(b), |Needle(a)|)
    ensures First(s, b, |Needle(a)|)
  {
    forall q: nat | q < |Needle(a)|
      ensures !OccursAt(s, Needle(b), q)
    {
      if OccursAt(s, Needle(b), q) {
        NeedlesApart(s, a, b, 0, q);
      }
    }
  }

  lemma RewriteAt(json: string, field: string, value: string, s: nat, e: nat, doc: string)
    requires Locate(json, field) == At(s, e) && doc == Spliced(json, s, e, value)
    ensures Rewrite(json, field, value) == Ok(doc)
  {
  }

  lemma RunOnFails(a: string, b: string, va: string, vb: string)
    requires PlainName(a) && PlainName(b) && a != b && '\n' !in va
    ensures Then(Rewrite(RunOn(a, b), a, va), b, vb) == NoField
  {
    var s, na := RunOn(a, b), Needle(a);
    var doc := Spliced(s, |na|, |na| + 3, va);
    RunOnPlaces(a, b);
    RewriteAt(s, a, va, |na|, |na| + 3, doc);
    RunOnRest(a, b, va);
    NoSecondNewline(doc, a, b);
  }

  lemma RunOnRest(a: string, b: string, va: string)
    requires PlainName(a) && PlainName(b) && '\n' !in va
    ensures var doc := Spliced(RunOn(a, b), |Needle(a)|, |Needle(a)| + 3, va);
            OccursAt(doc, Needle(a), 0) && forall i :: 0 < i < |doc| ==> doc[i] != '\n'
  {
    var s, na := RunOn(a, b), Needle(a);
    var doc, tail := Spliced(s, |na|, |na| + 3, va), "\"" + b + "\": \"\"";
    assert doc[0..|na|] == na;
    assert s[|na| + 3..] == tail;
    assert doc == na + va + tail;
    NeedleOneNewline(a);
  }

  lemma RunOnSucceeds(a: string, b: string, va: string, vb: string)
    requires PlainName(a) && PlainName(b) && a != b
    ensures Then(Rewrite(RunOn(a, b), b, vb), a, va).Ok?
  {
    var s, na, nb := RunOn(a, b), Needle(a), Needle(b);
    var k := |na| + |nb|;
    var doc := Spliced(s, k, k, vb);
    RunOnPlaces(a, b);
    RewriteAt(s, b, vb, k, k, doc);
    assert doc[0..|na|] == na;
    assert doc[|na| + 3] == nb[3] == '"' && doc[|na| + 2] == nb[2] == ' ';
    FirstFieldEnds(doc, a);
  }

  lemma FirstFieldEnds(doc: string, a: string)
    requires OccursAt(doc, Needle(a), 0) && |doc| > |Needle(a)| + 3
    requires doc[|Needle(a)| + 3] == '"' && doc[|Needle(a)| + 2] == ' '
    ensures Locate(doc, a).At?
  {
    FindIs(doc, Needle(a), 0, 0);
    LocateFound(doc, a, 0);
    ScanStopsBy(doc, |Needle(a)|, |Needle(a)| + 3);
  }

  /** Every two names have a document in which one value runs into the other field, and there every
      two one-line values make one order fail and the other succeed. */
  lemma RunOnOrdersDiffer(a: string, b: string, va: string, vb: string)
    requires PlainName(a) && PlainName(b) && a != b && '\n' !in va
    ensures RunsInto(RunOn(a, b), a, b)
    ensures Then(Rewrite(RunOn(a, b), a, va), b, vb) == NoField
    ensures Then(Rewrite(RunOn(a, b), b, vb), a, va).Ok?
  {
    RunOnPlaces(a, b);
    RunOnFails(a, b, va, vb);
    RunOnSucceeds(a, b, va, vb);
  }
}
