/** Rewriting a field of a document as a pretty printer writes it: one string field per line, indented
    by two spaces. */
module JsonPretty {
  import opened Text
  import opened Json
  import opened JsonFields

  datatype Field = Field(name: string, text: string)

  /** A field up to its value, and the whole field. */
  function Opening(name: string): string { "\n  \"" + name + "\": \"" }

  function Printed(f: Field): string { Opening(f.name) + (Escaped(Mesh, f.text) + "\"") }

  function Comma(rest: seq<Field>): string { if rest == [] then "" else "," }

  /** The fields and the closing brace. */
  function Rest(fields: seq<Field>): string {
    if fields == [] then "\n}" else Printed(fields[0]) + (Comma(fields[1..]) + Rest(fields[1..]))
  }

  function Pretty(fields: seq<Field>): string { "{" + Rest(fields) }

  ghost predicate Plain(fields: seq<Field>) {
    && (forall i :: 0 <= i < |fields| ==> PlainName(fields[i].name))
    && forall i, j :: 0 <= i < j < |fields| ==> fields[i].name != fields[j].name
  }

  // ---------------------------------------------------------------- around one value

  /** The document up to the value of field `i`, and from its closing quote on. */
  function Before(fields: seq<Field>, i: nat): string
    requires i < |fields|
    decreases i
  {
    if i == 0 then Opening(fields[0].name)
    else Printed(fields[0]) + (Comma(fields[1..]) + Before(fields[1..], i - 1))
  }

  function After(fields: seq<Field>, i: nat): string
    requires i < |fields|
    decreases i
  {
    if i == 0 then "\"" + (Comma(fields[1..]) + Rest(fields[1..])) else After(fields[1..], i - 1)
  }

  lemma {:induction false} AroundValue(fields: seq<Field>, i: nat)
    requires i < |fields|
    ensures Rest(fields) == Before(fields, i) + (Escaped(Mesh, fields[i].text) + After(fields, i))
    decreases i
  {
    if i == 0 {
      AroundFirst(fields);
    } else {
      AroundValue(fields[1..], i - 1);
      AroundLater(fields, i, fields[1..]);
    }
  }

  lemma AroundFirst(fields: seq<Field>)
    requires fields != []
    ensures Rest(fields) == Before(fields, 0) + (Escaped(Mesh, fields[0].text) + After(fields, 0))
  {
    GroupFirst(Opening(fields[0].name), Escaped(Mesh, fields[0].text), Comma(fields[1..]) + Rest(fields[1..]));
  }

  lemma AroundLater(fields: seq<Field>, i: nat, more: seq<Field>)
    requires 0 < i < |fields| && more == fields[1..]
    requires Rest(more) == Before(more, i - 1) + (Escaped(Mesh, more[i - 1].text) + After(more, i - 1))
    ensures Rest(fields) == Before(fields, i) + (Escaped(Mesh, fields[i].text) + After(fields, i))
  {
    GroupLater(Printed(fields[0]), Comma(more), Before(more, i - 1),
               Escaped(Mesh, fields[i].text) + After(more, i - 1));
  }

  lemma GroupFirst(opening: string, value: string, rest: string)
    ensures opening + (value + "\"") + rest == opening + (value + ("\"" + rest))
  {
    Associative(opening, value + "\"", rest);
    Associative(value, "\"", rest);
  }

  lemma GroupLater(first: string, comma: string, before: string, tail: string)
    ensures first + (comma + (before + tail)) == first + (comma + before) + tail
  {
    Associative(comma, before, tail);
    Associative(first, comma + before, tail);
  }

  /** What surrounds a value does not depend on it. */
  lemma {:induction false} SameAround(fields: seq<Field>, i: nat, text: string, other: seq<Field>)
    requires i < |fields| && other == fields[i := Field(fields[i].name, text)]
    ensures Before(other, i) == Before(fields, i) && After(other, i) == After(fields, i)
    decreases i
  {
    if i == 0 {
      assert other[1..] == fields[1..];
    } else {
      assert other[0] == fields[0] && other[1..] == fields[1..][i - 1 := Field(fields[i].name, text)];
      SameAround(fields[1..], i - 1, text, other[1..]);
    }
  }

  // ---------------------------------------------------------------- where the needle is

  /** The needle that is searched for is what the printer writes before a value. */
  lemma OpeningIsNeedle(name: string)
    ensures Opening(name) == Needle(name)
  {
    Associative("\n  \"", name, "\": \"");
  }

  lemma PrintedShape(f: Field)
    requires PlainName(f.name)
    ensures |Printed(f)| > |Needle(f.name)| && OccursAt(Printed(f), Needle(f.name), 0)
    ensures forall k :: 0 < k < |Printed(f)| ==> Printed(f)[k] != '\n'
  {
    var needle, value := Needle(f.name), Escaped(Mesh, f.text) + "\"";
    OpeningIsNeedle(f.name);
    NeedleOneNewline(f.name);
    EscapedIsOneLine(Mesh, f.text);
    assert (needle + value)[0..|needle|] == needle;
    assert forall k :: |needle| <= k < |needle + value| ==> (needle + value)[k] == value[k - |needle|];
    assert forall k :: 0 <= k < |value| ==> value[k] in value;
    assert '\n' !in value;
  }

  /** A needle at the start of a printed field is the needle of its name, and none starts inside. */
  lemma NeedleInField(f: Field, comma: string, more: string, name: string, q: nat)
    requires PlainName(f.name) && PlainName(name) && q < |Printed(f) + comma|
    requires comma == "" || comma == ","
    ensures OccursAt(Printed(f) + (comma + more), Needle(name), q) <==> q == 0 && f.name == name
  {
    var s := Printed(f) + (comma + more);
    PrintedShape(f);
    if OccursAt(s, Needle(name), q) {
      OccursAtChars(s, Needle(name), q);
      assert q < |Printed(f)| ==> s[q] == Printed(f)[q];
      assert q == 0;
      FieldAtStart(s, f);
      SameNeedle(name, f.name, s);
    }
    if q == 0 && f.name == name {
      FieldAtStart(s, f);
    }
  }

  lemma FieldAtStart(s: string, f: Field)
    requires PlainName(f.name) && |s| >= |Printed(f)| && s[..|Printed(f)|] == Printed(f)
    ensures |s| >= |Needle(f.name)| && s[..|Needle(f.name)|] == Needle(f.name)
    ensures OccursAt(s, Needle(f.name), 0)
  {
    PrintedShape(f);
    var n := |Needle(f.name)|;
    assert s[..n] == s[..|Printed(f)|][..n] == Printed(f)[..n] == Printed(f)[0..n];
    assert s[0..n] == s[..n];
  }

  lemma NoNeedleAtEnd(name: string)
    requires PlainName(name)
    ensures Absent("\n}", name)
  {
  }

  /** Behind a field, the needle is where it is in the rest. */
  lemma NeedleBehind(f: Field, comma: string, more: string, name: string, q: nat)
    ensures OccursAt(Printed(f) + (comma + more), Needle(name), |Printed(f) + comma| + q)
       <==> OccursAt(more, Needle(name), q)
  {
    Associative(Printed(f), comma, more);
    OccursAtShift(Printed(f) + comma, more, Needle(name), q);
  }

  lemma {:induction false} NeedleOfMissing(fields: seq<Field>, name: string)
    requires Plain(fields) && PlainName(name) && forall i :: 0 <= i < |fields| ==> fields[i].name != name
    ensures Absent(Rest(fields), name)
    decreases |fields|
  {
    if fields == [] {
      NoNeedleAtEnd(name);
    } else {
      var f, comma, more := fields[0], Comma(fields[1..]), Rest(fields[1..]);
      PlainTail(fields, fields[1..]);
      RestStep(fields, fields[1..]);
      NeedleOfMissing(fields[1..], name);
      MissingStep(f, comma, more, name);
    }
  }

  lemma MissingStep(f: Field, comma: string, more: string, name: string)
    requires PlainName(f.name) && PlainName(name) && f.name != name && Absent(more, name)
    requires comma == "" || comma == ","
    ensures Absent(Printed(f) + (comma + more), name)
  {
    forall q: nat
      ensures !OccursAt(Printed(f) + (comma + more), Needle(name), q)
    {
      if q < |Printed(f) + comma| {
        NeedleInField(f, comma, more, name, q);
      } else {
        NeedleBehind(f, comma, more, name, q - |Printed(f) + comma|);
      }
    }
  }

  /** Where field `i` begins. */
  function Offset(fields: seq<Field>, i: nat): nat
    requires i < |fields|
    decreases i
  {
    if i == 0 then 0 else |Printed(fields[0]) + Comma(fields[1..])| + Offset(fields[1..], i - 1)
  }

  lemma {:induction false} BeforeOffset(fields: seq<Field>, i: nat)
    requires i < |fields|
    ensures |Before(fields, i)| == Offset(fields, i) + |Needle(fields[i].name)|
    decreases i
  {
    if i == 0 {
      OpeningIsNeedle(fields[0].name);
    } else {
      BeforeOffset(fields[1..], i - 1);
    }
  }

  lemma PlainTail(fields: seq<Field>, more: seq<Field>)
    requires Plain(fields) && fields != [] && more == fields[1..]
    ensures Plain(more) && PlainName(fields[0].name)
    ensures forall i :: 0 <= i < |more| ==> more[i].name != fields[0].name
  {
  }

  lemma RestStep(fields: seq<Field>, more: seq<Field>)
    requires fields != [] && more == fields[1..]
    ensures Rest(fields) == Printed(fields[0]) + (Comma(more) + Rest(more))
  {
  }

  lemma {:induction false} NeedleOfField(fields: seq<Field>, i: nat, name: string)
    requires Plain(fields) && i < |fields| && name == fields[i].name
    ensures First(Rest(fields), name, Offset(fields, i))
    decreases i
  {
    var first, more := fields[0], fields[1..];
    PlainTail(fields, more);
    RestStep(fields, more);
    if i == 0 {
      NeedleAtOnce(first, Comma(more), Rest(more));
    } else {
      assert more[i - 1] == fields[i] && first.name != name;
      NeedleOfField(more, i - 1, name);
      NeedleFurther(first, Comma(more), Rest(more), name, Offset(more, i - 1));
    }
  }

  lemma NeedleAtOnce(f: Field, comma: string, more: string)
    requires PlainName(f.name) && (comma == "" || comma == ",")
    ensures First(Printed(f) + (comma + more), f.name, 0)
  {
    NeedleInField(f, comma, more, f.name, 0);
  }

  lemma NeedleFurther(f: Field, comma: string, more: string, name: string, p: nat)
    requires PlainName(f.name) && PlainName(name) && f.name != name && First(more, name, p)
    requires comma == "" || comma == ","
    ensures First(Printed(f) + (comma + more), name, |Printed(f) + comma| + p)
  {
    var n := |Printed(f) + comma|;
    NeedleBehind(f, comma, more, name, p);
    forall q: nat | q < n + p
      ensures !OccursAt(Printed(f) + (comma + more), Needle(name), q)
    {
      if q < n {
        NeedleInField(f, comma, more, name, q);
      } else {
        NeedleBehind(f, comma, more, name, q - n);
      }
    }
  }

  /** The brace in front moves everything by one. */
  lemma BraceFirst(rest: string, name: string, p: nat)
    requires First(rest, name, p)
    ensures First("{" + rest, name, p + 1)
  {
    forall q: nat
      ensures OccursAt("{" + rest, Needle(name), q) ==> q > 0 && OccursAt(rest, Needle(name), q - 1)
    {
      BraceAt(rest, name, q);
    }
    OccursAtShift("{", rest, Needle(name), p);
  }

  lemma BraceAt(rest: string, name: string, q: nat)
    ensures OccursAt("{" + rest, Needle(name), q) ==> q > 0 && OccursAt(rest, Needle(name), q - 1)
  {
    if OccursAt("{" + rest, Needle(name), q) {
      OccursAtChars("{" + rest, Needle(name), q);
      assert ("{" + rest)[q] == Needle(name)[0] == '\n';
      OccursAtShift("{", rest, Needle(name), q - 1);
    }
  }

  // ---------------------------------------------------------------- rewriting a printed document

  /** A closed value between the needle and its quote is the field's place. */
  lemma ValuePlace(doc: string, before: string, value: string, after: string, name: string)
    requires Closed(value) && |before| >= |Needle(name)| && after != [] && after[0] == '"'
    requires doc == before + (value + after) && First(doc, name, |before| - |Needle(name)|)
    ensures Located(doc, name, |before|, |before| + |value|)
  {
    assert after == "\"" + after[1..];
    ScanClosed(value, after[1..]);
    ConcatDrop(before, value + after, 0);
    ScanIs(doc, |before|);
  }

  lemma SplicedAround(doc: string, before: string, value: string, after: string, other: string)
    requires doc == before + (value + after)
    ensures Spliced(doc, |before|, |before| + |value|, other) == before + (other + after)
    ensures doc[|before|..|before| + |value|] == value
  {
    assert doc[..|before|] == before;
    ConcatDrop(before, value + after, |value|);
    ConcatDrop(value, after, 0);
    Associative(before, other, after);
  }

  lemma RewriteAround(doc: string, before: string, value: string, after: string, name: string, other: string)
    requires doc == before + (value + after) && Located(doc, name, |before|, |before| + |value|)
    ensures Rewrite(doc, name, other) == Ok(before + (other + after)) && Value(doc, name) == Some(value)
  {
    RewriteLocated(doc, name, |before|, |before| + |value|, other);
    LocateIs(doc, name, |before|, |before| + |value|);
    SplicedAround(doc, before, value, after, other);
  }

  lemma {:induction false} AfterIsQuote(fields: seq<Field>, i: nat)
    requires i < |fields|
    ensures After(fields, i) != [] && After(fields, i)[0] == '"'
    decreases i
  {
    if i > 0 {
      AfterIsQuote(fields[1..], i - 1);
    }
  }

  /** The document around the value of field `i`. */
  lemma DocumentAround(fields: seq<Field>, i: nat)
    requires i < |fields|
    ensures Pretty(fields) == ("{" + Before(fields, i)) + (Escaped(Mesh, fields[i].text) + After(fields, i))
  {
    AroundValue(fields, i);
    Associative("{", Before(fields, i), Escaped(Mesh, fields[i].text) + After(fields, i));
  }

  lemma FieldLocated(fields: seq<Field>, i: nat, doc: string, before: string, value: string)
    requires Plain(fields) && i < |fields| && doc == Pretty(fields)
    requires before == "{" + Before(fields, i) && value == Escaped(Mesh, fields[i].text)
    ensures Located(doc, fields[i].name, |before|, |before| + |value|)
  {
    FieldFirst(fields, i, doc);
    BeforeOffset(fields, i);
    DocumentAround(fields, i);
    AfterIsQuote(fields, i);
    EscapedIsClosed(Mesh, fields[i].text);
    ValuePlace(doc, before, value, After(fields, i), fields[i].name);
  }

  lemma FieldFirst(fields: seq<Field>, i: nat, doc: string)
    requires Plain(fields) && i < |fields| && doc == Pretty(fields)
    ensures First(doc, fields[i].name, Offset(fields, i) + 1)
  {
    NeedleOfField(fields, i, fields[i].name);
    BraceFirst(Rest(fields), fields[i].name, Offset(fields, i));
  }

  /** Rewriting a field of a printed document with an escaped text is printing it with the new text;
      every other field is as it was. */
  lemma RewritePrinted(fields: seq<Field>, i: nat, text: string)
    requires Plain(fields) && i < |fields|
    ensures Rewrite(Pretty(fields), fields[i].name, Escaped(Mesh, text))
         == Ok(Pretty(fields[i := Field(fields[i].name, text)]))
    ensures Value(Pretty(fields), fields[i].name) == Some(Escaped(Mesh, fields[i].text))
  {
    var other := fields[i := Field(fields[i].name, text)];
    var before, value := "{" + Before(fields, i), Escaped(Mesh, fields[i].text);
    FieldLocated(fields, i, Pretty(fields), before, value);
    DocumentAround(fields, i);
    DocumentAround(other, i);
    SameAround(fields, i, text, other);
    RewriteAround(Pretty(fields), before, value, After(fields, i), fields[i].name, Escaped(Mesh, text));
  }

  /** A name the document does not have is reported as missing. */
  lemma RewriteMissing(fields: seq<Field>, name: string, value: string)
    requires Plain(fields) && PlainName(name) && forall i :: 0 <= i < |fields| ==> fields[i].name != name
    ensures Rewrite(Pretty(fields), name, value) == NoField
  {
    NeedleOfMissing(fields, name);
    FindIsFirst(Pretty(fields), Needle(name));
    if Find(Pretty(fields), Needle(name)).Some? {
      BraceAt(Rest(fields), name, Find(Pretty(fields), Needle(name)).value);
    }
  }
}
