/** Retagging a version string inside a binary, in place. */
module Retag {
  import opened Text

  /** `Panicked` is the panic of a search for windows of length zero. */
  datatype Outcome = LengthsDiffer | Panicked | NotFound | Retagged(hits: nat)

  /** `s` with `to` written over the window at `p`. */
  function Over(s: seq<Byte>, p: nat, to: seq<Byte>): (r: seq<Byte>)
    requires p + |to| <= |s|
    ensures |r| == |s|
    ensures forall i :: 0 <= i < |s| ==> r[i] == if p <= i < p + |to| then to[i - p] else s[i]
  {
    seq(|s|, i requires 0 <= i < |s| => if p <= i < p + |to| then to[i - p] else s[i])
  }

  ghost predicate Fits(ms: seq<nat>, width: nat, length: nat) {
    forall k :: 0 <= k < |ms| ==> ms[k] + width <= length
  }

  /** Pure replacement: `to` over every window of `ms`. */
  function Replaced(s: seq<Byte>, ms: seq<nat>, to: seq<Byte>): (r: seq<Byte>)
    requires Fits(ms, |to|, |s|)
    ensures |r| == |s|
  {
    if ms == [] then s
    else Over(Replaced(s, ms[..|ms| - 1], to), ms[|ms| - 1], to)
  }

  /** A taken window contains position `p`. */
  ghost predicate Covered(ms: seq<nat>, width: nat, p: nat) {
    exists k :: 0 <= k < |ms| && ms[k] <= p < ms[k] + width
  }

  ghost predicate AllMatch(s: seq<Byte>, needle: seq<Byte>, from: nat, ms: seq<nat>) {
    forall k :: 0 <= k < |ms| ==> from <= ms[k] && OccursAt(s, needle, ms[k])
  }

  ghost predicate Apart(ms: seq<nat>, width: nat) {
    forall j, k :: 0 <= j < k < |ms| ==> ms[j] + width <= ms[k]
  }

  ghost predicate AllCovered(s: seq<Byte>, needle: seq<Byte>, from: nat, ms: seq<nat>) {
    forall p: nat {:trigger Covered(ms, |needle|, p)} ::
      from <= p && OccursAt(s, needle, p) ==> Covered(ms, |needle|, p)
  }

  /** What makes a list of windows the leftmost non-overlapping matches of `needle` in `s`: they are
      matches, they are in order and apart, and every match starts inside a taken one. */
  ghost predicate LeftmostMatches(s: seq<Byte>, needle: seq<Byte>, from: nat, ms: seq<nat>) {
    AllMatch(s, needle, from, ms) && Apart(ms, |needle|) && AllCovered(s, needle, from, ms)
  }

  lemma CoveredCons(first: nat, rest: seq<nat>, width: nat, p: nat)
    ensures Covered([first] + rest, width, p) <==> first <= p < first + width || Covered(rest, width, p)
  {
    var ms := [first] + rest;
    if Covered(ms, width, p) {
      var k :| 0 <= k < |ms| && ms[k] <= p < ms[k] + width;
      assert k > 0 ==> rest[k - 1] == ms[k];
    }
    if first <= p < first + width {
      assert ms[0] == first;
    }
    if Covered(rest, width, p) {
      var k :| 0 <= k < |rest| && rest[k] <= p < rest[k] + width;
      assert ms[k + 1] == rest[k];
    }
  }

  lemma {:induction false} MatchesApart(s: seq<Byte>, needle: seq<Byte>, from: nat)
    requires needle != []
    ensures AllMatch(s, needle, from, Matches(s, needle, from))
    ensures Apart(Matches(s, needle, from), |needle|)
    decreases |s| - from
  {
    var first := FindFrom(s, needle, from);
    if first.Some? {
      var at := first.value + |needle|;
      MatchesApart(s, needle, at);
      ApartCons(s, needle, from, first.value, Matches(s, needle, at));
    }
  }

  lemma ApartCons(s: seq<Byte>, needle: seq<Byte>, from: nat, p: nat, rest: seq<nat>)
    requires from <= p && OccursAt(s, needle, p) && AllMatch(s, needle, p + |needle|, rest) && Apart(rest, |needle|)
    ensures AllMatch(s, needle, from, [p] + rest) && Apart([p] + rest, |needle|)
  {
    var ms := [p] + rest;
    assert forall k :: 0 < k < |ms| ==> ms[k] == rest[k - 1];
  }

  lemma {:induction false} MatchesCover(s: seq<Byte>, needle: seq<Byte>, from: nat, p: nat)
    requires needle != [] && from <= p && OccursAt(s, needle, p)
    ensures Covered(Matches(s, needle, from), |needle|, p)
    decreases |s| - from
  {
    FindFromIsFirst(s, needle, from);
    var q := FindFrom(s, needle, from).value;
    var at := q + |needle|;
    CoveredCons(q, Matches(s, needle, at), |needle|, p);
    if at <= p {
      MatchesCover(s, needle, at, p);
    }
  }

  lemma MatchesAreLeftmost(s: seq<Byte>, needle: seq<Byte>, from: nat)
    requires needle != []
    ensures LeftmostMatches(s, needle, from, Matches(s, needle, from))
  {
    MatchesApart(s, needle, from);
    forall p: nat | from <= p && OccursAt(s, needle, p)
      ensures Covered(Matches(s, needle, from), |needle|, p)
    {
      MatchesCover(s, needle, from, p);
    }
  }

  /** The three conditions leave no choice. */
  lemma {:induction false} LeftmostIsUnique(s: seq<Byte>, needle: seq<Byte>, from: nat, ms: seq<nat>)
    requires needle != [] && LeftmostMatches(s, needle, from, ms)
    ensures ms == Matches(s, needle, from)
    decreases |ms|
  {
    if ms == [] {
      NoneCovered(s, needle, from, ms);
    } else {
      var p, tail := HeadAndTail(s, needle, from, ms);
      LeftmostIsUnique(s, needle, p + |needle|, tail);
    }
  }

  lemma HeadAndTail(s: seq<Byte>, needle: seq<Byte>, from: nat, ms: seq<nat>)
    returns (p: nat, tail: seq<nat>)
    requires needle != [] && LeftmostMatches(s, needle, from, ms) && ms != []
    ensures FindFrom(s, needle, from) == Some(p) && ms == [p] + tail
    ensures LeftmostMatches(s, needle, p + |needle|, tail)
  {
    FirstExists(s, needle, from, ms[0]);
    p, tail := FindFrom(s, needle, from).value, ms[1..];
    HeadIsFirst(s, needle, from, ms, p);
    TailApart(s, needle, from, ms);
    TailCovered(s, needle, from, ms);
  }

  lemma FirstExists(s: seq<Byte>, needle: seq<Byte>, from: nat, p: nat)
    requires from <= p && OccursAt(s, needle, p)
    ensures FindFrom(s, needle, from).Some?
  {
    FindFromIsFirst(s, needle, from);
  }

  lemma NoneCovered(s: seq<Byte>, needle: seq<Byte>, from: nat, ms: seq<nat>)
    requires needle != [] && AllCovered(s, needle, from, ms) && ms == []
    ensures ms == Matches(s, needle, from)
  {
    var first := FindFrom(s, needle, from);
    assert first.Some? ==> Covered(ms, |needle|, first.value);
  }

  lemma HeadIsFirst(s: seq<Byte>, needle: seq<Byte>, from: nat, ms: seq<nat>, p: nat)
    requires needle != [] && LeftmostMatches(s, needle, from, ms) && FindFrom(s, needle, from) == Some(p)
    ensures ms != [] && ms[0] == p
  {
    FindFromIsFirst(s, needle, from);
    assert Covered(ms, |needle|, p);
    var k :| 0 <= k < |ms| && ms[k] <= p < ms[k] + |needle|;
    assert OccursAt(s, needle, ms[k]) && OccursAt(s, needle, ms[0]);
  }

  lemma TailApart(s: seq<Byte>, needle: seq<Byte>, from: nat, ms: seq<nat>)
    requires AllMatch(s, needle, from, ms) && Apart(ms, |needle|) && ms != []
    ensures AllMatch(s, needle, ms[0] + |needle|, ms[1..]) && Apart(ms[1..], |needle|)
  {
  }

  lemma TailCovered(s: seq<Byte>, needle: seq<Byte>, from: nat, ms: seq<nat>)
    requires AllCovered(s, needle, from, ms) && ms != [] && from <= ms[0]
    ensures AllCovered(s, needle, ms[0] + |needle|, ms[1..])
  {
    forall q: nat | ms[0] + |needle| <= q && OccursAt(s, needle, q)
      ensures Covered(ms[1..], |needle|, q)
    {
      assert Covered(ms, |needle|, q);
      assert [ms[0]] + ms[1..] == ms;
      CoveredCons(ms[0], ms[1..], |needle|, q);
    }
  }

  lemma OverWindows(s: seq<Byte>, p: nat, to: seq<Byte>, q: nat)
    requires p + |to| <= |s|
    ensures OccursAt(Over(s, p, to), to, p)
    ensures q + |to| <= p && OccursAt(s, to, q) ==> OccursAt(Over(s, p, to), to, q)
  {
    var r := Over(s, p, to);
    assert r[p..p + |to|] == to;
    assert q + |to| <= p ==> r[q..q + |to|] == s[q..q + |to|];
  }

  lemma OverElsewhere(s: seq<Byte>, p: nat, to: seq<Byte>, i: nat)
    requires p + |to| <= |s| && i < |s| && !(p <= i < p + |to|)
    ensures Over(s, p, to)[i] == s[i]
  {
  }

  lemma CoveredByInit(ms: seq<nat>, width: nat, i: nat)
    requires ms != [] && !Covered(ms, width, i)
    ensures !Covered(ms[..|ms| - 1], width, i) && !(ms[|ms| - 1] <= i < ms[|ms| - 1] + width)
  {
  }

  /** Replacement writes `to` into every window. */
  lemma {:induction false} ReplacedInside(s: seq<Byte>, ms: seq<nat>, to: seq<Byte>, k: nat)
    requires Fits(ms, |to|, |s|) && Apart(ms, |to|) && k < |ms|
    ensures OccursAt(Replaced(s, ms, to), to, ms[k])
    decreases |ms|
  {
    var init, last := ms[..|ms| - 1], ms[|ms| - 1];
    OverWindows(Replaced(s, init, to), last, to, ms[k]);
    if k < |init| {
      ReplacedInside(s, init, to, k);
    }
  }

  /** Replacement changes nothing outside the windows. */
  lemma {:induction false} ReplacedOutside(s: seq<Byte>, ms: seq<nat>, to: seq<Byte>, i: nat)
    requires Fits(ms, |to|, |s|) && i < |s| && !Covered(ms, |to|, i)
    ensures Replaced(s, ms, to)[i] == s[i]
    decreases |ms|
  {
    if ms != [] {
      var init, last := ms[..|ms| - 1], ms[|ms| - 1];
      CoveredByInit(ms, |to|, i);
      ReplacedOutside(s, init, to, i);
      OverElsewhere(Replaced(s, init, to), last, to, i);
    }
  }

  lemma {:induction false} FindInSuffix(s: seq<Byte>, t: seq<Byte>, needle: seq<Byte>, at: nat)
    requires |s| == |t| && at <= |s| && s[at..] == t[at..]
    ensures FindFrom(s, needle, at) == FindFrom(t, needle, at)
    decreases |s| - at
  {
    if at + |needle| <= |s| {
      assert s[at..at + |needle|] == s[at..][..|needle|] == t[at..][..|needle|] == t[at..at + |needle|];
      if at < |s| && !OccursAt(s, needle, at) {
        assert s[at + 1..] == s[at..][1..] == t[at..][1..] == t[at + 1..];
        FindInSuffix(s, t, needle, at + 1);
      }
    }
  }

  method CopyInto(bytes: array<Byte>, at: nat, to: seq<Byte>)
    requires at + |to| <= bytes.Length
    modifies bytes
    ensures bytes[..] == Over(old(bytes[..]), at, to)
  {
    ghost var was := bytes[..];
    var i := 0;
    while i < |to|
      invariant i <= |to|
      invariant forall k :: 0 <= k < bytes.Length ==>
                  bytes[k] == if at <= k < at + i then to[k - at] else was[k]
    {
      bytes[at + i] := to[i];
      i := i + 1;
    }
  }

  lemma ReplacedSnoc(s: seq<Byte>, ms: seq<nat>, p: nat, to: seq<Byte>)
    requires Fits(ms, |to|, |s|) && p + |to| <= |s|
    ensures Fits(ms + [p], |to|, |s|)
    ensures Replaced(s, ms + [p], to) == Over(Replaced(s, ms, to), p, to)
  {
    assert (ms + [p])[..|ms + [p]| - 1] == ms;
  }

  /** `retag_version`, on the bytes read from the file: it searches the array it is rewriting, and
      still computes the pure leftmost replacement of the original bytes. */
  method RetagVersion(bytes: array<Byte>, from: seq<Byte>, to: seq<Byte>) returns (r: Outcome)
    modifies bytes
    ensures r.LengthsDiffer? <==> |from| != |to|
    ensures r.Panicked? <==> from == to == []
    ensures r.LengthsDiffer? || r.Panicked? ==> bytes[..] == old(bytes[..])
    ensures |from| == |to| > 0 ==>
              var ms := Matches(old(bytes[..]), from, 0);
              && Fits(ms, |to|, bytes.Length)
              && bytes[..] == Replaced(old(bytes[..]), ms, to)
              && r == (if ms == [] then NotFound else Retagged(|ms|))
  {
    if |from| != |to| {
      return LengthsDiffer;
    }
    if from == [] {
      return Panicked;
    }
    ghost var ms := Matches(bytes[..], from, 0);
    AllSearched(bytes[..], from);
    MatchesFit(bytes[..], from);
    var hits := ReplaceAll(bytes, from, to, ms);
    if hits == 0 {
      return NotFound;
    }
    r := Retagged(hits);
  }

  /** Where a search that began at `at` resumes once `k` matches are found. */
  function Resume(ms: seq<nat>, width: nat, at: nat, k: nat): nat
    requires k <= |ms|
  {
    if k == 0 then at else ms[k - 1] + width
  }

  function NextMatch(ms: seq<nat>, k: nat): Option<nat> { if k < |ms| then Some(ms[k]) else None }

  /** Each search of the original bytes finds the next of the matches. */
  ghost predicate Searched(was: seq<Byte>, from: seq<Byte>, ms: seq<nat>) {
    forall k :: 0 <= k <= |ms| ==> FindFrom(was, from, Resume(ms, |from|, 0, k)) == NextMatch(ms, k)
  }

  lemma MatchesFirst(was: seq<Byte>, from: seq<Byte>, at: nat, ms: seq<nat>)
    requires from != [] && ms == Matches(was, from, at)
    ensures FindFrom(was, from, at) == NextMatch(ms, 0)
    ensures ms != [] ==> ms[1..] == Matches(was, from, ms[0] + |from|)
  {
  }

  lemma ResumeShifts(ms: seq<nat>, rest: seq<nat>, width: nat, at: nat, k: nat)
    requires 0 < k <= |ms| && rest == ms[1..]
    ensures Resume(rest, width, ms[0] + width, k - 1) == Resume(ms, width, at, k)
    ensures NextMatch(rest, k - 1) == NextMatch(ms, k)
  {
  }

  lemma {:induction false} MatchesSearched(was: seq<Byte>, from: seq<Byte>, at: nat, ms: seq<nat>,
                                           k: nat, next: nat)
    requires from != [] && ms == Matches(was, from, at) && k <= |ms| && next == Resume(ms, |from|, at, k)
    ensures FindFrom(was, from, next) == NextMatch(ms, k)
    decreases k
  {
    MatchesFirst(was, from, at, ms);
    if k > 0 {
      var rest := ms[1..];
      ResumeShifts(ms, rest, |from|, at, k);
      MatchesSearched(was, from, ms[0] + |from|, rest, k - 1, next);
    }
  }

  lemma AllSearched(was: seq<Byte>, from: seq<Byte>)
    requires from != []
    ensures Searched(was, from, Matches(was, from, 0))
  {
    var ms := Matches(was, from, 0);
    forall k | 0 <= k <= |ms|
      ensures FindFrom(was, from, Resume(ms, |from|, 0, k)) == NextMatch(ms, k)
    {
      MatchesSearched(was, from, 0, ms, k, Resume(ms, |from|, 0, k));
    }
  }

  lemma MatchesFit(was: seq<Byte>, from: seq<Byte>)
    requires from != []
    ensures Fits(Matches(was, from, 0), |from|, |was|)
  {
    MatchesApart(was, from, 0);
  }

  method ReplaceAll(bytes: array<Byte>, from: seq<Byte>, to: seq<Byte>, ghost ms: seq<nat>)
    returns (hits: nat)
    requires |from| == |to| && Searched(bytes[..], from, ms) && Fits(ms, |to|, bytes.Length)
    modifies bytes
    ensures bytes[..] == Replaced(old(bytes[..]), ms, to) && hits == |ms|
  {
    ghost var was := bytes[..];
    hits := 0;
    var at := 0;
    var found := FindFrom(bytes[..], from, at);
    while found.Some?
      invariant hits <= |ms| && at == Resume(ms, |from|, 0, hits) && found == NextMatch(ms, hits)
      invariant at <= bytes.Length && Progress(was, bytes[..], ms, to, hits, at)
      decreases |ms| - hits
    {
      var start := found.value;
      ghost var now := bytes[..];
      CopyInto(bytes, start, to);
      ProgressStep(was, now, ms, to, hits, at, start);
      hits := hits + 1;
      at := start + |from|;
      found := FindFrom(bytes[..], from, at);
      FindInSuffix(bytes[..], was, from, at);
    }
    assert ms[..hits] == ms;
  }

  /** The first `k` windows are replaced, and the bytes from `at` on are untouched. */
  ghost predicate Progress(was: seq<Byte>, now: seq<Byte>, ms: seq<nat>, to: seq<Byte>, k: nat, at: nat) {
    && |now| == |was| && at <= |was| && k <= |ms| && Fits(ms[..k], |to|, |was|)
    && now == Replaced(was, ms[..k], to) && now[at..] == was[at..]
  }

  lemma ProgressStep(was: seq<Byte>, now: seq<Byte>, ms: seq<nat>, to: seq<Byte>,
                     k: nat, at: nat, start: nat)
    requires Progress(was, now, ms, to, k, at) && k < |ms| && start == ms[k] && at <= start
    requires start + |to| <= |was|
    ensures Progress(was, Over(now, start, to), ms, to, k + 1, start + |to|)
  {
    assert ms[..k + 1] == ms[..k] + [start];
    ReplacedSnoc(was, ms[..k], start, to);
    OverSuffix(was, now, at, start, to);
  }

  lemma OverSuffix(was: seq<Byte>, now: seq<Byte>, at: nat, start: nat, to: seq<Byte>)
    requires |now| == |was| && at <= start && start + |to| <= |was| && now[at..] == was[at..]
    ensures Over(now, start, to)[start + |to|..] == was[start + |to|..]
  {
    var end := start + |to|;
    DropDrop(now, at, end - at);
    DropDrop(was, at, end - at);
    assert Over(now, start, to)[end..] == now[end..];
  }
}
