/**
 * `parseContent`: cut a message text into text and math segments.
 *
 * Three steps, as in the source: `String.prototype.split` with the capturing
 * regular expression `(\$\$[^$]+\$\$)`, which keeps each match between the
 * parts around it; classification of each part by its shape; and dropping the
 * parts whose trimmed content is empty.
 */
module Segmenter {
  import opened Wrappers
  import opened JsString

  /** `s[k..k+2] == "$$"`. */
  predicate DollarsAt(s: string, k: nat) {
    k + 1 < |s| && s[k] == '$' && s[k + 1] == '$'
  }

  /** A match of `\$\$[^$]+\$\$`: `$$`, a non-empty run without `$`, `$$`. */
  predicate IsMathToken(t: string) {
    && |t| >= 5
    && t[0] == '$' && t[1] == '$'
    && t[|t| - 2] == '$' && t[|t| - 1] == '$'
    && forall m :: 2 <= m < |t| - 2 ==> t[m] != '$'
  }

  /** The end of the greedy run `[^$]+` that starts at `k`: the first `$` at or after `k`, or `|s|`. */
  function RunEnd(s: string, k: nat): (e: nat)
    requires k <= |s|
    ensures k <= e <= |s|
    ensures e < |s| ==> s[e] == '$'
    ensures forall m :: k <= m < e ==> s[m] != '$'
    decreases |s| - k
  {
    if k == |s| || s[k] == '$' then k else RunEnd(s, k + 1)
  }

  /**
   * Where the match of the regular expression that starts at `q` ends, if one
   * does (`MatchEndUnique`: there is at most one, since the run `[^$]+` must
   * stop at the next `$`).
   */
  function MatchEnd(s: string, q: nat): (r: Option<nat>)
    requires q <= |s|
    ensures r.Some? ==> q < r.value <= |s| && IsMathToken(s[q..r.value])
  {
    if DollarsAt(s, q) then
      var e := RunEnd(s, q + 2);
      MatchEndExact(s, q);
      if e > q + 2 && DollarsAt(s, e) then Some(e + 2) else None
    else
      None
  }

  /** `MatchEnd` finds every match: any `s[q..e]` of the shape of a match is the one it returns. */
  lemma MatchEndUnique(s: string, q: nat, e: nat)
    requires q <= e <= |s| && IsMathToken(s[q..e])
    ensures MatchEnd(s, q) == Some(e)
  {
    if DollarsAt(s, q) {
      MatchEndExact(s, q);
    } else {
      MatchNeedsDollars(s, q);
    }
  }

  lemma MatchNeedsDollars(s: string, q: nat)
    requires q <= |s| && !DollarsAt(s, q)
    ensures forall e :: q <= e <= |s| ==> !IsMathToken(s[q..e])
  {
  }

  lemma MatchEndExact(s: string, q: nat)
    requires DollarsAt(s, q)
    ensures var e := RunEnd(s, q + 2);
            forall e' :: q <= e' <= |s| && IsMathToken(s[q..e']) ==> e' == e + 2 && e > q + 2 && DollarsAt(s, e)
    ensures var e := RunEnd(s, q + 2);
            e > q + 2 && DollarsAt(s, e) ==> IsMathToken(s[q..e + 2])
  {
    forall e' | q <= e' <= |s| && IsMathToken(s[q..e'])
      ensures e' == RunEnd(s, q + 2) + 2
    {
      TokenRunEnds(s, q, e');
    }
    var e := RunEnd(s, q + 2);
    if e > q + 2 && DollarsAt(s, e) {
      RunIsToken(s, q, e);
    }
  }

  /** In a match `s[q..e']`, the run `[^$]+` that starts at `q + 2` ends at `e' - 2`. */
  lemma TokenRunEnds(s: string, q: nat, e': nat)
    requires q <= e' <= |s| && IsMathToken(s[q..e'])
    ensures RunEnd(s, q + 2) == e' - 2
  {
    var t := s[q..e'];
    assert t[|t| - 2] == s[e' - 2];
    forall m | q + 2 <= m < e' - 2
      ensures s[m] != '$'
    {
      assert t[m - q] == s[m];
    }
  }

  lemma RunIsToken(s: string, q: nat, e: nat)
    requires DollarsAt(s, q) && q + 2 < e && DollarsAt(s, e)
    requires forall m :: q + 2 <= m < e ==> s[m] != '$'
    ensures IsMathToken(s[q..e + 2])
  {
    var t := s[q..e + 2];
    forall m | 2 <= m < |t| - 2
      ensures t[m] != '$'
    {
      assert t[m] == s[q + m];
    }
  }

  function Concat(parts: seq<string>): string {
    if parts == [] then [] else parts[0] + Concat(parts[1..])
  }

  lemma ConcatTwoMore(a: string, b: string, rest: seq<string>)
    ensures Concat([a, b] + rest) == a + b + Concat(rest)
  {
    assert ([a, b] + rest)[1..] == [b] + rest;
    assert ([b] + rest)[1..] == rest;
  }

  /**
   * The splitter loop of `String.prototype.split` called with a regular
   * expression: `p` is where the current part began, `q` is where a match is
   * tried next. A match closes the part before it and, its only capture being
   * the whole match, is itself pushed as the next part; what is left after the
   * last match is the last part.
   */
  function SplitFrom(s: string, p: nat, q: nat): (parts: seq<string>)
    requires p <= q <= |s|
    ensures |parts| % 2 == 1
    ensures Concat(parts) == s[p..]
    ensures forall i :: 0 <= i < |parts| && i % 2 == 1 ==> IsMathToken(parts[i])
    decreases |s| - q
  {
    if q == |s| then
      assert [s[p..]][1..] == [];
      [s[p..]]
    else
      match MatchEnd(s, q)
      case Some(e) =>
        var rest := SplitFrom(s, e, e);
        SplitStep(s, p, q, e, rest);
        [s[p..q], s[q..e]] + rest
      case None => SplitFrom(s, p, q + 1)
  }

  lemma SplitStep(s: string, p: nat, q: nat, e: nat, rest: seq<string>)
    requires p <= q < e <= |s| && IsMathToken(s[q..e])
    requires |rest| % 2 == 1 && Concat(rest) == s[e..]
    requires forall i :: 0 <= i < |rest| && i % 2 == 1 ==> IsMathToken(rest[i])
    ensures var parts := [s[p..q], s[q..e]] + rest;
            && |parts| % 2 == 1 && Concat(parts) == s[p..]
            && forall i :: 0 <= i < |parts| && i % 2 == 1 ==> IsMathToken(parts[i])
  {
    var parts := [s[p..q], s[q..e]] + rest;
    ConcatTwoMore(s[p..q], s[q..e], rest);
    assert s[p..] == s[p..q] + s[q..e] + s[e..];
    forall i | 2 <= i < |parts|
      ensures parts[i] == rest[i - 2]
    {
    }
  }

  /** `text.split(/(\$\$[^$]+\$\$)/g)`: 2k+1 parts that put back together give `text`, the k matches at the odd positions. */
  function Split(text: string): (parts: seq<string>)
    ensures |parts| % 2 == 1
    ensures Concat(parts) == text
    ensures forall i :: 0 <= i < |parts| && i % 2 == 1 ==> IsMathToken(parts[i])
  {
    SplitFrom(text, 0, 0)
  }

  /** No match of the regular expression starts in `s[off..off+len]`. */
  predicate GapAt(s: string, off: nat, len: nat) {
    off + len <= |s| && forall r :: off <= r < off + len ==> MatchEnd(s, r).None?
  }

  /** The match that starts at `off` is `s[off..off+len]`. */
  predicate TokenAt(s: string, off: nat, len: nat) {
    off + len <= |s| && MatchEnd(s, off) == Some(off + len)
  }

  /**
   * The parts sit in `s` one after the other from `p`, alternating: a stretch
   * where no match starts, then the match that starts right after it, and so
   * on, ending with a stretch.
   */
  predicate PartsAt(s: string, p: nat, parts: seq<string>)
    decreases |parts|
  {
    if parts == [] then true
    else
      && GapAt(s, p, |parts[0]|)
      && (|parts| >= 2 ==>
            && TokenAt(s, p + |parts[0]|, |parts[1]|)
            && PartsAt(s, p + |parts[0]| + |parts[1]|, parts[2..]))
  }

  /**
   * The parts of `SplitFrom(s, p, q)` sit where `PartsAt` says: the split
   * takes the leftmost match every time and never lets a match go by.
   */
  lemma {:induction false} SplitFromPositions(s: string, p: nat, q: nat)
    requires p <= q <= |s| && GapAt(s, p, q - p)
    ensures PartsAt(s, p, SplitFrom(s, p, q))
    decreases |s| - q
  {
    if q == |s| {
      assert SplitFrom(s, p, q) == [s[p..]];
    } else {
      match MatchEnd(s, q)
      case Some(e) =>
        var rest := SplitFrom(s, e, e);
        assert SplitFrom(s, p, q) == [s[p..q], s[q..e]] + rest;
        SplitFromPositions(s, e, e);
        PartsAtStep(s, p, q, e, rest);
      case None =>
        assert SplitFrom(s, p, q) == SplitFrom(s, p, q + 1);
        SplitFromPositions(s, p, q + 1);
    }
  }

  lemma PartsAtStep(s: string, p: nat, q: nat, e: nat, rest: seq<string>)
    requires p <= q < e <= |s| && GapAt(s, p, q - p) && TokenAt(s, q, e - q) && PartsAt(s, e, rest)
    ensures PartsAt(s, p, [s[p..q], s[q..e]] + rest)
  {
    var parts := [s[p..q], s[q..e]] + rest;
    assert parts[2..] == rest;
  }

  /** The parts of `Split(text)` sit in `text` where `PartsAt` says, from its start. */
  lemma SplitPositions(text: string)
    ensures PartsAt(text, 0, Split(text))
  {
    SplitFromPositions(text, 0, 0);
  }

  /** Where no match starts from `q` on, the rest of the text is a single last part. */
  lemma {:induction false} SplitFromNoMatch(s: string, p: nat, q: nat)
    requires p <= q <= |s|
    requires forall r :: q <= r < |s| ==> MatchEnd(s, r).None?
    ensures SplitFrom(s, p, q) == [s[p..]]
    decreases |s| - q
  {
    if q < |s| {
      SplitFromNoMatch(s, p, q + 1);
    }
  }

  /** Positions where no match starts are passed over without cutting. */
  lemma {:induction false} SplitFromSkip(s: string, p: nat, q: nat, q': nat)
    requires p <= q <= q' <= |s|
    requires forall r :: q <= r < q' ==> MatchEnd(s, r).None?
    ensures SplitFrom(s, p, q) == SplitFrom(s, p, q')
    decreases q' - q
  {
    if q < q' {
      SplitFromNone(s, p, q);
      SplitFromSkip(s, p, q + 1, q');
    }
  }

  /** One step of the split where no match starts. */
  lemma SplitFromNone(s: string, p: nat, q: nat)
    requires p <= q < |s| && MatchEnd(s, q).None?
    ensures SplitFrom(s, p, q) == SplitFrom(s, p, q + 1)
  {
  }

  datatype Kind = Text | Math

  /** `{ type: 'text' | 'math', content: string }`. */
  datatype Segment = Segment(kind: Kind, content: string)

  /** `part.startsWith('$$') && part.endsWith('$$')`; the two may share characters, as in `"$$$"`. */
  predicate MathShaped(part: string)
    ensures IsMathToken(part) ==> MathShaped(part)
    ensures MathShaped(part) ==> |part| >= 2 && part[0] == '$' && part[|part| - 1] == '$'
    ensures MathShaped(part) ==> (Inner(part) == [] <==> |part| <= 4)
  {
    |part| >= 2 && (EndPairs(part); part[..2] == "$$" && part[|part| - 2..] == "$$")
  }

  lemma EndPairs(part: string)
    requires |part| >= 2
    ensures part[..2] == [part[0], part[1]] && part[|part| - 2..] == [part[|part| - 2], part[|part| - 1]]
  {
  }

  /** `part.slice(2, -2)`: empty when the part has fewer than five characters. */
  function Inner(part: string): (r: string)
    ensures |part| >= 4 ==> |r| == |part| - 4 && part == part[..2] + r + part[|part| - 2..]
    ensures |part| < 4 ==> r == []
  {
    if |part| >= 4 then part[2..|part| - 2] else []
  }

  /** One part as a segment: classified by its shape, its content trimmed. */
  function Classify(part: string): (seg: Segment)
    ensures seg.kind == Math <==> MathShaped(part)
    ensures IsTrimmed(seg.content)
  {
    if MathShaped(part) then Segment(Math, Trim(Inner(part)))
    else Segment(Text, Trim(part))
  }

  /**
   * The content of a classified part is what trimming leaves of it: of the
   * text between the two `$$` for a math part, of the whole part otherwise.
   */
  lemma ClassifyContent(part: string)
    ensures var src := if MathShaped(part) then Inner(part) else part;
            exists a, b :: 0 <= a <= b <= |src| && Classify(part).content == src[a..b]
                           && AllWhitespace(src[..a]) && AllWhitespace(src[b..])
  {
    if MathShaped(part) {
      TrimIsSlice(Inner(part));
    } else {
      TrimIsSlice(part);
    }
  }

  /** `xs` is `ys` with some elements left out and the others in their order. */
  predicate IsSubsequence<T(==)>(xs: seq<T>, ys: seq<T>)
    decreases |ys|
  {
    if xs == [] then true
    else if ys == [] then false
    else if xs[0] == ys[0] then IsSubsequence(xs[1..], ys[1..])
    else IsSubsequence(xs, ys[1..])
  }

  /** `.filter(p => p.content)`: an empty string is falsy. */
  function DropEmpty(segs: seq<Segment>): (r: seq<Segment>)
    ensures IsSubsequence(r, segs)
    ensures forall i :: 0 <= i < |r| ==> r[i].content != []
    ensures forall i :: 0 <= i < |segs| && segs[i].content != [] ==> segs[i] in r
  {
    if segs == [] then []
    else
      var rest := DropEmpty(segs[1..]);
      assert forall i :: 1 <= i < |segs| ==> segs[i] == segs[1..][i - 1];
      if segs[0].content == [] then
        assert rest == [] || rest[0] != segs[0];
        rest
      else
        assert ([segs[0]] + rest)[1..] == rest;
        [segs[0]] + rest
  }

  /**
   * The filter keeps every occurrence of a non-empty segment: each one is in
   * the result exactly as many times as in the input, and no empty one is.
   * With `IsSubsequence`, this determines the result.
   */
  lemma {:induction false} DropEmptyCounts(segs: seq<Segment>)
    ensures forall x: Segment :: multiset(DropEmpty(segs))[x] == if x.content == [] then 0 else multiset(segs)[x]
  {
    if segs != [] {
      DropEmptyCounts(segs[1..]);
      assert segs == [segs[0]] + segs[1..];
      DropEmptyCons(segs[0], segs[1..]);
    }
  }

  /** `parts.map(...)` with the classification of `Classify`. */
  function ClassifyAll(parts: seq<string>): (segs: seq<Segment>)
    ensures |segs| == |parts|
    ensures forall i :: 0 <= i < |parts| ==> segs[i] == Classify(parts[i])
  {
    seq(|parts|, i requires 0 <= i < |parts| => Classify(parts[i]))
  }

  /**
   * `parseContent(text)`: the classified parts of the split, in their order,
   * without those whose content is empty; so at most 2k+1 segments for k
   * matches, each with non-empty, trimmed content.
   */
  function ParseContent(text: string): (segs: seq<Segment>)
    ensures IsSubsequence(segs, ClassifyAll(Split(text)))
    ensures forall i :: 0 <= i < |Split(text)| && Classify(Split(text)[i]).content != [] ==> Classify(Split(text)[i]) in segs
    ensures |segs| <= |Split(text)|
    ensures forall i :: 0 <= i < |segs| ==> segs[i].content != [] && IsTrimmed(segs[i].content)
  {
    var parts := Split(text);
    var classified := ClassifyAll(parts);
    var r := DropEmpty(classified);
    SubsequenceShorter(r, classified);
    assert forall i :: 0 <= i < |r| ==> r[i] in classified;
    r
  }

  /**
   * `parseContent` keeps every non-empty classified part as often as the split
   * yields it, and nothing else: with the subsequence clause of
   * `ParseContent`, the segments are exactly those parts in input order.
   */
  lemma ParseContentCounts(text: string)
    ensures forall x: Segment :: multiset(ParseContent(text))[x]
                                 == if x.content == [] then 0 else multiset(ClassifyAll(Split(text)))[x]
  {
    ParseFromParts(text, Split(text));
    DropEmptyCounts(ClassifyAll(Split(text)));
  }

  lemma {:induction false} SubsequenceShorter<T>(xs: seq<T>, ys: seq<T>)
    requires IsSubsequence(xs, ys)
    ensures |xs| <= |ys|
    ensures forall x :: x in xs ==> x in ys
    decreases |ys|
  {
    if xs != [] {
      if xs[0] == ys[0] {
        SubsequenceShorter(xs[1..], ys[1..]);
        assert xs == [xs[0]] + xs[1..];
        assert ys == [ys[0]] + ys[1..];
      } else {
        SubsequenceShorter(xs, ys[1..]);
      }
    }
  }

  /** Where no match starts, `Split` leaves the text whole. */
  lemma SplitNoMatch(text: string)
    requires forall r :: 0 <= r < |text| ==> MatchEnd(text, r).None?
    ensures Split(text) == [text]
  {
    SplitFromNoMatch(text, 0, 0);
  }

  /** A text without `$$` gives at most one segment: a text segment holding the trimmed text. */
  lemma ParseNoDollars(text: string)
    requires forall k :: 0 <= k < |text| ==> !DollarsAt(text, k)
    ensures ParseContent(text) == if Trim(text) == [] then [] else [Segment(Text, Trim(text))]
  {
    SplitNoMatch(text);
    assert !MathShaped(text);
    var seg := Classify(text);
    assert ClassifyAll([text]) == [seg];
    assert [seg][1..] == [];
  }

  /** Empty or whitespace-only text gives no segment at all. */
  lemma ParseBlank(text: string)
    requires AllWhitespace(text)
    ensures ParseContent(text) == []
  {
    ParseNoDollars(text);
  }

  /** One step of the split at a match. */
  lemma SplitFromAtMatch(s: string, p: nat, q: nat, e: nat)
    requires p <= q < |s| && MatchEnd(s, q) == Some(e)
    ensures SplitFrom(s, p, q) == [s[p..q], s[q..e]] + SplitFrom(s, e, e)
  {
  }

  /** The split at the end of the text. */
  lemma SplitFromEnd(s: string, p: nat)
    requires p <= |s|
    ensures SplitFrom(s, p, |s|) == [s[p..]]
  {
  }

  /** `DropEmpty` one element at a time. */
  lemma DropEmptyCons(x: Segment, rest: seq<Segment>)
    ensures DropEmpty([x] + rest) == if x.content == [] then DropEmpty(rest) else [x] + DropEmpty(rest)
  {
    assert ([x] + rest)[1..] == rest;
  }

  /** `ClassifyAll` one part at a time. */
  lemma ClassifyAllCons(part: string, rest: seq<string>)
    ensures ClassifyAll([part] + rest) == [Classify(part)] + ClassifyAll(rest)
  {
  }

  /** `ParseContent` from the three parts of a split with one match. */
  lemma ParseThreeParts(text: string, a: string, m: string, b: string)
    requires Split(text) == [a, m, b]
    ensures ParseContent(text) == DropEmpty([Classify(a), Classify(m), Classify(b)])
  {
    ParseFromParts(text, [a, m, b]);
    assert [a, m, b] == [a] + ([m] + [b]);
    ClassifyAllCons(a, [m] + [b]);
    ClassifyAllCons(m, [b]);
    ClassifyAllCons(b, []);
    assert ClassifyAll([a, m, b]) == [Classify(a), Classify(m), Classify(b)];
  }

  /** `ParseContent` from the parts of the split. */
  lemma ParseFromParts(text: string, parts: seq<string>)
    requires Split(text) == parts
    ensures ParseContent(text) == DropEmpty(ClassifyAll(parts))
  {
  }

  /** Three non-empty segments are all kept. */
  lemma DropEmptyNone(x: Segment, y: Segment, z: Segment)
    requires x.content != [] && y.content != [] && z.content != []
    ensures DropEmpty([x, y, z]) == [x, y, z]
  {
    DropEmptyCons(z, []);
    assert [z] + [] == [z];
    DropEmptyCons(y, [z]);
    assert [x, y, z] == [x] + [y, z];
    DropEmptyCons(x, [y, z]);
  }

  /** Between two empty segments, only the middle one can be kept. */
  lemma DropEmptyOuter(x: Segment, y: Segment, z: Segment)
    requires x.content == [] && z.content == []
    ensures DropEmpty([x, y, z]) == if y.content == [] then [] else [y]
  {
    DropEmptyCons(z, []);
    assert [z] + [] == [z];
    DropEmptyCons(y, [z]);
    assert [x, y, z] == [x] + [y, z];
    DropEmptyCons(x, [y, z]);
  }

  /** A text that is exactly one match gives one math segment, or none when its inner text is blank. */
  lemma ParseOneToken(text: string)
    requires IsMathToken(text)
    ensures ParseContent(text) == if Trim(Inner(text)) == [] then [] else [Segment(Math, Trim(Inner(text)))]
  {
    MatchEndUnique(text, 0, |text|);
    SplitFromAtMatch(text, 0, 0, |text|);
    SplitFromEnd(text, |text|);
    assert text[0..0] == "" && text[0..|text|] == text && text[|text|..] == "";
    ParseThreeParts(text, "", text, "");
    DropEmptyOuter(Classify(""), Classify(text), Classify(""));
  }

  /** Where `$$` does not start, no match starts. */
  lemma NoDollarsNoMatch(s: string, q: nat, q': nat)
    requires q <= q' <= |s|
    requires forall r :: q <= r < q' ==> s[r] != '$'
    ensures forall r :: q <= r < q' ==> MatchEnd(s, r).None?
  {
  }

  /** No match starts before the `$$` of `The answer is $$4$$.`. */
  lemma AnswerPrefix()
    ensures SplitFrom("The answer is $$4$$.", 0, 0) == SplitFrom("The answer is $$4$$.", 0, 14)
  {
    var s := "The answer is $$4$$.";
    NoDollarsNoMatch(s, 0, 14);
    SplitFromSkip(s, 0, 0, 14);
  }

  /** The one match of `The answer is $$4$$.`, and nothing after it. */
  lemma AnswerMatch()
    ensures SplitFrom("The answer is $$4$$.", 0, 14) == ["The answer is ", "$$4$$", "."]
  {
    var s := "The answer is $$4$$.";
    assert s[14..19] == "$$4$$";
    MatchEndUnique(s, 14, 19);
    SplitFromAtMatch(s, 0, 14, 19);
    SplitFromNoMatch(s, 19, 19);
    assert s[0..14] == "The answer is ";
    assert s[19..] == ".";
  }

  /** The text before the match of `The answer is $$4$$.` loses its trailing space. */
  lemma AnswerText()
    ensures Classify("The answer is ") == Segment(Text, "The answer is")
  {
    var t := "The answer is ";
    assert SkipStart(t, 0) == 0;
    assert SkipEnd(t, 0, 14) == 13;
    assert !MathShaped(t);
  }

  /** The match and the full stop of `The answer is $$4$$.`. */
  lemma AnswerMathAndStop()
    ensures Classify("$$4$$") == Segment(Math, "4")
    ensures Classify(".") == Segment(Text, ".")
  {
    assert MathShaped("$$4$$") && Inner("$$4$$") == "4";
    TrimTrimmed("4");
    assert !MathShaped(".");
    TrimTrimmed(".");
  }

  /** The text, the math and the full stop around `$$4$$` are three segments. */
  lemma ParseAnswer()
    ensures ParseContent("The answer is $$4$$.")
         == [Segment(Text, "The answer is"), Segment(Math, "4"), Segment(Text, ".")]
  {
    AnswerPrefix();
    AnswerMatch();
    AnswerText();
    AnswerMathAndStop();
    ParseThreeParts("The answer is $$4$$.", "The answer is ", "$$4$$", ".");
    DropEmptyNone(Segment(Text, "The answer is"), Segment(Math, "4"), Segment(Text, "."));
  }

  /**
   * A part is classified by its shape, not by having been a match: `$$a$b$$`
   * is no match (the run stops at the inner `$`) and yet a math segment.
   */
  lemma ParseShapedNonMatch()
    ensures ParseContent("$$a$b$$") == [Segment(Math, "a$b")]
  {
    var s := "$$a$b$$";
    assert RunEnd(s, 2) == 3 && !DollarsAt(s, 3);
    assert MatchEnd(s, 0).None?;
    assert RunEnd(s, 7) == 7;
    assert MatchEnd(s, 5).None?;
    assert forall r :: 0 <= r < 7 && r != 0 && r != 5 ==> !DollarsAt(s, r);
    SplitFromNoMatch(s, 0, 0);
    assert s[0..] == s;
    assert MathShaped(s) && Inner(s) == "a$b";
    TrimTrimmed("a$b");
    assert ClassifyAll([s]) == [Segment(Math, "a$b")];
  }

  /** `ParseContent` of a text that the split leaves whole. */
  lemma ParseWhole(text: string)
    requires Split(text) == [text]
    ensures ParseContent(text) == if Classify(text).content == [] then [] else [Classify(text)]
  {
    ParseFromParts(text, [text]);
    ClassifyAllCons(text, []);
    assert [text] + [] == [text];
    DropEmptyCons(Classify(text), []);
  }

  /** `$$` on its own is math-shaped with an empty inner text, so nothing is kept. */
  lemma ParseBareDollars()
    ensures ParseContent("$$") == []
  {
    var s := "$$";
    assert RunEnd(s, 2) == 2;
    assert MatchEnd(s, 0).None? && MatchEnd(s, 1).None?;
    SplitFromNoMatch(s, 0, 0);
    assert s[0..] == s;
    assert MathShaped(s) && Inner(s) == [];
    ParseWhole(s);
  }

  /** So is `$$$$`: the run between the two `$$` is empty, so it is no match either. */
  lemma ParseFourDollars()
    ensures ParseContent("$$$$") == []
  {
    var s := "$$$$";
    assert RunEnd(s, 2) == 2 && RunEnd(s, 3) == 3 && RunEnd(s, 4) == 4;
    assert MatchEnd(s, 0).None? && MatchEnd(s, 1).None? && MatchEnd(s, 2).None? && MatchEnd(s, 3).None?;
    SplitFromNoMatch(s, 0, 0);
    assert s[0..] == s;
    assert MathShaped(s) && Inner(s) == [];
    ParseWhole(s);
  }

  /** `$$$` starts and ends with `$$` (the two overlap) but has nothing inside. */
  lemma ParseThreeDollars()
    ensures ParseContent("$$$") == []
  {
    var s := "$$$";
    assert RunEnd(s, 2) == 2 && RunEnd(s, 3) == 3;
    assert MatchEnd(s, 0).None? && MatchEnd(s, 1).None? && MatchEnd(s, 2).None?;
    SplitFromNoMatch(s, 0, 0);
    assert s[0..] == s;
    assert s[..2] == "$$" && s[1..] == "$$";
    assert MathShaped(s) && Inner(s) == [];
    ParseWhole(s);
  }

  /** A `$$` that nothing closes stays inside the text. */
  lemma ParseDangling()
    ensures ParseContent("a $$ b") == [Segment(Text, "a $$ b")]
  {
    var s := "a $$ b";
    assert RunEnd(s, 4) == 6;
    assert MatchEnd(s, 2).None? && MatchEnd(s, 3).None?;
    assert forall r :: 0 <= r < 6 && r != 2 && r != 3 ==> !DollarsAt(s, r);
    SplitFromNoMatch(s, 0, 0);
    assert s[0..] == s;
    assert !MathShaped(s);
    TrimTrimmed(s);
    ParseWhole(s);
  }

  /** No match starts before the `$$` of `before $$x+1$$ after`. */
  lemma BeforeAfterPrefix()
    ensures SplitFrom("before $$x+1$$ after", 0, 0) == SplitFrom("before $$x+1$$ after", 0, 7)
  {
    var s := "before $$x+1$$ after";
    NoDollarsNoMatch(s, 0, 7);
    SplitFromSkip(s, 0, 0, 7);
  }

  /** No match starts after it. */
  lemma BeforeAfterSuffix()
    ensures SplitFrom("before $$x+1$$ after", 14, 14) == [" after"]
  {
    var s := "before $$x+1$$ after";
    NoDollarsNoMatch(s, 14, 20);
    SplitFromNoMatch(s, 14, 14);
    assert s[14..] == " after";
  }

  /** The match of `before $$x+1$$ after`. */
  lemma BeforeAfterMatch()
    ensures SplitFrom("before $$x+1$$ after", 0, 7)
         == ["before ", "$$x+1$$"] + SplitFrom("before $$x+1$$ after", 14, 14)
  {
    var s := "before $$x+1$$ after";
    assert s[7..14] == "$$x+1$$";
    MatchEndUnique(s, 7, 14);
    SplitFromAtMatch(s, 0, 7, 14);
    assert s[0..7] == "before ";
  }

  /** The split of `before $$x+1$$ after`. */
  lemma SplitBeforeAfter()
    ensures Split("before $$x+1$$ after") == ["before ", "$$x+1$$", " after"]
  {
    BeforeAfterPrefix();
    BeforeAfterMatch();
    BeforeAfterSuffix();
  }

  /** The text before the match, trimmed. */
  lemma BeforeText()
    ensures Classify("before ") == Segment(Text, "before")
  {
    assert SkipStart("before ", 0) == 0 && SkipEnd("before ", 0, 7) == 6;
    assert !MathShaped("before ");
  }

  /** The text after the match, trimmed. */
  lemma AfterText()
    ensures Classify(" after") == Segment(Text, "after")
  {
    assert SkipStart(" after", 0) == 1;
    assert SkipEnd(" after", 1, 6) == 6;
    assert " after"[1..6] == "after";
    assert !MathShaped(" after");
  }

  /** The match itself. */
  lemma BeforeAfterMath()
    ensures Classify("$$x+1$$") == Segment(Math, "x+1")
  {
    assert MathShaped("$$x+1$$") && Inner("$$x+1$$") == "x+1";
    TrimTrimmed("x+1");
  }

  /** Text, math, text, in the order of the input. */
  lemma ParseBeforeAfter()
    ensures ParseContent("before $$x+1$$ after")
         == [Segment(Text, "before"), Segment(Math, "x+1"), Segment(Text, "after")]
  {
    SplitBeforeAfter();
    BeforeText();
    AfterText();
    BeforeAfterMath();
    ParseThreeParts("before $$x+1$$ after", "before ", "$$x+1$$", " after");
    DropEmptyNone(Segment(Text, "before"), Segment(Math, "x+1"), Segment(Text, "after"));
  }

  /** No match starts before the `$$` of `1 $$x$$ 1`. */
  lemma RepeatedPrefix()
    ensures SplitFrom("1 $$x$$ 1", 0, 0) == SplitFrom("1 $$x$$ 1", 0, 2)
  {
    var s := "1 $$x$$ 1";
    NoDollarsNoMatch(s, 0, 2);
    SplitFromSkip(s, 0, 0, 2);
  }

  /** No match starts after it. */
  lemma RepeatedSuffix()
    ensures SplitFrom("1 $$x$$ 1", 7, 7) == [" 1"]
  {
    var s := "1 $$x$$ 1";
    NoDollarsNoMatch(s, 7, 9);
    SplitFromNoMatch(s, 7, 7);
    assert s[7..] == " 1";
  }

  /** The match of `1 $$x$$ 1`. */
  lemma RepeatedMatch()
    ensures SplitFrom("1 $$x$$ 1", 0, 2) == ["1 ", "$$x$$"] + SplitFrom("1 $$x$$ 1", 7, 7)
  {
    var s := "1 $$x$$ 1";
    assert s[2..7] == "$$x$$";
    MatchEndUnique(s, 2, 7);
    SplitFromAtMatch(s, 0, 2, 7);
    assert s[0..2] == "1 ";
  }

  /** The two texts around the match, trimmed to the same segment. */
  lemma RepeatedTexts()
    ensures Classify("1 ") == Segment(Text, "1") && Classify(" 1") == Segment(Text, "1")
  {
    assert SkipStart("1 ", 0) == 0 && SkipEnd("1 ", 0, 2) == 1;
    assert !MathShaped("1 ");
    assert SkipStart(" 1", 0) == 1 && SkipEnd(" 1", 1, 2) == 2;
    assert " 1"[1..2] == "1";
    assert !MathShaped(" 1");
  }

  /** The match itself. */
  lemma RepeatedMath()
    ensures Classify("$$x$$") == Segment(Math, "x")
  {
    assert MathShaped("$$x$$") && Inner("$$x$$") == "x";
    TrimTrimmed("x");
  }

  /** Equal segments are all kept: `1 $$x$$ 1` gives text `1`, math `x` and text `1` again. */
  lemma ParseRepeated()
    ensures ParseContent("1 $$x$$ 1") == [Segment(Text, "1"), Segment(Math, "x"), Segment(Text, "1")]
  {
    RepeatedPrefix();
    RepeatedMatch();
    RepeatedSuffix();
    RepeatedTexts();
    RepeatedMath();
    ParseThreeParts("1 $$x$$ 1", "1 ", "$$x$$", " 1");
    DropEmptyNone(Segment(Text, "1"), Segment(Math, "x"), Segment(Text, "1"));
  }
}
