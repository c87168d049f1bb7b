/**
 * `cleanMarkdown`: the global replacement of every match of the regular
 * expression `\*\*(.*?)\*\*` by its capture `$1`.
 *
 * The global replace is modelled as a left-to-right scan that cuts the text
 * into pieces: a `Bold` piece is one match of the regular expression (its two
 * `**` delimiters and the span between them), a `Lit` piece is a character at
 * which no match starts. Replacing keeps the span of every match and every
 * literal character.
 */
module Markdown {
  import opened Wrappers
  import opened JsString

  datatype Piece = Lit(c: char) | Bold(inner: string)

  /** `s[k..k+2] == "**"`. */
  predicate DelimAt(s: string, k: nat) {
    k + 2 <= |s| && s[k] == '*' && s[k + 1] == '*'
  }

  /** A span `(.*?)` that begins at `k` can be closed by the `**` at `j`: no line terminator lies in between. */
  predicate Closes(s: string, k: nat, j: nat) {
    k <= j && DelimAt(s, j) && forall m :: k <= m < j ==> !IsLineTerminator(s[m])
  }

  /** `s[i..j+2]` has the shape of a match: `**`, a span without line terminators, `**`. */
  predicate BoldSpan(s: string, i: nat, j: nat) {
    DelimAt(s, i) && Closes(s, i + 2, j)
  }

  /** The regular expression matches at `i`. */
  ghost predicate BoldAt(s: string, i: nat) {
    exists j :: BoldSpan(s, i, j)
  }

  /** The span between `**` and `**` of a non-greedy match: no line terminator, no `**`, no trailing `*`. */
  predicate MinimalInner(t: string) {
    && (forall m :: 0 <= m < |t| ==> !IsLineTerminator(t[m]))
    && (forall m :: 0 <= m < |t| ==> !DelimAt(t, m))
    && (t != [] ==> t[|t| - 1] != '*')
  }

  /**
   * The non-greedy `(.*?)\*\*` that starts at `k`: the first `**` at or after
   * `k`, unless a line terminator comes first.
   */
  function FindClose(s: string, k: nat): (r: Option<nat>)
    requires k <= |s|
    ensures r.Some? ==> Closes(s, k, r.value) && forall m :: k <= m < r.value ==> !DelimAt(s, m)
    ensures r.None? ==> forall j :: !Closes(s, k, j)
    decreases |s| - k
  {
    if k + 2 > |s| then None
    else if DelimAt(s, k) then Some(k)
    else if IsLineTerminator(s[k]) then None
    else ClosesStep(s, k); FindClose(s, k + 1)
  }

  lemma ClosesStep(s: string, k: nat)
    requires k < |s| && !DelimAt(s, k)
    ensures forall j :: Closes(s, k, j) ==> Closes(s, k + 1, j)
  {
  }

  /** The pieces of `s[i..]`, leftmost match first. */
  function Scan(s: string, i: nat): (ps: seq<Piece>)
    requires i <= |s|
    ensures |ps| <= |s| - i
    ensures 4 * BoldCount(ps) <= |s| - i
    decreases |s| - i
  {
    if i == |s| then []
    else if DelimAt(s, i) && FindClose(s, i + 2).Some? then
      var j := FindClose(s, i + 2).value;
      [Bold(s[i + 2..j])] + Scan(s, j + 2)
    else [Lit(s[i])] + Scan(s, i + 1)
  }

  /** The text the pieces were cut from. */
  function Unparse(ps: seq<Piece>): string {
    if ps == [] then []
    else
      match ps[0]
      case Lit(c) => [c] + Unparse(ps[1..])
      case Bold(t) => "**" + t + "**" + Unparse(ps[1..])
  }

  /** The text after the replacement: each match by its captured span `$1`; four characters shorter per match. */
  function Render(ps: seq<Piece>): (r: string)
    ensures |r| + 4 * BoldCount(ps) == |Unparse(ps)|
  {
    if ps == [] then []
    else
      match ps[0]
      case Lit(c) => [c] + Render(ps[1..])
      case Bold(t) => t + Render(ps[1..])
  }

  function BoldCount(ps: seq<Piece>): nat {
    if ps == [] then 0 else (if ps[0].Bold? then 1 else 0) + BoldCount(ps[1..])
  }

  /** `cleanMarkdown(text)`; every match costs the text its four asterisks and nothing else. */
  function CleanMarkdown(text: string): (r: string)
    ensures |r| == |text| - 4 * BoldCount(Scan(text, 0))
    ensures (forall k :: !DelimAt(text, k)) ==> r == text
  {
    ScanLossless(text, 0);
    NoDelimUnchanged(text);
    Render(Scan(text, 0))
  }

  /** The pieces of `s[i..]` put back together give `s[i..]`: the scan loses and invents nothing. */
  lemma {:induction false} ScanLossless(s: string, i: nat)
    requires i <= |s|
    ensures Unparse(Scan(s, i)) == s[i..]
    decreases |s| - i
  {
    if i < |s| {
      if DelimAt(s, i) && FindClose(s, i + 2).Some? {
        var j := FindClose(s, i + 2).value;
        ScanLossless(s, j + 2);
        BoldStepLossless(s, i, j);
      } else {
        ScanLossless(s, i + 1);
        LitStepLossless(s, i);
      }
    }
  }

  lemma BoldStepLossless(s: string, i: nat, j: nat)
    requires i < |s| && DelimAt(s, i) && FindClose(s, i + 2) == Some(j)
    requires Unparse(Scan(s, j + 2)) == s[j + 2..]
    ensures Unparse(Scan(s, i)) == s[i..]
  {
    ScanBoldStep(s, i, j);
    BoldPieceLossless(s, i, j, Scan(s, j + 2));
  }

  lemma LitStepLossless(s: string, i: nat)
    requires i < |s| && !(DelimAt(s, i) && FindClose(s, i + 2).Some?)
    requires Unparse(Scan(s, i + 1)) == s[i + 1..]
    ensures Unparse(Scan(s, i)) == s[i..]
  {
    ScanLitStep(s, i);
    LitPieceLossless(s, i, Scan(s, i + 1));
  }

  lemma ScanBoldStep(s: string, i: nat, j: nat)
    requires i < |s| && DelimAt(s, i) && FindClose(s, i + 2) == Some(j)
    ensures Scan(s, i) == [Bold(s[i + 2..j])] + Scan(s, j + 2)
  {
  }

  lemma ScanLitStep(s: string, i: nat)
    requires i < |s| && !(DelimAt(s, i) && FindClose(s, i + 2).Some?)
    ensures Scan(s, i) == [Lit(s[i])] + Scan(s, i + 1)
  {
  }

  lemma LitPieceLossless(s: string, i: nat, rest: seq<Piece>)
    requires i < |s| && Unparse(rest) == s[i + 1..]
    ensures Unparse([Lit(s[i])] + rest) == s[i..]
  {
    UnparseCons(Lit(s[i]), rest);
    assert [Lit(s[i])][1..] == [];
    assert s[i..] == [s[i]] + s[i + 1..];
  }

  lemma BoldPieceLossless(s: string, i: nat, j: nat, rest: seq<Piece>)
    requires i + 2 <= j && DelimAt(s, i) && DelimAt(s, j)
    requires Unparse(rest) == s[j + 2..]
    ensures Unparse([Bold(s[i + 2..j])] + rest) == s[i..]
  {
    var t := s[i + 2..j];
    UnparseCons(Bold(t), rest);
    UnparseBold(t);
    SplitAroundDelims(s, i, j);
  }

  lemma UnparseBold(t: string)
    ensures Unparse([Bold(t)]) == "**" + t + "**"
  {
    assert [Bold(t)][1..] == [];
  }

  lemma SplitAroundDelims(s: string, i: nat, j: nat)
    requires i + 2 <= j && DelimAt(s, i) && DelimAt(s, j)
    ensures s[i..] == "**" + s[i + 2..j] + "**" + s[j + 2..]
  {
    assert s[i..i + 2] == "**" && s[j..j + 2] == "**";
    assert s[i..] == s[i..i + 2] + s[i + 2..j] + s[j..j + 2] + s[j + 2..];
  }

  lemma UnparseCons(p: Piece, ps: seq<Piece>)
    ensures Unparse([p] + ps) == Unparse([p]) + Unparse(ps)
  {
    assert ([p] + ps)[1..] == ps;
    assert [p][1..] == [];
  }

  /** Without a match, replacing changes nothing. */
  lemma {:induction false} RenderNoBold(ps: seq<Piece>)
    requires BoldCount(ps) == 0
    ensures Render(ps) == Unparse(ps)
  {
    if ps != [] {
      RenderNoBold(ps[1..]);
    }
  }

  /** Where no match starts, the scan cuts no `Bold` piece. */
  lemma {:induction false} NoMatchNoBold(s: string, i: nat)
    requires i <= |s|
    requires forall k :: i <= k < |s| ==> !BoldAt(s, k)
    ensures BoldCount(Scan(s, i)) == 0
    decreases |s| - i
  {
    if i < |s| {
      if DelimAt(s, i) && FindClose(s, i + 2).Some? {
        assert BoldSpan(s, i, FindClose(s, i + 2).value);
        assert BoldAt(s, i);
      } else {
        NoMatchNoBold(s, i + 1);
      }
    }
  }

  /** A text without `**` comes back unchanged. */
  lemma NoDelimUnchanged(s: string)
    ensures (forall k :: !DelimAt(s, k)) ==> Render(Scan(s, 0)) == s
  {
    if forall k :: !DelimAt(s, k) {
      NoMatchNoBold(s, 0);
      RenderNoBold(Scan(s, 0));
      ScanLossless(s, 0);
    }
  }

  /**
   * What a piece of the scan stands for at offset `off` of `s`: a literal
   * character at which the regular expression does not match, or the match at
   * `off` whose span is the shortest one (non-greedy) and holds no line terminator.
   */
  ghost predicate PieceAt(s: string, off: nat, p: Piece) {
    match p
    case Lit(c) => off < |s| && s[off] == c && !BoldAt(s, off)
    case Bold(t) => BoldSpan(s, off, off + 2 + |t|) && s[off + 2..off + 2 + |t|] == t && MinimalInner(t)
  }

  /** The span found by `FindClose` is the one a non-greedy `(.*?)` captures. */
  lemma InnerMinimal(s: string, k: nat, j: nat)
    requires k <= |s| && FindClose(s, k) == Some(j)
    ensures MinimalInner(s[k..j])
  {
    var t := s[k..j];
    forall m | 0 <= m < |t|
      ensures !IsLineTerminator(t[m]) && !DelimAt(t, m)
    {
      var n := k + m;
      assert t[m] == s[n];
      assert !DelimAt(s, n);
    }
    if t != [] {
      assert t[|t| - 1] == s[j - 1];
      assert !DelimAt(s, j - 1);
    }
  }

  /** The first piece of the scan of `s[i..]` stands for what it claims at `i`. */
  lemma FirstPieceAt(s: string, i: nat)
    requires i < |s|
    ensures PieceAt(s, i, Scan(s, i)[0])
  {
    if DelimAt(s, i) && FindClose(s, i + 2).Some? {
      var j := FindClose(s, i + 2).value;
      ScanBoldStep(s, i, j);
      BoldPieceAt(s, i, j);
    } else {
      ScanLitStep(s, i);
      NoMatchAt(s, i);
    }
  }

  lemma BoldPieceAt(s: string, i: nat, j: nat)
    requires i < |s| && DelimAt(s, i) && FindClose(s, i + 2) == Some(j)
    ensures PieceAt(s, i, Bold(s[i + 2..j]))
  {
    InnerMinimal(s, i + 2, j);
    assert BoldSpan(s, i, j);
  }

  lemma NoMatchAt(s: string, i: nat)
    requires i < |s| && !(DelimAt(s, i) && FindClose(s, i + 2).Some?)
    ensures !BoldAt(s, i)
  {
  }

  /**
   * Every piece of the scan sits where the pieces before it end, and stands
   * for what it claims there: the scan never passes over a position where a
   * match starts (leftmost), each match ends at the first `**` that closes it
   * (non-greedy) and matches do not overlap.
   */
  lemma {:induction false} ScanPieceAt(s: string, i: nat, k: nat)
    requires i <= |s| && k < |Scan(s, i)|
    ensures PieceAt(s, i + |Unparse(Scan(s, i)[..k])|, Scan(s, i)[k])
    decreases |s| - i
  {
    var ps := Scan(s, i);
    assert i < |s|;
    if k == 0 {
      assert ps[..0] == [];
      FirstPieceAt(s, i);
    } else {
      var next := ScanHead(s, i);
      var rest := Scan(s, next);
      PrefixWidth(ps[0], rest, k);
      ScanPieceAt(s, next, k - 1);
      assert ps[k] == rest[k - 1];
      assert i + |Unparse(ps[..k])| == next + |Unparse(rest[..k - 1])|;
    }
  }

  /** The first `k` pieces are the head and the first `k - 1` of the rest. */
  lemma PrefixWidth(p: Piece, rest: seq<Piece>, k: nat)
    requires 0 < k <= |rest| + 1
    ensures |Unparse(([p] + rest)[..k])| == |Unparse([p])| + |Unparse(rest[..k - 1])|
  {
    assert ([p] + rest)[..k] == [p] + rest[..k - 1];
    UnparseCons(p, rest[..k - 1]);
  }

  /** The scan of `s[i..]` is its first piece followed by the scan of what that piece leaves. */
  lemma ScanHead(s: string, i: nat) returns (next: nat)
    requires i < |s|
    ensures i < next <= |s|
    ensures Scan(s, i) == [Scan(s, i)[0]] + Scan(s, next)
    ensures |Unparse([Scan(s, i)[0]])| == next - i
  {
    if DelimAt(s, i) && FindClose(s, i + 2).Some? {
      var j := FindClose(s, i + 2).value;
      ScanBoldStep(s, i, j);
      var head := Bold(s[i + 2..j]);
      assert Scan(s, i)[0] == head;
      BoldWidth(s[i + 2..j]);
      next := j + 2;
    } else {
      ScanLitStep(s, i);
      assert Scan(s, i)[0] == Lit(s[i]);
      LitWidth(s[i]);
      next := i + 1;
    }
  }

  lemma BoldWidth(t: string)
    ensures |Unparse([Bold(t)])| == |t| + 4
  {
    UnparseBold(t);
  }

  lemma LitWidth(c: char)
    ensures |Unparse([Lit(c)])| == 1
  {
    assert [Lit(c)][1..] == [];
  }

  /** A match anywhere in `s[i..]` makes the scan cut at least one `Bold` piece. */
  lemma {:induction false} MatchFound(s: string, i: nat, q: nat)
    requires i <= q < |s| && BoldAt(s, q)
    ensures BoldCount(Scan(s, i)) > 0
    decreases |s| - i
  {
    FirstPieceAt(s, i);
    if DelimAt(s, i) && FindClose(s, i + 2).Some? {
      ScanBoldStep(s, i, FindClose(s, i + 2).value);
    } else {
      ScanLitStep(s, i);
      assert q != i;
      MatchFound(s, i + 1, q);
    }
  }

  /**
   * `cleanMarkdown` returns its input unchanged exactly when the regular
   * expression matches nowhere in it; an unpaired `**`, a single `*` or a
   * `**` closed only beyond a line break is left in place.
   */
  lemma CleanUnchangedIffNoMatch(s: string)
    ensures CleanMarkdown(s) == s <==> forall q :: 0 <= q < |s| ==> !BoldAt(s, q)
  {
    ScanLossless(s, 0);
    if forall q :: 0 <= q < |s| ==> !BoldAt(s, q) {
      NoMatchNoBold(s, 0);
      RenderNoBold(Scan(s, 0));
    } else {
      var q :| 0 <= q < |s| && BoldAt(s, q);
      MatchFound(s, 0, q);
    }
  }

  /** Two matches with literal text around them: `"a**b**c**d**e"` becomes `"abcde"`. */
  lemma CleanTwoMatches()
    ensures CleanMarkdown("a**b**c**d**e") == "abcde"
  {
    TwoMatchesScan();
    TwoMatchesRender();
  }

  lemma TwoMatchesRender()
    ensures Render([Lit('a'), Bold("b"), Lit('c'), Bold("d"), Lit('e')]) == "abcde"
  {
    var ps := [Lit('a'), Bold("b"), Lit('c'), Bold("d"), Lit('e')];
    assert ps[1..][1..][1..][1..] == [Lit('e')] && Render([Lit('e')]) == "e";
    assert Render(ps[1..][1..][1..]) == "de";
    assert Render(ps[1..][1..]) == "cde";
  }

  lemma TwoMatchesScan()
    ensures Scan("a**b**c**d**e", 0) == [Lit('a'), Bold("b"), Lit('c'), Bold("d"), Lit('e')]
  {
    TwoMatchesHead();
    TwoMatchesTail();
  }

  lemma TwoMatchesHead()
    ensures Scan("a**b**c**d**e", 0) == [Lit('a'), Bold("b")] + Scan("a**b**c**d**e", 6)
  {
    var s := "a**b**c**d**e";
    assert FindClose(s, 3) == Some(4);
    ScanBoldStep(s, 1, 4);
    assert s[3..4] == "b";
    ScanLitStep(s, 0);
  }

  lemma TwoMatchesTail()
    ensures Scan("a**b**c**d**e", 6) == [Lit('c'), Bold("d"), Lit('e')]
  {
    var s := "a**b**c**d**e";
    assert FindClose(s, 9) == Some(10);
    ScanBoldStep(s, 7, 10);
    assert s[9..10] == "d";
    assert Scan(s, 12) == [Lit('e')] + Scan(s, 13);
    assert Scan(s, 6) == [Lit('c')] + Scan(s, 7);
  }

  /** An empty span is still a match: `"****"` becomes the empty string. */
  lemma CleanEmptySpan()
    ensures CleanMarkdown("****") == ""
  {
    var s := "****";
    assert FindClose(s, 2) == Some(2);
    ScanBoldStep(s, 0, 2);
    assert s[2..2] == [] && Scan(s, 4) == [];
    assert Scan(s, 0) == [Bold("")];
  }

  /** A span never crosses a line break, so `"**a\nb**"` is left as it is. */
  lemma CleanStopsAtLineBreak()
    ensures CleanMarkdown("**a\nb**") == "**a\nb**"
  {
    var s := "**a\nb**";
    LineBreakScan();
    assert BoldCount(Scan(s, 0)) == 0;
    RenderNoBold(Scan(s, 0));
    ScanLossless(s, 0);
    assert s[0..] == s;
  }

  lemma LineBreakScan()
    ensures Scan("**a\nb**", 0) == [Lit('*'), Lit('*'), Lit('a'), Lit('\n'), Lit('b'), Lit('*'), Lit('*')]
  {
    var s := "**a\nb**";
    assert FindClose(s, 2).None?;
    ScanLitStep(s, 0);
    ScanLitStep(s, 1);
    ScanLitStep(s, 5);
  }

  /** An unpaired `**` is left in place. */
  lemma CleanUnpaired()
    ensures CleanMarkdown("a**b") == "a**b"
  {
    var s := "a**b";
    assert FindClose(s, 3).None?;
    ScanLitStep(s, 1);
    assert Scan(s, 0) == [Lit('a'), Lit('*'), Lit('*'), Lit('b')];
  }

  /** Single asterisks are no delimiter. */
  lemma CleanSingleStars()
    ensures CleanMarkdown("a*b*c") == "a*b*c"
  {
    assert forall k :: !DelimAt("a*b*c", k);
  }
}
