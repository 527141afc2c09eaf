// samplr/git-go/repository.go: the parsers for the lines printed by
// `git show --name-status` (A, D, M, Rnnn, Cnnn), and appendDelete.
module GitRepository {
  import opened Strs
  import GitFile

  /** A character of the `[\w/.-]` class used for paths. */
  predicate IsPathChar(c: char) { IsWordChar(c) || c == '/' || c == '.' || c == '-' }

  predicate IsPath(s: string) { |s| > 0 && forall i :: 0 <= i < |s| ==> IsPathChar(s[i]) }

  predicate IsGap(s: string) { |s| > 0 && forall i :: 0 <= i < |s| ==> IsSpace(s[i]) }

  /** Three ASCII digits, `\d{3}`. */
  predicate IsScore(s: string) { |s| == 3 && AllDigits(s) }

  /**
   * The language of `^X\s+([\w/.-]+)$`: the letter X, a run of whitespace,
   * then the path p up to the end of the text.
   */
  ghost predicate SingleMatch(x: char, l: string, p: string) {
    exists gap :: IsGap(gap) && IsPath(p) && l == [x] + gap + p
  }

  /** The language of `^X\d{3}\s+([\w/.-]+)\s+([\w/.-]+)$` with captures from and to. */
  ghost predicate PairMatch(x: char, l: string, from: string, to: string) {
    |l| >= 4 && l[0] == x && IsScore(l[1..4]) && FromToMatch(l[4..], from, to)
  }

  /** The part after the score: `\s+([\w/.-]+)\s+([\w/.-]+)$`. */
  ghost predicate FromToMatch(t: string, from: string, to: string) {
    exists gap1, gap2 :: IsGap(gap1) && IsGap(gap2) && IsPath(from) && IsPath(to)
      && t == gap1 + from + gap2 + to
  }

  /** Length of the longest prefix of s made of whitespace. */
  function SpaceRun(s: string): (n: nat)
    ensures n <= |s|
    ensures forall i :: 0 <= i < n ==> IsSpace(s[i])
    ensures n < |s| ==> !IsSpace(s[n])
  {
    if s == [] || !IsSpace(s[0]) then 0 else 1 + SpaceRun(s[1..])
  }

  /** Length of the longest prefix of s made of path characters. */
  function PathRun(s: string): (n: nat)
    ensures n <= |s|
    ensures forall i :: 0 <= i < n ==> IsPathChar(s[i])
    ensures n < |s| ==> !IsPathChar(s[n])
  {
    if s == [] || !IsPathChar(s[0]) then 0 else 1 + PathRun(s[1..])
  }

  /** The shared body of isNew, isGone and isModified. */
  function MatchSingle(x: char, l: string): (r: (bool, string))
  {
    if |l| == 0 || l[0] != x then (false, "")
    else
      var k := 1 + SpaceRun(l[1..]);
      if k == 1 || !IsPath(l[k..]) then (false, "") else (true, l[k..])
  }

  /** The shared body of isRenamed and isCopy. */
  function MatchPair(x: char, l: string): (r: (bool, string, string))
  {
    if |l| < 4 || l[0] != x || !IsScore(l[1..4]) then (false, "", "")
    else ParseFromTo(l[4..])
  }

  /** `\s+([\w/.-]+)\s+([\w/.-]+)$`, the part after the score. */
  function ParseFromTo(t: string): (r: (bool, string, string))
  {
    var a := SpaceRun(t);
    var u := t[a..];
    var b := PathRun(u);
    var v := u[b..];
    var c := SpaceRun(v);
    if a == 0 || b == 0 || c == 0 || !IsPath(v[c..]) then (false, "", "")
    else (true, u[..b], v[c..])
  }

  lemma PathNotSpace(c: char)
    requires IsPathChar(c)
    ensures !IsSpace(c)
  {
  }

  /** Where a gap is followed by a path, the whitespace run is exactly the gap. */
  lemma SpaceRunOfGap(gap: string, rest: string)
    requires IsGap(gap) && |rest| > 0 && IsPathChar(rest[0])
    ensures SpaceRun(gap + rest) == |gap|
  {
    var s := gap + rest;
    assert forall i :: 0 <= i < |gap| ==> s[i] == gap[i];
    assert s[|gap|] == rest[0];
    PathNotSpace(rest[0]);
  }

  /** Where a path is followed by a gap, the path run is exactly the path. */
  lemma PathRunOfPath(p: string, rest: string)
    requires IsPath(p) && |rest| > 0 && IsSpace(rest[0])
    ensures PathRun(p + rest) == |p|
  {
    var s := p + rest;
    assert forall i :: 0 <= i < |p| ==> s[i] == p[i];
    assert s[|p|] == rest[0];
    if IsPathChar(rest[0]) { PathNotSpace(rest[0]); }
  }

  /** MatchSingle accepts exactly the language of the pattern, capturing its path. */
  lemma MatchSingleCorrect(x: char, l: string, p: string)
    ensures MatchSingle(x, l) == (true, p) <==> SingleMatch(x, l, p)
  {
    if SingleMatch(x, l, p) {
      var gap :| IsGap(gap) && IsPath(p) && l == [x] + gap + p;
      assert l[1..] == gap + p;
      SpaceRunOfGap(gap, p);
      assert l[1 + |gap|..] == p;
    }
    if MatchSingle(x, l) == (true, p) {
      var k := 1 + SpaceRun(l[1..]);
      var gap := l[1..k];
      assert IsGap(gap);
      assert l == [x] + gap + p;
    }
  }

  /** MatchPair accepts exactly the language of the pattern, capturing from and to. */
  lemma MatchPairCorrect(x: char, l: string, from: string, to: string)
    ensures MatchPair(x, l) == (true, from, to) <==> PairMatch(x, l, from, to)
  {
    if PairMatch(x, l, from, to) {
      var gap1, gap2 :| IsGap(gap1) && IsGap(gap2) && IsPath(from) && IsPath(to)
        && l[4..] == gap1 + from + gap2 + to;
      ParseFromToComplete(gap1, from, gap2, to);
    }
    if MatchPair(x, l) == (true, from, to) {
      ParseFromToSound(l[4..]);
    }
  }

  lemma ParseFromToComplete(gap1: string, from: string, gap2: string, to: string)
    requires IsGap(gap1) && IsGap(gap2) && IsPath(from) && IsPath(to)
    ensures ParseFromTo(gap1 + from + gap2 + to) == (true, from, to)
  {
    var t := gap1 + from + gap2 + to;
    var rest := from + gap2 + to;
    assert t == gap1 + rest;
    SpaceRunOfGap(gap1, rest);
    var u := t[|gap1|..];
    assert u == from + (gap2 + to);
    PathRunOfPath(from, gap2 + to);
    assert u[..|from|] == from;
    var v := u[|from|..];
    assert v == gap2 + to;
    SpaceRunOfGap(gap2, to);
    assert v[|gap2|..] == to;
  }

  lemma RunIsGap(s: string, n: nat)
    requires 0 < n <= |s| && forall i :: 0 <= i < n ==> IsSpace(s[i])
    ensures IsGap(s[..n])
  {
  }

  lemma RunIsPath(s: string, n: nat)
    requires 0 < n <= |s| && forall i :: 0 <= i < n ==> IsPathChar(s[i])
    ensures IsPath(s[..n])
  {
  }

  /** A sequence is its prefix followed by the rest. */
  lemma SplitAt(s: string, n: nat)
    requires n <= |s|
    ensures s == s[..n] + s[n..]
  {
  }

  lemma FromToWitness(t: string, g1: string, f: string, g2: string, tt: string)
    requires IsGap(g1) && IsGap(g2) && IsPath(f) && IsPath(tt) && t == g1 + (f + (g2 + tt))
    ensures FromToMatch(t, f, tt)
  {
    assert g1 + (f + (g2 + tt)) == g1 + f + g2 + tt;
  }

  lemma ParseFromToSound(t: string)
    requires ParseFromTo(t).0
    ensures FromToMatch(t, ParseFromTo(t).1, ParseFromTo(t).2)
  {
    var a := SpaceRun(t);
    var u := t[a..];
    var b := PathRun(u);
    var v := u[b..];
    var c := SpaceRun(v);
    RunIsGap(t, a);
    RunIsPath(u, b);
    RunIsGap(v, c);
    SplitAt(t, a);
    SplitAt(u, b);
    SplitAt(v, c);
    FromToWitness(t, t[..a], u[..b], v[..c], v[c..]);
  }

  /** isNew: `A`, whitespace, then a path to the end of the line. */
  function IsNew(l: string): (r: (bool, string))
    ensures r.0 ==> SingleMatch('A', l, r.1)
    ensures !r.0 ==> r.1 == "" && forall p :: !SingleMatch('A', l, p)
  {
    var r := MatchSingle('A', l);
    MatchSingleCorrect('A', l, r.1);
    forall p | !r.0 ensures !SingleMatch('A', l, p) { MatchSingleCorrect('A', l, p); }
    r
  }

  /** isGone: `D`, whitespace, then a path to the end of the line. */
  function IsGone(l: string): (r: (bool, string))
    ensures r.0 ==> SingleMatch('D', l, r.1)
    ensures !r.0 ==> r.1 == "" && forall p :: !SingleMatch('D', l, p)
  {
    var r := MatchSingle('D', l);
    MatchSingleCorrect('D', l, r.1);
    forall p | !r.0 ensures !SingleMatch('D', l, p) { MatchSingleCorrect('D', l, p); }
    r
  }

  /** isModified: `M`, whitespace, then a path to the end of the line. */
  function IsModified(l: string): (r: (bool, string))
    ensures r.0 ==> SingleMatch('M', l, r.1)
    ensures !r.0 ==> r.1 == "" && forall p :: !SingleMatch('M', l, p)
  {
    var r := MatchSingle('M', l);
    MatchSingleCorrect('M', l, r.1);
    forall p | !r.0 ensures !SingleMatch('M', l, p) { MatchSingleCorrect('M', l, p); }
    r
  }

  /** isRenamed: `R`, a three-digit score, then the old and the new path. */
  function IsRenamed(l: string): (r: (bool, string, string))
    ensures r.0 ==> PairMatch('R', l, r.1, r.2)
    ensures !r.0 ==> r.1 == "" && r.2 == "" && forall f, t :: !PairMatch('R', l, f, t)
  {
    var r := MatchPair('R', l);
    MatchPairCorrect('R', l, r.1, r.2);
    forall f, t | !r.0 ensures !PairMatch('R', l, f, t) { MatchPairCorrect('R', l, f, t); }
    r
  }

  /** isCopy: `C`, a three-digit score, then the source and the copy path. */
  function IsCopy(l: string): (r: (bool, string, string))
    ensures r.0 ==> PairMatch('C', l, r.1, r.2)
    ensures !r.0 ==> r.1 == "" && r.2 == "" && forall f, t :: !PairMatch('C', l, f, t)
  {
    var r := MatchPair('C', l);
    MatchPairCorrect('C', l, r.1, r.2);
    forall f, t | !r.0 ensures !PairMatch('C', l, f, t) { MatchPairCorrect('C', l, f, t); }
    r
  }

  /** No line is accepted by two of the five parsers: each needs its own first letter. */
  lemma AtMostOneParserAccepts(l: string)
    ensures (if IsNew(l).0 then 1 else 0) + (if IsGone(l).0 then 1 else 0)
      + (if IsModified(l).0 then 1 else 0) + (if IsRenamed(l).0 then 1 else 0)
      + (if IsCopy(l).0 then 1 else 0) <= 1
  {
  }

  /** A score of other than three digits is rejected: "R50" and "R5000" lines never match. */
  lemma ScoreMustHaveThreeDigits(score: string, from: string, to: string)
    requires AllDigits(score) && |score| != 3 && IsPath(from) && IsPath(to)
    ensures !IsRenamed("R" + score + " " + from + " " + to).0
  {
    var l := "R" + score + " " + from + " " + to;
    if |score| < 3 {
      assert l[1 + |score|] == ' ';
      if |l| >= 4 { assert l[1..4][|score|] == ' '; }
    } else {
      assert l[4] == score[3];
      assert SpaceRun(l[4..]) == 0;
    }
  }

  /** appendDelete: one File with the name, size 0 and no contents, after the others. */
  function AppendDelete(files: seq<GitFile.File>, filename: string): (r: seq<GitFile.File>)
    ensures |r| == |files| + 1 && r[..|files|] == files
    ensures r[|files|].name == filename && r[|files|].size == 0 && r[|files|].contents == ""
  {
    files + [GitFile.File(filename, 0, "")]
  }
}
