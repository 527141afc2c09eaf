// The per-file half of the snippet engine: region tags, the file whitelist,
// snippet-version equivalence and the extraction of one version per region
// tag from a file's content. Nil Go slices and nil references are None.
module Snippet {
  import opened Wrappers
  import opened Strs
  import SampleMetadata

  /** A commit as the snippet engine records it; times are nanoseconds. */
  datatype GitCommit = GitCommit(
    body: string, subject: string, authorEmail: string, authoredTime: int,
    committerEmail: string, committedTime: int, hash: string, name: string)

  /** A file at a commit. */
  datatype File = File(filePath: string, gitCommit: Option<GitCommit>, size: int)

  datatype SnippetVersionMeta = SnippetVersionMeta(
    title: string, description: string, usage: string, apiVersion: string)

  const ZeroMeta := SnippetVersionMeta("", "", "", "")

  /** A snippet at one commit: its name, file, "L<a>-L<b>" ranges, content and metadata. */
  datatype SnippetVersion = SnippetVersion(
    name: string, file: Option<File>, lines: Option<seq<string>>, content: string,
    meta: SnippetVersionMeta)

  /** The zero SnippetVersion: every field empty or nil. */
  const ZeroVersion := SnippetVersion("", None, None, "", ZeroMeta)

  /** A snippet: its versions in commit order and the current (primary) one. */
  datatype Snippet = Snippet(
    name: string, language: string, versions: seq<SnippetVersion>, primary: SnippetVersion)

  // ---------------------------------------------------------------------
  // Region tags: the regular expression `\[START ([\w-_]+)\]`.

  /** A character of a region tag: a word character or a hyphen. */
  predicate IsTagChar(c: char) { IsWordChar(c) || c == '-' }

  predicate IsTag(t: string) { |t| > 0 && forall i :: 0 <= i < |t| ==> IsTagChar(t[i]) }

  const StartOpen := "[START "

  /** The length of the run of tag characters of s from i on. */
  function TagRun(s: string, i: nat): (n: nat)
    requires i <= |s|
    ensures i + n <= |s|
    ensures forall j :: i <= j < i + n ==> IsTagChar(s[j])
    ensures i + n < |s| ==> !IsTagChar(s[i + n])
    decreases |s| - i
  {
    if i == |s| || !IsTagChar(s[i]) then 0 else 1 + TagRun(s, i + 1)
  }

  /** A match of the start pattern begins at i: "[START ", a run of tag characters, "]". */
  predicate StartsAt(s: string, i: nat) {
    OccursAt(s, StartOpen, i)
    && var n := TagRun(s, i + 7);
    n > 0 && i + 7 + n < |s| && s[i + 7 + n] == ']'
  }

  /** The tag of the match that begins at i. */
  function TagAt(s: string, i: nat): (t: string)
    requires StartsAt(s, i)
    ensures IsTag(t)
  {
    s[i + 7..i + 7 + TagRun(s, i + 7)]
  }

  /** The tags of the matches that begin at i or later, in order. */
  function TagsFrom(s: string, i: nat): (r: seq<string>)
    requires i <= |s|
    ensures forall k :: 0 <= k < |r| ==> IsTag(r[k])
    decreases |s| - i
  {
    if i == |s| then []
    else if StartsAt(s, i) then [TagAt(s, i)] + TagsFrom(s, i + 1)
    else TagsFrom(s, i + 1)
  }

  /**
   * detectRegionTags: the tag of every match of the start pattern, in order
   * and with repeats. Matches cannot overlap (a match holds only one '['),
   * so trying every position finds the same matches as a left-to-right scan.
   */
  function DetectRegionTags(content: string): (r: seq<string>)
    ensures forall k :: 0 <= k < |r| ==> IsTag(r[k])
  {
    TagsFrom(content, 0)
  }

  /** "[START t]" occurring at i, for a tag t, is a match of the start pattern with tag t. */
  lemma StartTextIsMatch(s: string, t: string, i: nat)
    requires IsTag(t) && OccursAt(s, StartOpen + t + "]", i)
    ensures StartsAt(s, i) && TagAt(s, i) == t
  {
    var w := StartOpen + t + "]";
    assert s[i..i + |w|] == w;
    assert s[i..i + 7] == w[..7];
    assert forall j :: i + 7 <= j < i + 7 + |t| ==> s[j] == t[j - i - 7];
    TagRunAtLeast(s, i + 7, |t|);
    assert s[i + 7 + |t|] == ']';
    assert TagRun(s, i + 7) == |t|;
    assert s[i + 7..i + 7 + |t|] == t;
  }

  lemma {:induction false} TagRunAtLeast(s: string, i: nat, n: nat)
    requires i + n <= |s|
    requires forall j :: i <= j < i + n ==> IsTagChar(s[j])
    ensures TagRun(s, i) >= n
    decreases n
  {
    if n > 0 {
      TagRunAtLeast(s, i + 1, n - 1);
    }
  }

  /** A match at i spells "[START t]" for its tag t. */
  lemma MatchIsStartText(s: string, i: nat)
    requires StartsAt(s, i)
    ensures OccursAt(s, StartOpen + TagAt(s, i) + "]", i)
  {
    var t := TagAt(s, i);
    var w := StartOpen + t + "]";
    assert s[i..i + |w|] == s[i..i + 7] + s[i + 7..i + 7 + |t|] + [s[i + 7 + |t|]];
  }

  lemma {:induction false} TagsFromComplete(s: string, i: nat, j: nat)
    requires i <= j < |s| && StartsAt(s, j)
    ensures TagAt(s, j) in TagsFrom(s, i)
    decreases j - i
  {
    if i < j {
      TagsFromComplete(s, i + 1, j);
    }
  }

  lemma {:induction false} TagsFromSound(s: string, i: nat, t: string)
    requires i <= |s| && t in TagsFrom(s, i)
    ensures exists j :: i <= j < |s| && StartsAt(s, j) && TagAt(s, j) == t
    decreases |s| - i
  {
    if i < |s| && !(StartsAt(s, i) && TagAt(s, i) == t) {
      TagsFromSound(s, i + 1, t);
    }
  }

  /** A tag t is detected exactly when "[START t]" occurs in the content. */
  lemma DetectRegionTagsCorrect(content: string, t: string)
    requires IsTag(t)
    ensures t in DetectRegionTags(content) <==> Contains(content, StartOpen + t + "]")
  {
    if t in DetectRegionTags(content) {
      TagsFromSound(content, 0, t);
      var j :| 0 <= j < |content| && StartsAt(content, j) && TagAt(content, j) == t;
      MatchIsStartText(content, j);
    }
    if Contains(content, StartOpen + t + "]") {
      var i :| 0 <= i <= |content| - |StartOpen + t + "]"| && OccursAt(content, StartOpen + t + "]", i);
      StartTextIsMatch(content, t, i);
      TagsFromComplete(content, 0, i);
    }
  }

  lemma {:induction false} NoStartFrom(s: string, i: nat)
    requires i <= |s| && !Contains(s, StartOpen)
    ensures TagsFrom(s, i) == []
    decreases |s| - i
  {
    if i < |s| {
      assert !OccursAt(s, StartOpen, i);
      NoStartFrom(s, i + 1);
    }
  }

  /** Content without "[START " yields no tags; in particular "[END t]" lines alone yield none. */
  lemma NoStartNoTags(content: string)
    requires !Contains(content, StartOpen)
    ensures DetectRegionTags(content) == []
  {
    NoStartFrom(content, 0);
  }

  // ---------------------------------------------------------------------
  // The file whitelist.

  /** The extensions the whitelist accepts, each as `^.+\.ext$`. */
  const Extensions: seq<string> := [
    "c", "cpp", "cc", "cs", "go", "gs", "html", "jade", "java", "js", "json",
    "kt", "kts", "m", "php", "pug", "py", "rb", "ru", "swift", "sh", "xml", "yaml"]

  /** `^.+\.ext$`: a non-empty name without newlines, then "." and the extension. */
  predicate HasExtension(name: string, ext: string) {
    HasSuffix(name, "." + ext) && |name| > |ext| + 1 && '\n' !in name
  }

  /** c matches the lower-case letter l under RE2's case folding. */
  predicate FoldsTo(c: char, l: char) {
    c == l || c == Upper(l) || (l == 'k' && c == '\U{212A}')
  }

  /** `^(?i)(dockerfile)$`: "dockerfile" in any case, the Kelvin sign standing for 'k'. */
  predicate IsDockerfile(name: string) {
    var d := "dockerfile";
    |name| == |d| && forall i :: 0 <= i < |d| ==> FoldsTo(name[i], d[i])
  }

  function AnyExtension(name: string, exts: seq<string>): (r: bool)
    ensures r <==> exists k :: 0 <= k < |exts| && HasExtension(name, exts[k])
  {
    if exts == [] then false
    else HasExtension(name, exts[0]) || AnyExtension(name, exts[1..])
  }

  /** isValidFile: the file's name matches some pattern of the whitelist. */
  function IsValidFile(name: string): (r: bool)
    ensures r <==> IsDockerfile(name) || exists e :: e in Extensions && HasExtension(name, e)
  {
    var r := AnyExtension(name, Extensions);
    assert r <==> exists e :: e in Extensions && HasExtension(name, e) by {
      if r {
        var k :| 0 <= k < |Extensions| && HasExtension(name, Extensions[k]);
        assert Extensions[k] in Extensions;
      }
    }
    r || IsDockerfile(name)
  }

  /** A name holding a newline or a slash is never a Dockerfile; one holding a newline is never valid. */
  lemma ValidFileNames(name: string)
    ensures ('\n' in name || '/' in name) ==> !IsDockerfile(name)
    ensures '\n' in name ==> !IsValidFile(name)
  {
    if IsDockerfile(name) {
      forall k | 0 <= k < |name|
        ensures name[k] != '\n' && name[k] != '/'
      {
        assert FoldsTo(name[k], "dockerfile"[k]);
      }
    }
  }

  // ---------------------------------------------------------------------
  // Equivalence of snippet versions.

  /** The elements of two non-nil slices agree pointwise. */
  function SameElements(a: seq<string>, b: seq<string>): (r: bool)
    requires |a| == |b|
    ensures r <==> a == b
  {
    if a == [] then true else a[0] == b[0] && SameElements(a[1..], b[1..])
  }

  /** strEq: equal nil-ness, equal length and equal elements. */
  function StrEq(a: Option<seq<string>>, b: Option<seq<string>>): (r: bool)
    ensures r <==> a == b
  {
    if a.None? != b.None? then false
    else if a.None? then true
    else if |a.value| != |b.value| then false
    else SameElements(a.value, b.value)
  }

  /**
   * snippetsEquivalent: the same content, and either both without a file or
   * both with a file at the same path and the same line ranges.
   */
  function SnippetsEquivalent(a: SnippetVersion, b: SnippetVersion): (r: bool)
    ensures r <==> (a.content == b.content
      && ((a.file.None? && b.file.None?)
          || (a.file.Some? && b.file.Some? && a.file.value.filePath == b.file.value.filePath
              && a.lines == b.lines)))
  {
    if a.content != b.content then false
    else if (a.file.None? || b.file.None?) && !(a.file.None? && b.file.None?) then false
    else if a.file.None? && b.file.None? then true
    else a.file.value.filePath == b.file.value.filePath && StrEq(a.lines, b.lines)
  }

  lemma SnippetsEquivalentSymmetric(a: SnippetVersion, b: SnippetVersion)
    ensures SnippetsEquivalent(a, b) == SnippetsEquivalent(b, a)
  {
  }

  // ---------------------------------------------------------------------
  // Regions of one tag in a file.

  const StartIgnore := ":start-after:"
  const EndIgnore := ":end-before:"

  /** A line that opens a region of tag: it holds "[START tag]" and not ":start-after:". */
  predicate IsStartLine(txt: string, tag: string) {
    Contains(txt, "[START " + tag + "]") && !Contains(txt, StartIgnore)
  }

  /** A line that can close a region of tag: it holds "[END tag]" and not ":end-before:". */
  predicate IsEndLine(txt: string, tag: string) {
    Contains(txt, "[END " + tag + "]") && !Contains(txt, EndIgnore)
  }

  /** A line that closes an open region: an end line that is not also a start line. */
  predicate ClosesRegion(txt: string, tag: string) {
    IsEndLine(txt, tag) && !IsStartLine(txt, tag)
  }

  /** A closed region: the 1-based numbers of its START and END lines. */
  datatype Pair = Pair(start: int, end: int)

  /** The scanner's state: the open region's START line (-1 if none), the closed regions, the text so far. */
  datatype RegionState = RegionState(start: int, pairs: seq<Pair>, combined: string)

  const Closed := RegionState(-1, [], "")

  /** One line (number lnc) of the scanning loop of extractSnippetVersionsFromFile. */
  function Step(st: RegionState, txt: string, lnc: int, tag: string): RegionState {
    var st1 :=
      if IsStartLine(txt, tag) then st.(start := lnc)
      else if st.start != -1 && IsEndLine(txt, tag) then
        RegionState(-1, st.pairs + [Pair(st.start, lnc)], st.combined + txt + "\n")
      else st;
    if st1.start != -1 then st1.(combined := st1.combined + txt + "\n") else st1
  }

  /** The scanner's state after the given lines. */
  function Scan(lines: seq<string>, tag: string): RegionState
  {
    if lines == [] then Closed
    else Step(Scan(lines[..|lines| - 1], tag), lines[|lines| - 1], |lines|, tag)
  }

  lemma ScanUnfold(lines: seq<string>, k: nat, tag: string)
    requires k < |lines|
    ensures Scan(lines[..k + 1], tag) == Step(Scan(lines[..k], tag), lines[k], k + 1, tag)
  {
    assert lines[..k + 1][..k] == lines[..k];
  }

  /** A closed region of the first k lines: a START line, a later closing line, neither START nor END between. */
  ghost predicate PairOK(lines: seq<string>, tag: string, p: Pair, k: nat)
    requires k <= |lines|
  {
    1 <= p.start < p.end <= k
    && IsStartLine(lines[p.start - 1], tag)
    && ClosesRegion(lines[p.end - 1], tag)
    && forall l | p.start <= l < p.end - 1 :: !IsStartLine(lines[l], tag) && !IsEndLine(lines[l], tag)
  }

  function LastEnd(pairs: seq<Pair>): int {
    if pairs == [] then 0 else pairs[|pairs| - 1].end
  }

  /**
   * What the scan of the first k lines promises: every closed region is
   * well formed and the regions come in file order; an open region starts
   * at a START line after the last closed region, with no START or END line
   * after it; with no open region, no START line follows the last closed one.
   */
  ghost predicate WellScanned(lines: seq<string>, tag: string, st: RegionState, k: nat)
    requires k <= |lines|
  {
    (forall q | 0 <= q < |st.pairs| :: PairOK(lines, tag, st.pairs[q], k))
    && (forall q | 0 <= q < |st.pairs| - 1 :: st.pairs[q].end < st.pairs[q + 1].start)
    && LastEnd(st.pairs) <= k
    && (st.start != -1 ==>
          LastEnd(st.pairs) < st.start <= k && IsStartLine(lines[st.start - 1], tag)
          && forall l | st.start <= l < k :: !IsStartLine(lines[l], tag) && !IsEndLine(lines[l], tag))
    && (st.start == -1 ==> forall l | LastEnd(st.pairs) <= l < k :: !IsStartLine(lines[l], tag))
  }

  lemma PairsExtend(lines: seq<string>, tag: string, pairs: seq<Pair>, k: nat)
    requires k < |lines|
    requires forall q | 0 <= q < |pairs| :: PairOK(lines, tag, pairs[q], k)
    ensures forall q | 0 <= q < |pairs| :: PairOK(lines, tag, pairs[q], k + 1)
  {
    forall q | 0 <= q < |pairs|
      ensures PairOK(lines, tag, pairs[q], k + 1)
    {
      assert PairOK(lines, tag, pairs[q], k);
    }
  }

  /** A START line opens (or restarts) the region at its own number. */
  lemma StepStart(lines: seq<string>, tag: string, st: RegionState, k: nat, c: string)
    requires k < |lines| && WellScanned(lines, tag, st, k) && IsStartLine(lines[k], tag)
    ensures WellScanned(lines, tag, RegionState(k + 1, st.pairs, c), k + 1)
  {
    PairsExtend(lines, tag, st.pairs, k);
  }

  /** An END line while a region is open closes it. */
  lemma StepClose(lines: seq<string>, tag: string, st: RegionState, k: nat, c: string)
    requires k < |lines| && WellScanned(lines, tag, st, k)
    requires !IsStartLine(lines[k], tag) && st.start != -1 && IsEndLine(lines[k], tag)
    ensures WellScanned(lines, tag, RegionState(-1, st.pairs + [Pair(st.start, k + 1)], c), k + 1)
  {
    PairsExtend(lines, tag, st.pairs, k);
    var np := Pair(st.start, k + 1);
    assert PairOK(lines, tag, np, k + 1);
    var ps := st.pairs + [np];
    assert forall q | 0 <= q < |st.pairs| :: ps[q] == st.pairs[q];
    assert LastEnd(ps) == k + 1;
  }

  /** Any other line leaves the regions as they are. */
  lemma StepOther(lines: seq<string>, tag: string, st: RegionState, k: nat, c: string)
    requires k < |lines| && WellScanned(lines, tag, st, k)
    requires !IsStartLine(lines[k], tag) && !(st.start != -1 && IsEndLine(lines[k], tag))
    ensures WellScanned(lines, tag, st.(combined := c), k + 1)
  {
    PairsExtend(lines, tag, st.pairs, k);
  }

  lemma StepWellScanned(lines: seq<string>, tag: string, st: RegionState, k: nat)
    requires k < |lines| && WellScanned(lines, tag, st, k)
    ensures WellScanned(lines, tag, Step(st, lines[k], k + 1, tag), k + 1)
  {
    var st' := Step(st, lines[k], k + 1, tag);
    if IsStartLine(lines[k], tag) {
      StepStart(lines, tag, st, k, st'.combined);
    } else if st.start != -1 && IsEndLine(lines[k], tag) {
      StepClose(lines, tag, st, k, st'.combined);
    } else {
      StepOther(lines, tag, st, k, st'.combined);
    }
  }

  lemma {:induction false} ScanWellFormed(lines: seq<string>, k: nat, tag: string)
    requires k <= |lines|
    ensures WellScanned(lines, tag, Scan(lines[..k], tag), k)
  {
    if k > 0 {
      ScanWellFormed(lines, k - 1, tag);
      ScanStep(lines, k - 1, tag);
    }
  }

  lemma ScanStep(lines: seq<string>, k: nat, tag: string)
    requires k < |lines| && WellScanned(lines, tag, Scan(lines[..k], tag), k)
    ensures WellScanned(lines, tag, Scan(lines[..k + 1], tag), k + 1)
  {
    ScanUnfold(lines, k, tag);
    StepWellScanned(lines, tag, Scan(lines[..k], tag), k);
  }

  /** The closed regions never shrink as lines are added. */
  lemma {:induction false} ScanPairsGrow(lines: seq<string>, k: nat, tag: string)
    requires k <= |lines|
    ensures |Scan(lines[..k], tag).pairs| <= |Scan(lines, tag).pairs|
    decreases |lines| - k
  {
    if k < |lines| {
      ScanPairsGrow(lines, k + 1, tag);
      ScanUnfold(lines, k, tag);
    } else {
      assert lines[..k] == lines;
    }
  }

  /** A closed region is a START line followed by a line that closes it. */
  lemma ClosedRegionFound(lines: seq<string>, tag: string) returns (i: nat, j: nat)
    requires |Scan(lines, tag).pairs| > 0
    ensures i < j < |lines| && IsStartLine(lines[i], tag) && ClosesRegion(lines[j], tag)
  {
    assert lines[..|lines|] == lines;
    ScanWellFormed(lines, |lines|, tag);
    var p := Scan(lines, tag).pairs[0];
    assert PairOK(lines, tag, p, |lines|);
    i, j := p.start - 1, p.end - 1;
  }

  /** A START line followed by a line that closes it gives a closed region. */
  lemma ClosedRegionMade(lines: seq<string>, tag: string, i: nat, j: nat)
    requires i < j < |lines| && IsStartLine(lines[i], tag) && ClosesRegion(lines[j], tag)
    ensures |Scan(lines, tag).pairs| > 0
  {
    var before := Scan(lines[..j], tag);
    ScanWellFormed(lines, j, tag);
    ScanUnfold(lines, j, tag);
    if |before.pairs| == 0 {
      assert before.start != -1;
    }
    assert |Scan(lines[..j + 1], tag).pairs| > 0;
    ScanPairsGrow(lines, j + 1, tag);
  }

  /**
   * A tag has a closed region exactly when some START line of it is followed
   * by a line that closes it. A lone START, a lone END, or an END before
   * every START gives none.
   */
  lemma ClosedRegionIff(lines: seq<string>, tag: string)
    ensures |Scan(lines, tag).pairs| > 0 <==>
      exists i, j :: 0 <= i < j < |lines| && IsStartLine(lines[i], tag) && ClosesRegion(lines[j], tag)
  {
    if |Scan(lines, tag).pairs| > 0 {
      var i, j := ClosedRegionFound(lines, tag);
    }
    if exists i, j :: 0 <= i < j < |lines| && IsStartLine(lines[i], tag) && ClosesRegion(lines[j], tag) {
      var i, j :| 0 <= i < j < |lines| && IsStartLine(lines[i], tag) && ClosesRegion(lines[j], tag);
      ClosedRegionMade(lines, tag, i, j);
    }
  }

  // ---------------------------------------------------------------------
  // The text a scan collects.

  /**
   * Line k (0-based) is collected: it is a START line, or it follows one
   * with no START or END line in between. So a region's lines are collected
   * from its START line through the line that closes it; a region restarted
   * by a second START keeps the lines after the first; and the lines of a
   * region never closed are collected too.
   */
  ghost predicate Collects(lines: seq<string>, tag: string, k: nat)
    requires k < |lines|
  {
    exists i | 0 <= i <= k :: IsStartLine(lines[i], tag)
      && forall l | i < l < k :: !IsStartLine(lines[l], tag) && !IsEndLine(lines[l], tag)
  }

  /** The collected lines among the first k, in order, each followed by "\n". */
  ghost function Collected(lines: seq<string>, tag: string, k: nat): string
    requires k <= |lines|
  {
    if k == 0 then ""
    else Collected(lines, tag, k - 1) + (if Collects(lines, tag, k - 1) then lines[k - 1] + "\n" else "")
  }

  /** After the first k lines are scanned, line k is collected exactly when it is a START line or a region is open. */
  lemma CollectsIff(lines: seq<string>, tag: string, st: RegionState, k: nat)
    requires k < |lines| && WellScanned(lines, tag, st, k)
    ensures Collects(lines, tag, k) <==> IsStartLine(lines[k], tag) || st.start != -1
  {
    if IsStartLine(lines[k], tag) {
      // the witness is i = k, with nothing in between
    } else if st.start != -1 {
      var i := st.start - 1;
      assert forall l | i < l < k :: !IsStartLine(lines[l], tag) && !IsEndLine(lines[l], tag);
    } else {
      forall i | 0 <= i <= k && IsStartLine(lines[i], tag)
        ensures exists l | i < l < k :: IsEndLine(lines[l], tag)
      {
        assert i < LastEnd(st.pairs);
        var p := st.pairs[|st.pairs| - 1];
        assert PairOK(lines, tag, p, k);
        assert i < p.end - 1 < k && IsEndLine(lines[p.end - 1], tag);
      }
    }
  }

  /** One line is collected when it is a START line or a region is open when it is read. */
  lemma StepCombined(st: RegionState, txt: string, lnc: int, tag: string)
    requires lnc >= 1
    ensures Step(st, txt, lnc, tag).combined ==
      st.combined + if IsStartLine(txt, tag) || st.start != -1 then txt + "\n" else ""
  {
  }

  /** The text the scan of the first k lines collects is the collected lines. */
  lemma {:induction false} ScanCollected(lines: seq<string>, k: nat, tag: string)
    requires k <= |lines|
    ensures Scan(lines[..k], tag).combined == Collected(lines, tag, k)
  {
    if k > 0 {
      ScanCollected(lines, k - 1, tag);
      StepCollected(lines, tag, k - 1);
    }
  }

  lemma StepCollected(lines: seq<string>, tag: string, k: nat)
    requires k < |lines| && Scan(lines[..k], tag).combined == Collected(lines, tag, k)
    ensures Scan(lines[..k + 1], tag).combined == Collected(lines, tag, k + 1)
  {
    var st := Scan(lines[..k], tag);
    ScanWellFormed(lines, k, tag);
    ScanUnfold(lines, k, tag);
    CollectsIff(lines, tag, st, k);
    StepCombined(st, lines[k], k + 1, tag);
  }

  /** Every line of a closed region, from its START line through the line that closed it, is collected. */
  lemma RegionLinesCollected(lines: seq<string>, tag: string)
    ensures forall q, k | 0 <= q < |Scan(lines, tag).pairs| && Scan(lines, tag).pairs[q].start - 1 <= k < Scan(lines, tag).pairs[q].end ::
      0 <= k < |lines| && Collects(lines, tag, k)
  {
    assert lines[..|lines|] == lines;
    ScanWellFormed(lines, |lines|, tag);
    var pairs := Scan(lines, tag).pairs;
    forall q, k | 0 <= q < |pairs| && pairs[q].start - 1 <= k < pairs[q].end
      ensures 0 <= k < |lines| && Collects(lines, tag, k)
    {
      var p := pairs[q];
      assert PairOK(lines, tag, p, |lines|);
      var i := p.start - 1;
      assert forall l | i < l < k :: !IsStartLine(lines[l], tag) && !IsEndLine(lines[l], tag);
    }
  }

  // ---------------------------------------------------------------------
  // Extraction of the versions of one file.

  /** "L<start>-L<end>" for every closed region, in order. */
  function LineRanges(pairs: seq<Pair>): (r: seq<string>)
    ensures |r| == |pairs|
    ensures forall q :: 0 <= q < |pairs| ==>
      r[q] == "L" + IntToString(pairs[q].start) + "-L" + IntToString(pairs[q].end)
  {
    if pairs == [] then []
    else ["L" + IntToString(pairs[0].start) + "-L" + IntToString(pairs[0].end)] + LineRanges(pairs[1..])
  }

  /** The first snippet entry of the sample metadata that names tag. */
  function FindRef(refs: seq<SampleMetadata.SnippetMetaRef>, tag: string): (r: Option<SampleMetadata.SnippetMetaRef>)
    ensures r.Some? ==> r.value in refs && r.value.regionTag == tag
    ensures r.None? ==> forall k :: 0 <= k < |refs| ==> refs[k].regionTag != tag
  {
    if refs == [] then None
    else if refs[0].regionTag == tag then Some(refs[0])
    else FindRef(refs[1..], tag)
  }

  /**
   * The metadata of a version: zero without sample metadata; otherwise the
   * sample's fields, with the description and usage of the first entry for
   * the tag taking over where they are not empty.
   */
  function MetaFor(sm: Option<SampleMetadata.SampleMetadata>, tag: string): (r: SnippetVersionMeta)
    ensures sm.None? ==> r == ZeroMeta
    ensures sm.Some? ==> r.title == sm.value.meta.title && r.apiVersion == sm.value.meta.apiVersion
    ensures sm.Some? && FindRef(sm.value.meta.snippets, tag).None? ==>
      r.description == sm.value.meta.description && r.usage == sm.value.meta.usage
    ensures sm.Some? && FindRef(sm.value.meta.snippets, tag).Some? ==>
      var ref := FindRef(sm.value.meta.snippets, tag).value;
      r.description == (if ref.description != "" then ref.description else sm.value.meta.description)
      && r.usage == (if ref.usage != "" then ref.usage else sm.value.meta.usage)
  {
    match sm
    case None => ZeroMeta
    case Some(s) =>
      var m := SnippetVersionMeta(s.meta.title, s.meta.description, s.meta.usage, s.meta.apiVersion);
      match FindRef(s.meta.snippets, tag)
      case None => m
      case Some(ref) =>
        var m1 := if ref.description != "" then m.(description := ref.description) else m;
        if ref.usage != "" then m1.(usage := ref.usage) else m1
  }

  /**
   * The version of one tag, if it has a closed region: named by the name
   * format (prefix + tag + suffix), without a file, with the line ranges of
   * its regions and the trimmed text the scan collected.
   */
  function VersionFor(lines: seq<string>, tag: string, prefix: string, suffix: string,
                      sm: Option<SampleMetadata.SampleMetadata>): Option<SnippetVersion>
  {
    var st := Scan(lines, tag);
    if |st.pairs| == 0 then None
    else Some(SnippetVersion(prefix + tag + suffix, None, Some(LineRanges(st.pairs)),
                             TrimSpace(st.combined), MetaFor(sm, tag)))
  }

  /**
   * A tag has a version exactly when it has a closed region; the version is
   * named by the name format, has no file, carries the metadata for the tag,
   * and its content is the collected lines with the surrounding white space
   * trimmed.
   */
  lemma VersionContent(lines: seq<string>, tag: string, prefix: string, suffix: string,
                       sm: Option<SampleMetadata.SampleMetadata>)
    ensures VersionFor(lines, tag, prefix, suffix, sm).Some? <==>
      exists i, j :: 0 <= i < j < |lines| && IsStartLine(lines[i], tag) && ClosesRegion(lines[j], tag)
    ensures VersionFor(lines, tag, prefix, suffix, sm).Some? ==>
      var v := VersionFor(lines, tag, prefix, suffix, sm).value;
      v.name == prefix + tag + suffix && v.file.None? && v.meta == MetaFor(sm, tag)
      && v.content == TrimSpace(Collected(lines, tag, |lines|))
  {
    ClosedRegionIff(lines, tag);
    ScanCollected(lines, |lines|, tag);
    assert lines[..|lines|] == lines;
  }

  /** The scanning loop over the lines of a file for one tag. */
  method ScanRegions(lines: seq<string>, tag: string) returns (pairs: seq<Pair>, combined: string)
    ensures pairs == Scan(lines, tag).pairs && combined == Scan(lines, tag).combined
  {
    var lnp := -1;
    pairs := [];
    combined := "";
    var lnc := 1;
    while lnc <= |lines|
      invariant 1 <= lnc <= |lines| + 1
      invariant RegionState(lnp, pairs, combined) == Scan(lines[..lnc - 1], tag)
    {
      var txt := lines[lnc - 1];
      if IsStartLine(txt, tag) {
        lnp := lnc;
      } else if lnp != -1 && IsEndLine(txt, tag) {
        combined := combined + txt + "\n";
        pairs := pairs + [Pair(lnp, lnc)];
        lnp := -1;
      }
      if lnp != -1 {
        combined := combined + txt + "\n";
      }
      assert lines[..lnc][..lnc - 1] == lines[..lnc - 1];
      lnc := lnc + 1;
    }
    assert lines[..lnc - 1] == lines;
  }

  /** The versions of the given tags, later tags overwriting earlier ones. */
  function VersionsOf(lines: seq<string>, tags: seq<string>, prefix: string, suffix: string,
                      sm: Option<SampleMetadata.SampleMetadata>): map<string, SnippetVersion>
  {
    if tags == [] then map[]
    else
      var rest := VersionsOf(lines, tags[..|tags| - 1], prefix, suffix, sm);
      var t := tags[|tags| - 1];
      match VersionFor(lines, t, prefix, suffix, sm)
      case None => rest
      case Some(v) => rest[t := v]
  }

  /** A tag has a version exactly when it was detected and has a closed region. */
  lemma {:induction false} VersionsOfMeans(lines: seq<string>, tags: seq<string>, prefix: string, suffix: string,
                                           sm: Option<SampleMetadata.SampleMetadata>, t: string)
    ensures t in VersionsOf(lines, tags, prefix, suffix, sm) <==>
      t in tags && VersionFor(lines, t, prefix, suffix, sm).Some?
    ensures t in VersionsOf(lines, tags, prefix, suffix, sm) ==>
      VersionsOf(lines, tags, prefix, suffix, sm)[t] == VersionFor(lines, t, prefix, suffix, sm).value
  {
    if tags != [] {
      var init := tags[..|tags| - 1];
      var last := tags[|tags| - 1];
      VersionsOfMeans(lines, init, prefix, suffix, sm, t);
      assert tags == init + [last];
      VersionsOfLast(lines, tags, prefix, suffix, sm);
      MapStepMeans(tags, init, last, t, VersionsOf(lines, init, prefix, suffix, sm),
                   VersionsOf(lines, tags, prefix, suffix, sm),
                   VersionFor(lines, last, prefix, suffix, sm), VersionFor(lines, t, prefix, suffix, sm));
    }
  }

  lemma VersionsOfLast(lines: seq<string>, tags: seq<string>, prefix: string, suffix: string,
                       sm: Option<SampleMetadata.SampleMetadata>)
    requires tags != []
    ensures var rest := VersionsOf(lines, tags[..|tags| - 1], prefix, suffix, sm);
      var v := VersionFor(lines, tags[|tags| - 1], prefix, suffix, sm);
      VersionsOf(lines, tags, prefix, suffix, sm) == if v.None? then rest else rest[tags[|tags| - 1] := v.value]
  {
  }

  /**
   * Adding the version v of one more tag, last, to the map, if it has one:
   * what the map says of t follows from what the smaller map said, vt being
   * t's version.
   */
  lemma MapStepMeans(tags: seq<string>, init: seq<string>, last: string, t: string,
                     rest: map<string, SnippetVersion>, all: map<string, SnippetVersion>,
                     v: Option<SnippetVersion>, vt: Option<SnippetVersion>)
    requires tags == init + [last]
    requires (t in rest <==> t in init && vt.Some?) && (t in rest ==> rest[t] == vt.value)
    requires all == if v.None? then rest else rest[last := v.value]
    requires t == last ==> vt == v
    ensures t in all <==> t in tags && vt.Some?
    ensures t in all ==> all[t] == vt.value
  {
    assert t in tags <==> t in init || t == last;
  }

  lemma VersionsOfStep(lines: seq<string>, tags: seq<string>, k: nat, prefix: string, suffix: string,
                       sm: Option<SampleMetadata.SampleMetadata>)
    requires k < |tags|
    ensures VersionsOf(lines, tags[..k + 1], prefix, suffix, sm) ==
      match VersionFor(lines, tags[k], prefix, suffix, sm)
      case None => VersionsOf(lines, tags[..k], prefix, suffix, sm)
      case Some(v) => VersionsOf(lines, tags[..k], prefix, suffix, sm)[tags[k] := v]
  {
    assert tags[..k + 1][..k] == tags[..k];
  }

  /** The loop over the detected tags, keeping the tags with a closed region. */
  method CollectVersions(lines: seq<string>, tags: seq<string>, prefix: string, suffix: string,
                         sm: Option<SampleMetadata.SampleMetadata>) returns (versionTags: map<string, SnippetVersion>)
    ensures versionTags == VersionsOf(lines, tags, prefix, suffix, sm)
  {
    versionTags := map[];
    var k := 0;
    while k < |tags|
      invariant 0 <= k <= |tags|
      invariant versionTags == VersionsOf(lines, tags[..k], prefix, suffix, sm)
    {
      var tag := tags[k];
      var pairs, combined := ScanRegions(lines, tag);
      var ranges := LineRanges(pairs);
      VersionsOfStep(lines, tags, k, prefix, suffix, sm);
      if |ranges| > 0 {
        versionTags := versionTags[tag := SnippetVersion(prefix + tag + suffix, None, Some(ranges),
                                                         TrimSpace(combined), MetaFor(sm, tag))];
      }
      k := k + 1;
    }
    assert tags[..k] == tags;
  }

  /**
   * extractSnippetVersionsFromFile: the sample metadata's error, or one
   * version for every detected tag that has a closed region. The name
   * format "owners/<o>/repositories/<r>/snippets/%s/languages/<L>" is given
   * as the text before and after the tag.
   */
  method ExtractSnippetVersionsFromFile(
    content: string, prefix: string, suffix: string,
    decode: string -> Result<SampleMetadata.SampleMetadata>)
    returns (r: Result<map<string, SnippetVersion>>)
    ensures exists m ::
      (SampleMetadata.Parsed(content, decode, m)
       && (m.Err? ==> r == Err(m.msg))
       && (m.Ok? ==> r == Ok(VersionsOf(ScanLines(content), DetectRegionTags(content), prefix, suffix, m.value))))
  {
    var meta := SampleMetadata.ParseSampleMetadata(content, decode);
    if meta.Err? {
      return Err(meta.msg);
    }
    var lines := ScanLines(content);
    var tags := DetectRegionTags(content);
    var versionTags := CollectVersions(lines, tags, prefix, suffix, meta.value);
    r := Ok(versionTags);
    assert meta.Ok? && r == Ok(VersionsOf(lines, tags, prefix, suffix, meta.value));
  }
}
