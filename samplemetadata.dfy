// The `sample-metadata:` block of a sample file: a run of single-line
// comments, opened by a line that is exactly "# sample-metadata:" or
// "// sample-metadata:", whose text (comment marker removed) is YAML. The
// YAML decoder is a parameter.
module SampleMetadata {
  import opened Wrappers
  import opened Strs

  datatype SnippetMetaRef = SnippetMetaRef(regionTag: string, description: string, usage: string)

  datatype SampleMeta = SampleMeta(
    title: string, description: string, usage: string, apiVersion: string,
    snippets: seq<SnippetMetaRef>)

  datatype SampleMetadata = SampleMetadata(meta: SampleMeta)

  /** The two lines that open a block. */
  const HashMarker := "# sample-metadata:"
  const SlashMarker := "// sample-metadata:"

  /** The comment marker of a line that opens the block, or "" for any other line. */
  function MarkerPrefix(line: string): (p: string)
    ensures p == "" || p == "#" || p == "//"
    ensures p != "" <==> (line == HashMarker || line == SlashMarker)
    ensures p != "" ==> !Stops(line, p)
  {
    if line == HashMarker then "#" else if line == SlashMarker then "//" else ""
  }

  /** A line that ends the block: empty, or not starting with the marker. */
  predicate Stops(line: string, p: string) {
    line == "" || !HasPrefix(line, p)
  }

  /** The YAML text of the collected lines: each without the first occurrence of the marker, then a newline. */
  function Collect(lines: seq<string>, p: string): string
  {
    if lines == [] then ""
    else Collect(lines[..|lines| - 1], p) + RemoveFirst(lines[|lines| - 1], p) + "\n"
  }

  /** The block runs from the first marker line m up to, not including, the first stopping line e. */
  ghost predicate IsBlockAt(lines: seq<string>, comChr: string, yml: string, m: int, e: int) {
    0 <= m < e <= |lines|
    && MarkerPrefix(lines[m]) == comChr
    && (forall j | 0 <= j < m :: MarkerPrefix(lines[j]) == "")
    && (forall j | m <= j < e :: !Stops(lines[j], comChr))
    && (e == |lines| || Stops(lines[e], comChr))
    && yml == Collect(lines[m..e], comChr)
  }

  /** comChr and yml are the marker and text of the block of lines; comChr is "" when no line opens one. */
  ghost predicate IsBlock(lines: seq<string>, comChr: string, yml: string) {
    (comChr == "" && yml == "" && forall j | 0 <= j < |lines| :: MarkerPrefix(lines[j]) == "")
    || (comChr != "" && exists m, e :: IsBlockAt(lines, comChr, yml, m, e))
  }

  /** A block opened somewhere rules out "no block" for the same lines. */
  lemma MarkerForcesBlock(lines: seq<string>, c: string, y: string, c': string, y': string)
    requires IsBlock(lines, c, y) && c != "" && IsBlock(lines, c', y')
    ensures c' != ""
  {
    var m, e :| IsBlockAt(lines, c, y, m, e);
    assert MarkerPrefix(lines[m]) != "";
  }

  /** The block is determined by the lines. */
  lemma IsBlockUnique(lines: seq<string>, c1: string, y1: string, c2: string, y2: string)
    requires IsBlock(lines, c1, y1) && IsBlock(lines, c2, y2)
    ensures c1 == c2 && y1 == y2
  {
    if c1 != "" || c2 != "" {
      if c1 != "" {
        MarkerForcesBlock(lines, c1, y1, c2, y2);
      } else {
        MarkerForcesBlock(lines, c2, y2, c1, y1);
      }
      var m1, e1 :| IsBlockAt(lines, c1, y1, m1, e1);
      var m2, e2 :| IsBlockAt(lines, c2, y2, m2, e2);
      assert MarkerPrefix(lines[m1]) != "" && MarkerPrefix(lines[m2]) != "";
      assert m1 == m2;
      assert e1 == e2;
    }
  }

  /** One more line of the block: the YAML text grows by that line. */
  lemma CollectAppend(block: seq<string>, line: string, p: string)
    ensures Collect(block + [line], p) == Collect(block, p) + RemoveFirst(line, p) + "\n"
  {
    assert (block + [line])[..|block|] == block;
  }

  /** One step of the collecting loop: the next line joins the block's text. */
  lemma CollectStep(lines: seq<string>, m: int, k: int, p: string)
    requires 0 <= m <= k < |lines|
    ensures Collect(lines[m..k + 1], p) == Collect(lines[m..k], p) + RemoveFirst(lines[k], p) + "\n"
  {
    SliceAppend(lines, m, k);
    CollectAppend(lines[m..k], lines[k], p);
  }

  lemma SliceAppend(lines: seq<string>, m: int, k: int)
    requires 0 <= m <= k < |lines|
    ensures lines[m..k + 1] == lines[m..k] + [lines[k]]
  {
  }

  lemma NoBlock(lines: seq<string>)
    requires forall j | 0 <= j < |lines| :: MarkerPrefix(lines[j]) == ""
    ensures IsBlock(lines, "", "")
  {
  }

  lemma BlockFound(lines: seq<string>, comChr: string, yml: string, m: int, e: int)
    requires 0 <= m < e <= |lines| && MarkerPrefix(lines[m]) == comChr != ""
    requires forall j | 0 <= j < m :: MarkerPrefix(lines[j]) == ""
    requires forall j | m <= j < e :: !Stops(lines[j], comChr)
    requires e == |lines| || Stops(lines[e], comChr)
    requires yml == Collect(lines[m..e], comChr)
    ensures IsBlock(lines, comChr, yml)
  {
    assert forall j | m <= j < e :: lines[j] == lines[m..e][j - m];
    assert IsBlockAt(lines, comChr, yml, m, e);
  }

  /** The first phase of the scanning loop: the lines up to the one that opens the block. */
  method FindMarker(lines: seq<string>) returns (k: int)
    ensures 0 <= k <= |lines| && forall j | 0 <= j < k :: MarkerPrefix(lines[j]) == ""
    ensures k < |lines| ==> MarkerPrefix(lines[k]) != ""
  {
    k := 0;
    while k < |lines| && MarkerPrefix(lines[k]) == ""
      invariant 0 <= k <= |lines|
      invariant forall j | 0 <= j < k :: MarkerPrefix(lines[j]) == ""
    {
      k := k + 1;
    }
  }

  /** The second phase: from the marker line m, every line is collected until one ends the block. */
  method CollectFrom(lines: seq<string>, m: int, comChr: string) returns (yml: string, e: int)
    requires 0 <= m < |lines| && !Stops(lines[m], comChr)
    ensures m < e <= |lines| && (e == |lines| || Stops(lines[e], comChr))
    ensures (forall j | m <= j < e :: !Stops(lines[j], comChr)) && yml == Collect(lines[m..e], comChr)
  {
    var k := m;
    yml := "";
    while k < |lines| && !Stops(lines[k], comChr)
      invariant m <= k <= |lines|
      invariant (forall j | m <= j < k :: !Stops(lines[j], comChr)) && yml == Collect(lines[m..k], comChr)
    {
      CollectStep(lines, m, k, comChr);
      yml := yml + RemoveFirst(lines[k], comChr) + "\n";
      k := k + 1;
    }
    e := k;
  }

  /**
   * The scanning loop of parseSampleMetadata. Until the marker line is seen
   * nothing is collected; from it on every line is collected until one ends
   * the block. The two phases of the loop are written as two methods.
   */
  method MetadataBlock(lines: seq<string>) returns (comChr: string, yml: string)
    ensures IsBlock(lines, comChr, yml)
  {
    var m := FindMarker(lines);
    if m == |lines| {
      NoBlock(lines);
      return "", "";
    }
    comChr := MarkerPrefix(lines[m]);
    var e;
    yml, e := CollectFrom(lines, m, comChr);
    BlockFound(lines, comChr, yml, m, e);
  }

  /** The outcome of parsing the block comChr, yml: none, the decoded value, or the decoder's error. */
  predicate Outcome(comChr: string, yml: string, decode: string -> Result<SampleMetadata>,
                    r: Result<Option<SampleMetadata>>) {
    (comChr == "" ==> r == Ok(None))
    && (comChr != "" && decode(yml).Ok? ==> r == Ok(Some(decode(yml).value)))
    && (comChr != "" && decode(yml).Err? ==> r == Err(decode(yml).msg))
  }

  /** r is what parsing the sample metadata of content gives. */
  ghost predicate Parsed(content: string, decode: string -> Result<SampleMetadata>,
                         r: Result<Option<SampleMetadata>>) {
    exists comChr, yml :: IsBlock(ScanLines(content), comChr, yml) && Outcome(comChr, yml, decode, r)
  }

  /** The outcome of parsing is determined by the content and the decoder. */
  lemma ParsedUnique(content: string, decode: string -> Result<SampleMetadata>,
                     r1: Result<Option<SampleMetadata>>, r2: Result<Option<SampleMetadata>>)
    requires Parsed(content, decode, r1) && Parsed(content, decode, r2)
    ensures r1 == r2
  {
    var lines := ScanLines(content);
    var c1, y1 :| IsBlock(lines, c1, y1) && Outcome(c1, y1, decode, r1);
    var c2, y2 :| IsBlock(lines, c2, y2) && Outcome(c2, y2, decode, r2);
    IsBlockUnique(lines, c1, y1, c2, y2);
    OutcomeUnique(c1, y1, decode, r1, r2);
  }

  lemma OutcomeUnique(comChr: string, yml: string, decode: string -> Result<SampleMetadata>,
                      r1: Result<Option<SampleMetadata>>, r2: Result<Option<SampleMetadata>>)
    requires Outcome(comChr, yml, decode, r1) && Outcome(comChr, yml, decode, r2)
    ensures r1 == r2
  {
  }

  /**
   * parseSampleMetadata: no block gives (nil, nil); otherwise the block's
   * text goes to the YAML decoder, whose error is returned.
   */
  method ParseSampleMetadata(content: string, decode: string -> Result<SampleMetadata>)
    returns (r: Result<Option<SampleMetadata>>)
    ensures Parsed(content, decode, r)
  {
    var comChr, yml := MetadataBlock(ScanLines(content));
    if comChr == "" {
      return Ok(None);
    }
    var d := decode(yml);
    if d.Err? {
      return Err(d.msg);
    }
    return Ok(Some(d.value));
  }
}
