// samplr/samplrctl/snippetversions/snippet_versions.go: the row printed for
// each snippet version. The table printer itself is left out.
module SnippetVersionRows {
  import opened Wrappers
  import opened Strs
  import opened Snippet

  const NameName := "Name"
  const FileName := "File"
  const LinesName := "Lines"
  const ContentName := "Content"
  const SizeName := "Size"
  const ShaName := "SHA"

  /** The columns of the version table: every key of a row but Content. */
  const Fields := [NameName, FileName, LinesName, SizeName, ShaName]

  /** The number of bytes of one character in UTF-8. */
  function Utf8Width(c: char): (n: nat)
    ensures 1 <= n <= 4
    ensures n == 1 <==> c as int < 0x80
  {
    if c as int < 0x80 then 1 else if c as int < 0x800 then 2 else if c as int < 0x10000 then 3 else 4
  }

  /** len() of a Go string: its length in UTF-8 bytes. */
  function ByteLength(s: string): (n: nat)
    ensures n >= |s|
  {
    if s == [] then 0 else Utf8Width(s[0]) + ByteLength(s[1..])
  }

  /** For ASCII text the byte length is the number of characters. */
  lemma {:induction false} AsciiByteLength(s: string)
    requires forall i | 0 <= i < |s| :: s[i] as int < 0x80
    ensures ByteLength(s) == |s|
  {
    if s != [] {
      AsciiByteLength(s[1..]);
    }
  }

  /** A nil slice joins to "". */
  function JoinLines(lines: Option<seq<string>>): string
  {
    if lines.None? then "" else Join(lines.value, ",")
  }

  /**
   * snippetVersionToMap: the version's name, file path, line ranges joined
   * with commas, content, content size and commit hash. The file and its
   * commit must be present, as the source dereferences both.
   */
  function SnippetVersionToMap(s: SnippetVersion): (m: map<string, string>)
    requires s.file.Some? && s.file.value.gitCommit.Some?
    ensures m.Keys == {NameName, FileName, LinesName, ContentName, SizeName, ShaName}
    ensures m[NameName] == s.name && m[ContentName] == s.content
    ensures m[FileName] == s.file.value.filePath && m[ShaName] == s.file.value.gitCommit.value.hash
    ensures AllDigits(m[SizeName]) && DigitsValue(m[SizeName]) == ByteLength(s.content)
    ensures s.lines.None? ==> m[LinesName] == ""
  {
    DigitsOfNatToString(ByteLength(s.content));
    map[NameName := s.name, FileName := s.file.value.filePath,
        LinesName := JoinLines(s.lines), ContentName := s.content,
        SizeName := NatToString(ByteLength(s.content)),
        ShaName := s.file.value.gitCommit.value.hash]
  }

  /** The Lines column gives back the version's ranges: none of them holds a comma. */
  lemma LinesRoundTrip(s: SnippetVersion)
    requires s.file.Some? && s.file.value.gitCommit.Some?
    requires s.lines.Some? && s.lines.value != []
    requires forall i | 0 <= i < |s.lines.value| :: ',' !in s.lines.value[i]
    ensures Split(SnippetVersionToMap(s)[LinesName], ',') == s.lines.value
  {
    SplitJoin(s.lines.value, ',');
  }

  /** OutputSnippetVersions: one row per version, in order; the columns leave out Content. */
  method OutputSnippetVersions(l: seq<SnippetVersion>) returns (fields: seq<string>, rows: seq<map<string, string>>)
    requires forall i | 0 <= i < |l| :: l[i].file.Some? && l[i].file.value.gitCommit.Some?
    ensures fields == Fields && ContentName !in fields
    ensures |rows| == |l| && forall i | 0 <= i < |l| :: rows[i] == SnippetVersionToMap(l[i])
    ensures forall i, f | 0 <= i < |l| && f in fields :: f in rows[i]
  {
    rows := [];
    for i := 0 to |l|
      invariant |rows| == i && forall j | 0 <= j < i :: rows[j] == SnippetVersionToMap(l[j])
    {
      rows := rows + [SnippetVersionToMap(l[i])];
    }
    fields := Fields;
  }
}
