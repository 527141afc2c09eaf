// samplr/samplrctl/snippets/snippets.go: the row printed for each snippet.
// The table printer itself is left out; OutputSnippets returns the column
// list and the rows it hands to it.
module SnippetRows {
  import opened Strs
  import opened Snippet

  const NameName := "Name"
  const LanguageName := "Language"
  const VersionsName := "Versions"
  const IsDeletedName := "Is Deleted"

  /** The columns of the snippet table, in order. */
  const Fields := [NameName, LanguageName, VersionsName, IsDeletedName]

  /** strconv.FormatBool. */
  function FormatBool(b: bool): (r: string)
    ensures r == "true" || r == "false"
  {
    if b then "true" else "false"
  }

  /** snippetToMap: name, language, number of versions and whether the snippet is deleted. */
  function SnippetToMap(s: Snippet): (m: map<string, string>)
    ensures m.Keys == {NameName, LanguageName, VersionsName, IsDeletedName}
    ensures m[NameName] == s.name && m[LanguageName] == s.language
    ensures AllDigits(m[VersionsName]) && DigitsValue(m[VersionsName]) == |s.versions|
    ensures m[IsDeletedName] == "true" <==> s.primary.content == ""
    ensures m[IsDeletedName] == "false" <==> s.primary.content != ""
  {
    DigitsOfNatToString(|s.versions|);
    map[NameName := s.name, LanguageName := s.language,
        VersionsName := NatToString(|s.versions|),
        IsDeletedName := FormatBool(|s.primary.content| == 0)]
  }

  /** OutputSnippets: one row per snippet, in order, under the four columns. */
  method OutputSnippets(l: seq<Snippet>) returns (fields: seq<string>, rows: seq<map<string, string>>)
    ensures fields == Fields
    ensures |rows| == |l| && forall i | 0 <= i < |l| :: rows[i] == SnippetToMap(l[i])
    ensures forall i, f | 0 <= i < |l| && f in fields :: f in rows[i]
  {
    rows := [];
    for i := 0 to |l|
      invariant |rows| == i && forall j | 0 <= j < i :: rows[j] == SnippetToMap(l[j])
    {
      rows := rows + [SnippetToMap(l[i])];
    }
    fields := Fields;
  }
}
