// samplr/samplrctl/testutil/testutil.go: substring predicates over the
// text a command printed. The regular expression ContainsRow compiles is
// written out as the predicate IsRow over one line.
module TestUtil {
  import opened Strs

  /** ContainsAll: stop at the first sub that does not occur in s. */
  method ContainsAll(s: string, subs: seq<string>) returns (r: bool)
    ensures r <==> forall i | 0 <= i < |subs| :: Contains(s, subs[i])
  {
    for i := 0 to |subs|
      invariant forall j | 0 <= j < i :: Contains(s, subs[j])
    {
      if IndexOf(s, subs[i]) < 0 {
        return false;
      }
    }
    return true;
  }

  /** ContainsAny: stop at the first sub that occurs in s. */
  method ContainsAny(s: string, subs: seq<string>) returns (r: bool)
    ensures r <==> exists i | 0 <= i < |subs| :: Contains(s, subs[i])
  {
    for i := 0 to |subs|
      invariant forall j | 0 <= j < i :: !Contains(s, subs[j])
    {
      if IndexOf(s, subs[i]) >= 0 {
        return true;
      }
    }
    return false;
  }

  /** Every sub occurs in line. */
  predicate HasAll(line: string, subs: seq<string>) {
    forall i | 0 <= i < |subs| :: Contains(line, subs[i])
  }

  /** AnyLineContainsAll: some line of the output, split on "\n", holds every sub. */
  method AnyLineContainsAll(output: string, subs: seq<string>) returns (r: bool)
    ensures r <==> exists k | 0 <= k < |Split(output, '\n')| :: HasAll(Split(output, '\n')[k], subs)
  {
    var lines := Split(output, '\n');
    for k := 0 to |lines|
      invariant forall j | 0 <= j < k :: !HasAll(lines[j], subs)
    {
      var all := ContainsAll(lines[k], subs);
      if all {
        assert 0 <= k < |Split(output, '\n')| && HasAll(Split(output, '\n')[k], subs);
        return true;
      }
    }
    return false;
  }

  /** `[\t ]`. */
  predicate Blank(c: char) { c == '\t' || c == ' ' }

  predicate AllBlank(s: string) { forall i | 0 <= i < |s| :: Blank(s[i]) }

  /**
   * The end of a row: the fields in order, each after the first preceded
   * by at least one blank, then only blanks to the end.
   */
  predicate RowRest(t: string, fields: seq<string>)
    decreases |fields|
  {
    if fields == [] then AllBlank(t)
    else
      HasPrefix(t, fields[0])
      && var u := t[|fields[0]|..];
      (if |fields| == 1 then AllBlank(u)
       else exists j | 1 <= j <= |u| :: AllBlank(u[..j]) && RowRest(u[j..], fields[1..]))
  }

  /** One line matched by `^[\t ]*f1[\t ]+f2…[\t ]*$`. */
  predicate IsRow(line: string, fields: seq<string>) {
    exists i | 0 <= i <= |line| :: AllBlank(line[..i]) && RowRest(line[i..], fields)
  }

  /** Index of the first line of lines that is a row, or |lines|. */
  function FirstRow(lines: seq<string>, fields: seq<string>): (k: nat)
    ensures k <= |lines|
    ensures forall j | 0 <= j < k :: !IsRow(lines[j], fields)
    ensures k < |lines| ==> IsRow(lines[k], fields)
  {
    if lines == [] then 0
    else if IsRow(lines[0], fields) then 0
    else 1 + FirstRow(lines[1..], fields)
  }

  /**
   * ContainsRow: the leftmost match of the multi-line pattern is the first
   * line that is a row (a match spans a whole line, as `^` and `$` sit at
   * line ends), and the answer is whether that match is non-empty.
   */
  function ContainsRow(s: string, fields: seq<string>): (r: bool)
    ensures r ==> exists k | 0 <= k < |Split(s, '\n')| :: IsRow(Split(s, '\n')[k], fields)
  {
    var lines := Split(s, '\n');
    var k := FirstRow(lines, fields);
    k < |lines| && lines[k] != ""
  }

  /** ContainsRow holds exactly when the first line that is a row is a non-empty one. */
  lemma ContainsRowMeans(s: string, fields: seq<string>)
    ensures var lines := Split(s, '\n');
      ContainsRow(s, fields) <==>
      exists k | 0 <= k < |lines| :: lines[k] != "" && IsRow(lines[k], fields)
        && forall j | 0 <= j < k :: !IsRow(lines[j], fields)
  {
    var lines := Split(s, '\n');
    var first := FirstRow(lines, fields);
    if ContainsRow(s, fields) {
      assert first < |lines| && lines[first] != "" && IsRow(lines[first], fields);
      assert forall j | 0 <= j < first :: !IsRow(lines[j], fields);
    }
    forall k | 0 <= k < |lines| && IsRow(lines[k], fields) && forall j | 0 <= j < k :: !IsRow(lines[j], fields)
      ensures k == first
    {
    }
  }

  /** A non-empty row line is found when no empty line before it is a row. */
  lemma ContainsRowComplete(s: string, fields: seq<string>, k: nat)
    requires k < |Split(s, '\n')| && Split(s, '\n')[k] != "" && IsRow(Split(s, '\n')[k], fields)
    requires forall j | 0 <= j < k :: !(Split(s, '\n')[j] == "" && IsRow(Split(s, '\n')[j], fields))
    ensures ContainsRow(s, fields)
  {
    var lines := Split(s, '\n');
    var first := FirstRow(lines, fields);
  }

  /** A row printed with tabs between the fields is found, when it is not empty. */
  lemma {:induction false} JoinedIsRow(fields: seq<string>)
    requires fields != []
    ensures RowRest(Join(fields, "\t"), fields)
  {
    var t := Join(fields, "\t");
    if |fields| == 1 {
      assert t == fields[0];
      assert t[|fields[0]|..] == [];
    } else {
      var rest := Join(fields[1..], "\t");
      assert t == fields[0] + "\t" + rest;
      assert HasPrefix(t, fields[0]);
      var u := t[|fields[0]|..];
      assert u == "\t" + rest;
      JoinedIsRow(fields[1..]);
      assert AllBlank(u[..1]) && u[1..] == rest;
    }
  }

  /** A row with a non-empty field, printed on a line of its own, is found by ContainsRow. */
  lemma ContainsJoinedRow(fields: seq<string>)
    requires forall i | 0 <= i < |fields| :: '\n' !in fields[i]
    requires exists i | 0 <= i < |fields| :: fields[i] != ""
    ensures ContainsRow(Join(fields, "\t"), fields)
  {
    var t := Join(fields, "\t");
    JoinedIsRow(fields);
    assert AllBlank(t[..0]) && t[0..] == t;
    assert IsRow(t, fields);
    JoinNoNewline(fields);
    SplitNoSep(t, '\n');
    var i :| 0 <= i < |fields| && fields[i] != "";
    JoinLength(fields, i);
  }

  lemma {:induction false} JoinNoNewline(fields: seq<string>)
    requires forall i | 0 <= i < |fields| :: '\n' !in fields[i]
    ensures '\n' !in Join(fields, "\t")
  {
    if |fields| > 1 {
      JoinNoNewline(fields[1..]);
      assert Join(fields, "\t") == fields[0] + "\t" + Join(fields[1..], "\t");
    }
  }

  lemma {:induction false} JoinLength(fields: seq<string>, i: nat)
    requires i < |fields|
    ensures |Join(fields, "\t")| >= |fields[i]|
  {
    if |fields| > 1 && i > 0 {
      JoinLength(fields[1..], i - 1);
    }
  }

}
