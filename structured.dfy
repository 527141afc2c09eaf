// samplr/samplrctl/output/structured.go: camel-casing of the column names
// used by the structured (JSON) output, and the test of whether a writer is
// the structured one. JSON marshalling and the write itself are left out.
module Structured {
  import opened Wrappers
  import opened Strs

  /** A writer: the structured writer wrapping another one, or any other writer. */
  datatype Writer = StructuredWriter(inner: Writer) | OtherWriter(name: string)

  /** structured: the wrapped writer when w is the structured writer, nothing otherwise. */
  function StructuredOf(w: Writer): (r: Option<Writer>)
    ensures r.Some? <==> w.StructuredWriter?
    ensures r.Some? ==> w == StructuredWriter(r.value)
  {
    match w
    case StructuredWriter(inner) => Some(inner)
    case OtherWriter(_) => None
  }

  /** A word with an upper-case first letter. */
  function Capitalize(w: string): (r: string)
    requires w != []
    ensures |r| == |w| && r[0] == Upper(w[0]) && r[1..] == w[1..]
  {
    [Upper(w[0])] + w[1..]
  }

  /**
   * The builder after writing the words ws: empty words are skipped, the
   * first word written goes in as it is, every later one capitalized.
   */
  function Camel(ws: seq<string>): string
  {
    if ws == [] then ""
    else
      var b := Camel(ws[..|ws| - 1]);
      var w := ws[|ws| - 1];
      if w == [] then b else if b == [] then w else b + Capitalize(w)
  }

  /** toCamelCase: the lower-cased text split on single spaces, run through the builder. */
  function CamelCase(s: string): string
  {
    Camel(Split(ToLower(s), ' '))
  }

  /** The words glued together. */
  function Concat(ws: seq<string>): string
  {
    if ws == [] then "" else ws[0] + Concat(ws[1..])
  }

  /** The text with every occurrence of c removed. */
  function Without(s: string, c: char): (r: string)
    ensures c !in r
  {
    if s == [] then "" else (if s[0] == c then "" else [s[0]]) + Without(s[1..], c)
  }

  /** toCamelCase, the builder loop over the words. */
  method ToCamelCase(s: string) returns (r: string)
    ensures r == CamelCase(s)
  {
    var words := Split(ToLower(s), ' ');
    var b := "";
    for i := 0 to |words|
      invariant b == Camel(words[..i])
    {
      assert words[..i + 1][..i] == words[..i];
      var w := words[i];
      if |w| == 0 {
        continue;
      }
      if |b| == 0 {
        b := w;
        continue;
      }
      b := b + [Upper(w[0])] + w[1..];
    }
    assert words[..|words|] == words;
    return b;
  }

  lemma ConcatSnoc(ws: seq<string>, w: string)
    ensures Concat(ws + [w]) == Concat(ws) + w
  {
    if ws != [] {
      assert (ws + [w])[1..] == ws[1..] + [w];
      ConcatSnoc(ws[1..], w);
    }
  }

  lemma {:induction false} ToLowerAppend(a: string, b: string)
    ensures ToLower(a + b) == ToLower(a) + ToLower(b)
  {
  }

  /** Camel-casing only changes the case of the letters it keeps: lower-cased, it is the words glued together. */
  lemma {:induction false} CamelLower(ws: seq<string>)
    ensures ToLower(Camel(ws)) == ToLower(Concat(ws))
  {
    if ws != [] {
      var init := ws[..|ws| - 1];
      var w := ws[|ws| - 1];
      assert ws == init + [w];
      CamelLower(init);
      ConcatSnoc(init, w);
      ToLowerAppend(Concat(init), w);
      var b := Camel(init);
      if w != [] && b != [] {
        ToLowerAppend(b, Capitalize(w));
        assert ToLower(Capitalize(w)) == ToLower(w);
      }
    }
  }

  /** No word of ws holds a space, so neither does their camel-casing. */
  lemma {:induction false} CamelNoSpace(ws: seq<string>)
    requires forall k | 0 <= k < |ws| :: ' ' !in ws[k]
    ensures ' ' !in Camel(ws)
  {
    if ws != [] {
      CamelNoSpace(ws[..|ws| - 1]);
      var w := ws[|ws| - 1];
      assert w != [] ==> ' ' !in Capitalize(w) by {
        if w != [] {
          assert Capitalize(w) == [Upper(w[0])] + w[1..];
          assert w == [w[0]] + w[1..];
        }
      }
    }
  }

  /** Gluing the pieces of a split on c gives the text without c. */
  lemma {:induction false} ConcatSplit(s: string, c: char)
    ensures Concat(Split(s, c)) == Without(s, c)
  {
    if s != [] {
      ConcatSplit(s[1..], c);
      var rest := Split(s[1..], c);
      if s[0] != c {
        assert Split(s, c) == [[s[0]] + rest[0]] + rest[1..];
        assert Concat(Split(s, c)) == [s[0]] + rest[0] + Concat(rest[1..]);
      }
    }
  }

  lemma {:induction false} LowerWithout(s: string)
    ensures ToLower(Without(ToLower(s), ' ')) == Without(ToLower(s), ' ')
  {
    if s != [] {
      LowerWithout(s[1..]);
      assert ToLower(s)[1..] == ToLower(s[1..]);
      var rest := Without(ToLower(s[1..]), ' ');
      if Lower(s[0]) != ' ' {
        ToLowerAppend([Lower(s[0])], rest);
      }
    }
  }

  /**
   * toCamelCase keeps every character but the spaces, in order, changing
   * only their case: lower-cased, it is the lower-cased input without its
   * spaces. In particular it holds no space.
   */
  lemma CamelCaseMeans(s: string)
    ensures ToLower(CamelCase(s)) == Without(ToLower(s), ' ')
    ensures ' ' !in CamelCase(s)
  {
    var ws := Split(ToLower(s), ' ');
    CamelLower(ws);
    ConcatSplit(ToLower(s), ' ');
    LowerWithout(s);
    CamelNoSpace(ws);
  }

  /**
   * The map keysToCamelCase builds from m: a key for each camel-cased key
   * of m, holding the value of one of the keys that camel-case to it (which
   * one depends on Go's map iteration order).
   */
  ghost predicate CamelKeys(m: map<string, string>, c: map<string, string>) {
    c.Keys == (set k | k in m :: CamelCase(k))
    && forall n | n in c :: exists k | k in m :: CamelCase(k) == n && c[n] == m[k]
  }

  /** keysToCamelCase: a new map with every key camel-cased and the values kept. */
  method KeysToCamelCase(m: map<string, string>) returns (c: map<string, string>)
    ensures CamelKeys(m, c)
  {
    c := map[];
    var todo := m.Keys;
    while todo != {}
      invariant todo <= m.Keys
      invariant c.Keys == (set k | k in m.Keys - todo :: CamelCase(k))
      invariant forall n | n in c :: exists k | k in m :: CamelCase(k) == n && c[n] == m[k]
      decreases |todo|
    {
      ghost var any := SomeElement(todo);  // the choice below has a candidate
      var k :| k in todo;
      var n := ToCamelCase(k);
      c := c[n := m[k]];
      todo := todo - {k};
    }
  }

  /** When no two keys camel-case alike, every value is found under its key's camel-casing. */
  lemma CamelKeysNoCollision(m: map<string, string>, c: map<string, string>)
    requires CamelKeys(m, c)
    requires forall k1, k2 | k1 in m && k2 in m && CamelCase(k1) == CamelCase(k2) :: k1 == k2
    ensures forall k | k in m :: CamelCase(k) in c && c[CamelCase(k)] == m[k]
  {
    forall k | k in m
      ensures CamelCase(k) in c && c[CamelCase(k)] == m[k]
    {
      var n := CamelCase(k);
      assert n in c;
      var k' :| k' in m && CamelCase(k') == n && c[n] == m[k'];
    }
  }
}
