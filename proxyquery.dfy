// magic-github-proxy/main.py: guerrilla_clean_path_queries, which drops
// the named parameters from the query of a request path.
//
// The path is taken already split into its six parts, as urlparse leaves
// it. Query strings are pair lists: parse_qsl with strict parsing splits
// on "&" and each field at its first "="; urlencode joins "name=value"
// fields with "&". Percent-decoding and percent-encoding are left out.
module ProxyQuery {
  import opened Wrappers
  import opened Strs

  /** The parts of a parsed URL. */
  datatype Url = Url(scheme: string, netloc: string, path: string, params: string, query: string, fragment: string)

  type Pair = (string, string)

  /** A field split at its first "=": none when it has no "=". */
  function SplitField(s: string): (r: Option<Pair>)
    ensures r.None? <==> '=' !in s
    ensures r.Some? ==> '=' !in r.value.0 && s == r.value.0 + "=" + r.value.1
  {
    if s == [] then None
    else if s[0] == '=' then Some(("", s[1..]))
    else
      match SplitField(s[1..])
      case None => None
      case Some((n, v)) => Some(([s[0]] + n, v))
  }

  /** A field is split back into the name and value it was made of. */
  lemma {:induction false} SplitFieldOf(n: string, v: string)
    requires '=' !in n
    ensures SplitField(n + "=" + v) == Some((n, v))
  {
    var s := n + "=" + v;
    if n == [] {
      assert s[0] == '=' && s[1..] == v;
    } else {
      SplitFieldOf(n[1..], v);
      assert s[0] == n[0] != '=';
      assert s[1..] == n[1..] + "=" + v;
      assert [n[0]] + n[1..] == n;
    }
  }

  /** The fields of a query as pairs; none when a field has no "=" (strict parsing). */
  function ParseFields(fields: seq<string>): (r: Option<seq<Pair>>)
    ensures r.None? <==> exists i | 0 <= i < |fields| :: '=' !in fields[i]
    ensures r.Some? ==> (
      |r.value| == |fields| &&
      forall i | 0 <= i < |fields| :: '=' !in r.value[i].0 && fields[i] == r.value[i].0 + "=" + r.value[i].1)
  {
    if fields == [] then Some([])
    else
      match SplitField(fields[0])
      case None => None
      case Some(p) =>
        match ParseFields(fields[1..])
        case None => None
        case Some(ps) => Some([p] + ps)
  }

  /** parse_qsl(query, keep_blank_values=True, strict_parsing=True). */
  function ParseQsl(query: string): (r: Option<seq<Pair>>)
  {
    ParseFields(Split(query, '&'))
  }

  /** A pair list parse_qsl can produce: no "=" or "&" in a name, no "&" in a value. */
  predicate WellFormed(pairs: seq<Pair>)
  {
    forall i | 0 <= i < |pairs| :: '=' !in pairs[i].0 && '&' !in pairs[i].0 && '&' !in pairs[i].1
  }

  /** The "name=value" fields of a pair list. */
  function Fields(pairs: seq<Pair>): (r: seq<string>)
    ensures |r| == |pairs| && forall i | 0 <= i < |pairs| :: r[i] == pairs[i].0 + "=" + pairs[i].1
  {
    seq(|pairs|, i requires 0 <= i < |pairs| => pairs[i].0 + "=" + pairs[i].1)
  }

  /** urlencode(pairs). */
  function UrlEncode(pairs: seq<Pair>): string
  {
    Join(Fields(pairs), "&")
  }

  /** Every pair list parse_qsl produces is well formed. */
  lemma ParsedWellFormed(query: string)
    requires ParseQsl(query).Some?
    ensures WellFormed(ParseQsl(query).value)
  {
    var fields := Split(query, '&');
    var ps := ParseQsl(query).value;
    forall i | 0 <= i < |ps|
      ensures '&' !in ps[i].0 && '&' !in ps[i].1
    {
      assert fields[i] == ps[i].0 + "=" + ps[i].1;
      assert forall k | 0 <= k < |ps[i].0| :: ps[i].0[k] == fields[i][k];
      assert forall k | 0 <= k < |ps[i].1| :: ps[i].1[k] == fields[i][|ps[i].0| + 1 + k];
    }
  }

  lemma {:induction false} ParseFieldsOf(pairs: seq<Pair>)
    requires forall i | 0 <= i < |pairs| :: '=' !in pairs[i].0
    ensures ParseFields(Fields(pairs)) == Some(pairs)
  {
    if pairs != [] {
      var fs, rest := Fields(pairs), Fields(pairs[1..]);
      ParseFieldsOf(pairs[1..]);
      SplitFieldOf(pairs[0].0, pairs[0].1);
      assert fs[1..] == rest;
      assert SplitField(fs[0]) == Some(pairs[0]);
      assert [pairs[0]] + pairs[1..] == pairs;
    }
  }

  /** Parsing undoes encoding for a non-empty, well-formed pair list. */
  lemma ParseEncode(pairs: seq<Pair>)
    requires |pairs| > 0 && WellFormed(pairs)
    ensures ParseQsl(UrlEncode(pairs)) == Some(pairs)
  {
    var fs := Fields(pairs);
    forall i | 0 <= i < |fs|
      ensures '&' !in fs[i]
    {
      var f := fs[i];
      assert f == pairs[i].0 + "=" + pairs[i].1;
      forall k | 0 <= k < |f| ensures f[k] != '&' {
        if k < |pairs[i].0| {
          assert f[k] == pairs[i].0[k];
        } else if k > |pairs[i].0| {
          assert f[k] == pairs[i].1[k - |pairs[i].0| - 1];
        }
      }
    }
    SplitJoin(fs, '&');
    ParseFieldsOf(pairs);
  }

  /** An encoded list is empty exactly when the list is. */
  lemma EncodeEmpty(pairs: seq<Pair>)
    ensures UrlEncode(pairs) == "" <==> pairs == []
  {
    if pairs != [] {
      var fs := Fields(pairs);
      if |fs| > 1 {
        assert UrlEncode(pairs) == fs[0] + "&" + Join(fs[1..], "&");
      }
    }
  }

  /** The pairs whose name is not to be cleaned, in their order, blank values included. */
  function KeepPairs(pairs: seq<Pair>, clean: set<string>): (r: seq<Pair>)
  {
    if pairs == [] then []
    else if pairs[0].0 in clean then KeepPairs(pairs[1..], clean)
    else [pairs[0]] + KeepPairs(pairs[1..], clean)
  }

  /** No kept pair is named in clean, and a pair is kept exactly when it is listed and not named. */
  lemma {:induction false} KeepPairsMeans(pairs: seq<Pair>, clean: set<string>)
    ensures forall i | 0 <= i < |KeepPairs(pairs, clean)| :: KeepPairs(pairs, clean)[i].0 !in clean
    ensures forall p :: p in KeepPairs(pairs, clean) <==> p in pairs && p.0 !in clean
  {
    if pairs != [] {
      KeepPairsMeans(pairs[1..], clean);
      assert pairs == [pairs[0]] + pairs[1..];
    }
  }

  /** The filter keeps relative order: it distributes over concatenation. */
  lemma {:induction false} KeepPairsAppend(a: seq<Pair>, b: seq<Pair>, clean: set<string>)
    ensures KeepPairs(a + b, clean) == KeepPairs(a, clean) + KeepPairs(b, clean)
  {
    if a != [] {
      var ab := a + b;
      KeepPairsAppend(a[1..], b, clean);
      assert ab[0] == a[0] && ab[1..] == a[1..] + b;
    } else {
      assert a + b == b;
    }
  }

  /** Filtering what is already filtered changes nothing. */
  lemma {:induction false} KeepPairsIdempotent(pairs: seq<Pair>, clean: set<string>)
    ensures KeepPairs(KeepPairs(pairs, clean), clean) == KeepPairs(pairs, clean)
  {
    if pairs != [] {
      KeepPairsIdempotent(pairs[1..], clean);
      var rest := KeepPairs(pairs[1..], clean);
      if pairs[0].0 !in clean {
        assert ([pairs[0]] + rest)[1..] == rest;
      }
    }
  }

  /** The filtered list of a well-formed list is well formed. */
  lemma KeepPairsWellFormed(pairs: seq<Pair>, clean: set<string>)
    requires WellFormed(pairs)
    ensures WellFormed(KeepPairs(pairs, clean))
  {
    var r := KeepPairs(pairs, clean);
    KeepPairsMeans(pairs, clean);
    forall i | 0 <= i < |r|
      ensures '=' !in r[i].0 && '&' !in r[i].0 && '&' !in r[i].1
    {
      assert r[i] in pairs;
    }
  }

  /**
   * guerrilla_clean_path_queries: a path without a query is returned as
   * it is; otherwise its query is parsed strictly (an error for a malformed
   * one), the pairs named in clean are dropped, and the rest re-encoded,
   * every other part kept.
   */
  function CleanPathQueries(clean: set<string>, u: Url): (r: Result<Url>)
    ensures u.query == "" ==> r == Ok(u)
    ensures r.Err? <==> u.query != "" && ParseQsl(u.query).None?
    ensures r.Ok? ==> r.value.(query := u.query) == u
  {
    if u.query == "" then Ok(u)
    else
      match ParseQsl(u.query)
      case None => Err("bad query field")
      case Some(queries) => Ok(u.(query := UrlEncode(KeepPairs(queries, clean))))
  }

  /** The cleaned query holds exactly the kept pairs, and none named in clean. */
  lemma CleanedQuery(clean: set<string>, u: Url)
    requires CleanPathQueries(clean, u).Ok? && u.query != ""
    ensures var q := CleanPathQueries(clean, u).value.query;
      var kept := KeepPairs(ParseQsl(u.query).value, clean);
      (q == "" && kept == []) || ParseQsl(q) == Some(kept)
  {
    var kept := KeepPairs(ParseQsl(u.query).value, clean);
    ParsedWellFormed(u.query);
    KeepPairsWellFormed(ParseQsl(u.query).value, clean);
    EncodeEmpty(kept);
    if kept != [] {
      ParseEncode(kept);
    }
  }

  /** Cleaning a cleaned path removes nothing more. */
  lemma CleanIdempotent(clean: set<string>, u: Url)
    requires CleanPathQueries(clean, u).Ok?
    ensures CleanPathQueries(clean, CleanPathQueries(clean, u).value) == CleanPathQueries(clean, u)
  {
    if u.query != "" {
      var ps := ParseQsl(u.query).value;
      var kept := KeepPairs(ps, clean);
      CleanedQuery(clean, u);
      KeepPairsIdempotent(ps, clean);
    }
  }
}
