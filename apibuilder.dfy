// drghs/scripts/github-api-builder/main.py: the OpenAPI paths of the
// GitHub proxy, one wildcard path per depth from 1 to 15, each answering
// six verbs. Reading the template and printing the YAML are left out.
module ApiBuilder {
  import opened Strs

  /** An operation of the document. */
  datatype Operation = Operation(
    operationId: string, produces: seq<string>, security: seq<map<string, seq<string>>>,
    responses: map<string, string>)

  const Verbs: seq<string> := ["get", "head", "patch", "put", "post", "delete"]

  /**
   * make_operation: the id is the depth and the verb joined by ":" (the
   * caller passes the integer depth), a JSON response, the api_key
   * security scheme, and a single "200" response.
   */
  function MakeOperation(depth: nat, oper: string): (r: Operation)
    ensures |r.operationId| > |oper| && r.operationId[|r.operationId| - |oper|..] == oper
    ensures r.security == [map["api_key" := []]]
    ensures r.responses.Keys == {"200"}
  {
    Operation(NatToString(depth) + ":" + oper, ["application/json"], [map["api_key" := []]],
              map["200" := "A proxy response from GitHub"])
  }

  /** The depth and verb are read back from an operation id. */
  lemma OperationIdInjective(d1: nat, v1: string, d2: nat, v2: string)
    requires MakeOperation(d1, v1).operationId == MakeOperation(d2, v2).operationId
    ensures d1 == d2 && v1 == v2
  {
    var a, b := NatToString(d1), NatToString(d2);
    var id := a + ":" + v1;
    assert id == b + ":" + v2;
    assert ':' !in a && ':' !in b by {
      assert forall k | 0 <= k < |a| :: IsDigit(a[k]);
      assert forall k | 0 <= k < |b| :: IsDigit(b[k]);
    }
    assert id[|a|] == ':' && id[|b|] == ':';
    assert forall k | 0 <= k < |b| :: id[k] == b[k] && id[k] != ':';
    assert forall k | 0 <= k < |a| :: id[k] == a[k] && id[k] != ':';
    assert |a| == |b|;
    assert a == id[..|a|] == b;
    assert v1 == id[|a| + 1..] == v2;
    NatToStringInjective(d1, d2);
  }

  /** The operations of one depth: each of the six verbs mapped to its operation. */
  function Operations(depth: nat): (r: map<string, Operation>)
  {
    map v | v in Verbs :: MakeOperation(depth, v)
  }

  /** make_verbs: the loop over the six verbs, filling a fresh dictionary. */
  method MakeVerbs(depth: nat) returns (d: map<string, Operation>)
    ensures d == Operations(depth)
  {
    d := map[];
    for i := 0 to |Verbs|
      invariant d.Keys == set v | v in Verbs[..i]
      invariant forall v | v in d :: d[v] == MakeOperation(depth, v)
    {
      assert Verbs[..i + 1] == Verbs[..i] + [Verbs[i]];
      d := d[Verbs[i] := MakeOperation(depth, Verbs[i])];
    }
    assert Verbs[..|Verbs|] == Verbs;
  }

  /** The path at a depth: a slash and a star, repeated depth times. */
  function PathKey(depth: nat): (r: string)
    ensures |r| == 2 * depth
  {
    if depth == 0 then "" else PathKey(depth - 1) + "/*"
  }

  /** The paths of the depths 1 to n, each mapped to its operations. */
  function Paths(n: nat): (r: map<string, map<string, Operation>>)
  {
    if n == 0 then map[] else Paths(n - 1)[PathKey(n) := Operations(n)]
  }

  /** Paths(n) holds the path of each depth 1 to n, with that depth's operations. */
  lemma {:induction false} PathsAt(n: nat, d: nat)
    requires 1 <= d <= n
    ensures PathKey(d) in Paths(n) && Paths(n)[PathKey(d)] == Operations(d)
  {
    if d < n {
      PathsAt(n - 1, d);
      assert |PathKey(d)| != |PathKey(n)|;
    }
  }

  /** Every path of Paths(n) is the path of a depth 1 to n. */
  lemma {:induction false} DepthOf(n: nat, p: string) returns (d: nat)
    requires p in Paths(n)
    ensures 1 <= d <= n && p == PathKey(d)
  {
    if p == PathKey(n) {
      d := n;
    } else {
      d := DepthOf(n - 1, p);
    }
  }

  /** The paths of Paths(n) are at most 2n characters long. */
  lemma {:induction false} PathsShort(n: nat)
    ensures forall p | p in Paths(n) :: |p| <= 2 * n
  {
    if n > 0 {
      PathsShort(n - 1);
    }
  }

  /** The document has one path per depth: n paths for the depths 1 to n. */
  lemma {:induction false} PathsCount(n: nat)
    ensures |Paths(n)| == n
  {
    if n > 0 {
      PathsCount(n - 1);
      PathsShort(n - 1);
      var m := Paths(n - 1);
      assert PathKey(n) !in m;
      assert |m[PathKey(n) := Operations(n)]| == |m| + 1;
    }
  }

  /**
   * create_paths: the loop over the depths 1 to 15, each adding the path
   * of that depth with its operations.
   */
  method CreatePaths() returns (paths: map<string, map<string, Operation>>)
    ensures paths == Paths(15)
  {
    paths := map[];
    for i := 1 to 16
      invariant paths == Paths(i - 1)
    {
      var verbs := MakeVerbs(i);
      paths := paths[PathKey(i) := verbs];
    }
  }

  /** There are exactly 15 paths, one per depth from 1 to 15. */
  lemma FifteenPaths(d: nat)
    requires 1 <= d <= 15
    ensures |Paths(15)| == 15
    ensures PathKey(d) in Paths(15)
  {
    PathsCount(15);
    PathsAt(15, d);
  }

  /**
   * Every path answers exactly the six verbs, each operation under the
   * api_key scheme with a single "200" response.
   */
  lemma SixVerbsEach(n: nat, p: string)
    requires p in Paths(n)
    ensures Paths(n)[p].Keys == {"get", "head", "patch", "put", "post", "delete"}
    ensures forall v | v in Paths(n)[p] ::
      Paths(n)[p][v].security == [map["api_key" := []]] && Paths(n)[p][v].responses.Keys == {"200"}
  {
    var d := DepthOf(n, p);
    PathsAt(n, d);
  }

  /** No two operations of the document share an id. */
  lemma OperationIdsUnique(n: nat, p1: string, v1: string, p2: string, v2: string)
    requires p1 in Paths(n) && v1 in Paths(n)[p1]
    requires p2 in Paths(n) && v2 in Paths(n)[p2]
    requires Paths(n)[p1][v1].operationId == Paths(n)[p2][v2].operationId
    ensures p1 == p2 && v1 == v2
  {
    var d1 := DepthOf(n, p1);
    var d2 := DepthOf(n, p2);
    PathsAt(n, d1);
    PathsAt(n, d2);
    OperationIdInjective(d1, v1, d2, v2);
  }
}
