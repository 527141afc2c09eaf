// leif/owner.go and leif/repository.go: a GitHub owner, the repositories
// of it that are tracked (kept sorted by name) and the SLO rules of both.
//
// The GitHub calls are parameters: whether the repository exists (its
// error, if any) and the outcome of looking up an SLO document. The update
// loop on a ticker is left out.
module LeifOwner {
  import opened Wrappers
  import opened Strs
  import opened SloRules

  /** The outcome of findSLODoc: rules, a 404 (no document), or another error. */
  datatype Lookup = Rules(rules: seq<SloRule>) | NotFound(msg404: string) | Failure(msg: string)

  /** A tracked repository (the source shares it by address; its identity is not modelled). */
  datatype Repository = Repository(name: string, ownerName: string, sloRules: seq<SloRule>)

  /** Repository.Update: the rules found replace the old ones; on any error they stay. */
  function UpdateRepository(r: Repository, l: Lookup): (r': Repository)
    ensures r'.name == r.name && r'.ownerName == r.ownerName
    ensures r'.sloRules == if l.Rules? then l.rules else r.sloRules
  {
    if l.Rules? then r.(sloRules := l.rules) else r
  }

  /** Names strictly increasing: sorted, and no name twice. */
  predicate SortedNames(rs: seq<Repository>)
  {
    forall i, j | 0 <= i < j < |rs| :: Less(rs[i].name, rs[j].name)
  }

  function NameList(rs: seq<Repository>): (ns: seq<string>)
    ensures |ns| == |rs| && forall i | 0 <= i < |rs| :: ns[i] == rs[i].name
  {
    seq(|rs|, i requires 0 <= i < |rs| => rs[i].name)
  }

  /**
   * sort.Search over the repositories for the first name not below x: a
   * binary search that, on names in order, finds the position where x is
   * or belongs.
   */
  method SearchName(rs: seq<Repository>, x: string) returns (i: nat)
    requires SortedNames(rs)
    ensures i <= |rs|
    ensures forall k | 0 <= k < i :: Less(rs[k].name, x)
    ensures forall k | i <= k < |rs| :: !Less(rs[k].name, x)
  {
    var lo, hi := 0, |rs|;
    while lo < hi
      invariant 0 <= lo <= hi <= |rs|
      invariant forall k | 0 <= k < lo :: Less(rs[k].name, x)
      invariant forall k | hi <= k < |rs| :: !Less(rs[k].name, x)
    {
      var mid := lo + (hi - lo) / 2;
      if !Less(rs[mid].name, x) {
        forall k | mid <= k < |rs|
          ensures !Less(rs[k].name, x)
        {
          if k > mid && Less(rs[k].name, x) {
            LessTrans(rs[mid].name, rs[k].name, x);
          }
        }
        hi := mid;
      } else {
        forall k | 0 <= k <= mid
          ensures Less(rs[k].name, x)
        {
          if k < mid {
            LessTrans(rs[k].name, rs[mid].name, x);
          }
        }
        lo := mid + 1;
      }
    }
    return lo;
  }

  /** The text of repoAlreadyTrakedError for repository repo of owner. */
  function AlreadyTracked(owner: string, repo: string): string
  {
    "The repository " + owner + "/" + repo + " was already tracked"
  }

  class Owner {
    const name: string
    var repos: seq<Repository>
    var sloRules: seq<SloRule>

    /** The repositories are in name order, each once, and belong to this owner. */
    predicate Valid()
      reads this
    {
      SortedNames(repos) && forall i | 0 <= i < |repos| :: repos[i].ownerName == name
    }

    constructor (name0: string)
      ensures name == name0 && repos == [] && sloRules == [] && Valid()
    {
      name := name0;
      repos := [];
      sloRules := [];
    }

    /** The names tracked. */
    function Names(): seq<string>
      reads this
    {
      NameList(repos)
    }

    /**
     * trackRepo: a name already tracked is refused, as is one whose
     * existence check fails (existence carries that error); otherwise a
     * repository with no rules is inserted where its name belongs.
     */
    method TrackRepo(repoName: string, existence: Option<string>) returns (err: Option<string>)
      requires Valid()
      modifies this
      ensures Valid()
      ensures repoName in old(Names()) ==> err == Some(AlreadyTracked(name, repoName)) && repos == old(repos)
      ensures repoName !in old(Names()) && existence.Some? ==> err == existence && repos == old(repos)
      ensures repoName !in old(Names()) && existence.None? ==>
        (err.None?
         && multiset(Names()) == multiset(old(Names())) + multiset{repoName}
         && Repository(repoName, name, []) in repos
         && forall r | r in old(repos) :: r in repos)
      ensures sloRules == old(sloRules)
    {
      var idx := SearchName(repos, repoName);
      if idx < |repos| && repos[idx].name == repoName {
        assert Names()[idx] == repoName;
        return Some(AlreadyTracked(name, repoName));
      }
      AbsentWhenNotAt(repos, idx, repoName);
      if existence.Some? {
        return existence;
      }
      var add := Repository(repoName, name, []);
      ghost var before := repos;
      repos := repos[..idx] + [add] + repos[idx..];
      InsertKeepsOrder(before, idx, add);
      InsertedNames(before, idx, add);
      return None;
    }

    /**
     * Update: the owner's rules are looked up; an error other than a 404
     * is returned and nothing changes; otherwise the rules found (none for
     * a 404) replace the owner's, and every repository is updated with its
     * own lookup, whose errors are not returned.
     */
    method Update(own: Lookup, perRepo: string -> Lookup) returns (err: Option<string>)
      requires Valid()
      modifies this
      ensures Valid()
      ensures own.Failure? ==> err == Some(own.msg) && sloRules == old(sloRules) && repos == old(repos)
      ensures !own.Failure? ==>
        (err.None?
         && sloRules == (if own.Rules? then own.rules else [])
         && |repos| == |old(repos)|
         && forall i | 0 <= i < |repos| :: repos[i] == UpdateRepository(old(repos)[i], perRepo(old(repos)[i].name)))
    {
      if own.Failure? {
        return Some(own.msg);
      }
      sloRules := if own.Rules? then own.rules else [];
      var i := 0;
      ghost var before := repos;
      while i < |repos|
        invariant 0 <= i <= |repos| == |before|
        invariant forall k | 0 <= k < i :: repos[k] == UpdateRepository(before[k], perRepo(before[k].name))
        invariant forall k | i <= k < |repos| :: repos[k] == before[k]
        invariant sloRules == (if own.Rules? then own.rules else [])
      {
        repos := repos[i := UpdateRepository(repos[i], perRepo(repos[i].name))];
        i := i + 1;
      }
      assert forall k | 0 <= k < |repos| :: repos[k].name == before[k].name && repos[k].ownerName == before[k].ownerName;
      return None;
    }
  }

  /** When the search position does not hold x, x is not tracked. */
  lemma AbsentWhenNotAt(rs: seq<Repository>, idx: nat, x: string)
    requires SortedNames(rs) && idx <= |rs|
    requires forall k | 0 <= k < idx :: Less(rs[k].name, x)
    requires forall k | idx <= k < |rs| :: !Less(rs[k].name, x)
    requires !(idx < |rs| && rs[idx].name == x)
    ensures x !in NameList(rs)
  {
    forall k | 0 <= k < |rs|
      ensures rs[k].name != x
    {
      if k < idx {
        LessIrreflexive(x);
      }
    }
  }

  /** Inserting at the search position keeps the names strictly increasing. */
  lemma InsertKeepsOrder(rs: seq<Repository>, idx: nat, add: Repository)
    requires SortedNames(rs) && idx <= |rs|
    requires forall k | 0 <= k < idx :: Less(rs[k].name, add.name)
    requires forall k | idx <= k < |rs| :: !Less(rs[k].name, add.name)
    requires !(idx < |rs| && rs[idx].name == add.name)
    ensures SortedNames(rs[..idx] + [add] + rs[idx..])
  {
    var t := rs[..idx] + [add] + rs[idx..];
    forall i, j | 0 <= i < j < |t|
      ensures Less(t[i].name, t[j].name)
    {
      if j > idx {
        assert t[j] == rs[j - 1];
      }
      if i > idx {
        assert t[i] == rs[i - 1];
      }
      if i < idx && j > idx {
        assert t[i] == rs[i];
        LessTotal(rs[j - 1].name, add.name);
        if j - 1 > idx {
          LessTotal(rs[idx].name, add.name);
          LessTrans(add.name, rs[idx].name, rs[j - 1].name);
        }
        LessTrans(rs[i].name, add.name, rs[j - 1].name);
      } else if i == idx {
        LessTotal(rs[j - 1].name, add.name);
        if j - 1 > idx {
          LessTotal(rs[idx].name, add.name);
          LessTrans(add.name, rs[idx].name, rs[j - 1].name);
        }
      }
    }
  }

  lemma InsertedNames(rs: seq<Repository>, idx: nat, add: Repository)
    requires idx <= |rs|
    ensures multiset(NameList(rs[..idx] + [add] + rs[idx..])) == multiset(NameList(rs)) + multiset{add.name}
  {
    var a, b := NameList(rs[..idx]), NameList(rs[idx..]);
    NameListAppend(rs[..idx] + [add], rs[idx..]);
    NameListAppend(rs[..idx], [add]);
    assert NameList([add]) == [add.name];
    assert NameList(rs[..idx] + [add] + rs[idx..]) == a + [add.name] + b;
    assert rs == rs[..idx] + rs[idx..];
    NameListAppend(rs[..idx], rs[idx..]);
    assert NameList(rs) == a + b;
  }

  lemma NameListAppend(a: seq<Repository>, b: seq<Repository>)
    ensures NameList(a + b) == NameList(a) + NameList(b)
  {
    assert forall i | 0 <= i < |a + b| :: NameList(a + b)[i] == (NameList(a) + NameList(b))[i];
  }
}
