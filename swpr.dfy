// drghs-worker/maintner-swpr/main.go: the sweeper that flags as not
// existing ("tombstones") the issues maintner still holds but GitHub no
// longer lists. Fetching either list is I/O; they are parameters here.
module Sweeper {
  import opened Wrappers
  import opened Strs
  import opened Repos

  /** One side of `^([\w-]+)\/([\w-]+)$`: word characters and hyphens, at least one. */
  predicate NamePart(s: string)
  {
    |s| >= 1 && forall k | 0 <= k < |s| :: IsWordChar(s[k]) || s[k] == '-'
  }

  /**
   * repoToTrackedRepo: a name "owner/repo" matching the pattern becomes a
   * repository with that owner and name and every other field zero;
   * anything else becomes nil.
   */
  function RepoToTrackedRepo(name: string): (r: Option<TrackedRepository>)
    ensures r.Some? ==> (
      NamePart(r.value.owner) && NamePart(r.value.name)
      && name == r.value.owner + "/" + r.value.name
      && r.value == ZeroRepo.(owner := r.value.owner, name := r.value.name))
  {
    match RepoParts(name)
    case None => None
    case Some((owner, repo)) =>
      if NamePart(owner) && NamePart(repo) then Some(ZeroRepo.(owner := owner, name := repo)) else None
  }

  /** Every name the pattern matches is converted: its two sides are the owner and name. */
  lemma RepoToTrackedRepoComplete(owner: string, repo: string)
    requires NamePart(owner) && NamePart(repo)
    ensures RepoToTrackedRepo(owner + "/" + repo) == Some(ZeroRepo.(owner := owner, name := repo))
  {
    assert '/' !in owner by {
      forall k | 0 <= k < |owner| ensures owner[k] != '/' {
        assert IsWordChar(owner[k]) || owner[k] == '-';
      }
    }
    assert '/' !in repo by {
      forall k | 0 <= k < |repo| ensures repo[k] != '/' {
        assert IsWordChar(repo[k]) || repo[k] == '-';
      }
    }
    RepoPartsOf(owner, repo);
  }

  /** A name with a second slash, as in "owners/o/repos/r", is not converted. */
  lemma TwoSlashesRejected(a: string, b: string, c: string)
    requires '/' !in a
    ensures RepoToTrackedRepo(a + "/" + b + "/" + c) == None
  {
    var rest := b + "/" + c;
    assert a + "/" + b + "/" + c == a + ['/'] + rest;
    SplitAtSep(a, '/', rest);
    assert rest[|b|] == '/';
    SplitAtLeastTwo(rest, '/');
  }

  /** The maintner ids absent from the GitHub set, in maintner order. */
  function Absent(mtr: seq<int>, gh: set<int>): (r: seq<int>)
  {
    if mtr == [] then []
    else Absent(mtr[..|mtr| - 1], gh) + (if mtr[|mtr| - 1] in gh then [] else [mtr[|mtr| - 1]])
  }

  /** An id is tombstoned exactly when maintner has it and GitHub does not. */
  lemma {:induction false} AbsentMeans(mtr: seq<int>, gh: set<int>)
    ensures forall x :: x in Absent(mtr, gh) <==> x in mtr && x !in gh
  {
    if mtr != [] {
      var p := mtr[..|mtr| - 1];
      AbsentMeans(p, gh);
      assert mtr == p + [mtr[|mtr| - 1]];
    }
  }

  /** Ids keep their maintner order: the tombstones are a subsequence of maintner's list. */
  lemma {:induction false} AbsentIsSubsequence(mtr: seq<int>, gh: set<int>) returns (idx: seq<int>)
    ensures |idx| == |Absent(mtr, gh)|
    ensures forall k | 0 <= k < |idx| :: 0 <= idx[k] < |mtr| && mtr[idx[k]] == Absent(mtr, gh)[k]
    ensures forall k, l | 0 <= k < l < |idx| :: idx[k] < idx[l]
  {
    if mtr == [] {
      idx := [];
    } else {
      var p := mtr[..|mtr| - 1];
      idx := AbsentIsSubsequence(p, gh);
      assert forall k | 0 <= k < |idx| :: mtr[idx[k]] == p[idx[k]];
      if mtr[|mtr| - 1] !in gh {
        idx := idx + [|mtr| - 1];
      }
    }
  }

  /** Sweeping twice tombstones nothing more. */
  lemma {:induction false} AbsentIdempotent(mtr: seq<int>, gh: set<int>)
    ensures Absent(Absent(mtr, gh), gh) == Absent(mtr, gh)
  {
    if mtr != [] {
      var p := mtr[..|mtr| - 1];
      var x := mtr[|mtr| - 1];
      AbsentIdempotent(p, gh);
      if x !in gh {
        var a := Absent(p, gh) + [x];
        assert Absent(mtr, gh) == a;
        assert a[..|a| - 1] == Absent(p, gh) && a[|a| - 1] == x;
        assert Absent(a, gh) == Absent(Absent(p, gh), gh) + [x];
      } else {
        assert Absent(mtr, gh) == Absent(p, gh);
      }
    }
  }

  /**
   * The sweep of one repository: collect the GitHub issue numbers into a
   * set, collect in order the maintner ids not in it, and tombstone them
   * only when there is at least one.
   */
  method Sweep(ghIssues: seq<int>, mtrIssues: seq<int>) returns (tombstones: seq<int>, flag: bool)
    ensures tombstones == Absent(mtrIssues, set x | x in ghIssues)
    ensures flag <==> |tombstones| > 0
  {
    var byId: set<int> := {};
    for i := 0 to |ghIssues|
      invariant byId == set x | x in ghIssues[..i]
    {
      assert ghIssues[..i + 1] == ghIssues[..i] + [ghIssues[i]];
      byId := byId + {ghIssues[i]};
    }
    assert ghIssues[..|ghIssues|] == ghIssues;
    tombstones := [];
    for i := 0 to |mtrIssues|
      invariant tombstones == Absent(mtrIssues[..i], byId)
    {
      assert mtrIssues[..i + 1][..i] == mtrIssues[..i];
      if mtrIssues[i] !in byId {
        tombstones := tombstones + [mtrIssues[i]];
      }
    }
    assert mtrIssues[..|mtrIssues|] == mtrIssues;
    flag := |tombstones| > 0;
  }

  /** When GitHub lists every issue maintner has, nothing is flagged. */
  lemma {:induction false} InSyncNothingFlagged(gh: set<int>, mtrIssues: seq<int>)
    requires forall x | x in mtrIssues :: x in gh
    ensures Absent(mtrIssues, gh) == []
  {
    if mtrIssues != [] {
      var p, last := mtrIssues[..|mtrIssues| - 1], mtrIssues[|mtrIssues| - 1];
      assert last in mtrIssues;
      assert last in gh;
      assert forall x | x in p :: x in mtrIssues;
      InSyncNothingFlagged(gh, p);
    }
  }
}
