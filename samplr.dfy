// samplr/samplr.go: the Corpus of watched repositories. Walking the
// repositories with a callback (ForEachRepo, ForEachRepoF) and the guard of
// Initialize are modelled; a callback is a function from the repository to
// an optional error, and the update of a repository is recorded in a log
// field instead of cloning and fetching.
module Samplr {
  import opened Wrappers

  /** A watched repository, known by its identifier. */
  datatype WatchedRepository = WatchedRepository(id: string)

  /** The repositories that pass the filter, in their order. */
  function Filtered(repos: seq<WatchedRepository>, filter: WatchedRepository -> bool): (f: seq<WatchedRepository>)
    ensures |f| <= |repos|
  {
    if repos == [] then []
    else (if filter(repos[0]) then [repos[0]] else []) + Filtered(repos[1..], filter)
  }

  /** A repository is kept exactly when it is watched and passes the filter. */
  lemma {:induction false} FilteredMembers(repos: seq<WatchedRepository>, filter: WatchedRepository -> bool,
                                           r: WatchedRepository)
    ensures r in Filtered(repos, filter) <==> r in repos && filter(r)
  {
    if repos != [] {
      FilteredMembers(repos[1..], filter, r);
      assert r in repos <==> r == repos[0] || r in repos[1..];
    }
  }

  /** Index in s of the first call of fn that fails, or |s|. */
  function FirstError(s: seq<WatchedRepository>, fn: WatchedRepository -> Option<string>): (k: nat)
    ensures k <= |s|
    ensures forall i | 0 <= i < k :: fn(s[i]).None?
    ensures k < |s| ==> fn(s[k]).Some?
  {
    if s == [] || fn(s[0]).Some? then 0 else 1 + FirstError(s[1..], fn)
  }

  /** The repositories fn is called on: the filtered ones up to and including the first failure. */
  function Calls(repos: seq<WatchedRepository>, fn: WatchedRepository -> Option<string>,
                 filter: WatchedRepository -> bool): (c: seq<WatchedRepository>)
  {
    var f := Filtered(repos, filter);
    var k := FirstError(f, fn);
    if k == |f| then f else f[..k + 1]
  }

  /** The error ForEachRepoF returns: that of the first failing call on a filtered repository. */
  function Outcome(repos: seq<WatchedRepository>, fn: WatchedRepository -> Option<string>,
                   filter: WatchedRepository -> bool): (e: Option<string>)
  {
    var f := Filtered(repos, filter);
    var k := FirstError(f, fn);
    if k == |f| then None else fn(f[k])
  }

  lemma {:induction false} FirstErrorAt(s: seq<WatchedRepository>, fn: WatchedRepository -> Option<string>, i: nat)
    requires i <= |s|
    requires forall j | 0 <= j < i :: fn(s[j]).None?
    requires i < |s| ==> fn(s[i]).Some?
    ensures FirstError(s, fn) == i
  {
    if i > 0 {
      FirstErrorAt(s[1..], fn, i - 1);
    }
  }

  /** Filtering one more repository. */
  lemma {:induction false} FilteredSnoc(repos: seq<WatchedRepository>, r: WatchedRepository,
                                        filter: WatchedRepository -> bool)
    ensures Filtered(repos + [r], filter) == Filtered(repos, filter) + (if filter(r) then [r] else [])
  {
    if repos != [] {
      assert (repos + [r])[1..] == repos[1..] + [r];
      FilteredSnoc(repos[1..], r, filter);
    }
  }

  /** Filtering one more repository of a prefix. */
  lemma FilteredStep(repos: seq<WatchedRepository>, i: nat, filter: WatchedRepository -> bool)
    requires i < |repos|
    ensures Filtered(repos[..i + 1], filter) == Filtered(repos[..i], filter) + (if filter(repos[i]) then [repos[i]] else [])
  {
    assert repos[..i + 1] == repos[..i] + [repos[i]];
    FilteredSnoc(repos[..i], repos[i], filter);
  }

  /** The always-true filter keeps every repository. */
  lemma {:induction false} FilteredAll(repos: seq<WatchedRepository>)
    ensures Filtered(repos, r => true) == repos
  {
    if repos != [] {
      FilteredAll(repos[1..]);
    }
  }

  /**
   * The walk reports no error exactly when every filtered repository was
   * handed to fn, and then fn saw exactly those repositories, in order.
   */
  lemma ForEachComplete(repos: seq<WatchedRepository>, fn: WatchedRepository -> Option<string>,
                        filter: WatchedRepository -> bool)
    ensures Outcome(repos, fn, filter).None? <==> forall r | r in repos && filter(r) :: fn(r).None?
    ensures Outcome(repos, fn, filter).None? ==> Calls(repos, fn, filter) == Filtered(repos, filter)
    ensures Outcome(repos, fn, filter).Some? ==>
      var c := Calls(repos, fn, filter);
      c != [] && fn(c[|c| - 1]) == Outcome(repos, fn, filter)
      && forall i | 0 <= i < |c| - 1 :: fn(c[i]).None?
  {
    var f := Filtered(repos, filter);
    var k := FirstError(f, fn);
    if k < |f| {
      assert f[k] in f;
      FilteredMembers(repos, filter, f[k]);
    } else {
      forall r | r in repos && filter(r) ensures fn(r).None? {
        FilteredMembers(repos, filter, r);
        var i :| 0 <= i < |f| && f[i] == r;
      }
    }
  }

  class Corpus {
    var didInit: bool
    var watchedGitRepos: seq<WatchedRepository>
    /** The repositories whose Update has been called, in call order. */
    var updated: seq<WatchedRepository>

    constructor (repos: seq<WatchedRepository>)
      ensures !didInit && watchedGitRepos == repos && updated == []
    {
      didInit := false;
      watchedGitRepos := repos;
      updated := [];
    }

    /**
     * ForEachRepoF: call fn on each repository that passes the filter, in
     * order, and stop at the first error, which is returned.
     */
    method ForEachRepoF(fn: WatchedRepository -> Option<string>, filter: WatchedRepository -> bool)
      returns (err: Option<string>, ghost called: seq<WatchedRepository>)
      ensures err == Outcome(watchedGitRepos, fn, filter)
      ensures called == Calls(watchedGitRepos, fn, filter)
    {
      var i := 0;
      ghost var passed: seq<WatchedRepository> := [];
      called := [];
      while i < |watchedGitRepos|
        invariant 0 <= i <= |watchedGitRepos|
        invariant passed == Filtered(watchedGitRepos[..i], filter) && called == passed
        invariant forall j | 0 <= j < |passed| :: fn(passed[j]).None?
      {
        var repo := watchedGitRepos[i];
        FilteredStep(watchedGitRepos, i, filter);
        if filter(repo) {
          passed := passed + [repo];
          called := called + [repo];
          var e := fn(repo);
          if e.Some? {
            PrefixFilter(watchedGitRepos, i + 1, fn, filter, passed);
            return e, called;
          }
        }
        i := i + 1;
      }
      assert watchedGitRepos[..i] == watchedGitRepos;
      FirstErrorAt(passed, fn, |passed|);
      err := None;
    }

    /** ForEachRepo: ForEachRepoF with a filter that lets every repository through. */
    method ForEachRepo(fn: WatchedRepository -> Option<string>)
      returns (err: Option<string>, ghost called: seq<WatchedRepository>)
      ensures err == Outcome(watchedGitRepos, fn, r => true)
      ensures err.None? ==> called == watchedGitRepos
    {
      err, called := ForEachRepoF(fn, r => true);
      ForEachComplete(watchedGitRepos, fn, r => true);
      FilteredAll(watchedGitRepos);
    }

    /**
     * Initialize: a second call is an error. With a watched repository it
     * updates only the first one and returns at once, without setting
     * didInit; with none it sets didInit.
     */
    method Initialize() returns (err: Option<string>)
      modifies this
      ensures watchedGitRepos == old(watchedGitRepos)
      ensures old(didInit) ==> err.Some? && didInit && updated == old(updated)
      ensures !old(didInit) && watchedGitRepos != [] ==>
        err.None? && !didInit && updated == old(updated) + [watchedGitRepos[0]]
      ensures !old(didInit) && watchedGitRepos == [] ==> err.None? && didInit && updated == old(updated)
    {
      if didInit {
        return Some("multiple calls to Initialize");
      }
      if |watchedGitRepos| > 0 {
        updated := updated + [watchedGitRepos[0]];
        return None;
      }
      didInit := true;
      return None;
    }
  }

  /** The walk stopped at the first failure among the filtered repositories of a prefix. */
  lemma PrefixFilter(repos: seq<WatchedRepository>, n: nat, fn: WatchedRepository -> Option<string>,
                     filter: WatchedRepository -> bool, passed: seq<WatchedRepository>)
    requires 0 < n <= |repos| && passed == Filtered(repos[..n], filter) && passed != []
    requires forall j | 0 <= j < |passed| - 1 :: fn(passed[j]).None?
    requires fn(passed[|passed| - 1]).Some? && passed[|passed| - 1] == repos[n - 1]
    ensures Calls(repos, fn, filter) == passed
    ensures Outcome(repos, fn, filter) == fn(passed[|passed| - 1])
  {
    FilteredAppend(repos[..n], repos[n..], filter);
    assert repos[..n] + repos[n..] == repos;
    var f := Filtered(repos, filter);
    assert f[..|passed|] == passed;
    FirstErrorAt(f, fn, |passed| - 1);
  }

  lemma {:induction false} FilteredAppend(a: seq<WatchedRepository>, b: seq<WatchedRepository>,
                                          filter: WatchedRepository -> bool)
    ensures Filtered(a + b, filter) == Filtered(a, filter) + Filtered(b, filter)
  {
    if a == [] {
      assert a + b == b;
    } else {
      var head := if filter(a[0]) then [a[0]] else [];
      assert (a + b)[0] == a[0] && (a + b)[1..] == a[1..] + b;
      FilteredAppend(a[1..], b, filter);
      assert Filtered(a + b, filter) == head + (Filtered(a[1..], filter) + Filtered(b, filter));
      assert Filtered(a, filter) == head + Filtered(a[1..], filter);
    }
  }
}
