// repos/repos.go and repos/repos_bucket.go: the repositories a service
// tracks, read from a JSON file in a storage bucket and kept in memory.
//
// Fetching and decoding the file is I/O: UpdateTrackedRepos receives its
// outcome as a parameter, either the decoded entries of the "repos" key or
// the error. The read/write mutex is left out.
module Repos {
  import opened Wrappers
  import opened Strs

  /**
   * A tracked repository. The Go struct in repos.go has no DefaultBranch,
   * yet repos_bucket.go sets one; the model carries it.
   */
  datatype TrackedRepository = TrackedRepository(
    owner: string, name: string, isTrackingIssues: bool, isTrackingSnippets: bool, defaultBranch: string)

  /** The zero value of the struct. */
  const ZeroRepo := TrackedRepository("", "", false, false, "")

  /** String: "owner/name". */
  function RepoString(t: TrackedRepository): (r: string)
    ensures |r| == |t.owner| + 1 + |t.name| && r[|t.owner|] == '/'
  {
    t.owner + "/" + t.name
  }

  /**
   * The owner and name of an "owner/name" entry: present exactly when
   * splitting on "/" gives two parts.
   */
  function RepoParts(s: string): (r: Option<(string, string)>)
    ensures r.Some? ==> '/' !in r.value.0 && '/' !in r.value.1 && s == r.value.0 + "/" + r.value.1
  {
    var parts := Split(s, '/');
    if |parts| != 2 then None
    else
      JoinSplit(s, '/');
      assert Join(parts, "/") == parts[0] + "/" + parts[1];
      Some((parts[0], parts[1]))
  }

  /** Every owner and name without a slash is recovered from "owner/name". */
  lemma RepoPartsOf(owner: string, name: string)
    requires '/' !in owner && '/' !in name
    ensures RepoParts(owner + "/" + name) == Some((owner, name))
  {
    SplitJoin([owner, name], '/');
    assert Join([owner, name], "/") == owner + "/" + name;
  }

  /** An entry of the bucket's file. */
  datatype BucketEntry = BucketEntry(repo: string, defaultBranch: string, isTrackingIssues: bool, isTrackingSnippets: bool)

  /** The repository an entry stands for; the zero value when it is not "a/b". */
  function FromBucketEntry(e: BucketEntry): (t: TrackedRepository)
  {
    match RepoParts(e.repo)
    case None => ZeroRepo
    case Some((owner, name)) => TrackedRepository(owner, name, e.isTrackingIssues, e.isTrackingSnippets, e.defaultBranch)
  }

  /** A well-formed entry becomes its repository with every field copied, and prints back as its text. */
  lemma BucketEntryRoundTrip(e: BucketEntry)
    requires RepoParts(e.repo).Some?
    ensures RepoString(FromBucketEntry(e)) == e.repo
    ensures FromBucketEntry(e).isTrackingIssues == e.isTrackingIssues
    ensures FromBucketEntry(e).isTrackingSnippets == e.isTrackingSnippets
    ensures FromBucketEntry(e).defaultBranch == e.defaultBranch
  {
  }

  /** A repository written out as an entry is read back unchanged. */
  lemma BucketRepoRoundTrip(t: TrackedRepository)
    requires '/' !in t.owner && '/' !in t.name
    ensures FromBucketEntry(BucketEntry(RepoString(t), t.defaultBranch, t.isTrackingIssues, t.isTrackingSnippets)) == t
  {
    RepoPartsOf(t.owner, t.name);
  }

  /** A malformed entry leaves the zero value in its slot. */
  lemma MalformedBucketEntry(e: BucketEntry)
    requires |Split(e.repo, '/')| != 2
    ensures FromBucketEntry(e) == ZeroRepo
  {
  }

  /**
   * getRepos, after decoding: a slice as long as the entries, slot i
   * holding entry i's repository, or the zero value when it is malformed.
   */
  method GetBucketRepos(entries: seq<BucketEntry>) returns (reps: seq<TrackedRepository>)
    ensures |reps| == |entries|
    ensures forall i | 0 <= i < |entries| :: reps[i] == FromBucketEntry(entries[i])
  {
    var slots := new TrackedRepository[|entries|](_ => ZeroRepo);
    for i := 0 to |entries|
      invariant forall k | 0 <= k < i :: slots[k] == FromBucketEntry(entries[k])
      invariant forall k | i <= k < slots.Length :: slots[k] == ZeroRepo
    {
      var parts := Split(entries[i].repo, '/');
      if |parts| != 2 {
        continue;
      }
      slots[i] := TrackedRepository(parts[0], parts[1], entries[i].isTrackingIssues,
                                    entries[i].isTrackingSnippets, entries[i].defaultBranch);
    }
    reps := slots[..];
  }

  /** The repository list backed by a file in a bucket. */
  class BucketRepoList {
    const bucketName: string
    const reposFileName: string
    var reposList: seq<TrackedRepository>

    /** NewBucketRepo: an empty list. */
    constructor (bucketName: string, fileName: string)
      ensures this.bucketName == bucketName && reposFileName == fileName && reposList == []
    {
      this.bucketName := bucketName;
      reposFileName := fileName;
      reposList := [];
    }

    /**
     * UpdateTrackedRepos: a failed fetch returns its error and keeps the
     * list; otherwise the list is replaced by the converted entries, and
     * the result says whether it differs from the one it replaced.
     */
    method UpdateTrackedRepos(fetched: Result<seq<BucketEntry>>) returns (changed: bool, err: Option<string>)
      modifies this
      ensures fetched.Err? ==> !changed && err == Some(fetched.msg) && reposList == old(reposList)
      ensures fetched.Ok? ==> (
        err.None?
        && |reposList| == |fetched.value|
        && (forall i | 0 <= i < |fetched.value| :: reposList[i] == FromBucketEntry(fetched.value[i]))
        && (changed <==> reposList != old(reposList)))
    {
      if fetched.Err? {
        return false, Some(fetched.msg);
      }
      var newRepos := GetBucketRepos(fetched.value);
      if newRepos == reposList {
        return false, None;
      }
      reposList := newRepos;
      return true, None;
    }

    /** GetTrackedRepos: the current list. */
    function GetTrackedRepos(): (r: seq<TrackedRepository>)
      reads this
      ensures r == reposList
    {
      reposList
    }
  }
}
