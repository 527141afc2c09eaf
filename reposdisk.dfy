// leif/repos_disk.go: the tracked repositories read from a JSON file on
// local disk. Reading and decoding the file is I/O: UpdateTrackedRepos
// receives its outcome as a parameter. The read/write mutex is left out.
module LeifRepos {
  import opened Wrappers
  import opened Strs
  import opened Repos

  /** An entry of the file; unlike the bucket's, it names no default branch. */
  datatype DiskEntry = DiskEntry(repo: string, isTrackingIssues: bool, isTrackingSnippets: bool)

  /** The repository an entry stands for; the zero value when it is not "a/b". */
  function FromDiskEntry(e: DiskEntry): (t: TrackedRepository)
  {
    match RepoParts(e.repo)
    case None => ZeroRepo
    case Some((owner, name)) => TrackedRepository(owner, name, e.isTrackingIssues, e.isTrackingSnippets, "")
  }

  /** A repository written out as an entry is read back, its default branch left empty. */
  lemma DiskRepoRoundTrip(t: TrackedRepository)
    requires '/' !in t.owner && '/' !in t.name
    ensures FromDiskEntry(DiskEntry(RepoString(t), t.isTrackingIssues, t.isTrackingSnippets)) == t.(defaultBranch := "")
  {
    RepoPartsOf(t.owner, t.name);
  }

  /** A disk entry reads as the bucket entry with an empty default branch. */
  lemma DiskAgreesWithBucket(e: DiskEntry)
    ensures FromDiskEntry(e) == FromBucketEntry(BucketEntry(e.repo, "", e.isTrackingIssues, e.isTrackingSnippets))
  {
  }

  /**
   * getRepos, after decoding: a slice as long as the entries, slot i
   * holding entry i's repository, or the zero value when it is malformed.
   */
  method GetDiskRepos(entries: seq<DiskEntry>) returns (reps: seq<TrackedRepository>)
    ensures |reps| == |entries|
    ensures forall i | 0 <= i < |entries| :: reps[i] == FromDiskEntry(entries[i])
  {
    var converted := new TrackedRepository[|entries|](_ => ZeroRepo);
    for i := 0 to |entries|
      invariant forall k | 0 <= k < i :: converted[k] == FromDiskEntry(entries[k])
      invariant forall k | i <= k < converted.Length :: converted[k] == ZeroRepo
    {
      var repoPath := Split(entries[i].repo, '/');
      if |repoPath| != 2 {
        continue;
      }
      converted[i] := TrackedRepository(repoPath[0], repoPath[1], entries[i].isTrackingIssues,
                                        entries[i].isTrackingSnippets, "");
    }
    reps := converted[..];
  }

  /** The repository list backed by a file on disk. */
  class DiskRepoList {
    const fileName: string
    var reposList: seq<TrackedRepository>

    /** NewDiskRepo: an empty list. */
    constructor (fileName: string)
      ensures this.fileName == fileName && reposList == []
    {
      this.fileName := fileName;
      reposList := [];
    }

    /**
     * UpdateTrackedRepos: a failed read returns its error and keeps the
     * list; otherwise the list is replaced by the converted entries, and
     * the result says whether it differs from the one it replaced.
     */
    method UpdateTrackedRepos(read: Result<seq<DiskEntry>>) returns (changed: bool, err: Option<string>)
      modifies this
      ensures read.Err? ==> !changed && err == Some(read.msg) && reposList == old(reposList)
      ensures read.Ok? ==> (
        err.None?
        && |reposList| == |read.value|
        && (forall i | 0 <= i < |read.value| :: reposList[i] == FromDiskEntry(read.value[i]))
        && (changed <==> reposList != old(reposList)))
    {
      if read.Err? {
        return false, Some(read.msg);
      }
      var newRepos := GetDiskRepos(read.value);
      if newRepos == reposList {
        return false, None;
      }
      reposList := newRepos;
      return true, None;
    }

    /** GetTrackedRepos: the current list. */
    function GetTrackedRepos(): (r: seq<TrackedRepository>)
      reads this
      ensures r == reposList
    {
      reposList
    }
  }
}
