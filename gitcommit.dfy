// samplr/git-go/commit.go: commits, and the iterator over a commit's files.
// The commit iterator is GitIter.SliceIter<Commit>.
module GitCommit {
  import opened Wrappers
  import GitHash
  import GitFile
  import GitIter

  /** Who made a commit and when (nanoseconds since the Unix epoch). */
  datatype Signature = Signature(name: string, email: string, when: int)

  datatype Commit = Commit(hash: GitHash.Hash, author: Signature, committer: Signature,
                           message: string, files: seq<GitFile.File>)

  /** Commit.Files: a fresh iterator at position 0 over the commit's files, no error. */
  method Files(c: Commit) returns (it: GitIter.SliceIter<GitFile.File>, err: Option<GitIter.IterError>)
    ensures fresh(it) && it.pos == 0 && it.series == c.files && it.Remaining() == c.files
    ensures err.None?
  {
    it := new GitIter.SliceIter(c.files);
    err := None;
  }
}
