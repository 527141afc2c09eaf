// samplr/git-go/file.go: a file of a commit, and the iterator over a slice
// of them (the iterator itself is GitIter.SliceIter).
module GitFile {
  import opened Wrappers

  /** A git file: its name, its size in bytes and its contents. */
  datatype File = File(name: string, size: int, contents: string)

  /** File.Contents: the stored contents, and never an error. */
  function Contents(f: File): (r: Result<string>)
    ensures r.Ok? && r.value == f.contents
  {
    Ok(f.contents)
  }
}
