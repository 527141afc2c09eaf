// samplr/git-go/reference.go: references and their names. The reference
// iterator is GitIter.SliceIter<Reference>.
module GitReference {
  import opened Strs
  import GitHash

  datatype ReferenceType = InvalidReference | HashReference | SymbolicReference

  /** A reference: its type, its name, the hash it points at and its target. */
  datatype Reference = Reference(t: ReferenceType, n: string, h: GitHash.Hash, target: string)
  {
    /** Reference.Hash: the stored hash. */
    function Hash(): GitHash.Hash { h }

    /** Reference.Name: the stored name. */
    function Name(): string { n }
  }

  const BranchPrefix := "refs/heads/"

  /** FullyQualifiedReferenceName: the branch name under refs/heads/. */
  function FullyQualifiedReferenceName(n: string): (r: string)
    ensures HasPrefix(r, BranchPrefix) && r[|BranchPrefix|..] == n
  {
    BranchPrefix + n
  }

  /** Distinct branch names give distinct reference names. */
  lemma FullyQualifiedInjective(a: string, b: string)
    requires FullyQualifiedReferenceName(a) == FullyQualifiedReferenceName(b)
    ensures a == b
  {
    assert a == FullyQualifiedReferenceName(a)[|BranchPrefix|..];
  }
}
