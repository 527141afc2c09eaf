// samplr/git-go/object_type.go: the name table of git object types.
module GitObjectType {
  import GitHash

  /** ObjectType is a Go int8. */
  newtype ObjectType = x: int | -128 <= x < 128

  /** The values with their own name: 1-4, 6, 7 and AnyObject (-127). */
  predicate IsNamed(t: ObjectType) {
    t == 1 || t == 2 || t == 3 || t == 4 || t == 6 || t == 7 || t == -127
  }

  /** ObjectType.String: the object's name, "unknown" for 0, 5 and every other value. */
  function String(t: ObjectType): (s: string)
    ensures s == "unknown" <==> !IsNamed(t)
    ensures |s| > 0 && forall i :: 0 <= i < |s| ==> s[i] as int < 128
  {
    match t
    case 1 => "commit"
    case 2 => "tree"
    case 3 => "blob"
    case 4 => "tag"
    case 6 => "ofs-delta"
    case 7 => "ref-delta"
    case -127 => "any"
    case _ => "unknown"
  }

  /** Named types have pairwise different names. */
  lemma StringInjectiveOnNamed(t: ObjectType, u: ObjectType)
    requires IsNamed(t) && IsNamed(u) && String(t) == String(u)
    ensures t == u
  {
  }

  /** ObjectType.Bytes: the bytes of String (all ASCII, one byte per character). */
  function Bytes(t: ObjectType): (b: seq<GitHash.uint8>)
    ensures |b| == |String(t)|
    ensures forall i :: 0 <= i < |b| ==> b[i] == String(t)[i] as int
  {
    var s := String(t);
    seq(|s|, i requires 0 <= i < |s| => s[i] as int as GitHash.uint8)
  }
}
