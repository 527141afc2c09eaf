// drghs-worker/pkg/utils: whether a pull request is approved by its
// reviewers (status_utils.go) and the decoding of a JSON boolean that may
// be null (serialization_utils.go).
module Utils {
  import opened Wrappers
  import opened Strs

  /**
   * A review event of a pull request: who reviewed and the state they left.
   * A reviewer is identified by login.
   */
  datatype Review = Review(actor: string, state: string)

  const Approved := "APPROVED"

  /** Review i is the last one its reviewer left. */
  predicate LastOfActor(rs: seq<Review>, i: int)
    requires 0 <= i < |rs|
  {
    forall j | i < j < |rs| :: rs[j].actor != rs[i].actor
  }

  /**
   * The meaning of approval: there is a review, and every reviewer's last
   * review (in chronological order) is exactly "APPROVED".
   */
  predicate ApprovedByAll(rs: seq<Review>)
  {
    |rs| > 0 && forall i | 0 <= i < |rs| && LastOfActor(rs, i) :: rs[i].state == Approved
  }

  /** The reviewers map after visiting the reviews in order: each reviewer's last verdict. */
  function Verdicts(rs: seq<Review>): map<string, bool>
  {
    if rs == [] then map[]
    else Verdicts(rs[..|rs| - 1])[rs[|rs| - 1].actor := rs[|rs| - 1].state == Approved]
  }

  /** The map holds, under each reviewer, the verdict of that reviewer's last review. */
  lemma {:induction false} VerdictOfLast(rs: seq<Review>, i: int)
    requires 0 <= i < |rs| && LastOfActor(rs, i)
    ensures rs[i].actor in Verdicts(rs) && Verdicts(rs)[rs[i].actor] == (rs[i].state == Approved)
  {
    if i < |rs| - 1 {
      var p := rs[..|rs| - 1];
      assert LastOfActor(p, i) by {
        forall j | i < j < |p| ensures p[j].actor != p[i].actor {
          assert rs[j].actor != rs[i].actor;
        }
      }
      VerdictOfLast(p, i);
      assert rs[|rs| - 1].actor != rs[i].actor;
    }
  }

  /** Every reviewer in the map left a review, and one of them was the last. */
  lemma {:induction false} VerdictHasLast(rs: seq<Review>, a: string) returns (i: int)
    requires a in Verdicts(rs)
    ensures 0 <= i < |rs| && LastOfActor(rs, i) && rs[i].actor == a
  {
    var n := |rs| - 1;
    if rs[n].actor == a {
      i := n;
    } else {
      var p := rs[..n];
      i := VerdictHasLast(p, a);
      assert p[i] == rs[i];
      forall j | i < j < |rs| ensures rs[j].actor != rs[i].actor {
        if j < n {
          assert p[j] == rs[j];
        }
      }
    }
  }

  /** Every verdict in the map is true exactly when every reviewer's last review approves. */
  lemma VerdictsMean(rs: seq<Review>)
    ensures |Verdicts(rs)| > 0 <==> |rs| > 0
    ensures (|rs| > 0 && forall a | a in Verdicts(rs) :: Verdicts(rs)[a]) <==> ApprovedByAll(rs)
  {
    if |rs| > 0 {
      var x := rs[|rs| - 1];
      assert x.actor in Verdicts(rs);
    }
    if |rs| > 0 && forall a | a in Verdicts(rs) :: Verdicts(rs)[a] {
      forall i | 0 <= i < |rs| && LastOfActor(rs, i)
        ensures rs[i].state == Approved
      {
        VerdictOfLast(rs, i);
      }
    }
    if ApprovedByAll(rs) {
      forall a | a in Verdicts(rs)
        ensures Verdicts(rs)[a]
      {
        var i := VerdictHasLast(rs, a);
        VerdictOfLast(rs, i);
      }
    }
  }

  /**
   * IsApproved: false for a missing issue; otherwise fill the reviewers map
   * in review order, so that a later review replaces an earlier one, and
   * approve when the map is not empty and holds only approvals.
   */
  method IsApproved(issue: Option<seq<Review>>) returns (b: bool)
    ensures b <==> issue.Some? && ApprovedByAll(issue.value)
  {
    if issue.None? {
      return false;
    }
    var rs := issue.value;
    var reviewers: map<string, bool> := map[];
    for i := 0 to |rs|
      invariant reviewers == Verdicts(rs[..i])
    {
      assert rs[..i + 1][..i] == rs[..i];
      reviewers := reviewers[rs[i].actor := rs[i].state == Approved];
    }
    assert rs[..|rs|] == rs;
    VerdictsMean(rs);
    if |reviewers| == 0 {
      return false;
    }
    var left := reviewers.Keys;
    while left != {}
      invariant left <= reviewers.Keys
      invariant forall a | a in reviewers.Keys - left :: reviewers[a]
      decreases left
    {
      var a :| a in left;
      if !reviewers[a] {
        return false;
      }
      left := left - {a};
    }
    return true;
  }

  /** A later review by the same reviewer overrides an earlier one. */
  lemma LaterReviewOverrides(rs: seq<Review>, actor: string)
    requires ApprovedByAll(rs)
    ensures !ApprovedByAll(rs + [Review(actor, "CHANGES_REQUESTED")])
    ensures ApprovedByAll(rs + [Review(actor, Approved)])
  {
    var ext := rs + [Review(actor, "CHANGES_REQUESTED")];
    assert LastOfActor(ext, |rs|);
    var ok := rs + [Review(actor, Approved)];
    forall i | 0 <= i < |ok| && LastOfActor(ok, i)
      ensures ok[i].state == Approved
    {
      if i < |rs| {
        assert ok[i] == rs[i];
        forall j | i < j < |rs| ensures rs[j].actor != rs[i].actor {
          assert ok[j] == rs[j];
        }
      }
    }
  }

  /**
   * UnmarshalBool: nothing for an empty message or for null in any case;
   * otherwise true exactly when the text is true in any case.
   */
  function UnmarshalBool(bytes: string): (r: Option<bool>)
    ensures r.None? <==> |bytes| == 0 || ToLower(bytes) == "null"
    ensures r == Some(true) <==> ToLower(bytes) == "true"
  {
    if |bytes| > 0 then
      var s := ToLower(bytes);
      if s != "null" then Some(s == "true") else None
    else None
  }

  /** The JSON text of an optional boolean: null for nil. */
  function MarshalBool(b: Option<bool>): (r: string)
    ensures |r| > 0
  {
    match b
    case None => "null"
    case Some(true) => "true"
    case Some(false) => "false"
  }

  /** Decoding undoes encoding, nil included. */
  lemma UnmarshalMarshal(b: Option<bool>)
    ensures UnmarshalBool(MarshalBool(b)) == b
  {
    var s := MarshalBool(b);
    assert ToLower(s) == s;
  }

  /** Case does not matter to the decoding. */
  lemma UnmarshalIgnoresCase(bytes: string)
    ensures UnmarshalBool(ToUpper(bytes)) == UnmarshalBool(bytes)
  {
    LowerOfUpper(bytes);
  }
}
