// drghs-worker/pkg/sloutils/slo_utils.go: whether an SLO applies to an
// issue, and how long the issue stays compliant with it.
//
// Times are integers in nanoseconds and 0 stands for Go's zero Time; the
// current time is a parameter. An issue carries the logins of its
// assignees and of the authors of its comments, in the order maintner
// visits them.
module SloUtils {
  import opened Wrappers

  /** The parts of a maintner issue that the SLO logic reads. */
  datatype Issue = Issue(
    notExist: bool, pullRequest: bool, closed: bool,
    labels: seq<string>, created: int, assignees: seq<string>, commenters: seq<string>)

  /** An SLO rule as the API carries it; durations in nanoseconds. */
  datatype Slo = Slo(
    githubLabels: seq<string>, excludedGithubLabels: seq<string>,
    appliesToIssues: bool, appliesToPrs: bool,
    responseTime: int, resolutionTime: int, requiresAssignee: bool, responders: seq<string>)

  /** Every required label is on the issue (the loop returning false at the first one missing). */
  function HasAll(required: seq<string>, have: seq<string>): (r: bool)
    ensures r <==> forall l | l in required :: l in have
  {
    if required == [] then true
    else if required[0] !in have then false
    else HasAll(required[1..], have)
  }

  /** No excluded label is on the issue. */
  function HasNone(excluded: seq<string>, have: seq<string>): (r: bool)
    ensures r <==> forall l | l in excluded :: l !in have
  {
    if excluded == [] then true
    else if excluded[0] in have then false
    else HasNone(excluded[1..], have)
  }

  /**
   * DoesSloApply: an existing issue, of a kind the SLO covers (pull
   * requests or issues), carrying every required label and no excluded one.
   */
  function DoesSloApply(issue: Option<Issue>, slo: Option<Slo>): (r: bool)
    ensures r <==>
      issue.Some? && slo.Some? && !issue.value.notExist
      && (if issue.value.pullRequest then slo.value.appliesToPrs else slo.value.appliesToIssues)
      && (forall l | l in slo.value.githubLabels :: l in issue.value.labels)
      && (forall l | l in slo.value.excludedGithubLabels :: l !in issue.value.labels)
  {
    if issue.None? || slo.None? then false
    else if issue.value.notExist then false
    else if (issue.value.pullRequest && !slo.value.appliesToPrs) || (!issue.value.pullRequest && !slo.value.appliesToIssues) then false
    else HasAll(slo.value.githubLabels, issue.value.labels) && HasNone(slo.value.excludedGithubLabels, issue.value.labels)
  }

  /** Only which labels an issue carries counts, not their order or repeats. */
  lemma LabelOrderIrrelevant(i: Issue, labels: seq<string>, slo: Slo)
    requires (set l | l in labels) == (set l | l in i.labels)
    ensures DoesSloApply(Some(i.(labels := labels)), Some(slo)) == DoesSloApply(Some(i), Some(slo))
  {
    forall l
      ensures l in labels <==> l in i.labels
    {
      var a, b := set x | x in labels, set x | x in i.labels;
      assert l in labels <==> l in a;
      assert l in i.labels <==> l in b;
      assert a == b;
    }
  }

  /** getValidResponders: the responders of the SLO as a set. */
  function ValidResponders(slo: Slo): (r: set<string>)
    ensures forall x :: x in r <==> x in slo.responders
  {
    set x | x in slo.responders
  }

  /** earliest: the earlier of two times that are not zero, zero only when both are. */
  function Earliest(t1: int, t2: int): (r: int)
    ensures r == t1 || r == t2
    ensures r == 0 <==> t1 == 0 && t2 == 0
    ensures t1 != 0 ==> r <= t1
    ensures t2 != 0 ==> r <= t2
  {
    if t1 == 0 || (t2 != 0 && t1 > t2) then t2 else t1
  }

  /** Whether one of the logins is a responder (the loops stop at the first). */
  function AnyResponder(logins: seq<string>, responders: set<string>): (r: bool)
    ensures r <==> exists x | x in logins :: x in responders
  {
    if logins == [] then false
    else if logins[0] in responders then true
    else AnyResponder(logins[1..], responders)
  }

  /**
   * The time until which the issue is in SLO (0: no deadline): the
   * creation time when an assignee is required and none is a responder,
   * then the resolution deadline, then the response deadline, which counts
   * once passed only if no responder has commented.
   */
  function Deadline(i: Issue, slo: Slo, now: int): int
  {
    var responders := ValidResponders(slo);
    var t0 := if slo.requiresAssignee && !AnyResponder(i.assignees, responders) then i.created else 0;
    var t1 := if slo.resolutionTime > 0 then Earliest(t0, i.created + slo.resolutionTime) else t0;
    if slo.responseTime > 0 then
      var replyBy := i.created + slo.responseTime;
      if replyBy > now then Earliest(t1, replyBy)
      else if t1 == 0 || t1 > replyBy then
        (if AnyResponder(i.commenters, responders) then t1 else replyBy)
      else t1
    else t1
  }

  /** Whole seconds in a duration, truncated toward zero as Go's int64 conversion does. */
  function Seconds(d: int): (s: int)
    ensures d >= 0 ==> s * 1_000_000_000 <= d < (s + 1) * 1_000_000_000
    ensures d < 0 ==> (s - 1) * 1_000_000_000 < d <= s * 1_000_000_000
  {
    if d >= 0 then d / 1_000_000_000 else -((-d) / 1_000_000_000)
  }

  /**
   * CompliantUntil: 0 for a missing, closed or non-existent issue and when
   * no deadline applies; otherwise the whole seconds from now to the
   * deadline, negative once it has passed.
   */
  function CompliantUntil(issue: Option<Issue>, slo: Option<Slo>, now: int): (r: int)
    ensures issue.None? || slo.None? || issue.value.closed || issue.value.notExist ==> r == 0
    ensures issue.Some? && slo.Some? && !issue.value.closed && !issue.value.notExist ==>
      r == (if Deadline(issue.value, slo.value, now) == 0 then 0 else Seconds(Deadline(issue.value, slo.value, now) - now))
  {
    if issue.None? || slo.None? || issue.value.closed || issue.value.notExist then 0
    else
      var d := Deadline(issue.value, slo.value, now);
      if d == 0 then 0 else Seconds(d - now)
  }

  /** The smallest of the times that are not zero, or zero when all are. */
  function MinNonZero(ts: seq<int>): (r: int)
    ensures r == 0 <==> forall k | 0 <= k < |ts| :: ts[k] == 0
    ensures r != 0 ==> r in ts && forall k | 0 <= k < |ts| && ts[k] != 0 :: r <= ts[k]
  {
    if ts == [] then 0 else Earliest(ts[0], MinNonZero(ts[1..]))
  }

  /** Whether the response deadline counts: it is still ahead, or nobody responsible has answered. */
  predicate ResponseDue(i: Issue, slo: Slo, now: int)
  {
    i.created + slo.responseTime > now || !AnyResponder(i.commenters, ValidResponders(slo))
  }

  /** The deadlines that apply, 0 standing for one that does not. */
  function Limits(i: Issue, slo: Slo, now: int): seq<int>
  {
    [if slo.requiresAssignee && !AnyResponder(i.assignees, ValidResponders(slo)) then i.created else 0,
     if slo.resolutionTime > 0 then i.created + slo.resolutionTime else 0,
     if slo.responseTime > 0 && ResponseDue(i, slo, now) then i.created + slo.responseTime else 0]
  }

  /**
   * For an issue created after the zero time, the deadline is the
   * earliest of the limits that apply: the creation time when no assignee
   * is a responder (if one is required), the resolution limit, and the
   * response limit unless it has passed with a responder's comment.
   */
  lemma DeadlineIsEarliestLimit(i: Issue, slo: Slo, now: int)
    requires i.created > 0
    ensures Deadline(i, slo, now) == MinNonZero(Limits(i, slo, now))
  {
    var ls := Limits(i, slo, now);
    assert ls[1..][1..][1..] == [];
    assert MinNonZero(ls) == Earliest(ls[0], Earliest(ls[1], Earliest(ls[2], 0)));
  }

  /**
   * An assignee is required and none is a responder: the issue was out of
   * SLO from its creation, so it is overdue by the time since then.
   */
  lemma UnassignedDueAtCreation(i: Issue, slo: Slo, now: int)
    requires i.created > 0 && slo.requiresAssignee && !AnyResponder(i.assignees, ValidResponders(slo))
    requires slo.resolutionTime >= 0 && slo.responseTime >= 0
    ensures Deadline(i, slo, now) == i.created
    ensures !i.closed && !i.notExist ==> CompliantUntil(Some(i), Some(slo), now) == Seconds(i.created - now)
  {
  }

  /** An SLO without limits never makes an open issue overdue. */
  lemma NoLimitsNoDeadline(i: Issue, slo: Slo, now: int)
    requires !slo.requiresAssignee && slo.resolutionTime <= 0 && slo.responseTime <= 0
    ensures CompliantUntil(Some(i), Some(slo), now) == 0
  {
  }
}
