// drghs-worker/maintnerd/api/v1beta1/common.go, issue_service.go and
// drghs-worker/maintnerd/api/filters/filters.go: turning a maintner issue
// into the API's issue message, the classification of an issue by its
// labels, the SLO budget, the repository counts, issue names and the
// list filters.
//
// The message is a value with the fields this logic fills; timestamps,
// users, comments, reviews and the approval flag of the message are not
// part of this model (approval is Utils.IsApproved).
module Maintnerd {
  import opened Wrappers
  import opened Strs
  import opened SloUtils
  import PageUtils

  const MaxInt64: int := 0x7fff_ffff_ffff_ffff

  // ---------------------------------------------------------------------
  // contains / matchesAny

  /** contains: whether e is one of the strings in s, compared exactly. */
  function ContainsString(s: seq<string>, e: string): (r: bool)
    ensures r <==> e in s
  {
    if s == [] then false
    else if s[0] == e then true
    else ContainsString(s[1..], e)
  }

  /** matchesAny: the same search, the item first. */
  function MatchesAny(item: string, values: seq<string>): (r: bool)
    ensures r <==> exists k | 0 <= k < |values| :: values[k] == item
  {
    ContainsString(values, item)
  }

  /** Whether a field mask lets a field be written: no paths at all, or paths naming it. */
  predicate Writes(paths: Option<seq<string>>, field: string)
  {
    paths.None? || ContainsString(paths.value, field)
  }

  // ---------------------------------------------------------------------
  // Label order.

  /** The order sort.Slice is given: by lower-cased name. */
  predicate LabelBefore(a: string, b: string) { Less(ToLower(a), ToLower(b)) }

  predicate SortedLabels(s: seq<string>)
  {
    forall i, j | 0 <= i < j < |s| :: !LabelBefore(s[j], s[i])
  }

  /** x inserted into sorted labels in front of the first one not before it. */
  function InsertLabel(x: string, s: seq<string>): (r: seq<string>)
    requires SortedLabels(s)
    ensures SortedLabels(r) && multiset(r) == multiset(s) + multiset{x}
  {
    if s == [] then [x]
    else if !LabelBefore(s[0], x) then
      forall j | 0 <= j < |s|
        ensures !LabelBefore(s[j], x)
      {
        if j > 0 && LabelBefore(s[j], x) {
          LessTotal(ToLower(s[0]), ToLower(s[j]));
          if ToLower(s[0]) != ToLower(s[j]) {
            LessTrans(ToLower(s[0]), ToLower(s[j]), ToLower(x));
          }
        }
      }
      [x] + s
    else
      var rest := InsertLabel(x, s[1..]);
      assert s == [s[0]] + s[1..];
      LessTotal(ToLower(s[0]), ToLower(x));
      var r := [s[0]] + rest;
      forall i, j | 0 <= i < j < |r|
        ensures !LabelBefore(r[j], r[i])
      {
        if i == 0 {
          assert r[j] in multiset(rest);
          assert r[j] == x || r[j] in s[1..];
          if r[j] != x {
            var k :| 0 <= k < |s[1..]| && s[1..][k] == r[j];
            assert s[k + 1] == r[j];
          }
        }
      }
      r
  }

  /**
   * The labels sorted by lower-cased name, as sort.Slice leaves them:
   * in order and the same labels. Labels equal but for case may end up
   * in another order in the source, whose sort is not stable.
   */
  function SortLabels(labels: seq<string>): (r: seq<string>)
    ensures SortedLabels(r) && multiset(r) == multiset(labels)
  {
    if labels == [] then []
    else
      assert labels == labels[..|labels| - 1] + [labels[|labels| - 1]];
      InsertLabel(labels[|labels| - 1], SortLabels(labels[..|labels| - 1]))
  }

  // ---------------------------------------------------------------------
  // fillFromLabels

  datatype Priority = PriorityUnspecified | P0 | P1 | P2 | P3 | P4
  datatype IssueType = TypeUnspecified | Bug | Feature | Question | Cleanup | Process

  const BugLabels: seq<string> :=
    ["bug", "type: bug", "type:bug", "kind/bug", "end-to-end bugs", "type:bug/performance"]

  /** The priority a lower-cased label names, testing p0 first. */
  function LabelPriority(lower: string): (r: Option<Priority>)
    ensures r.Some? <==> Contains(lower, "p0") || Contains(lower, "p1") || Contains(lower, "p2")
                         || Contains(lower, "p3") || Contains(lower, "p4")
    ensures r == Some(P0) <==> Contains(lower, "p0")
  {
    if Contains(lower, "p0") then Some(P0)
    else if Contains(lower, "p1") then Some(P1)
    else if Contains(lower, "p2") then Some(P2)
    else if Contains(lower, "p3") then Some(P3)
    else if Contains(lower, "p4") then Some(P4)
    else None
  }

  /** The type a lower-cased label names: an exact bug label first, then the substrings in order. */
  function LabelType(lower: string): (r: Option<IssueType>)
    ensures r == Some(Bug) <==> lower in BugLabels
    ensures r.Some? ==> r != Some(TypeUnspecified)
  {
    if MatchesAny(lower, BugLabels) then Some(Bug)
    else if Contains(lower, "enhanc") || Contains(lower, "feat") || Contains(lower, "addition") then Some(Feature)
    else if Contains(lower, "question") then Some(Question)
    else if Contains(lower, "cleanup") then Some(Cleanup)
    else if Contains(lower, "process") then Some(Process)
    else None
  }

  /** The priority a label names, read from its lower-cased text. */
  function PriorityOf(l: string): Option<Priority> { LabelPriority(ToLower(l)) }

  /** The type a label names, read from its lower-cased text. */
  function TypeOf(l: string): Option<IssueType> { LabelType(ToLower(l)) }

  /** The value of the first label for which f gives one: a later label never overrides it. */
  function FirstSome<T>(labels: seq<string>, f: string -> Option<T>): Option<T>
  {
    if labels == [] then None
    else
      var r := FirstSome(labels[..|labels| - 1], f);
      if r.Some? then r else f(labels[|labels| - 1])
  }

  /** The position of the first label for which f gives a value (-1 if none), and what FirstSome makes of it. */
  lemma {:induction false} FirstSomeAt<T>(labels: seq<string>, f: string -> Option<T>) returns (k: int)
    ensures -1 <= k < |labels|
    ensures forall j | 0 <= j < (if k == -1 then |labels| else k) :: f(labels[j]).None?
    ensures k == -1 ==> FirstSome(labels, f) == None
    ensures k >= 0 ==> f(labels[k]).Some? && FirstSome(labels, f) == f(labels[k])
  {
    if labels != [] {
      var n := |labels| - 1;
      var init := labels[..n];
      var k0 := FirstSomeAt(init, f);
      var m := if k0 == -1 then n else k0;
      forall j | 0 <= j < m
        ensures f(labels[j]).None?
      {
        assert init[j] == labels[j];
      }
      if k0 >= 0 {
        assert init[k0] == labels[k0];
        k := k0;
      } else if f(labels[n]).Some? {
        k := n;
      } else {
        k := -1;
      }
    } else {
      k := -1;
    }
  }

  /** The priority of the first label that names one. */
  function FirstPriority(labels: seq<string>): Option<Priority>
  {
    FirstSome(labels, PriorityOf)
  }

  /** None exactly when no label names a priority; otherwise that of the first label naming one. */
  lemma FirstPriorityMeans(labels: seq<string>)
    ensures FirstPriority(labels).None? <==> forall k | 0 <= k < |labels| :: LabelPriority(ToLower(labels[k])).None?
    ensures FirstPriority(labels).Some? ==> exists k | 0 <= k < |labels| ::
      LabelPriority(ToLower(labels[k])) == FirstPriority(labels)
      && forall j | 0 <= j < k :: LabelPriority(ToLower(labels[j])).None?
  {
    var k := FirstSomeAt(labels, PriorityOf);
    assert forall j | 0 <= j < |labels| :: PriorityOf(labels[j]) == LabelPriority(ToLower(labels[j]));
  }

  /** The type of the first label that names one. */
  function FirstType(labels: seq<string>): Option<IssueType>
  {
    FirstSome(labels, TypeOf)
  }

  /** None exactly when no label names a type; otherwise that of the first label naming one, never the unspecified type. */
  lemma FirstTypeMeans(labels: seq<string>)
    ensures FirstType(labels).None? <==> forall k | 0 <= k < |labels| :: LabelType(ToLower(labels[k])).None?
    ensures FirstType(labels).Some? ==> exists k | 0 <= k < |labels| ::
      LabelType(ToLower(labels[k])) == FirstType(labels)
      && forall j | 0 <= j < k :: LabelType(ToLower(labels[j])).None?
    ensures FirstType(labels) != Some(TypeUnspecified)
  {
    var k := FirstSomeAt(labels, TypeOf);
    assert forall j | 0 <= j < |labels| :: TypeOf(labels[j]) == LabelType(ToLower(labels[j]));
  }

  predicate Blocked(l: string) { Contains(ToLower(l), "blocked") }

  /** A blocking label counts only when it does not also say blocked (the switch tests blocked first). */
  predicate ReleaseBlocking(l: string) { !Contains(ToLower(l), "blocked") && Contains(ToLower(l), "blocking") }

  /** Whether some label says blocked. */
  function AnyBlocked(labels: seq<string>): bool
  {
    if labels == [] then false
    else AnyBlocked(labels[..|labels| - 1]) || Blocked(labels[|labels| - 1])
  }

  /** True exactly when some label says blocked. */
  lemma {:induction false} AnyBlockedMeans(labels: seq<string>)
    ensures AnyBlocked(labels) <==> exists k | 0 <= k < |labels| :: Blocked(labels[k])
  {
    if labels != [] {
      var n := |labels| - 1;
      var init := labels[..n];
      AnyBlockedMeans(init);
      assert forall k | 0 <= k < n :: init[k] == labels[k];
      if Blocked(labels[n]) {
        assert exists k | 0 <= k < |labels| :: Blocked(labels[k]);
      }
    }
  }

  /** Whether some label says release-blocking. */
  function AnyReleaseBlocking(labels: seq<string>): bool
  {
    if labels == [] then false
    else AnyReleaseBlocking(labels[..|labels| - 1]) || ReleaseBlocking(labels[|labels| - 1])
  }

  /** True exactly when some label says blocking and not blocked. */
  lemma {:induction false} AnyReleaseBlockingMeans(labels: seq<string>)
    ensures AnyReleaseBlocking(labels) <==> exists k | 0 <= k < |labels| :: ReleaseBlocking(labels[k])
  {
    if labels != [] {
      var n := |labels| - 1;
      var init := labels[..n];
      AnyReleaseBlockingMeans(init);
      assert forall k | 0 <= k < n :: init[k] == labels[k];
      if ReleaseBlocking(labels[n]) {
        assert exists k | 0 <= k < |labels| :: ReleaseBlocking(labels[k]);
      }
    }
  }

  /** The part of the issue message that the labels decide. */
  datatype LabelFacts = LabelFacts(
    priority: Priority, priorityUnknown: bool, issueType: IssueType, blocked: bool, releaseBlocking: bool)

  /** What the labels say, read declaratively. */
  function FactsOf(labels: seq<string>): LabelFacts
  {
    var p := FirstPriority(labels);
    var t := FirstType(labels);
    LabelFacts(
      if p.Some? then p.value else PriorityUnspecified,
      p.None?,
      if t.Some? then t.value else TypeUnspecified,
      AnyBlocked(labels),
      AnyReleaseBlocking(labels))
  }

  /** The issue message, with the fields this model fills. */
  datatype IssuePb = IssuePb(
    closed: bool, isPr: bool, title: string, body: string, issueId: int, url: string, repo: string,
    labels: seq<string>, facts: LabelFacts, sloBudget: int)

  const EmptyFacts := LabelFacts(PriorityUnspecified, false, TypeUnspecified, false, false)

  /** The label facts written under a field mask onto those already there. */
  function MaskFacts(old_: LabelFacts, f: LabelFacts, paths: Option<seq<string>>): LabelFacts
  {
    LabelFacts(
      if Writes(paths, "priority") then f.priority else old_.priority,
      if Writes(paths, "priority_unknown") then f.priorityUnknown else old_.priorityUnknown,
      if Writes(paths, "issue_type") then f.issueType else old_.issueType,
      if Writes(paths, "blocked") then f.blocked else old_.blocked,
      if Writes(paths, "release_blocking") then f.releaseBlocking else old_.releaseBlocking)
  }

  /**
   * fillFromLabels: one pass over the labels; the priority and the type
   * are taken from the first label naming one and kept, blocked and
   * release-blocking from any label. The fields the mask allows are then
   * written onto s.
   */
  method FillFromLabels(s: IssuePb, labels: seq<string>, paths: Option<seq<string>>) returns (s': IssuePb)
    ensures s' == s.(facts := MaskFacts(s.facts, FactsOf(labels), paths))
  {
    var priority := PriorityUnspecified;
    var priorityUnknown := true;
    var issueType := TypeUnspecified;
    var blocked := false;
    var releaseBlocking := false;
    for i := 0 to |labels|
      invariant priorityUnknown <==> FirstPriority(labels[..i]).None?
      invariant priority == if priorityUnknown then PriorityUnspecified else FirstPriority(labels[..i]).value
      invariant issueType == if FirstType(labels[..i]).None? then TypeUnspecified else FirstType(labels[..i]).value
      invariant blocked == AnyBlocked(labels[..i])
      invariant releaseBlocking == AnyReleaseBlocking(labels[..i])
    {
      LabelsStep(labels, i);
      FirstTypeMeans(labels[..i]);
      var lower := ToLower(labels[i]);
      var p := LabelPriority(lower);
      if priorityUnknown && p.Some? {
        priority, priorityUnknown := p.value, false;
      }
      var t := LabelType(lower);
      if issueType == TypeUnspecified && t.Some? {
        issueType := t.value;
      }
      if Contains(lower, "blocked") {
        blocked := true;
      } else if Contains(lower, "blocking") {
        releaseBlocking := true;
      }
    }
    assert labels[..|labels|] == labels;
    var f := LabelFacts(priority, priorityUnknown, issueType, blocked, releaseBlocking);
    return s.(facts := MaskFacts(s.facts, f, paths));
  }

  /** What one more label does to the facts of the labels before it. */
  lemma LabelsStep(labels: seq<string>, i: nat)
    requires i < |labels|
    ensures var lower := ToLower(labels[i]);
      FirstPriority(labels[..i + 1]) ==
        (if FirstPriority(labels[..i]).Some? then FirstPriority(labels[..i]) else LabelPriority(lower))
      && FirstType(labels[..i + 1]) ==
        (if FirstType(labels[..i]).Some? then FirstType(labels[..i]) else LabelType(lower))
      && AnyBlocked(labels[..i + 1]) == (AnyBlocked(labels[..i]) || Blocked(labels[i]))
      && AnyReleaseBlocking(labels[..i + 1]) == (AnyReleaseBlocking(labels[..i]) || ReleaseBlocking(labels[i]))
  {
    assert labels[..i + 1][..i] == labels[..i];
  }

  /** A later label never overrides the priority of an earlier one. */
  lemma {:induction false} PriorityKeptByLaterLabels(labels: seq<string>, more: seq<string>)
    requires FirstPriority(labels).Some?
    ensures FirstPriority(labels + more) == FirstPriority(labels)
    decreases |more|
  {
    if more != [] {
      var init := more[..|more| - 1];
      assert labels + more == (labels + init) + [more[|more| - 1]];
      assert (labels + more)[..|labels + more| - 1] == labels + init;
      PriorityKeptByLaterLabels(labels, init);
      assert FirstPriority(labels + more) == FirstPriority(labels + init);
    } else {
      assert labels + more == labels;
    }
  }

  // ---------------------------------------------------------------------
  // The SLO budget.

  /** CompliantUntil for each SLO that applies to the issue, in order. */
  function Budgets(issue: Issue, slos: seq<Option<Slo>>, now: int): seq<int>
  {
    if slos == [] then []
    else
      var init := Budgets(issue, slos[..|slos| - 1], now);
      var last := slos[|slos| - 1];
      if DoesSloApply(Some(issue), last) then init + [CompliantUntil(Some(issue), last, now)] else init
  }

  /** The running minimum of the budgets, starting from MaxInt64. */
  function LeastBudget(bs: seq<int>): int
  {
    if bs == [] then MaxInt64
    else
      var m := LeastBudget(bs[..|bs| - 1]);
      if bs[|bs| - 1] < m then bs[|bs| - 1] else m
  }

  /** The budget of an issue: the running minimum, with MaxInt64 (no SLO applies) becoming 0. */
  function Budget(issue: Issue, slos: seq<Option<Slo>>, now: int): int
  {
    var m := LeastBudget(Budgets(issue, slos, now));
    if m == MaxInt64 then 0 else m
  }

  /** The running minimum is MaxInt64 or one of the budgets, and no budget is below it. */
  lemma {:induction false} LeastBudgetMeans(bs: seq<int>)
    ensures LeastBudget(bs) == MaxInt64 || LeastBudget(bs) in bs
    ensures LeastBudget(bs) <= MaxInt64 && forall v | v in bs :: LeastBudget(bs) <= v
    ensures (forall v | v in bs :: v < MaxInt64) && bs != [] ==> LeastBudget(bs) < MaxInt64
  {
    if bs != [] {
      var init := bs[..|bs| - 1];
      LeastBudgetMeans(init);
      assert bs == init + [bs[|bs| - 1]];
      assert bs[|bs| - 1] in bs;
    }
  }

  /** Budget is 0 with no SLO; otherwise, unless every budget reaches MaxInt64, the least budget. */
  lemma BudgetMeans(issue: Issue, slos: seq<Option<Slo>>, now: int)
    ensures Budgets(issue, slos, now) == [] ==> Budget(issue, slos, now) == 0
    ensures Budget(issue, slos, now) != 0 ==>
      (Budget(issue, slos, now) in Budgets(issue, slos, now)
       && forall v | v in Budgets(issue, slos, now) :: Budget(issue, slos, now) <= v)
    ensures (forall v | v in Budgets(issue, slos, now) :: v < MaxInt64) && Budgets(issue, slos, now) != [] ==>
      (Budget(issue, slos, now) in Budgets(issue, slos, now)
       && forall v | v in Budgets(issue, slos, now) :: Budget(issue, slos, now) <= v)
  {
    LeastBudgetMeans(Budgets(issue, slos, now));
  }

  /** One more SLO lowers the running minimum to its CompliantUntil when it applies. */
  lemma LeastBudgetStep(issue: Issue, slos: seq<Option<Slo>>, now: int, i: nat)
    requires i < |slos|
    ensures var m := LeastBudget(Budgets(issue, slos[..i], now));
      var c := CompliantUntil(Some(issue), slos[i], now);
      LeastBudget(Budgets(issue, slos[..i + 1], now))
      == if DoesSloApply(Some(issue), slos[i]) && c < m then c else m
  {
    assert slos[..i + 1][..i] == slos[..i];
    var bs := Budgets(issue, slos[..i + 1], now);
    if DoesSloApply(Some(issue), slos[i]) {
      assert bs[..|bs| - 1] == Budgets(issue, slos[..i], now);
    }
  }

  /**
   * The SloBudget loop: the least CompliantUntil over the SLOs that apply,
   * starting from MaxInt64, which stands for none and becomes 0.
   */
  method SloBudget(issue: Issue, slos: seq<Option<Slo>>, now: int) returns (b: int)
    ensures b == Budget(issue, slos, now)
    ensures Budgets(issue, slos, now) == [] ==> b == 0
    ensures b != 0 ==> b in Budgets(issue, slos, now) && forall v | v in Budgets(issue, slos, now) :: b <= v
    ensures (forall v | v in Budgets(issue, slos, now) :: v < MaxInt64) && Budgets(issue, slos, now) != [] ==>
      b in Budgets(issue, slos, now) && forall v | v in Budgets(issue, slos, now) :: b <= v
  {
    b := MaxInt64;
    for i := 0 to |slos|
      invariant b == LeastBudget(Budgets(issue, slos[..i], now))
    {
      LeastBudgetStep(issue, slos, now, i);
      if DoesSloApply(Some(issue), slos[i]) {
        var c := CompliantUntil(Some(issue), slos[i], now);
        if c < b {
          b := c;
        }
      }
    }
    assert slos[..|slos|] == slos;
    if b == MaxInt64 {
      b := 0;
    }
    BudgetMeans(issue, slos, now);
  }

  // ---------------------------------------------------------------------
  // makeIssuePB and makeRepoPB

  /** The maintner issue with the fields the message copies. */
  datatype GitHubIssue = GitHubIssue(core: Issue, number: int, title: string, body: string)

  /** getRepoPath, and the repository name of the messages: "owner/repo". */
  function RepoPath(owner: string, repo: string): (r: string)
    ensures r == owner + ['/'] + repo
  {
    owner + "/" + repo
  }

  /** getIssueName: "owner/repo/issues/N". */
  function IssueName(owner: string, repo: string, n: int): (r: string)
    ensures r == owner + ['/'] + repo + "/issues/" + IntToString(n)
  {
    owner + "/" + repo + "/issues/" + IntToString(n)
  }

  /** The issue URL on GitHub. */
  function IssueUrl(owner: string, repo: string, n: int): (r: string)
    ensures HasPrefix(r, "https://github.com/")
  {
    "https://github.com/" + owner + "/" + repo + "/issues/" + IntToString(n)
  }

  /** The plain fields of makeIssuePB, each copied when the mask allows it. */
  function CopyFields(issue: GitHubIssue, owner: string, repo: string, paths: Option<seq<string>>,
                      labels: seq<string>, budget: int): IssuePb
  {
    IssuePb(
      Writes(paths, "closed") && issue.core.closed,
      Writes(paths, "is_pr") && issue.core.pullRequest,
      if Writes(paths, "title") then issue.title else "",
      if Writes(paths, "body") then issue.body else "",
      if Writes(paths, "issue_id") then issue.number else 0,
      if Writes(paths, "url") then IssueUrl(owner, repo, issue.number) else "",
      if Writes(paths, "repo") then RepoPath(owner, repo) else "",
      if Writes(paths, "labels") then labels else [],
      EmptyFacts, budget)
  }

  /** The message makeIssuePB builds for an issue under a field mask. */
  function IssueMessage(issue: GitHubIssue, owner: string, repo: string, paths: Option<seq<string>>,
                        slos: seq<Option<Slo>>, now: int): IssuePb
  {
    var labels := SortLabels(issue.core.labels);
    CopyFields(issue, owner, repo, paths, labels, Budget(issue.core, slos, now))
      .(facts := MaskFacts(EmptyFacts, FactsOf(labels), paths))
  }

  /**
   * makeIssuePB: each plain field copied when the mask allows it, the
   * labels sorted and classified, and the SLO budget over the rule set.
   * The label map of the issue arrives as a sequence in map order.
   */
  method MakeIssuePb(issue: GitHubIssue, owner: string, repo: string, paths: Option<seq<string>>,
                     slos: seq<Option<Slo>>, now: int) returns (pb: IssuePb)
    ensures pb.closed == (Writes(paths, "closed") && issue.core.closed)
    ensures pb.isPr == (Writes(paths, "is_pr") && issue.core.pullRequest)
    ensures pb.title == (if Writes(paths, "title") then issue.title else "")
    ensures pb.body == (if Writes(paths, "body") then issue.body else "")
    ensures pb.issueId == (if Writes(paths, "issue_id") then issue.number else 0)
    ensures pb.url == (if Writes(paths, "url") then IssueUrl(owner, repo, issue.number) else "")
    ensures pb.repo == (if Writes(paths, "repo") then RepoPath(owner, repo) else "")
    ensures pb.labels == (if Writes(paths, "labels") then SortLabels(issue.core.labels) else [])
    ensures pb.facts == MaskFacts(EmptyFacts, FactsOf(SortLabels(issue.core.labels)), paths)
    ensures Budgets(issue.core, slos, now) == [] ==> pb.sloBudget == 0
    ensures pb.sloBudget != 0 ==> pb.sloBudget in Budgets(issue.core, slos, now)
    ensures pb.sloBudget != 0 ==> forall v | v in Budgets(issue.core, slos, now) :: pb.sloBudget <= v
    ensures pb == IssueMessage(issue, owner, repo, paths, slos, now)
  {
    var budget := SloBudget(issue.core, slos, now);
    var labels := SortLabels(issue.core.labels);
    pb := CopyFields(issue, owner, repo, paths, labels, budget);
    pb := FillFromLabels(pb, labels, paths);
  }

  /** How many of the issues are pull requests. */
  function CountPrs(prFlags: seq<bool>): nat
  {
    if prFlags == [] then 0 else CountPrs(prFlags[..|prFlags| - 1]) + (if prFlags[|prFlags| - 1] then 1 else 0)
  }

  /**
   * The counting loop of makeRepoPB, given whether each issue visited is a
   * pull request: every issue counted once, as a pull request or as an
   * issue.
   */
  method CountIssues(prFlags: seq<bool>) returns (nIss: nat, nPr: nat)
    ensures nIss + nPr == |prFlags|
    ensures nPr == multiset(prFlags)[true] && nIss == multiset(prFlags)[false]
  {
    nIss, nPr := 0, 0;
    for i := 0 to |prFlags|
      invariant nIss + nPr == i
      invariant nPr == multiset(prFlags[..i])[true] && nIss == multiset(prFlags[..i])[false]
    {
      assert prFlags[..i + 1] == prFlags[..i] + [prFlags[i]];
      if prFlags[i] {
        nPr := nPr + 1;
      } else {
        nIss := nIss + 1;
      }
    }
    assert prFlags[..|prFlags|] == prFlags;
  }

  /** The Repository message: "owner/repo" and its two counts, each an int32. */
  datatype RepositoryPb = RepositoryPb(name: string, issueCount: int, pullRequestCount: int)

  /**
   * makeRepoPB: the repository's name and its issue and pull request
   * counts, each cast to int32 (wrapping past 2^31 - 1). The counting
   * callback never fails, so neither does the walk over the issues.
   */
  method MakeRepoPb(owner: string, repo: string, prFlags: seq<bool>) returns (pb: RepositoryPb)
    ensures pb.name == owner + "/" + repo
    ensures pb.issueCount == PageUtils.Int32(multiset(prFlags)[false])
    ensures pb.pullRequestCount == PageUtils.Int32(multiset(prFlags)[true])
    ensures |prFlags| < 0x8000_0000 ==> pb.issueCount + pb.pullRequestCount == |prFlags|
  {
    var nIss, nPr := CountIssues(prFlags);
    pb := RepositoryPb(owner + "/" + repo, PageUtils.Int32(nIss), PageUtils.Int32(nPr));
  }

  // ---------------------------------------------------------------------
  // Listing issues.

  /** The two optional filters of a list request. */
  datatype ListIssuesRequest = ListIssuesRequest(pullRequest: Option<bool>, closed: Option<bool>)

  /** filters.FilterIssue: a filter that is set must equal the message's flag; it never errs. */
  function FilterIssue(pb: IssuePb, r: ListIssuesRequest): (ok: bool)
    ensures r.pullRequest.None? && r.closed.None? ==> ok
    ensures ok <==> ((r.pullRequest.None? || r.pullRequest.value == pb.isPr)
                     && (r.closed.None? || r.closed.value == pb.closed))
  {
    if r.pullRequest.Some? && pb.isPr != r.pullRequest.value then false
    else if r.closed.Some? && pb.closed != r.closed.value then false
    else true
  }

  /** shouldAddIssue: an existing issue whose flags pass the set filters. */
  function ShouldAddIssue(issue: Issue, r: ListIssuesRequest): (ok: bool)
    ensures issue.notExist ==> !ok
    ensures ok <==> (!issue.notExist && (r.pullRequest.None? || r.pullRequest.value == issue.pullRequest)
                     && (r.closed.None? || r.closed.value == issue.closed))
  {
    if issue.notExist then false
    else if r.pullRequest.Some? && issue.pullRequest != r.pullRequest.value then false
    else if r.closed.Some? && issue.closed != r.closed.value then false
    else true
  }

  /**
   * handleIssue: a missing issue, or one the filters reject, leaves the
   * list as it is; otherwise the message under the request's mask is
   * appended. The filters see the message built with no mask.
   */
  method HandleIssue(issue: GitHubIssue, owner: string, repo: string, r: ListIssuesRequest,
                     mask: Option<seq<string>>, slos: seq<Option<Slo>>, now: int, issues: seq<IssuePb>)
    returns (out: seq<IssuePb>)
    ensures issue.core.notExist ==> out == issues
    ensures !issue.core.notExist ==>
      (ShouldAddIssue(issue.core, r) <==> |out| == |issues| + 1)
      && (|out| == |issues| || |out| == |issues| + 1)
      && out[..|issues|] == issues
    ensures |out| == |issues| + 1 ==> out[|issues|] == IssueMessage(issue, owner, repo, mask, slos, now)
  {
    if issue.core.notExist {
      return issues;
    }
    var clean := MakeIssuePb(issue, owner, repo, None, slos, now);
    var should := FilterIssue(clean, r);
    if should {
      var iss := MakeIssuePb(issue, owner, repo, mask, slos, now);
      return issues + [iss];
    }
    return issues;
  }

  // ---------------------------------------------------------------------
  // getIssueID

  /** `[\w.-]+`: a non-empty run of word characters, dots and hyphens. */
  predicate Segment(s: string)
  {
    |s| >= 1 && forall k | 0 <= k < |s| :: IsWordChar(s[k]) || s[k] == '.' || s[k] == '-'
  }

  /**
   * The match of `^[\w.-]+/[\w.-]+/issues/(\d+)$`: the owner and the
   * repository run up to the first and second '/', then "/issues/" and
   * nothing but digits.
   */
  function MatchIssueName(name: string): (m: Option<(string, string, string)>)
    ensures m.Some? ==> (Segment(m.value.0) && Segment(m.value.1) && |m.value.2| >= 1 && AllDigits(m.value.2)
                         && name == m.value.0 + ['/'] + m.value.1 + "/issues/" + m.value.2)
  {
    var i := SlashAt(name);
    if i == |name| then None
    else
      var rest := name[i + 1..];
      var j := SlashAt(rest);
      if j == |rest| then None
      else
        var owner, repo, tail := name[..i], rest[..j], rest[j..];
        if !Segment(owner) || !Segment(repo) || !HasPrefix(tail, "/issues/") then None
        else
          var digits := tail[8..];
          if |digits| >= 1 && AllDigits(digits) then
            assert name == owner + ['/'] + rest;
            assert rest == repo + tail;
            assert tail == "/issues/" + digits;
            Some((owner, repo, digits))
          else None
  }

  /** getIssueID: the number in a well-formed issue name, -1 for any other name or a number past int. */
  function IssueId(name: string): (id: int)
    ensures id >= -1
    ensures id >= 0 <==> MatchIssueName(name).Some? && DigitsValue(MatchIssueName(name).value.2) <= MaxInt64
  {
    match MatchIssueName(name)
    case None => -1
    case Some((_, _, digits)) => if DigitsValue(digits) <= MaxInt64 then DigitsValue(digits) else -1
  }

  /** The position of the first '/' in s, or |s| when there is none. */
  function SlashAt(s: string): (k: nat)
    ensures k <= |s| && (k < |s| ==> s[k] == '/')
  {
    if s == [] || s[0] == '/' then 0 else 1 + SlashAt(s[1..])
  }

  /** A name without '/' before the separator: the first '/' is the separator. */
  lemma {:induction false} FirstSlash(a: string, rest: string)
    requires '/' !in a
    ensures SlashAt(a + ['/'] + rest) == |a|
  {
    if a != [] {
      assert (a + ['/'] + rest)[1..] == a[1..] + ['/'] + rest;
      FirstSlash(a[1..], rest);
    }
  }

  lemma SegmentNoSlash(s: string)
    requires Segment(s)
    ensures '/' !in s
  {
    forall k | 0 <= k < |s|
      ensures s[k] != '/'
    {
      assert IsWordChar(s[k]) || s[k] == '.' || s[k] == '-';
    }
  }

  /** Every name of the pattern is matched, with its parts. */
  lemma MatchComplete(owner: string, repo: string, digits: string)
    requires Segment(owner) && Segment(repo) && |digits| >= 1 && AllDigits(digits)
    ensures MatchIssueName(owner + ['/'] + repo + "/issues/" + digits) == Some((owner, repo, digits))
  {
    var name := owner + ['/'] + repo + "/issues/" + digits;
    var rest := repo + "/issues/" + digits;
    SegmentNoSlash(owner);
    SegmentNoSlash(repo);
    assert name == owner + ['/'] + rest;
    FirstSlash(owner, rest);
    assert name[|owner| + 1..] == rest;
    assert rest == repo + ['/'] + ("issues/" + digits);
    FirstSlash(repo, "issues/" + digits);
    assert rest[..|repo|] == repo;
    assert name[..|owner|] == owner;
    var tail := rest[|repo|..];
    assert tail == "/issues/" + digits;
    assert tail[8..] == digits;
  }

  /** The id read back from an issue name is its number. */
  lemma IssueIdOfName(owner: string, repo: string, n: nat)
    requires Segment(owner) && Segment(repo) && n <= MaxInt64
    ensures IssueId(IssueName(owner, repo, n)) == n
  {
    DigitsOfNatToString(n);
    MatchComplete(owner, repo, NatToString(n));
  }
}
