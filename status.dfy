// drghs-worker/pkg/status: the status of an issue as the older API
// reports it (status.go), the request configurations that pick an SLO
// rule by labels (request_config.go) and the compliance of a rule
// (request_rule.go). TranslateIssueToStatus (pkg/utils/status_utils.go)
// gives a status its starting values.
//
// Times are integers in nanoseconds and the current time is a parameter.
module IssueStatus {
  import opened Wrappers
  import opened Strs
  import opened SloUtils
  import Maintnerd

  /** Priority is a uint counted from P0, so P0 is also its zero value. */
  datatype Priority = P0 | P1 | P2 | P3 | P4

  datatype IssueType = TypeUnknown | TypeBug | TypeFeature | TypeCleanup | TypeCustomer | TypeProcess | TypePr

  const Minute: int := 60_000_000_000
  const Hour: int := 60 * Minute
  const Day: int := 24 * Hour

  // ---------------------------------------------------------------------
  // FillLabels

  /** The case of the label switch that a lower-cased label selects; the first that holds wins. */
  datatype LabelCase = SetPriority(p: Priority) | SetType(t: IssueType) | SetBlocked | SetReleaseBlocking | NoCase

  /** strings.Contains, written as a scan so that a label's case unfolds cheaply. */
  predicate Mentions(s: string, sub: string)
    decreases |s|
  {
    HasPrefix(s, sub) || (s != [] && Mentions(s[1..], sub))
  }

  /** An occurrence in the tail is an occurrence one place later in the whole. */
  lemma OccursShift(s: string, sub: string, i: nat)
    requires s != []
    ensures OccursAt(s[1..], sub, i) <==> OccursAt(s, sub, i + 1)
  {
    if i + 1 + |sub| <= |s| {
      assert s[1..][i..i + |sub|] == s[i + 1..i + 1 + |sub|];
    }
  }

  lemma {:induction false} MentionsIsContains(s: string, sub: string)
    ensures Mentions(s, sub) <==> Contains(s, sub)
    decreases |s|
  {
    if HasPrefix(s, sub) {
      assert OccursAt(s, sub, 0);
    } else if s != [] {
      MentionsIsContains(s[1..], sub);
      if Contains(s[1..], sub) {
        var i :| 0 <= i <= |s| - 1 - |sub| && OccursAt(s[1..], sub, i);
        OccursShift(s, sub, i);
      }
      if Contains(s, sub) {
        var i :| 0 <= i <= |s| - |sub| && OccursAt(s, sub, i);
        assert i != 0;
        OccursShift(s, sub, i - 1);
      }
    }
  }

  /** The switch of FillLabels (matchesAny is membership of the bug labels). */
  function CaseOf(lower: string): (c: LabelCase)
  {
    if Mentions(lower, "p0") then SetPriority(P0)
    else if Mentions(lower, "p1") then SetPriority(P1)
    else if Mentions(lower, "p2") then SetPriority(P2)
    else if Mentions(lower, "p3") then SetPriority(P3)
    else if Mentions(lower, "p4") then SetPriority(P4)
    else if lower in Maintnerd.BugLabels then SetType(TypeBug)
    else if Mentions(lower, "enhanc") then SetType(TypeFeature)
    else if Mentions(lower, "feat") then SetType(TypeFeature)
    else if Mentions(lower, "addition") then SetType(TypeFeature)
    else if Mentions(lower, "question") then SetType(TypeCustomer)
    else if Mentions(lower, "cleanup") then SetType(TypeCleanup)
    else if Mentions(lower, "process") then SetType(TypeProcess)
    else if Mentions(lower, "blocked") then SetBlocked
    else if Mentions(lower, "blocking") then SetReleaseBlocking
    else NoCase
  }

  function CaseOfLabel(l: string): LabelCase { CaseOf(ToLower(l)) }

  /** A label selects a priority exactly when it mentions one of p0 to p4; blocked and blocking say so. */
  lemma CaseOfMeans(lower: string)
    ensures CaseOf(lower).SetPriority? <==> (Contains(lower, "p0") || Contains(lower, "p1") || Contains(lower, "p2")
                                            || Contains(lower, "p3") || Contains(lower, "p4"))
    ensures CaseOf(lower) == SetBlocked ==> Contains(lower, "blocked")
    ensures CaseOf(lower) == SetReleaseBlocking ==> (Contains(lower, "blocking") && !Contains(lower, "blocked"))
  {
    MentionsIsContains(lower, "p0");
    MentionsIsContains(lower, "p1");
    MentionsIsContains(lower, "p2");
    MentionsIsContains(lower, "p3");
    MentionsIsContains(lower, "p4");
    MentionsIsContains(lower, "blocked");
    MentionsIsContains(lower, "blocking");
  }

  /** The case each label selects, in order. */
  function Cases(labels: seq<string>): (cs: seq<LabelCase>)
    ensures |cs| == |labels| && forall k | 0 <= k < |labels| :: cs[k] == CaseOfLabel(labels[k])
  {
    seq(|labels|, k requires 0 <= k < |labels| => CaseOfLabel(labels[k]))
  }

  /** The priority of the last case that sets one: later labels override earlier ones. */
  function LastPriority(cs: seq<LabelCase>): Option<Priority>
  {
    if cs == [] then None
    else
      var n := |cs| - 1;
      if cs[n].SetPriority? then Some(cs[n].p) else LastPriority(cs[..n])
  }

  /** The position of the last case that sets a priority (-1 if none), and what LastPriority makes of it. */
  lemma {:induction false} LastPriorityAt(cs: seq<LabelCase>) returns (k: int)
    ensures -1 <= k < |cs| && forall j | k < j < |cs| :: !cs[j].SetPriority?
    ensures k == -1 ==> LastPriority(cs) == None
    ensures k >= 0 ==> cs[k].SetPriority? && LastPriority(cs) == Some(cs[k].p)
  {
    if cs == [] {
      k := -1;
    } else {
      var n := |cs| - 1;
      if cs[n].SetPriority? {
        k := n;
      } else {
        k := LastPriorityAt(cs[..n]);
        forall j | k < j < |cs|
          ensures !cs[j].SetPriority?
        {
          if j < n {
            assert cs[..n][j] == cs[j];
          }
        }
        if k >= 0 {
          assert cs[..n][k] == cs[k];
        }
      }
    }
  }

  /** None exactly when no case sets a priority; otherwise that of the last case that sets one. */
  lemma LastPriorityMeans(cs: seq<LabelCase>)
    ensures LastPriority(cs).None? <==> forall k | 0 <= k < |cs| :: !cs[k].SetPriority?
    ensures LastPriority(cs).Some? ==> exists k | 0 <= k < |cs| ::
      cs[k] == SetPriority(LastPriority(cs).value) && forall j | k < j < |cs| :: !cs[j].SetPriority?
  {
    var k := LastPriorityAt(cs);
    if k >= 0 {
      assert cs[k] == SetPriority(LastPriority(cs).value);
    }
  }

  /** The type of the last case that sets one. */
  function LastType(cs: seq<LabelCase>): Option<IssueType>
  {
    if cs == [] then None
    else
      var n := |cs| - 1;
      if cs[n].SetType? then Some(cs[n].t) else LastType(cs[..n])
  }

  /** The position of the last case that sets a type (-1 if none), and what LastType makes of it. */
  lemma {:induction false} LastTypeAt(cs: seq<LabelCase>) returns (k: int)
    ensures -1 <= k < |cs| && forall j | k < j < |cs| :: !cs[j].SetType?
    ensures k == -1 ==> LastType(cs) == None
    ensures k >= 0 ==> cs[k].SetType? && LastType(cs) == Some(cs[k].t)
  {
    if cs == [] {
      k := -1;
    } else {
      var n := |cs| - 1;
      if cs[n].SetType? {
        k := n;
      } else {
        k := LastTypeAt(cs[..n]);
        forall j | k < j < |cs|
          ensures !cs[j].SetType?
        {
          if j < n {
            assert cs[..n][j] == cs[j];
          }
        }
        if k >= 0 {
          assert cs[..n][k] == cs[k];
        }
      }
    }
  }

  /** None exactly when no case sets a type; otherwise that of the last case that sets one. */
  lemma LastTypeMeans(cs: seq<LabelCase>)
    ensures LastType(cs).None? <==> forall k | 0 <= k < |cs| :: !cs[k].SetType?
    ensures LastType(cs).Some? ==> exists k | 0 <= k < |cs| ::
      cs[k] == SetType(LastType(cs).value) && forall j | k < j < |cs| :: !cs[j].SetType?
  {
    var k := LastTypeAt(cs);
    if k >= 0 {
      assert cs[k] == SetType(LastType(cs).value);
    }
  }

  /** A label that selects a priority decides it, whatever came before. */
  lemma LaterPriorityOverrides(cs: seq<LabelCase>, c: LabelCase)
    requires c.SetPriority?
    ensures LastPriority(cs + [c]) == Some(c.p)
  {
    assert (cs + [c])[|cs|] == c;
  }

  /** Labels without a priority case leave the last priority as it was. */
  lemma {:induction false} PriorityUntouched(cs: seq<LabelCase>, more: seq<LabelCase>)
    requires forall k | 0 <= k < |more| :: !more[k].SetPriority?
    ensures LastPriority(cs + more) == LastPriority(cs)
    decreases |more|
  {
    if more == [] {
      assert cs + more == cs;
    } else {
      var n := |more| - 1;
      assert (cs + more)[..|cs| + n] == cs + more[..n];
      assert (cs + more)[|cs| + n] == more[n];
      PriorityUntouched(cs, more[..n]);
    }
  }

  /** The fields of a status that FillLabels overwrites. */
  datatype LabelState = LabelState(
    priority: Priority, priorityUnknown: bool, issueType: IssueType, blocked: bool, releaseBlocking: bool)

  /** What one case of the switch does to them. */
  function Absorb(st: LabelState, c: LabelCase): LabelState
  {
    match c
    case SetPriority(p) => st.(priority := p, priorityUnknown := false)
    case SetType(t) => st.(issueType := t)
    case SetBlocked => st.(blocked := true)
    case SetReleaseBlocking => st.(releaseBlocking := true)
    case NoCase => st
  }

  /** The cases applied in order. */
  function AbsorbAll(st: LabelState, cs: seq<LabelCase>): LabelState
  {
    if cs == [] then st else Absorb(AbsorbAll(st, cs[..|cs| - 1]), cs[|cs| - 1])
  }

  /**
   * What the labels leave in the fields, read declaratively: the last
   * priority and the last type win, priority stays unknown only if no
   * case sets one, and a flag is set by any case setting it.
   */
  function Labelled(st: LabelState, cs: seq<LabelCase>): LabelState
  {
    LabelState(
      if LastPriority(cs).Some? then LastPriority(cs).value else st.priority,
      st.priorityUnknown && LastPriority(cs).None?,
      if LastType(cs).Some? then LastType(cs).value else st.issueType,
      st.blocked || (exists k | 0 <= k < |cs| :: cs[k] == SetBlocked),
      st.releaseBlocking || (exists k | 0 <= k < |cs| :: cs[k] == SetReleaseBlocking))
  }

  /** Applying the cases one by one gives what the labels say. */
  lemma {:induction false} AbsorbAllMeans(st: LabelState, cs: seq<LabelCase>)
    ensures AbsorbAll(st, cs) == Labelled(st, cs)
  {
    if cs != [] {
      var n := |cs| - 1;
      AbsorbAllMeans(st, cs[..n]);
      assert forall k | 0 <= k < n :: cs[..n][k] == cs[k];
      assert (exists k | 0 <= k < |cs| :: cs[k] == SetBlocked)
        <==> (exists k | 0 <= k < n :: cs[k] == SetBlocked) || cs[n] == SetBlocked;
      assert (exists k | 0 <= k < |cs| :: cs[k] == SetReleaseBlocking)
        <==> (exists k | 0 <= k < n :: cs[k] == SetReleaseBlocking) || cs[n] == SetReleaseBlocking;
    }
  }

  /** The loop of FillLabels: each label's case applied to the fields in turn. */
  method ScanLabels(st0: LabelState, ls: seq<string>) returns (st: LabelState)
    ensures st == Labelled(st0, Cases(ls))
  {
    ghost var cs := Cases(ls);
    st := st0;
    for i := 0 to |ls|
      invariant st == AbsorbAll(st0, cs[..i])
    {
      assert cs[..i + 1][..i] == cs[..i];
      st := Absorb(st, CaseOf(ToLower(ls[i])));
    }
    assert cs[..|ls|] == cs;
    AbsorbAllMeans(st0, cs);
  }

  /** The maintained issue, with the fields a status reads. */
  datatype SourceIssue = SourceIssue(
    labels: seq<string>, number: int, title: string, closed: bool, closedAt: int, created: int,
    assignees: seq<string>, pullRequest: bool)

  /** Compliance of a status with the fixed objectives: actual is a duration. */
  datatype Compliance = Compliance(compliant: bool, actual: int)

  /** Compliance of a status with a configured rule: actual is in whole seconds. */
  datatype ComplianceResponse = ComplianceResponse(compliant: bool, actual: int)

  // ---------------------------------------------------------------------
  // The objective tables and compliance.

  /** updateObjectives: how soon each priority wants an update. */
  function UpdateObjective(p: Priority): (d: int)
    ensures d > 0
  {
    match p
    case P0 => 30 * Minute
    case P1 => 24 * Hour
    case P2 => 5 * Day
    case P3 => 180 * Day
    case P4 => 365 * Day
  }

  /** resolutionObjectives: only P0 and P1 have one; the others look up to the zero duration. */
  function ResolutionObjective(p: Priority): (d: int)
    ensures d == 0 <==> p != P0 && p != P1
  {
    match p
    case P0 => 7 * Day
    case P1 => 7 * Day
    case _ => 0
  }

  function Rank(p: Priority): nat
  {
    match p
    case P0 => 0
    case P1 => 1
    case P2 => 2
    case P3 => 3
    case P4 => 4
  }

  /** A less urgent priority never allows less time for an update or a resolution. */
  lemma UpdateObjectivesGrow(p: Priority, q: Priority)
    requires Rank(p) <= Rank(q)
    ensures UpdateObjective(p) <= UpdateObjective(q)
    ensures q == P1 ==> ResolutionObjective(p) == ResolutionObjective(q)
  {
  }

  /** compliantUpdates: the time since the last update from a Googler, within the objective. */
  function CompliantUpdates(p: Priority, lastGooglerUpdate: int, now: int): (c: Compliance)
    ensures c.actual + lastGooglerUpdate == now
    ensures c.compliant <==> now < lastGooglerUpdate + UpdateObjective(p)
  {
    var actual := now - lastGooglerUpdate;
    Compliance(actual < UpdateObjective(p), actual)
  }

  /** compliantResolution: the time from creation to closing, or to now while open. */
  function CompliantResolution(p: Priority, issue: SourceIssue, now: int): (c: Compliance)
    ensures c.actual == (if issue.closed then issue.closedAt else now) - issue.created
    ensures p != P0 && p != P1 ==> (c.compliant <==> c.actual < 0)
    ensures c.compliant <==> c.actual < ResolutionObjective(p)
  {
    var closedAt := if issue.closed then issue.closedAt else now;
    var actual := closedAt - issue.created;
    Compliance(actual < ResolutionObjective(p), actual)
  }

  /** Compliance with the update objective carries over to every less urgent priority. */
  lemma UpdateComplianceMonotone(p: Priority, q: Priority, last: int, now: int)
    requires Rank(p) <= Rank(q) && CompliantUpdates(p, last, now).compliant
    ensures CompliantUpdates(q, last, now).compliant
  {
    UpdateObjectivesGrow(p, q);
  }

  // ---------------------------------------------------------------------
  // request_rule.go and request_config.go

  /** A configured rule; the durations are in seconds. */
  datatype RequestRule = RequestRule(id: int, labels: seq<string>, responseDuration: int, resolutionDuration: int)

  datatype RequestConfig = RequestConfig(id: int, rules: seq<RequestRule>, repos: seq<string>)

  /** RequestRule.compliantUpdates: whole seconds since the last update, below the response duration. */
  function RuleCompliantUpdates(rule: RequestRule, lastUpdate: int, now: int): (c: ComplianceResponse)
    ensures c.actual == Seconds(now - lastUpdate)
    ensures c.compliant <==> c.actual < rule.responseDuration
  {
    var actual := Seconds(now - lastUpdate);
    ComplianceResponse(actual < rule.responseDuration, actual)
  }

  /** RequestRule.compliantResolution: whole seconds since opening, below the resolution duration. */
  function RuleCompliantResolution(rule: RequestRule, openedAt: int, now: int): (c: ComplianceResponse)
    ensures c.actual == Seconds(now - openedAt)
    ensures c.compliant <==> c.actual < rule.resolutionDuration
  {
    var actual := Seconds(now - openedAt);
    ComplianceResponse(actual < rule.resolutionDuration, actual)
  }

  /** Seconds never decrease as the duration grows. */
  lemma SecondsMonotone(a: int, b: int)
    requires a <= b
    ensures Seconds(a) <= Seconds(b)
  {
    var sa, sb := Seconds(a), Seconds(b);
    if a >= 0 {
      assert sa * 1_000_000_000 <= b < (sb + 1) * 1_000_000_000;
    } else if b >= 0 {
      assert (sa - 1) * 1_000_000_000 < 0;
    } else {
      assert (sa - 1) * 1_000_000_000 < sb * 1_000_000_000;
    }
  }

  /** A rule complied with now was complied with at every earlier time. */
  lemma RuleComplianceEarlier(rule: RequestRule, lastUpdate: int, earlier: int, now: int)
    requires earlier <= now && RuleCompliantUpdates(rule, lastUpdate, now).compliant
    ensures RuleCompliantUpdates(rule, lastUpdate, earlier).compliant
  {
    SecondsMonotone(earlier - lastUpdate, now - lastUpdate);
  }

  /** Every label of the rule is among the given ones, ignoring case. */
  predicate RuleMatches(rule: RequestRule, lowered: set<string>)
  {
    forall k | 0 <= k < |rule.labels| :: ToLower(ToLower(rule.labels[k])) in lowered
  }

  function LoweredSet(labels: seq<string>): (s: set<string>)
    ensures forall l :: l in s <==> exists k | 0 <= k < |labels| :: ToLower(labels[k]) == l
  {
    set k | 0 <= k < |labels| :: ToLower(labels[k])
  }

  /** The label loop of Rule: whether every label of one rule is present. */
  method MatchRule(rule: RequestRule, labelMap: set<string>) returns (matched: bool)
    ensures matched <==> RuleMatches(rule, labelMap)
  {
    matched := true;
    for k := 0 to |rule.labels|
      invariant forall j | 0 <= j < k :: ToLower(ToLower(rule.labels[j])) in labelMap
    {
      var lowered := ToLower(rule.labels[k]);
      if ToLower(lowered) !in labelMap {
        matched := false;
        return;
      }
    }
  }

  /** The position of the first rule that matches, or the number of rules when none does. */
  function FirstMatching(rules: seq<RequestRule>, lowered: set<string>): (k: nat)
    ensures k <= |rules|
    ensures k < |rules| ==> RuleMatches(rules[k], lowered)
    ensures forall j | 0 <= j < k :: !RuleMatches(rules[j], lowered)
  {
    if rules == [] then 0
    else if RuleMatches(rules[0], lowered) then 0
    else 1 + FirstMatching(rules[1..], lowered)
  }

  /**
   * RequestConfig.Rule: the lower-cased labels gathered in a set, then
   * the first rule whose labels are all among them; None when no rule
   * matches.
   */
  method Rule(config: RequestConfig, labels: seq<string>) returns (r: Option<RequestRule>)
    ensures r.Some? ==> exists k | 0 <= k < |config.rules| ::
      config.rules[k] == r.value && RuleMatches(config.rules[k], LoweredSet(labels))
      && forall j | 0 <= j < k :: !RuleMatches(config.rules[j], LoweredSet(labels))
    ensures r.None? <==> forall k | 0 <= k < |config.rules| :: !RuleMatches(config.rules[k], LoweredSet(labels))
    ensures var k := FirstMatching(config.rules, LoweredSet(labels));
      r == if k < |config.rules| then Some(config.rules[k]) else None
  {
    var labelMap: set<string> := {};
    for i := 0 to |labels|
      invariant labelMap == LoweredSet(labels[..i])
    {
      assert labels[..i + 1] == labels[..i] + [labels[i]];
      labelMap := labelMap + {ToLower(labels[i])};
    }
    assert labels[..|labels|] == labels;
    for k := 0 to |config.rules|
      invariant forall j | 0 <= j < k :: !RuleMatches(config.rules[j], labelMap)
    {
      var m := MatchRule(config.rules[k], labelMap);
      if m {
        return Some(config.rules[k]);
      }
    }
    return None;
  }

  /** Some label is l, ignoring case. */
  predicate Found(l: string, labels: seq<string>)
  {
    exists j | 0 <= j < |labels| :: ToLower(labels[j]) == ToLower(l)
  }

  /** A rule matches exactly when each of its labels is one of the given labels, ignoring case. */
  lemma RuleMatchesMeans(rule: RequestRule, labels: seq<string>)
    ensures RuleMatches(rule, LoweredSet(labels)) <==> forall k | 0 <= k < |rule.labels| :: Found(rule.labels[k], labels)
  {
    forall k | 0 <= k < |rule.labels|
      ensures ToLower(ToLower(rule.labels[k])) in LoweredSet(labels) <==> Found(rule.labels[k], labels)
    {
      LowerTwice(rule.labels[k]);
    }
  }

  /** A rule without labels matches any labels, so no rule after it is ever chosen. */
  lemma EmptyRuleMatches(rule: RequestRule, labels: seq<string>)
    requires rule.labels == []
    ensures RuleMatches(rule, LoweredSet(labels))
  {
  }

  /** Matching ignores case: the labels upper-cased pick the same rules. */
  lemma MatchIgnoresCase(rule: RequestRule, labels: seq<string>)
    ensures RuleMatches(rule, LoweredSet(labels)) == RuleMatches(rule, LoweredSet(seq(|labels|, i requires 0 <= i < |labels| => ToUpper(labels[i]))))
  {
    var up := seq(|labels|, i requires 0 <= i < |labels| => ToUpper(labels[i]));
    forall i | 0 <= i < |labels|
      ensures ToLower(up[i]) == ToLower(labels[i])
    {
      LowerOfUpper(labels[i]);
    }
    forall l | l in LoweredSet(labels)
      ensures l in LoweredSet(up)
    {
      var k :| 0 <= k < |labels| && ToLower(labels[k]) == l;
      assert ToLower(up[k]) == l;
    }
    forall l | l in LoweredSet(up)
      ensures l in LoweredSet(labels)
    {
      var k :| 0 <= k < |up| && ToLower(up[k]) == l;
      assert ToLower(labels[k]) == l;
    }
    assert LoweredSet(up) == LoweredSet(labels);
  }

  // ---------------------------------------------------------------------
  // The status.

  class Status {
    const issue: SourceIssue
    const repo: string
    const lastGooglerUpdate: int
    var ruleId: int
    var sloId: int
    var priority: Priority
    var issueType: IssueType
    var priorityUnknown: bool
    var labels: seq<string>
    var blocked: bool
    var releaseBlocking: bool
    var updateCompliance: Option<ComplianceResponse>
    var resolutionCompliance: Option<ComplianceResponse>
    var compliantUpdates: Option<Compliance>
    var compliantResolution: Option<Compliance>
    var issueId: int
    var url: string
    var title: string
    var assignees: seq<string>

    /**
     * The status TranslateIssueToStatus starts from: priority P2 marked
     * unknown, no labels yet, the issue's number and title copied.
     */
    constructor (issue0: SourceIssue, repo0: string, lastGooglerUpdate0: int)
      ensures issue == issue0 && repo == repo0 && lastGooglerUpdate == lastGooglerUpdate0
      ensures priority == P2 && priorityUnknown && issueType == TypeUnknown && labels == []
      ensures !blocked && !releaseBlocking && ruleId == 0 && sloId == 0
      ensures updateCompliance.None? && resolutionCompliance.None?
      ensures compliantUpdates.None? && compliantResolution.None?
      ensures issueId == issue0.number && title == issue0.title && assignees == issue0.assignees && url == ""
    {
      issue, repo, lastGooglerUpdate := issue0, repo0, lastGooglerUpdate0;
      ruleId, sloId := 0, 0;
      priority, issueType, priorityUnknown := P2, TypeUnknown, true;
      labels, blocked, releaseBlocking := [], false, false;
      updateCompliance, resolutionCompliance := None, None;
      compliantUpdates, compliantResolution := None, None;
      issueId, url, title, assignees := issue0.number, "", issue0.title, issue0.assignees;
    }

    /** MakeURL: the issue's page under the status's repository. */
    function MakeUrl(): (u: string)
      reads this
      ensures HasPrefix(u, "https://github.com/")
      ensures u == "https://github.com/" + repo + "/issues/" + IntToString(issue.number)
    {
      "https://github.com/" + repo + "/issues/" + IntToString(issue.number)
    }

    /** The fields FillLabels overwrites. */
    function LabelFields(): LabelState
      reads this
    {
      LabelState(priority, priorityUnknown, issueType, blocked, releaseBlocking)
    }

    /**
     * FillLabels: every label name is appended; the last label selecting
     * a priority decides the priority (and clears unknown), the last one
     * selecting a type decides the type, and any label selecting blocked
     * or release-blocking sets that flag. Nothing else changes.
     */
    method FillLabels()
      modifies this
      ensures labels == old(labels) + issue.labels
      ensures LabelFields() == Labelled(old(LabelFields()), Cases(issue.labels))
      ensures ruleId == old(ruleId) && sloId == old(sloId) && issueId == old(issueId) && url == old(url)
      ensures title == old(title) && assignees == old(assignees)
      ensures updateCompliance == old(updateCompliance) && resolutionCompliance == old(resolutionCompliance)
      ensures compliantUpdates == old(compliantUpdates) && compliantResolution == old(compliantResolution)
    {
      var st := ScanLabels(LabelFields(), issue.labels);
      SetLabelFields(labels + issue.labels, st);
    }

    /** Stores the label names and the fields they decide. */
    method SetLabelFields(names: seq<string>, st: LabelState)
      modifies this
      ensures labels == names && LabelFields() == st
      ensures ruleId == old(ruleId) && sloId == old(sloId) && issueId == old(issueId) && url == old(url)
      ensures title == old(title) && assignees == old(assignees)
      ensures updateCompliance == old(updateCompliance) && resolutionCompliance == old(resolutionCompliance)
      ensures compliantUpdates == old(compliantUpdates) && compliantResolution == old(compliantResolution)
    {
      labels := names;
      priority, priorityUnknown, issueType := st.priority, st.priorityUnknown, st.issueType;
      blocked, releaseBlocking := st.blocked, st.releaseBlocking;
    }

    /**
     * Fill: the labels, then both compliance values against the fixed
     * objectives for the priority now set, the issue id, URL, assignees
     * and title.
     */
    method Fill(now: int)
      modifies this
      ensures labels == old(labels) + issue.labels
      ensures LabelFields() == Labelled(old(LabelFields()), Cases(issue.labels))
      ensures compliantUpdates == Some(CompliantUpdates(priority, lastGooglerUpdate, now))
      ensures compliantResolution == Some(CompliantResolution(priority, issue, now))
      ensures issueId == issue.number && url == MakeUrl() && assignees == issue.assignees && title == issue.title
      ensures ruleId == old(ruleId) && sloId == old(sloId)
      ensures updateCompliance == old(updateCompliance) && resolutionCompliance == old(resolutionCompliance)
    {
      FillLabels();
      compliantUpdates := Some(CompliantUpdates(priority, lastGooglerUpdate, now));
      compliantResolution := Some(CompliantResolution(priority, issue, now));
      FillIssueFields();
    }

    /** The issue id, URL, assignees and title, set last by Fill and FillWithSLO. */
    method FillIssueFields()
      modifies this
      ensures issueId == issue.number && url == MakeUrl() && assignees == issue.assignees && title == issue.title
      ensures labels == old(labels) && LabelFields() == old(LabelFields())
      ensures ruleId == old(ruleId) && sloId == old(sloId)
      ensures updateCompliance == old(updateCompliance) && resolutionCompliance == old(resolutionCompliance)
      ensures compliantUpdates == old(compliantUpdates) && compliantResolution == old(compliantResolution)
    {
      issueId := issue.number;
      url := MakeUrl();
      assignees := issue.assignees;
      title := issue.title;
    }

    /** The rule FillWithSLO found, if any: its id and both compliance values. */
    method ApplyRule(rule: Option<RequestRule>, now: int)
      modifies this
      ensures rule.Some? ==>
        ruleId == rule.value.id
        && updateCompliance == Some(RuleCompliantUpdates(rule.value, lastGooglerUpdate, now))
        && resolutionCompliance == Some(RuleCompliantResolution(rule.value, issue.created, now))
      ensures rule.None? ==>
        ruleId == old(ruleId) && updateCompliance == old(updateCompliance)
        && resolutionCompliance == old(resolutionCompliance)
      ensures labels == old(labels) && LabelFields() == old(LabelFields()) && sloId == old(sloId)
      ensures compliantUpdates == old(compliantUpdates) && compliantResolution == old(compliantResolution)
    {
      if rule.Some? {
        ruleId := rule.value.id;
        updateCompliance := Some(RuleCompliantUpdates(rule.value, lastGooglerUpdate, now));
        resolutionCompliance := Some(RuleCompliantResolution(rule.value, issue.created, now));
      }
    }

    /**
     * FillWithSLO: the labels, the configuration's id, and when a rule
     * matches the labels now gathered, its id and compliance: updates
     * since the last Googler update, resolution since creation.
     */
    method FillWithSlo(slo: RequestConfig, now: int)
      modifies this
      ensures labels == old(labels) + issue.labels
      ensures sloId == slo.id
      ensures LabelFields() == Labelled(old(LabelFields()), Cases(issue.labels))
      ensures var k := FirstMatching(slo.rules, LoweredSet(labels));
        k < |slo.rules| ==>
          ruleId == slo.rules[k].id
          && updateCompliance == Some(RuleCompliantUpdates(slo.rules[k], lastGooglerUpdate, now))
          && resolutionCompliance == Some(RuleCompliantResolution(slo.rules[k], issue.created, now))
      ensures FirstMatching(slo.rules, LoweredSet(labels)) == |slo.rules| ==>
        ruleId == old(ruleId) && updateCompliance == old(updateCompliance)
        && resolutionCompliance == old(resolutionCompliance)
      ensures issueId == issue.number && url == MakeUrl() && assignees == issue.assignees && title == issue.title
      ensures compliantUpdates == old(compliantUpdates) && compliantResolution == old(compliantResolution)
    {
      FillLabels();
      sloId := slo.id;
      var rule := Rule(slo, labels);
      ApplyRule(rule, now);
      FillIssueFields();
    }
  }

  /** The status URL of an issue in "owner/repo" is the URL of the issue message. */
  lemma UrlsAgree(s: Status, owner: string, repo: string)
    requires s.repo == Maintnerd.RepoPath(owner, repo)
    ensures s.MakeUrl() == Maintnerd.IssueUrl(owner, repo, s.issue.number)
  {
  }
}
