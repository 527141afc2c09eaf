// leif/parse_slo_rules.go: reading the SLO rules of a repository from
// JSON. A rule is decoded over its defaults into sloRuleJSON, its
// responders are defaulted and then gathered into one list (the users
// named, the repository owner, the handles found in the owners files and
// the collaborators with the required permission), and the result is
// re-read as an SLORule.
//
// JSON arrives as the decoded value (Json below); turning bytes into that
// value, and the bytes that marshalling writes, are left to encoding/json.
// Fetching a file and listing collaborators are GitHub calls: they are
// parameters (a file fetch that may fail, and the collaborator list).
module SloRules {
  import opened Wrappers
  import opened Strs
  import opened Durations
  import opened DayDurations

  /** A decoded JSON value; numbers are whole. */
  datatype Json =
    | JNull
    | JBool(b: bool)
    | JNumber(n: int)
    | JString(s: string)
    | JArray(items: seq<Json>)
    | JObject(members: seq<Member>)

  /** One key of a JSON object and its value, in document order. */
  datatype Member = Member(key: string, value: Json)

  /** The value a decoder leaves in its target, and its error. */
  datatype Decoded<T> = Decoded(value: T, err: Option<string>)

  const TypeError: string := "json: cannot unmarshal value of this type"

  function FirstErr(a: Option<string>, b: Option<string>): Option<string>
  {
    if a.Some? then a else b
  }

  // ---------------------------------------------------------------------
  // Leaf decoders: how encoding/json fills one field of each Go type.

  /** A bool field: set by a boolean, kept by null, a type error otherwise. */
  function DecodeBool(j: Json, cur: bool): (d: Decoded<bool>)
    ensures d.err.None? <==> j.JBool? || j.JNull?
    ensures d.value == if j.JBool? then j.b else cur
  {
    match j
    case JBool(b) => Decoded(b, None)
    case JNull => Decoded(cur, None)
    case _ => Decoded(cur, Some(TypeError))
  }

  /** A string field: set by a string, kept by null, a type error otherwise. */
  function DecodeString(j: Json, cur: string): (d: Decoded<string>)
    ensures d.err.None? <==> j.JString? || j.JNull?
    ensures d.value == if j.JString? then j.s else cur
  {
    match j
    case JString(s) => Decoded(s, None)
    case JNull => Decoded(cur, None)
    case _ => Decoded(cur, Some(TypeError))
  }

  /** The elements of a []string: strings kept, anything else left as "". */
  function StringsOf(items: seq<Json>): (r: seq<string>)
    ensures |r| == |items|
    ensures forall i | 0 <= i < |items| :: r[i] == if items[i].JString? then items[i].s else ""
  {
    if items == [] then [] else [if items[0].JString? then items[0].s else ""] + StringsOf(items[1..])
  }

  /** Every element can go into a string (a string, or null that leaves "" in place). */
  predicate StringElements(items: seq<Json>)
  {
    forall i | 0 <= i < |items| :: items[i].JString? || items[i].JNull?
  }

  /** A []string field: an array replaces it, null makes it nil, anything else is a type error. */
  function DecodeStrings(j: Json, cur: Option<seq<string>>): (d: Decoded<Option<seq<string>>>)
    ensures d.err.None? <==> (j.JArray? && StringElements(j.items)) || j.JNull?
  {
    match j
    case JArray(items) => Decoded(Some(StringsOf(items)), if StringElements(items) then None else Some(TypeError))
    case JNull => Decoded(None, None)
    case _ => Decoded(cur, Some(TypeError))
  }

  /**
   * stringOrArray.UnmarshalJSON: a string becomes a one-element list, an
   * array (or null) is read as a []string; the list is stored even when
   * that fails.
   */
  function DecodeStringOrArray(j: Json): (d: Decoded<Option<seq<string>>>)
    ensures j.JString? ==> d == Decoded(Some([j.s]), None)
    ensures j.JArray? ==> d.value == Some(StringsOf(j.items))
    ensures d.err.None? <==> j.JString? || j.JNull? || (j.JArray? && StringElements(j.items))
  {
    if j.JString? then Decoded(Some([j.s]), None) else DecodeStrings(j, None)
  }

  /** A list of strings written as a JSON array. */
  function StringArray(xs: seq<string>): (j: Json)
    ensures j.JArray? && |j.items| == |xs|
    ensures forall i | 0 <= i < |xs| :: j.items[i] == JString(xs[i])
  {
    if xs == [] then JArray([]) else JArray([JString(xs[0])] + StringArray(xs[1..]).items)
  }

  /** The strings of an array written from a list are that list. */
  lemma {:induction false} StringsOfArray(xs: seq<string>)
    ensures StringsOf(StringArray(xs).items) == xs
  {
    if xs != [] {
      StringsOfArray(xs[1..]);
      var items := StringArray(xs).items;
      assert items[1..] == StringArray(xs[1..]).items;
      assert xs == [xs[0]] + xs[1..];
    }
  }

  /** A list written as an array, or a single string, reads back as itself. */
  lemma StringOrArrayRoundTrip(xs: seq<string>)
    ensures DecodeStringOrArray(StringArray(xs)) == Decoded(Some(xs), None)
    ensures |xs| == 1 ==> DecodeStringOrArray(JString(xs[0])) == Decoded(Some(xs), None)
  {
    var items := StringArray(xs).items;
    assert StringElements(items);
    StringsOfArray(xs);
    if |xs| == 1 {
      assert xs == [xs[0]];
    }
  }

  /**
   * duration.UnmarshalJSON: a string is parsed with its days, and an
   * error leaves 0 (what the parser returns with it); a number counts
   * seconds, multiplied in int64; anything else is an error and leaves the
   * value as it was.
   */
  function DecodeDuration(j: Json, cur: int): (d: Decoded<int>)
    ensures j.JString? ==> (d.err.None? <==> ParseDurationWithDaysAsWritten(j.s).Ok?)
    ensures j.JString? && d.err.None? ==> d.value == ParseDurationWithDaysAsWritten(j.s).value
    ensures j.JString? && d.err.Some? ==> d.value == 0
    ensures j.JNumber? && -Limit <= j.n * Second < Limit ==> d == Decoded(j.n * Second, None)
    ensures !j.JString? && !j.JNumber? ==> d == Decoded(cur, Some("Invalid duration format"))
  {
    match j
    case JString(s) =>
      var r := ParseDurationWithDaysAsWritten(s);
      if r.Ok? then Decoded(r.value, None) else Decoded(0, Some(r.msg))
    case JNumber(n) => Decoded(Wrap64(n * Second), None)
    case _ => Decoded(cur, Some("Invalid duration format"))
  }

  /** "2d" is read as 172800000000000 nanoseconds. */
  lemma TwoDays(cur: int)
    ensures DecodeDuration(JString("2d"), cur) == Decoded(172800000000000, None)
  {
    DaysText(2, AtoiDay);
    assert NatToString(2) + "d" == "2d";
    assert AtoiDay(2) == NatToString(48) + "h";
    WithDaysAsWritten("2d", NatToString(48) + "h");
    ParseHours(48);
    TimesIsProduct(48, Hour);
  }

  /**
   * A duration string mixing days and the units of Go's time package,
   * below 1<<63 nanoseconds, is read as its total, a day being 24 hours.
   */
  lemma DecodeParts(ps: seq<Part>, cur: int)
    requires ps != [] && Total(InHours(ps)) < Limit
    ensures DecodeDuration(JString(RenderParts(ps)), cur) == Decoded(Total(InHours(ps)), None)
  {
    ParsePartsAsWritten(ps);
  }

  /** While 24n fits in int64, "<n>d" is read as n days below 1<<63 nanoseconds and is otherwise an error leaving 0. */
  lemma DecodeDays(n: nat, cur: int)
    requires n * 24 < Limit
    ensures DecodeDuration(JString(NatToString(n) + "d"), cur) ==
      if n * 24 * Hour < Limit then Decoded(n * 24 * Hour, None) else Decoded(0, Some("time: invalid duration"))
  {
    ParseDaysAsWritten(n);
  }

  /** A duration; it marshals as its nanoseconds. */
  class Duration {
    var ns: int

    constructor (ns0: int)
      ensures ns == ns0
    {
      ns := ns0;
    }

    method MarshalJSON() returns (j: Json)
      ensures j == JNumber(ns)
    {
      return JNumber(ns);
    }

    method UnmarshalJSON(data: Json) returns (err: Option<string>)
      modifies this
      ensures Decoded(ns, err) == DecodeDuration(data, old(ns))
    {
      var d := DecodeDuration(data, ns);
      ns := d.value;
      err := d.err;
    }
  }

  /** A stringOrArray: a list of strings that JSON may give as one string. */
  class StringOrArray {
    /** The slice; None is Go's nil. */
    var items: Option<seq<string>>

    constructor ()
      ensures items.None?
    {
      items := None;
    }

    method UnmarshalJSON(data: Json) returns (err: Option<string>)
      modifies this
      ensures Decoded(items, err) == DecodeStringOrArray(data)
    {
      var d := DecodeStringOrArray(data);
      items := d.value;
      err := d.err;
    }
  }

  // ---------------------------------------------------------------------
  // The intermediate rule and its decoding over the defaults.

  datatype AppliesToJson = AppliesToJson(
    gitHubLabels: Option<seq<string>>, excludedGitHubLabels: Option<seq<string>>, issues: bool, prs: bool)

  datatype RespondersJson = RespondersJson(owners: Option<seq<string>>, contributors: string, users: Option<seq<string>>)

  datatype ComplianceJson = ComplianceJson(
    responseTime: int, resolutionTime: int, requiresAssignee: bool, responders: RespondersJson)

  /**
   * Whether an object key names a field, given the field's name in lower
   * case: encoding/json matches names without regard to case.
   */
  predicate Names(key: string, lowered: string) { ToLower(key) == lowered }

  function AppliesToMember(cur: AppliesToJson, m: Member): Decoded<AppliesToJson>
  {
    if Names(m.key, "githublabels") then
      var d := DecodeStringOrArray(m.value); Decoded(cur.(gitHubLabels := d.value), d.err)
    else if Names(m.key, "excludedgithublabels") then
      var d := DecodeStringOrArray(m.value); Decoded(cur.(excludedGitHubLabels := d.value), d.err)
    else if Names(m.key, "issues") then
      var d := DecodeBool(m.value, cur.issues); Decoded(cur.(issues := d.value), d.err)
    else if Names(m.key, "prs") then
      var d := DecodeBool(m.value, cur.prs); Decoded(cur.(prs := d.value), d.err)
    else Decoded(cur, None)
  }

  function RespondersMember(cur: RespondersJson, m: Member): Decoded<RespondersJson>
  {
    if Names(m.key, "owners") then
      var d := DecodeStringOrArray(m.value); Decoded(cur.(owners := d.value), d.err)
    else if Names(m.key, "contributors") then
      var d := DecodeString(m.value, cur.contributors); Decoded(cur.(contributors := d.value), d.err)
    else if Names(m.key, "users") then
      var d := DecodeStrings(m.value, cur.users); Decoded(cur.(users := d.value), d.err)
    else Decoded(cur, None)
  }

  /** The members of an object decoded in order into cur: a later key overwrites an earlier one. */
  function RespondersMembers(cur: RespondersJson, ms: seq<Member>): Decoded<RespondersJson>
    decreases |ms|
  {
    if ms == [] then Decoded(cur, None)
    else
      var d := RespondersMember(cur, ms[0]);
      var rest := RespondersMembers(d.value, ms[1..]);
      Decoded(rest.value, FirstErr(d.err, rest.err))
  }

  function AppliesToMembers(cur: AppliesToJson, ms: seq<Member>): Decoded<AppliesToJson>
    decreases |ms|
  {
    if ms == [] then Decoded(cur, None)
    else
      var d := AppliesToMember(cur, ms[0]);
      var rest := AppliesToMembers(d.value, ms[1..]);
      Decoded(rest.value, FirstErr(d.err, rest.err))
  }

  /** A struct field: an object is decoded into it, null keeps it, anything else is a type error. */
  function DecodeResponders(j: Json, cur: RespondersJson): Decoded<RespondersJson>
  {
    match j
    case JObject(ms) => RespondersMembers(cur, ms)
    case JNull => Decoded(cur, None)
    case _ => Decoded(cur, Some(TypeError))
  }

  function DecodeAppliesTo(j: Json, cur: AppliesToJson): Decoded<AppliesToJson>
  {
    match j
    case JObject(ms) => AppliesToMembers(cur, ms)
    case JNull => Decoded(cur, None)
    case _ => Decoded(cur, Some(TypeError))
  }

  function ComplianceMember(cur: ComplianceJson, m: Member): Decoded<ComplianceJson>
  {
    if Names(m.key, "responsetime") then
      var d := DecodeDuration(m.value, cur.responseTime); Decoded(cur.(responseTime := d.value), d.err)
    else if Names(m.key, "resolutiontime") then
      var d := DecodeDuration(m.value, cur.resolutionTime); Decoded(cur.(resolutionTime := d.value), d.err)
    else if Names(m.key, "requiresassignee") then
      var d := DecodeBool(m.value, cur.requiresAssignee); Decoded(cur.(requiresAssignee := d.value), d.err)
    else if Names(m.key, "responders") then
      var d := DecodeResponders(m.value, cur.responders); Decoded(cur.(responders := d.value), d.err)
    else Decoded(cur, None)
  }

  function ComplianceMembers(cur: ComplianceJson, ms: seq<Member>): Decoded<ComplianceJson>
    decreases |ms|
  {
    if ms == [] then Decoded(cur, None)
    else
      var d := ComplianceMember(cur, ms[0]);
      var rest := ComplianceMembers(d.value, ms[1..]);
      Decoded(rest.value, FirstErr(d.err, rest.err))
  }

  function DecodeCompliance(j: Json, cur: ComplianceJson): Decoded<ComplianceJson>
  {
    match j
    case JObject(ms) => ComplianceMembers(cur, ms)
    case JNull => Decoded(cur, None)
    case _ => Decoded(cur, Some(TypeError))
  }

  /** The two halves of a rule. */
  datatype RuleJson = RuleJson(appliesTo: AppliesToJson, compliance: ComplianceJson)

  function RuleMember(cur: RuleJson, m: Member): Decoded<RuleJson>
  {
    if Names(m.key, "appliesto") then
      var d := DecodeAppliesTo(m.value, cur.appliesTo); Decoded(cur.(appliesTo := d.value), d.err)
    else if Names(m.key, "compliancesettings") then
      var d := DecodeCompliance(m.value, cur.compliance); Decoded(cur.(compliance := d.value), d.err)
    else Decoded(cur, None)
  }

  function RuleMembers(cur: RuleJson, ms: seq<Member>): Decoded<RuleJson>
    decreases |ms|
  {
    if ms == [] then Decoded(cur, None)
    else
      var d := RuleMember(cur, ms[0]);
      var rest := RuleMembers(d.value, ms[1..]);
      Decoded(rest.value, FirstErr(d.err, rest.err))
  }

  /** A rule decoded over cur; a JSON value that is not an object is a type error. */
  function DecodeRule(j: Json, cur: RuleJson): Decoded<RuleJson>
    requires !j.JNull?
  {
    match j
    case JObject(ms) => RuleMembers(cur, ms)
    case _ => Decoded(cur, Some(TypeError))
  }

  /** newSLORuleJSON: issues only, no assignee required, nothing else set. */
  const DefaultRule: RuleJson :=
    RuleJson(AppliesToJson(None, None, true, false), ComplianceJson(0, 0, false, RespondersJson(None, "", None)))

  /** A key that names none of the fields of a rule. */
  predicate UnknownRuleKey(key: string)
  {
    !Names(key, "appliesto") && !Names(key, "compliancesettings")
  }

  /** Keys that name no field are skipped: decoding them keeps every value and reports nothing. */
  lemma {:induction false} UnknownKeysIgnored(cur: RuleJson, ms: seq<Member>)
    requires forall i | 0 <= i < |ms| :: UnknownRuleKey(ms[i].key)
    ensures RuleMembers(cur, ms) == Decoded(cur, None)
  {
    if ms != [] {
      UnknownKeysIgnored(cur, ms[1..]);
    }
  }

  /** Decoding stops at no error: the value is that of the members in order, the error the first one. */
  lemma {:induction false} RuleMembersAppend(cur: RuleJson, a: seq<Member>, b: seq<Member>)
    ensures RuleMembers(cur, a + b).value == RuleMembers(RuleMembers(cur, a).value, b).value
    ensures RuleMembers(cur, a + b).err == FirstErr(RuleMembers(cur, a).err, RuleMembers(RuleMembers(cur, a).value, b).err)
    decreases |a|
  {
    if a == [] {
      assert a + b == b;
    } else {
      assert (a + b)[1..] == a[1..] + b;
      RuleMembersAppend(RuleMember(cur, a[0]).value, a[1..], b);
    }
  }

  // ---------------------------------------------------------------------
  // Responders.

  /** `[^\s|,]`: a character of a handle. */
  predicate HandleChar(c: char) { !IsSpace(c) && c != '|' && c != ',' }

  /** End of the run of handle characters that starts at position i of s. */
  function HandleEnd(s: string, i: nat): (j: nat)
    requires i <= |s|
    ensures i <= j <= |s| && (forall k | i <= k < j :: HandleChar(s[k])) && (j < |s| ==> !HandleChar(s[j]))
    decreases |s| - i
  {
    if i == |s| || !HandleChar(s[i]) then i else HandleEnd(s, i + 1)
  }

  /**
   * The first groups of the matches of `@([^\s|,]+)` in s, left to right:
   * an '@' followed by the longest run of handle characters. An '@' is
   * itself a handle character, so it can be part of a handle.
   */
  function Handles(s: string): (hs: seq<string>)
    ensures forall i | 0 <= i < |hs| :: hs[i] != [] && forall k | 0 <= k < |hs[i]| :: HandleChar(hs[i][k])
    decreases |s|
  {
    if |s| < 2 then []
    else if s[0] == '@' && HandleChar(s[1]) then
      var j := HandleEnd(s, 1);
      [s[1..j]] + Handles(s[j..])
    else Handles(s[1..])
  }

  /** Handles written as "@h, " each, as an owners file lists them. */
  function Mentions(hs: seq<string>): string
  {
    if hs == [] then "" else "@" + hs[0] + ", " + Mentions(hs[1..])
  }

  lemma HandleEndAt(s: string, i: nat, j: nat)
    requires i <= j <= |s| && (forall k | i <= k < j :: HandleChar(s[k])) && (j < |s| ==> !HandleChar(s[j]))
    ensures HandleEnd(s, i) == j
    decreases j - i
  {
    if i < j {
      HandleEndAt(s, i + 1, j);
    }
  }

  /** The handles listed in an owners file are found, in order. */
  lemma {:induction false} HandlesOfMentions(hs: seq<string>)
    requires forall i | 0 <= i < |hs| :: hs[i] != [] && forall k | 0 <= k < |hs[i]| :: HandleChar(hs[i][k])
    ensures Handles(Mentions(hs)) == hs
  {
    if hs != [] {
      var h := hs[0];
      var rest := Mentions(hs[1..]);
      var s := "@" + h + ", " + rest;
      assert Mentions(hs) == s;
      HandleEndAt(s, 1, |h| + 1);
      assert s[1..|h| + 1] == h;
      assert s[|h| + 1..] == ", " + rest;
      var t := ", " + rest;
      assert Handles(t) == Handles(t[1..]) by {
        assert |t| >= 2 && t[0] != '@';
      }
      assert t[1..] == " " + rest;
      assert Handles(" " + rest) == Handles(rest) by {
        if |" " + rest| >= 2 {
          assert (" " + rest)[1..] == rest;
        } else {
          assert rest == [];
        }
      }
      HandlesOfMentions(hs[1..]);
    }
  }

  /** A collaborator of the repository and its permissions. */
  datatype Collaborator = Collaborator(login: string, permissions: map<string, bool>)

  /** A permission lookup: a missing key reads false. */
  predicate Has(c: Collaborator, p: string) { p in c.permissions && c.permissions[p] }

  /** Whether a collaborator is a responder at the contributors level: ADMIN wants admin, WRITE wants pull and push. */
  predicate Qualifies(c: Collaborator, level: string)
  {
    (level == "ADMIN" && Has(c, "admin")) || (level == "WRITE" && Has(c, "pull") && Has(c, "push"))
  }

  /** The logins of the qualifying collaborators, in order. */
  function Qualified(cs: seq<Collaborator>, level: string): seq<string>
  {
    if cs == [] then []
    else Qualified(cs[..|cs| - 1], level) + (if Qualifies(cs[|cs| - 1], level) then [cs[|cs| - 1].login] else [])
  }

  /** The handles in one owners file, or none when it cannot be fetched. */
  function FileHandles(path: string, fetch: string -> Option<string>): seq<string>
  {
    match fetch(path)
    case None => []
    case Some(file) => Handles(file)
  }

  /** The handles of the owners files, file after file. */
  function OwnerHandles(paths: seq<string>, fetch: string -> Option<string>): seq<string>
  {
    if paths == [] then []
    else OwnerHandles(paths[..|paths| - 1], fetch) + FileHandles(paths[|paths| - 1], fetch)
  }

  function OrEmpty(xs: Option<seq<string>>): seq<string>
  {
    if xs.Some? then xs.value else []
  }

  /** Whether the collaborators are consulted: a level other than "" and OWNER, and a repository name. */
  predicate ListsCollaborators(r: RespondersJson, repo: string)
  {
    r.contributors != "" && r.contributors != "OWNER" && |repo| > 0
  }

  /** The responders prepareForMarshalling gathers. */
  function ValidResponders(r: RespondersJson, owner: string, repo: string,
                           fetch: string -> Option<string>, cs: seq<Collaborator>): seq<string>
  {
    OrEmpty(r.users) + [owner] + OwnerHandles(OrEmpty(r.owners), fetch)
    + (if ListsCollaborators(r, repo) then Qualified(cs, r.contributors) else [])
  }

  lemma {:induction false} QualifiedMember(cs: seq<Collaborator>, level: string, x: string)
    ensures x in Qualified(cs, level) <==> exists c | c in cs :: Qualifies(c, level) && c.login == x
  {
    if cs != [] {
      var init := cs[..|cs| - 1];
      var last := cs[|cs| - 1];
      QualifiedMember(init, level, x);
      assert cs == init + [last];
      if x in Qualified(cs, level) && x !in Qualified(init, level) {
        assert Qualifies(last, level) && last.login == x;
      }
      if exists c | c in cs :: Qualifies(c, level) && c.login == x {
        var c :| c in cs && Qualifies(c, level) && c.login == x;
        if c != last {
          assert c in init;
        }
      }
    }
  }

  /** A handle gathered from the owners files comes from one of them. */
  lemma {:induction false} OwnerHandlesFrom(paths: seq<string>, fetch: string -> Option<string>, x: string)
    returns (p: string)
    requires x in OwnerHandles(paths, fetch)
    ensures p in paths && x in FileHandles(p, fetch)
  {
    var init := paths[..|paths| - 1];
    var last := paths[|paths| - 1];
    assert paths == init + [last];
    if x in FileHandles(last, fetch) {
      p := last;
    } else {
      p := OwnerHandlesFrom(init, fetch, x);
    }
  }

  /** Every handle of every owners file is gathered. */
  lemma {:induction false} OwnerHandlesHas(paths: seq<string>, fetch: string -> Option<string>, p: string, x: string)
    requires p in paths && x in FileHandles(p, fetch)
    ensures x in OwnerHandles(paths, fetch)
  {
    var init := paths[..|paths| - 1];
    var last := paths[|paths| - 1];
    assert paths == init + [last];
    if p != last {
      OwnerHandlesHas(init, fetch, p, x);
    }
  }

  lemma OwnerHandlesMember(paths: seq<string>, fetch: string -> Option<string>, x: string)
    ensures x in OwnerHandles(paths, fetch) <==> exists p | p in paths :: x in FileHandles(p, fetch)
  {
    if x in OwnerHandles(paths, fetch) {
      var p := OwnerHandlesFrom(paths, fetch, x);
    }
    if exists p | p in paths :: x in FileHandles(p, fetch) {
      var p :| p in paths && x in FileHandles(p, fetch);
      OwnerHandlesHas(paths, fetch, p, x);
    }
  }

  /**
   * Who is a responder: a user named in the rule, the owner of the
   * repository, a handle in a fetched owners file, or a collaborator with
   * the permission the contributors level asks for (none for "" or OWNER).
   */
  lemma ResponderMembers(r: RespondersJson, owner: string, repo: string,
                         fetch: string -> Option<string>, cs: seq<Collaborator>, x: string)
    ensures x in ValidResponders(r, owner, repo, fetch, cs) <==>
      x in OrEmpty(r.users) || x == owner
      || (exists p | p in OrEmpty(r.owners) :: x in FileHandles(p, fetch))
      || (ListsCollaborators(r, repo) && exists c | c in cs :: Qualifies(c, r.contributors) && c.login == x)
  {
    OwnerHandlesMember(OrEmpty(r.owners), fetch, x);
    QualifiedMember(cs, r.contributors, x);
  }

  /** applyResponderDefault as a function of the responders. */
  function ResponderDefault(r: RespondersJson): RespondersJson
  {
    if r.owners.None? && |r.contributors| < 1 && r.users.None? then r.(contributors := "WRITE") else r
  }

  /** The default applies once: applying it again changes nothing, and it fills only contributors. */
  lemma ResponderDefaultSettles(r: RespondersJson)
    ensures ResponderDefault(ResponderDefault(r)) == ResponderDefault(r)
    ensures ResponderDefault(r).owners == r.owners && ResponderDefault(r).users == r.users
    ensures ResponderDefault(r) != r <==> r.owners.None? && r.contributors == "" && r.users.None?
  {
  }

  // ---------------------------------------------------------------------
  // The rule leif keeps.

  datatype AppliesTo = AppliesTo(gitHubLabels: seq<string>, excludedGitHubLabels: seq<string>, issues: bool, prs: bool)

  datatype ComplianceSettings = ComplianceSettings(
    responseTime: int, resolutionTime: int, requiresAssignee: bool, responders: seq<string>)

  datatype SloRule = SloRule(appliesTo: AppliesTo, complianceSettings: ComplianceSettings)

  /**
   * Marshalling the intermediate rule and reading it back as an SLORule:
   * each field is carried over, the responders being the marshalled users
   * (a nil list reads back as an empty one).
   */
  function ToSloRule(r: RuleJson): (s: SloRule)
    ensures s.appliesTo.issues == r.appliesTo.issues && s.appliesTo.prs == r.appliesTo.prs
    ensures s.appliesTo.gitHubLabels == OrEmpty(r.appliesTo.gitHubLabels)
    ensures s.appliesTo.excludedGitHubLabels == OrEmpty(r.appliesTo.excludedGitHubLabels)
    ensures s.complianceSettings.responseTime == r.compliance.responseTime
    ensures s.complianceSettings.resolutionTime == r.compliance.resolutionTime
    ensures s.complianceSettings.requiresAssignee == r.compliance.requiresAssignee
    ensures s.complianceSettings.responders == OrEmpty(r.compliance.responders.users)
  {
    var a := r.appliesTo;
    var c := r.compliance;
    SloRule(AppliesTo(OrEmpty(a.gitHubLabels), OrEmpty(a.excludedGitHubLabels), a.issues, a.prs),
            ComplianceSettings(c.responseTime, c.resolutionTime, c.requiresAssignee, OrEmpty(c.responders.users)))
  }

  /** parseSLORule: decode over the defaults, default and gather the responders, convert. */
  function ParseRule(raw: Json, owner: string, repo: string,
                     fetch: string -> Option<string>, cs: seq<Collaborator>): Result<SloRule>
    requires !raw.JNull?
  {
    var d := DecodeRule(raw, DefaultRule);
    if d.err.Some? then Err(d.err.value)
    else
      var r := ResponderDefault(d.value.compliance.responders);
      var users := ValidResponders(r, owner, repo, fetch, cs);
      Ok(ToSloRule(d.value.(compliance := d.value.compliance.(responders := r.(users := Some(users))))))
  }

  /**
   * An empty rule object gives the defaults: issues only, no labels, zero
   * times, no assignee required, and as responders the owner and (for a
   * named repository) the collaborators who can pull and push.
   */
  lemma EmptyRule(owner: string, repo: string, fetch: string -> Option<string>, cs: seq<Collaborator>)
    ensures ParseRule(JObject([]), owner, repo, fetch, cs) ==
      Ok(SloRule(AppliesTo([], [], true, false),
                 ComplianceSettings(0, 0, false, [owner] + (if |repo| > 0 then Qualified(cs, "WRITE") else []))))
  {
    var d := DecodeRule(JObject([]), DefaultRule);
    assert d == Decoded(DefaultRule, None);
    var r := ResponderDefault(DefaultRule.compliance.responders);
    assert r == RespondersJson(None, "WRITE", None);
    assert OwnerHandles([], fetch) == [];
    assert ListsCollaborators(r, repo) <==> |repo| > 0;
    assert ValidResponders(r, owner, repo, fetch, cs) == [owner] + (if |repo| > 0 then Qualified(cs, "WRITE") else []);
  }

  /** The rules parsed in order up to the first that fails, and its error. */
  function ParseRules(raws: seq<Json>, owner: string, repo: string,
                      fetch: string -> Option<string>, cs: seq<Collaborator>): (d: Decoded<seq<SloRule>>)
    requires forall i | 0 <= i < |raws| :: !raws[i].JNull?
    ensures |d.value| <= |raws|
    ensures d.err.None? ==> |d.value| == |raws|
  {
    if raws == [] then Decoded([], None)
    else
      match ParseRule(raws[0], owner, repo, fetch, cs)
      case Err(m) => Decoded([], Some(m))
      case Ok(rule) =>
        var rest := ParseRules(raws[1..], owner, repo, fetch, cs);
        Decoded([rule] + rest.value, rest.err)
  }

  /** Each rule returned is what its raw rule parses to, in order. */
  lemma {:induction false} ParseRulesAt(raws: seq<Json>, owner: string, repo: string,
                                        fetch: string -> Option<string>, cs: seq<Collaborator>, i: nat)
    requires forall k | 0 <= k < |raws| :: !raws[k].JNull?
    requires i < |ParseRules(raws, owner, repo, fetch, cs).value|
    ensures ParseRule(raws[i], owner, repo, fetch, cs) == Ok(ParseRules(raws, owner, repo, fetch, cs).value[i])
  {
    if i > 0 {
      assert raws[1..][i - 1] == raws[i];
      ParseRulesAt(raws[1..], owner, repo, fetch, cs, i - 1);
    }
  }

  /** An error is that of the first raw rule after the returned ones, which fails to parse. */
  lemma {:induction false} ParseRulesErr(raws: seq<Json>, owner: string, repo: string,
                                         fetch: string -> Option<string>, cs: seq<Collaborator>)
    requires forall k | 0 <= k < |raws| :: !raws[k].JNull?
    requires ParseRules(raws, owner, repo, fetch, cs).err.Some?
    ensures var d := ParseRules(raws, owner, repo, fetch, cs);
      |d.value| < |raws| && ParseRule(raws[|d.value|], owner, repo, fetch, cs) == Err(d.err.value)
  {
    if ParseRule(raws[0], owner, repo, fetch, cs).Ok? {
      ParseRulesErr(raws[1..], owner, repo, fetch, cs);
      var rest := ParseRules(raws[1..], owner, repo, fetch, cs);
      assert raws[1..][|rest.value|] == raws[|rest.value| + 1];
    }
  }

  /** The loop over the owners files: each one fetched, its handles appended, a failed fetch skipped. */
  method GatherOwnerHandles(paths: seq<string>, fetch: string -> Option<string>) returns (found: seq<string>)
    ensures found == OwnerHandles(paths, fetch)
  {
    found := [];
    for i := 0 to |paths|
      invariant found == OwnerHandles(paths[..i], fetch)
    {
      assert paths[..i + 1][..i] == paths[..i];
      var file := fetch(paths[i]);
      if file.None? {
        continue;
      }
      var matches := Handles(file.value);
      ghost var before := found;
      for k := 0 to |matches|
        invariant found == before + matches[..k]
      {
        found := found + [matches[k]];
        assert matches[..k + 1] == matches[..k] + [matches[k]];
      }
      assert matches[..|matches|] == matches;
    }
    assert paths[..|paths|] == paths;
  }

  /** The loop over the collaborators: the login of each one that qualifies, in order. */
  method GatherQualified(cs: seq<Collaborator>, level: string) returns (granted: seq<string>)
    ensures granted == Qualified(cs, level)
  {
    granted := [];
    for i := 0 to |cs|
      invariant granted == Qualified(cs[..i], level)
    {
      assert cs[..i + 1][..i] == cs[..i];
      var c := cs[i];
      if (level == "ADMIN" && Has(c, "admin")) || (level == "WRITE" && Has(c, "pull") && Has(c, "push")) {
        granted := granted + [c.login];
      }
    }
    assert cs[..|cs|] == cs;
  }

  /** The intermediate rule, filled in place. */
  class SloRuleJson {
    var appliesTo: AppliesToJson
    var compliance: ComplianceJson

    /** newSLORuleJSON. */
    constructor ()
      ensures RuleJson(appliesTo, compliance) == DefaultRule
    {
      appliesTo := DefaultRule.appliesTo;
      compliance := DefaultRule.compliance;
    }

    /** json.Unmarshal into the rule: the members decoded over the current values. */
    method UnmarshalJSON(raw: Json) returns (err: Option<string>)
      requires !raw.JNull?
      modifies this
      ensures Decoded(RuleJson(appliesTo, compliance), err) == DecodeRule(raw, old(RuleJson(appliesTo, compliance)))
    {
      var d := DecodeRule(raw, RuleJson(appliesTo, compliance));
      appliesTo := d.value.appliesTo;
      compliance := d.value.compliance;
      err := d.err;
    }

    /** applyResponderDefault: contributors become WRITE when no responder at all is given. */
    method ApplyResponderDefault()
      modifies this
      ensures appliesTo == old(appliesTo)
      ensures compliance == old(compliance).(responders := ResponderDefault(old(compliance.responders)))
    {
      var r := compliance.responders;
      if r.owners.None? && |r.contributors| < 1 && r.users.None? {
        compliance := compliance.(responders := r.(contributors := "WRITE"));
      }
    }

    /**
     * prepareForMarshalling: the users become the users given, then the
     * owner, then the handles of each owners file that can be fetched, then
     * the qualifying collaborators.
     */
    method PrepareForMarshalling(owner: string, repo: string,
                                 fetch: string -> Option<string>, cs: seq<Collaborator>)
      modifies this
      ensures appliesTo == old(appliesTo)
      ensures compliance == old(compliance).(responders := old(compliance.responders).(
        users := Some(ValidResponders(old(compliance.responders), owner, repo, fetch, cs))))
    {
      var r := compliance.responders;
      var all := OrEmpty(r.users);
      all := all + [owner];
      var found := GatherOwnerHandles(OrEmpty(r.owners), fetch);
      all := all + found;
      if r.contributors != "" && r.contributors != "OWNER" && |repo| > 0 {
        var granted := GatherQualified(cs, r.contributors);
        all := all + granted;
      }
      assert all == ValidResponders(r, owner, repo, fetch, cs);
      compliance := compliance.(responders := r.(users := Some(all)));
    }

    /** The rule as marshalled and read back. */
    function ToRule(): SloRule
      reads this
    {
      ToSloRule(RuleJson(appliesTo, compliance))
    }
  }

  /** parseSLORule. */
  method ParseSloRule(raw: Json, owner: string, repo: string,
                      fetch: string -> Option<string>, cs: seq<Collaborator>) returns (r: Result<SloRule>)
    requires !raw.JNull?
    ensures r == ParseRule(raw, owner, repo, fetch, cs)
  {
    var rule := new SloRuleJson();
    var err := rule.UnmarshalJSON(raw);
    if err.Some? {
      return Err(err.value);
    }
    rule.ApplyResponderDefault();
    rule.PrepareForMarshalling(owner, repo, fetch, cs);
    return Ok(rule.ToRule());
  }

  /**
   * unmarshalSLOs: no data gives no rules and no error; an array is parsed
   * rule by rule up to the first failure, whose error is returned with the
   * rules before it; null gives no rules; anything else is a type error.
   * The data is None when it is empty.
   */
  method UnmarshalSlos(data: Option<Json>, owner: string, repo: string,
                       fetch: string -> Option<string>, cs: seq<Collaborator>)
    returns (rules: seq<SloRule>, err: Option<string>)
    requires data.Some? && data.value.JArray? ==> forall i | 0 <= i < |data.value.items| :: !data.value.items[i].JNull?
    ensures data.None? || data.value.JNull? ==> rules == [] && err.None?
    ensures data.Some? && data.value.JArray? ==>
      Decoded(rules, err) == ParseRules(data.value.items, owner, repo, fetch, cs)
    ensures data.Some? && !data.value.JArray? && !data.value.JNull? ==> rules == [] && err == Some(TypeError)
  {
    rules := [];
    if data.None? {
      return rules, None;
    }
    if data.value.JNull? {
      return rules, None;
    }
    if !data.value.JArray? {
      return rules, Some(TypeError);
    }
    var raws := data.value.items;
    RulesAfterStart(raws, owner, repo, fetch, cs);
    for i := 0 to |raws|
      invariant ParseRules(raws, owner, repo, fetch, cs) == RulesAfter(raws, i, rules, owner, repo, fetch, cs)
    {
      var rule := ParseSloRule(raws[i], owner, repo, fetch, cs);
      RulesAfterStep(raws, i, rules, owner, repo, fetch, cs);
      if rule.Err? {
        return rules, Some(rule.msg);
      }
      rules := rules + [rule.value];
    }
    RulesAfterEnd(raws, rules, owner, repo, fetch, cs);
    return rules, None;
  }

  /** What parsing all the raw rules gives, once those before i parsed to done. */
  function RulesAfter(raws: seq<Json>, i: nat, done: seq<SloRule>, owner: string, repo: string,
                      fetch: string -> Option<string>, cs: seq<Collaborator>): Decoded<seq<SloRule>>
    requires i <= |raws| && forall k | 0 <= k < |raws| :: !raws[k].JNull?
  {
    var rest := ParseRules(raws[i..], owner, repo, fetch, cs);
    Decoded(done + rest.value, rest.err)
  }

  lemma RulesAfterStart(raws: seq<Json>, owner: string, repo: string,
                        fetch: string -> Option<string>, cs: seq<Collaborator>)
    requires forall k | 0 <= k < |raws| :: !raws[k].JNull?
    ensures RulesAfter(raws, 0, [], owner, repo, fetch, cs) == ParseRules(raws, owner, repo, fetch, cs)
  {
    assert raws[0..] == raws;
    var rest := ParseRules(raws, owner, repo, fetch, cs);
    assert [] + rest.value == rest.value;
  }

  lemma RulesAfterStep(raws: seq<Json>, i: nat, done: seq<SloRule>, owner: string, repo: string,
                       fetch: string -> Option<string>, cs: seq<Collaborator>)
    requires i < |raws| && forall k | 0 <= k < |raws| :: !raws[k].JNull?
    ensures ParseRule(raws[i], owner, repo, fetch, cs).Ok? ==>
      RulesAfter(raws, i, done, owner, repo, fetch, cs)
      == RulesAfter(raws, i + 1, done + [ParseRule(raws[i], owner, repo, fetch, cs).value], owner, repo, fetch, cs)
    ensures ParseRule(raws[i], owner, repo, fetch, cs).Err? ==>
      RulesAfter(raws, i, done, owner, repo, fetch, cs) == Decoded(done, Some(ParseRule(raws[i], owner, repo, fetch, cs).msg))
  {
    assert raws[i..][1..] == raws[i + 1..];
    assert raws[i..][0] == raws[i];
    var rest := ParseRules(raws[i + 1..], owner, repo, fetch, cs);
    match ParseRule(raws[i], owner, repo, fetch, cs)
    case Err(m) =>
      assert done + [] == done;
    case Ok(rule) =>
      assert done + ([rule] + rest.value) == (done + [rule]) + rest.value;
  }

  lemma RulesAfterEnd(raws: seq<Json>, done: seq<SloRule>, owner: string, repo: string,
                      fetch: string -> Option<string>, cs: seq<Collaborator>)
    requires forall k | 0 <= k < |raws| :: !raws[k].JNull?
    ensures RulesAfter(raws, |raws|, done, owner, repo, fetch, cs) == Decoded(done, None)
  {
    assert raws[|raws|..] == [];
    assert done + [] == done;
  }
}
