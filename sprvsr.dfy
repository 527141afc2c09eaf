// sprvsr/k8s_supervisor.go: the supervisor that keeps one Kubernetes
// deployment and one service per tracked repository.
//
// The cluster and the repository list are reached through I/O: their
// answers are parameters. An object on the cluster is represented by its
// labels. The calls that delete and create objects are described by the
// plan they carry out: the sets of repositories whose services and
// deployments are deleted, then whose deployments and services are added.
module Supervisor {
  import opened Wrappers
  import opened Repos

  const LabelGenValue := "true"

  /** The label every object made by the supervisor of an application carries. */
  function LabelGenKey(appid: string): (k: string)
    ensures k != "owner" && k != "repository"
  {
    appid + "-sprvsr-autogen"
  }

  /** A repository as the cluster knows it: its owner and name, every other field zero. */
  function Key(t: TrackedRepository): (k: TrackedRepository)
    ensures k.owner == t.owner && k.name == t.name && k == ZeroRepo.(owner := k.owner, name := k.name)
  {
    ZeroRepo.(owner := t.owner, name := t.name)
  }

  /** The repository an object on the cluster belongs to: none without an owner or repository label. */
  function ClusterKey(labels: map<string, string>): (r: Option<TrackedRepository>)
    ensures r.Some? <==> "owner" in labels && "repository" in labels
    ensures r.Some? ==> r.value == ZeroRepo.(owner := labels["owner"], name := labels["repository"])
  {
    if "owner" in labels && "repository" in labels then
      Some(ZeroRepo.(owner := labels["owner"], name := labels["repository"]))
    else None
  }

  /** The repositories of a list of objects, objects without both labels ignored. */
  function ClusterKeys(objects: seq<map<string, string>>): set<TrackedRepository>
  {
    if objects == [] then {}
    else
      var last := objects[|objects| - 1];
      ClusterKeys(objects[..|objects| - 1]) + (if ClusterKey(last).Some? then {ClusterKey(last).value} else {})
  }

  /** A repository is on the cluster exactly when some object carries both of its labels. */
  lemma {:induction false} ClusterKeysMean(objects: seq<map<string, string>>, t: TrackedRepository)
    ensures t in ClusterKeys(objects) <==>
      exists i | 0 <= i < |objects| :: ClusterKey(objects[i]) == Some(t)
  {
    if objects != [] {
      var p := objects[..|objects| - 1];
      ClusterKeysMean(p, t);
      if exists i | 0 <= i < |p| :: ClusterKey(p[i]) == Some(t) {
        var i :| 0 <= i < |p| && ClusterKey(p[i]) == Some(t);
        assert objects[i] == p[i];
      }
      if exists i | 0 <= i < |objects| :: ClusterKey(objects[i]) == Some(t) {
        var i :| 0 <= i < |objects| && ClusterKey(objects[i]) == Some(t);
        if i < |p| {
          assert objects[i] == p[i];
        }
      }
    }
  }

  /** setDifference, as a set: the keys of the first map that are not keys of the second. */
  function Difference(a: map<TrackedRepository, bool>, b: map<TrackedRepository, bool>): map<TrackedRepository, bool>
  {
    map k | k in a.Keys - b.Keys :: true
  }

  /**
   * setDifference: a new map holding, mapped to true, exactly the keys of
   * the first map (this, in the Go code) that the other lacks.
   */
  method SetDifference(these: map<TrackedRepository, bool>, other: map<TrackedRepository, bool>)
    returns (diff: map<TrackedRepository, bool>)
    ensures diff.Keys == these.Keys - other.Keys
    ensures forall k | k in diff :: diff[k]
    ensures diff == Difference(these, other)
  {
    diff := map[];
    var rest := these.Keys;
    while rest != {}
      invariant rest <= these.Keys
      invariant diff.Keys == (these.Keys - rest) - other.Keys
      invariant forall k | k in diff :: diff[k]
      decreases rest
    {
      var k :| k in rest;
      if k !in other {
        diff := diff[k := true];
      }
      rest := rest - {k};
    }
  }

  /** The difference and the second map share no key, and with the common keys make up the first. */
  lemma DifferenceSplits(a: map<TrackedRepository, bool>, b: map<TrackedRepository, bool>)
    ensures Difference(a, b).Keys !! b.Keys
    ensures Difference(a, b).Keys + (a.Keys * b.Keys) == a.Keys
    ensures Difference(a, a) == map[]
  {
  }

  /** The actions of one reconciliation, in the order they are carried out. */
  datatype Plan = Plan(
    servicesToDelete: set<TrackedRepository>, deploymentsToDelete: set<TrackedRepository>,
    deploymentsToAdd: set<TrackedRepository>, servicesToAdd: set<TrackedRepository>)

  const NoPlan := Plan({}, {}, {}, {})

  /**
   * The plan as written: the tracked repositories are compared as whole
   * values with the owner-and-name keys read off the cluster.
   */
  function PlanAsWritten(tracked: seq<TrackedRepository>, deployments: seq<map<string, string>>,
                         services: seq<map<string, string>>): Plan
  {
    var trSet := set t | t in tracked;
    var ds, ss := ClusterKeys(deployments), ClusterKeys(services);
    Plan(ss - trSet, ds - trSet, trSet - ds, trSet - ss)
  }

  /** The set of a list, as a map to true. */
  method ToSet(ts: seq<TrackedRepository>) returns (m: map<TrackedRepository, bool>)
    ensures m.Keys == set t | t in ts
  {
    m := map[];
    for i := 0 to |ts|
      invariant m.Keys == set t | t in ts[..i]
    {
      assert ts[..i + 1] == ts[..i] + [ts[i]];
      m := m[ts[i] := true];
    }
    assert ts[..|ts|] == ts;
  }

  /** The owner-and-name keys of the listed objects, as a map to true. */
  method KeysOfObjects(objects: seq<map<string, string>>) returns (m: map<TrackedRepository, bool>)
    ensures m.Keys == ClusterKeys(objects)
  {
    m := map[];
    for i := 0 to |objects|
      invariant m.Keys == ClusterKeys(objects[..i])
    {
      assert objects[..i + 1][..i] == objects[..i];
      if "owner" !in objects[i] {
        continue;
      }
      if "repository" !in objects[i] {
        continue;
      }
      var o, r := objects[i]["owner"], objects[i]["repository"];
      m := m[ZeroRepo.(owner := o, name := r) := true];
    }
    assert objects[..|objects|] == objects;
  }

  /**
   * updateCorpusRepoList: refresh the repository list; on an error, report
   * it and do nothing; when the list is unchanged, do nothing; otherwise
   * list the labelled deployments and services (an error of either is
   * reported and ends the update) and carry out the plan.
   */
  method UpdateCorpusRepoList(update: Result<bool>, tracked: seq<TrackedRepository>,
                              deployments: Result<seq<map<string, string>>>,
                              services: Result<seq<map<string, string>>>)
    returns (err: Option<string>, plan: Plan)
    ensures update.Err? ==> err == Some(update.msg) && plan == NoPlan
    ensures update == Ok(false) ==> err.None? && plan == NoPlan
    ensures update == Ok(true) && deployments.Err? ==> err == Some(deployments.msg) && plan == NoPlan
    ensures update == Ok(true) && deployments.Ok? && services.Err? ==> err == Some(services.msg) && plan == NoPlan
    ensures update == Ok(true) && deployments.Ok? && services.Ok? ==>
      err.None? && plan == PlanAsWritten(tracked, deployments.value, services.value)
  {
    if update.Err? {
      return Some(update.msg), NoPlan;
    }
    if !update.value {
      return None, NoPlan;
    }
    var trSet := ToSet(tracked);
    if deployments.Err? {
      return Some(deployments.msg), NoPlan;
    }
    var deploymentsSet := KeysOfObjects(deployments.value);
    if services.Err? {
      return Some(services.msg), NoPlan;
    }
    var servicesSet := KeysOfObjects(services.value);
    var servicesToDelete := SetDifference(servicesSet, trSet);
    var deploymentsToDelete := SetDifference(deploymentsSet, trSet);
    var deploymentsToAdd := SetDifference(trSet, deploymentsSet);
    var servicesToAdd := SetDifference(trSet, servicesSet);
    plan := Plan(servicesToDelete.Keys, deploymentsToDelete.Keys, deploymentsToAdd.Keys, servicesToAdd.Keys);
    err := None;
  }

  /**
   * As written, a tracked repository with a tracking flag or a default
   * branch never matches its own deployment: an update deletes the
   * deployment and adds it again.
   */
  lemma WholeValueChurn(tracked: seq<TrackedRepository>, deployments: seq<map<string, string>>,
                        services: seq<map<string, string>>, i: int, j: int)
    requires 0 <= i < |tracked| && tracked[i] != Key(tracked[i])
    requires 0 <= j < |deployments| && ClusterKey(deployments[j]) == Some(Key(tracked[i]))
    requires forall k | 0 <= k < |tracked| :: tracked[k].owner != tracked[i].owner || tracked[k].name != tracked[i].name || k == i
    ensures Key(tracked[i]) in PlanAsWritten(tracked, deployments, services).deploymentsToDelete
    ensures tracked[i] in PlanAsWritten(tracked, deployments, services).deploymentsToAdd
  {
    var t := tracked[i];
    ClusterKeysMean(deployments, Key(t));
    assert Key(t) !in tracked by {
      forall k | 0 <= k < |tracked| ensures tracked[k] != Key(t) {
        if k != i {
          assert tracked[k].owner != t.owner || tracked[k].name != t.name;
        }
      }
    }
    ClusterKeysMean(deployments, t);
    assert forall d | 0 <= d < |deployments| :: ClusterKey(deployments[d]) != Some(t);
  }

  /** A concrete instance: one repository tracking its issues, its deployment and service in place. */
  lemma WholeValueChurnExample()
    ensures var t := TrackedRepository("o", "r", true, false, "");
      var objs := [map["owner" := "o", "repository" := "r"]];
      PlanAsWritten([t], objs, objs) == Plan({Key(t)}, {Key(t)}, {t}, {t})
  {
    var t := TrackedRepository("o", "r", true, false, "");
    var objs := [map["owner" := "o", "repository" := "r"]];
    assert objs[..0] == [];
    assert ClusterKeys(objs) == {Key(t)};
    assert (set x | x in [t]) == {t};
  }

  /**
   * The evidently intended plan: compare by owner and name; delete the
   * objects of repositories no longer tracked, add those of tracked
   * repositories without one, passing the whole tracked value to the builder.
   */
  function PlanByName(tracked: seq<TrackedRepository>, deployments: seq<map<string, string>>,
                      services: seq<map<string, string>>): Plan
  {
    var names := set t | t in tracked :: Key(t);
    var ds, ss := ClusterKeys(deployments), ClusterKeys(services);
    Plan(ss - names, ds - names,
         set t | t in tracked && Key(t) !in ds, set t | t in tracked && Key(t) !in ss)
  }

  /** With an object of each kind for exactly the tracked repositories, there is nothing to do. */
  lemma PlanByNameStable(tracked: seq<TrackedRepository>, deployments: seq<map<string, string>>,
                         services: seq<map<string, string>>)
    requires ClusterKeys(deployments) == (set t | t in tracked :: Key(t))
    requires ClusterKeys(services) == (set t | t in tracked :: Key(t))
    ensures PlanByName(tracked, deployments, services) == NoPlan
  {
    var p := PlanByName(tracked, deployments, services);
    assert forall t | t in tracked :: Key(t) in ClusterKeys(deployments);
    assert p.deploymentsToAdd == {};
    assert p.servicesToAdd == {};
  }

  /** When every tracked repository is its own key, the plan as written is the intended one. */
  lemma PlansAgreeOnBareRepos(tracked: seq<TrackedRepository>, deployments: seq<map<string, string>>,
                              services: seq<map<string, string>>)
    requires forall t | t in tracked :: t == Key(t)
    ensures PlanAsWritten(tracked, deployments, services) == PlanByName(tracked, deployments, services)
  {
    var trSet := set t | t in tracked;
    var names := set t | t in tracked :: Key(t);
    assert trSet == names by {
      forall x ensures x in trSet <==> x in names {
        if x in names {
          var t :| t in tracked && Key(t) == x;
        }
      }
    }
  }

  /** The labels a created object carries: the ones built, or none, and the three of the supervisor. */
  function Stamped(labels: Option<map<string, string>>, lblkey: string, ta: TrackedRepository): map<string, string>
  {
    (if labels.Some? then labels.value else map[])[lblkey := LabelGenValue]["owner" := ta.owner]["repository" := ta.name]
  }

  /** A stamped object carries the supervisor's label and is read back as its repository's key. */
  lemma StampedReadBack(labels: Option<map<string, string>>, appid: string, ta: TrackedRepository)
    ensures var m := Stamped(labels, LabelGenKey(appid), ta);
      LabelGenKey(appid) in m && m[LabelGenKey(appid)] == LabelGenValue
      && ClusterKey(m) == Some(Key(ta))
  {
  }

  /** A deployment being created: its labels and its pod template's labels, nil when absent. */
  class Deployment {
    var labels: Option<map<string, string>>
    var templateLabels: Option<map<string, string>>

    constructor (labels: Option<map<string, string>>, templateLabels: Option<map<string, string>>)
      ensures this.labels == labels && this.templateLabels == templateLabels
    {
      this.labels := labels;
      this.templateLabels := templateLabels;
    }
  }

  /** A service being created: its labels, nil when absent. */
  class Service {
    var labels: Option<map<string, string>>

    constructor (labels: Option<map<string, string>>)
      ensures this.labels == labels
    {
      this.labels := labels;
    }
  }

  /** The error the cluster gives for a deployment that already exists. */
  function AlreadyExists(dname: string): string
  {
    "deployments.apps: \"" + dname + "\" already exists"
  }

  /** Give a label map the supervisor's labels, creating the map when it is nil. */
  method StampLabels(labels: Option<map<string, string>>, lblkey: string, ta: TrackedRepository)
    returns (m: map<string, string>)
    ensures m == Stamped(labels, lblkey, ta)
  {
    if labels.None? {
      m := map[];
    } else {
      m := labels.value;
    }
    m := m[lblkey := LabelGenValue];
    m := m["owner" := ta.owner];
    m := m["repository" := ta.name];
  }

  /**
   * createDeployment: a builder or namer error is returned as is; otherwise
   * the deployment and its pod template get the supervisor's labels, the
   * deployment is created, and an "already exists" answer counts as success.
   */
  method CreateDeployment(built: Result<Deployment>, dname: Result<string>, lblkey: string,
                          ta: TrackedRepository, create: Option<string>)
    returns (err: Option<string>, created: bool)
    modifies if built.Ok? then {built.value} else {}
    ensures built.Err? ==> err == Some(built.msg) && !created
    ensures built.Ok? && dname.Err? ==> err == Some(dname.msg) && !created && unchanged(built.value)
    ensures built.Ok? && dname.Ok? ==> (
      created
      && built.value.labels == Some(Stamped(old(built.value.labels), lblkey, ta))
      && built.value.templateLabels == Some(Stamped(old(built.value.templateLabels), lblkey, ta))
      && err == (if create == Some(AlreadyExists(dname.value)) then None else create))
  {
    if built.Err? {
      return Some(built.msg), false;
    }
    if dname.Err? {
      return Some(dname.msg), false;
    }
    var d := built.value;
    var m := StampLabels(d.labels, lblkey, ta);
    d.labels := Some(m);
    var pm := StampLabels(d.templateLabels, lblkey, ta);
    d.templateLabels := Some(pm);
    err := create;
    if err.Some? && err.value == AlreadyExists(dname.value) {
      err := None;
    }
    created := true;
  }

  /**
   * createService: a builder error is returned as is; otherwise the service
   * gets the supervisor's labels and the creation's error is returned.
   */
  method CreateService(built: Result<Service>, lblkey: string, ta: TrackedRepository, create: Option<string>)
    returns (err: Option<string>, created: bool)
    modifies if built.Ok? then {built.value} else {}
    ensures built.Err? ==> err == Some(built.msg) && !created
    ensures built.Ok? ==> (
      created && err == create
      && built.value.labels == Some(Stamped(old(built.value.labels), lblkey, ta)))
  {
    if built.Err? {
      return Some(built.msg), false;
    }
    var svc := built.value;
    var m := StampLabels(svc.labels, lblkey, ta);
    svc.labels := Some(m);
    return create, true;
  }
}
