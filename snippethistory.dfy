// The per-commit half of the snippet engine: the snippets found so far and,
// per file, which snippets were last seen in it. Each commit first writes
// tombstones for snippets of deleted files, then for snippets that vanished
// from a changed file, then records the versions found in the commit.
// Go map iteration order is an explicit sequence wherever the outcome can
// depend on it; where it cannot, the model picks keys in any order.
module SnippetHistory {
  import opened Wrappers
  import opened Strs
  import opened Snippet

  /** A file changed in the commit with the versions extracted from it. */
  datatype CommitFile = CommitFile(file: File, versions: seq<SnippetVersion>)

  /** Per file path, per snippet name: whether the snippet's latest version lives in that file. */
  type Seen = map<string, map<string, bool>>

  /** The name of version n of the snippet key: "<key>/<n>". */
  function VersionName(key: string, n: nat): string {
    key + "/" + NatToString(n)
  }

  /** The empty version that records a snippet's disappearance from file f. */
  function Tombstone(key: string, n: nat, f: File): SnippetVersion {
    SnippetVersion(VersionName(key, n), Some(f), Some([]), "", ZeroMeta)
  }

  function AddTombstone(sn: Snippet, key: string, f: File): Snippet {
    var t := Tombstone(key, |sn.versions|, f);
    sn.(versions := sn.versions + [t], primary := t)
  }

  /** One tombstone per file of fs, in order, each numbered by its position among the versions. */
  function AddTombstones(sn: Snippet, key: string, fs: seq<File>): (r: Snippet)
    ensures r.name == sn.name && r.language == sn.language
    ensures |r.versions| == |sn.versions| + |fs|
    ensures r.versions[..|sn.versions|] == sn.versions
    ensures forall i | 0 <= i < |fs| ::
      r.versions[|sn.versions| + i] == Tombstone(key, |sn.versions| + i, fs[i])
    ensures fs == [] ==> r == sn
    ensures fs != [] ==> r.primary == r.versions[|r.versions| - 1] && r.primary.content == ""
  {
    if fs == [] then sn
    else AddTombstone(AddTombstones(sn, key, fs[..|fs| - 1]), key, fs[|fs| - 1])
  }

  lemma AddTombstonesSnoc(sn: Snippet, key: string, fs: seq<File>, f: File)
    ensures AddTombstones(sn, key, fs + [f]) == AddTombstone(AddTombstones(sn, key, fs), key, f)
  {
    assert (fs + [f])[..|fs|] == fs;
  }

  predicate Flagged(seen: Seen, f: string, s: string) {
    f in seen && s in seen[f] && seen[f][s]
  }

  // ---------------------------------------------------------------------
  // Where a tombstone goes.

  predicate HasVersion(cf: CommitFile, name: string) {
    exists j :: 0 <= j < |cf.versions| && cf.versions[j].name == name
  }

  /** Some changed file at path holds a version of the snippet. */
  predicate FoundIn(files: seq<CommitFile>, path: string, name: string) {
    exists i :: 0 <= i < |files| && files[i].file.filePath == path && HasVersion(files[i], name)
  }

  /** The last changed file at path, if any. */
  function LastWithPath(files: seq<CommitFile>, path: string): (r: Option<File>)
    ensures r.None? <==> forall i | 0 <= i < |files| :: files[i].file.filePath != path
    ensures r.Some? ==> r.value.filePath == path
    ensures r.Some? ==> exists i :: (0 <= i < |files| && files[i].file == r.value
                                     && forall j | i < j < |files| :: files[j].file.filePath != path)
  {
    if files == [] then None
    else if files[|files| - 1].file.filePath == path then Some(files[|files| - 1].file)
    else
      var r := LastWithPath(files[..|files| - 1], path);
      assert forall i | 0 <= i < |files| - 1 :: files[..|files| - 1][i] == files[i];
      r
  }

  /** The two reasons for a tombstone: the file was deleted, or it changed and lost the snippet. */
  datatype Rule = Deleted(cmt: GitCommit) | Missing(cmt: GitCommit, files: seq<CommitFile>)

  /**
   * The file recorded in the tombstone of snippet s seen in file f, or None
   * when s keeps its place: a deleted file gives f with size 0; otherwise
   * the changed file at f, when no changed file at f still holds s.
   */
  function TombFile(rule: Rule, f: string, s: string): Option<File> {
    match rule
    case Deleted(cmt) => Some(File(f, Some(cmt), 0))
    case Missing(cmt, files) =>
      if FoundIn(files, f, s) then None
      else match LastWithPath(files, f)
        case None => None
        case Some(ff) => Some(File(ff.filePath, Some(cmt), ff.size))
  }

  /** The tombstone files of snippet s when the files of order are visited in turn. */
  function Hits(seen: Seen, order: seq<string>, s: string, rule: Rule): (r: seq<File>)
    ensures |r| <= |order|
  {
    if order == [] then []
    else
      var rest := Hits(seen, order[..|order| - 1], s, rule);
      var f := order[|order| - 1];
      if Flagged(seen, f, s) && TombFile(rule, f, s).Some? then rest + [TombFile(rule, f, s).value]
      else rest
  }

  lemma HitsUnfold(seen: Seen, order: seq<string>, k: nat, s: string, rule: Rule)
    requires k < |order|
    ensures Hits(seen, order[..k + 1], s, rule) ==
      Hits(seen, order[..k], s, rule)
      + (if Flagged(seen, order[k], s) && TombFile(rule, order[k], s).Some? then [TombFile(rule, order[k], s).value] else [])
  {
    assert order[..k + 1][..k] == order[..k];
  }

  /** The flags after a sweep over order: cleared where a tombstone was written, untouched elsewhere. */
  ghost predicate SweptFlags(seen: Seen, seen': Seen, order: seq<string>, names: set<string>, rule: Rule) {
    seen'.Keys == seen.Keys
    && (forall f | f in seen :: seen'[f].Keys == seen[f].Keys)
    && forall f, s {:trigger seen'[f][s]} | f in seen && s in seen[f] ::
         seen'[f][s] == (seen[f][s] && !(f in order && s in names && TombFile(rule, f, s).Some?))
  }

  /** After a sweep, a second sweep of the same files finds nothing to tombstone. */
  lemma {:induction false} SweptNoHits(seen: Seen, seen': Seen, order: seq<string>, k: nat,
                                       names: set<string>, s: string, rule: Rule)
    requires k <= |order| && s in names && SweptFlags(seen, seen', order, names, rule)
    ensures Hits(seen', order[..k], s, rule) == []
  {
    if k > 0 {
      SweptNoHits(seen, seen', order, k - 1, names, s, rule);
      HitsUnfold(seen', order, k - 1, s, rule);
      var f := order[k - 1];
      if f in seen' && s in seen'[f] {
        assert seen'[f][s] == (seen[f][s] && !(f in order && s in names && TombFile(rule, f, s).Some?));
      }
    }
  }

  /** Every tombstone file names a flagged file of order and the commit of the rule. */
  lemma {:induction false} HitsFlagged(seen: Seen, order: seq<string>, s: string, rule: Rule)
    ensures forall i | 0 <= i < |Hits(seen, order, s, rule)| ::
      var h := Hits(seen, order, s, rule)[i];
      h.filePath in order && Flagged(seen, h.filePath, s) && h.gitCommit == Some(rule.cmt)
  {
    if order != [] {
      var pre := order[..|order| - 1];
      HitsFlagged(seen, pre, s, rule);
      assert forall f | f in pre :: f in order;
      var f := order[|order| - 1];
    }
  }

  /** A file deleted in the commit gives a tombstone to exactly the snippets flagged in it. */
  lemma DeletedHitsCount(seen: Seen, deleted: seq<string>, s: string, cmt: GitCommit)
    ensures |Hits(seen, deleted, s, Deleted(cmt))| == |FlaggedIn(seen, deleted, s)|
    ensures forall i | 0 <= i < |Hits(seen, deleted, s, Deleted(cmt))| ::
      Hits(seen, deleted, s, Deleted(cmt))[i] == File(FlaggedIn(seen, deleted, s)[i], Some(cmt), 0)
  {
    if deleted != [] {
      DeletedHitsCount(seen, deleted[..|deleted| - 1], s, cmt);
    }
  }

  /** The files of order in which s is flagged, in order. */
  function FlaggedIn(seen: Seen, order: seq<string>, s: string): (r: seq<string>)
    ensures forall i | 0 <= i < |r| :: r[i] in order && Flagged(seen, r[i], s)
  {
    if order == [] then []
    else
      var rest := FlaggedIn(seen, order[..|order| - 1], s);
      assert forall f | f in order[..|order| - 1] :: f in order;
      if Flagged(seen, order[|order| - 1], s) then rest + [order[|order| - 1]] else rest
  }

  /** Sweeping the same files twice adds no tombstone and clears no flag the second time. */
  lemma SweepTwice(st0: HistoryState, st1: HistoryState, st2: HistoryState, order: seq<string>, rule: Rule)
    requires Swept(st0, st1, order, rule) && Swept(st1, st2, order, rule)
    ensures st2 == st1
  {
    forall s | s in st1.snippets
      ensures st2.snippets[s] == st1.snippets[s]
    {
      SweptNoHits(st0.seen, st1.seen, order, |order|, st0.snippets.Keys, s, rule);
      assert order[..|order|] == order;
    }
    forall f | f in st1.seen
      ensures st2.seen[f] == st1.seen[f]
    {
      forall n | n in st1.seen[f]
        ensures st2.seen[f][n] == st1.seen[f][n]
      {
        assert st2.seen[f][n] == (st1.seen[f][n] && !(f in order && n in st1.snippets.Keys && TombFile(rule, f, n).Some?));
        assert st1.seen[f][n] == (st0.seen[f][n] && !(f in order && n in st0.snippets.Keys && TombFile(rule, f, n).Some?));
      }
    }
  }


  // ---------------------------------------------------------------------
  // Recording the versions found in a commit.

  /** Both maps: the snippets by name and the seen flags by file. */
  datatype HistoryState = HistoryState(snippets: map<string, Snippet>, seen: Seen)

  /**
   * One version v of file fle: renamed "<snippet>/<number of versions>" and
   * given the file; if equivalent to the snippet's primary version nothing
   * changes, otherwise it is appended, made primary, and flagged seen in
   * the file.
   */
  function RecordVersion(st: HistoryState, fle: File, v: SnippetVersion): (r: HistoryState)
    requires v.name in st.snippets && fle.filePath in st.seen
    ensures r.snippets.Keys == st.snippets.Keys && r.seen.Keys == st.seen.Keys
  {
    var sn := st.snippets[v.name];
    var v' := v.(file := Some(fle), name := VersionName(v.name, |sn.versions|));
    if SnippetsEquivalent(sn.primary, v') then st
    else
      HistoryState(st.snippets[v.name := sn.(versions := sn.versions + [v'], primary := v')],
            st.seen[fle.filePath := st.seen[fle.filePath][sn.name := true]])
  }

  /** The versions of one file, in order, after giving the file an entry in the seen flags. */
  function RecordVersions(st: HistoryState, fle: File, vs: seq<SnippetVersion>): (r: HistoryState)
    requires fle.filePath in st.seen
    requires forall j | 0 <= j < |vs| :: vs[j].name in st.snippets
    ensures r.snippets.Keys == st.snippets.Keys && r.seen.Keys == st.seen.Keys
  {
    if vs == [] then st
    else RecordVersion(RecordVersions(st, fle, vs[..|vs| - 1]), fle, vs[|vs| - 1])
  }

  function OpenFile(seen: Seen, path: string): (r: Seen)
    ensures r.Keys == seen.Keys + {path}
  {
    if path in seen then seen else seen[path := map[]]
  }

  predicate Known(st: HistoryState, files: seq<CommitFile>) {
    forall i, j | 0 <= i < |files| && 0 <= j < |files[i].versions| :: files[i].versions[j].name in st.snippets
  }

  /** The first n files of the commit, in order. */
  function RecordFiles(st: HistoryState, files: seq<CommitFile>, n: nat): (r: HistoryState)
    requires n <= |files| && Known(st, files)
    ensures r.snippets.Keys == st.snippets.Keys
  {
    if n == 0 then st
    else
      var mid := RecordFiles(st, files, n - 1);
      var cf := files[n - 1];
      RecordVersions(HistoryState(mid.snippets, OpenFile(mid.seen, cf.file.filePath)), cf.file, cf.versions)
  }

  /** Every recorded file has an entry in the flags, and no entry is lost. */
  lemma {:induction false} RecordFilesOpen(st: HistoryState, files: seq<CommitFile>, n: nat, i: nat)
    requires i < n <= |files| && Known(st, files)
    ensures files[i].file.filePath in RecordFiles(st, files, n).seen
    ensures st.seen.Keys <= RecordFiles(st, files, n).seen.Keys
  {
    if i < n - 1 {
      RecordFilesOpen(st, files, n - 1, i);
    } else if n > 1 {
      RecordFilesOpen(st, files, n - 1, 0);
    }
  }

  /** One more version: recorded over the state after the versions before it. */
  lemma RecordVersionsStep(st: HistoryState, fle: File, vs: seq<SnippetVersion>, j: nat, cur: HistoryState)
    requires j < |vs| && fle.filePath in st.seen
    requires forall k | 0 <= k < |vs| :: vs[k].name in st.snippets
    requires cur == RecordVersions(st, fle, vs[..j])
    ensures vs[j].name in cur.snippets && fle.filePath in cur.seen
    ensures RecordVersions(st, fle, vs[..j + 1]) == RecordVersion(cur, fle, vs[j])
  {
    assert vs[..j + 1][..j] == vs[..j];
  }

  /** One more file: its versions recorded over the state after the files before it. */
  lemma RecordFilesStep(st: HistoryState, files: seq<CommitFile>, i: nat, cur: HistoryState)
    requires i < |files| && Known(st, files) && cur == RecordFiles(st, files, i)
    ensures forall j | 0 <= j < |files[i].versions| :: files[i].versions[j].name in cur.snippets
    ensures RecordFiles(st, files, i + 1) ==
      RecordVersions(HistoryState(cur.snippets, OpenFile(cur.seen, files[i].file.filePath)), files[i].file, files[i].versions)
  {
  }

  /** The snippets are keyed by name and every flag names a known snippet. */
  ghost predicate WellFormed(st: HistoryState) {
    (forall k | k in st.snippets :: st.snippets[k].name == k)
    && (forall f, s | f in st.seen && s in st.seen[f] :: s in st.snippets)
  }

  lemma RecordVersionWellFormed(st: HistoryState, fle: File, v: SnippetVersion)
    requires v.name in st.snippets && fle.filePath in st.seen && WellFormed(st)
    ensures WellFormed(RecordVersion(st, fle, v))
  {
  }

  /** After recording v, the snippet's primary version is equivalent to v as renamed and placed in fle. */
  lemma RecordVersionPrimary(st: HistoryState, fle: File, v: SnippetVersion)
    requires v.name in st.snippets && fle.filePath in st.seen
    ensures var sn := st.snippets[v.name];
      SnippetsEquivalent(RecordVersion(st, fle, v).snippets[v.name].primary,
                         v.(file := Some(fle), name := VersionName(v.name, |sn.versions|)))
  {
  }

  /** Recording the same version twice adds it at most once. */
  lemma RecordVersionIdempotent(st: HistoryState, fle: File, v: SnippetVersion)
    requires v.name in st.snippets && fle.filePath in st.seen
    ensures RecordVersion(RecordVersion(st, fle, v), fle, v) == RecordVersion(st, fle, v)
  {
    var st1 := RecordVersion(st, fle, v);
    var sn1 := st1.snippets[v.name];
    RecordVersionPrimary(st, fle, v);
    var v1 := v.(file := Some(fle), name := VersionName(v.name, |sn1.versions|));
    assert SnippetsEquivalent(sn1.primary, v1);
  }

  /** Recording versions leaves every other snippet alone and only ever adds versions at the end. */
  lemma {:induction false} RecordVersionsGrow(st: HistoryState, fle: File, vs: seq<SnippetVersion>, key: string)
    requires fle.filePath in st.seen
    requires forall j | 0 <= j < |vs| :: vs[j].name in st.snippets
    requires key in st.snippets
    ensures var r := RecordVersions(st, fle, vs).snippets[key];
      |st.snippets[key].versions| <= |r.versions|
      && r.versions[..|st.snippets[key].versions|] == st.snippets[key].versions
      && r.name == st.snippets[key].name
    ensures (forall j | 0 <= j < |vs| :: vs[j].name != key) ==>
      RecordVersions(st, fle, vs).snippets[key] == st.snippets[key]
  {
    if vs != [] {
      var vs' := vs[..|vs| - 1];
      assert forall j | 0 <= j < |vs'| :: vs'[j] == vs[j];
      RecordVersionsGrow(st, fle, vs', key);
      var mid := RecordVersions(st, fle, vs');
      RecordVersionGrows(mid, fle, vs[|vs| - 1], key);
      var a, b, c := st.snippets[key].versions, mid.snippets[key].versions,
        RecordVersion(mid, fle, vs[|vs| - 1]).snippets[key].versions;
      assert c[..|a|] == c[..|b|][..|a|];
    }
  }

  /** One recorded version leaves every other snippet alone and only adds a version at the end. */
  lemma RecordVersionGrows(st: HistoryState, fle: File, v: SnippetVersion, key: string)
    requires v.name in st.snippets && fle.filePath in st.seen && key in st.snippets
    ensures var r := RecordVersion(st, fle, v).snippets[key];
      |st.snippets[key].versions| <= |r.versions|
      && r.versions[..|st.snippets[key].versions|] == st.snippets[key].versions
      && r.name == st.snippets[key].name
    ensures v.name != key ==> RecordVersion(st, fle, v).snippets[key] == st.snippets[key]
  {
    var sn := st.snippets[key];
    assert (sn.versions + [RecordVersion(st, fle, v).snippets[key].primary])[..|sn.versions|] == sn.versions;
  }

  // ---------------------------------------------------------------------
  // The history itself.

  class History {
    var snippets: map<string, Snippet>
    var seen: Seen

    function Current(): HistoryState
      reads this
    {
      HistoryState(snippets, seen)
    }

    /** CalculateSnippets starts with no snippets and no flags. */
    constructor()
      ensures snippets == map[] && seen == map[]
    {
      snippets := map[];
      seen := map[];
    }

    /** A new, empty snippet for every version name not known yet, in the file's language. */
    method Register(language: string, versions: seq<SnippetVersion>)
      modifies this
      ensures seen == old(seen)
      ensures snippets.Keys == old(snippets).Keys + set j | 0 <= j < |versions| :: versions[j].name
      ensures forall k | k in old(snippets) :: snippets[k] == old(snippets)[k]
      ensures forall k | k in snippets && k !in old(snippets) :: snippets[k] == Snippet(k, language, [], ZeroVersion)
    {
      var j := 0;
      while j < |versions|
        invariant 0 <= j <= |versions| && seen == old(seen)
        invariant snippets.Keys == old(snippets).Keys + set i | 0 <= i < j :: versions[i].name
        invariant forall k | k in old(snippets) :: snippets[k] == old(snippets)[k]
        invariant forall k | k in snippets && k !in old(snippets) :: snippets[k] == Snippet(k, language, [], ZeroVersion)
      {
        var name := versions[j].name;
        if name !in snippets {
          snippets := snippets[name := Snippet(name, language, [], ZeroVersion)];
        }
        j := j + 1;
      }
    }

    /**
     * processDeletedFiles: for each deleted file, in the iteration order of
     * the set of deleted files, every known snippet flagged seen in it gets
     * an empty tombstone version (that path, size 0) which becomes its
     * primary, and its flag turns false. Flags already false, and flags of
     * snippets missing from the map, are left as they are.
     */
    method ProcessDeletedFiles(cmt: GitCommit, deleted: seq<string>)
      requires forall i, j | 0 <= i < j < |deleted| :: deleted[i] != deleted[j]
      modifies this
      ensures snippets.Keys == old(snippets).Keys
      ensures forall s | s in snippets ::
        snippets[s] == AddTombstones(old(snippets)[s], s, Hits(old(seen), deleted, s, Deleted(cmt)))
      ensures SweptFlags(old(seen), seen, deleted, old(snippets).Keys, Deleted(cmt))
    {
      Sweep(Deleted(cmt), deleted);
    }

    /**
     * processPreviouslySeenSnippets: for each file with flags, in the
     * iteration order of the flag map, every snippet flagged seen in it that
     * no changed file at that path still holds gets an empty tombstone
     * version (path and size of the last changed file at that path) which
     * becomes its primary, and its flag turns false. A snippet whose file did
     * not change keeps its place. Every flagged snippet must be known: the
     * source dereferences it.
     */
    method ProcessPreviouslySeenSnippets(cmt: GitCommit, files: seq<CommitFile>, order: seq<string>)
      requires forall i, j | 0 <= i < j < |order| :: order[i] != order[j]
      requires forall f :: f in order <==> f in seen
      requires forall f, s | f in seen && s in seen[f] && seen[f][s] :: s in snippets
      modifies this
      ensures snippets.Keys == old(snippets).Keys
      ensures forall s | s in snippets ::
        snippets[s] == AddTombstones(old(snippets)[s], s, Hits(old(seen), order, s, Missing(cmt, files)))
      ensures SweptFlags(old(seen), seen, order, old(snippets).Keys, Missing(cmt, files))
    {
      Sweep(Missing(cmt, files), order);
    }

    /**
     * processSnippetVersionsInThisCommit: every changed file, in the
     * iteration order of the commit's files, gets an entry in the flags; each
     * of its versions is recorded by RecordVersion. Every version must name a
     * known snippet: the source dereferences it.
     */
    method ProcessSnippetVersionsInThisCommit(cmt: GitCommit, files: seq<CommitFile>)
      requires Known(Current(), files)
      modifies this
      ensures Current() == RecordFiles(old(Current()), files, |files|)
    {
      ghost var st0 := Current();
      var i := 0;
      while i < |files|
        invariant 0 <= i <= |files|
        invariant Current() == RecordFiles(st0, files, i)
      {
        RecordFilesStep(st0, files, i, Current());
        RecordChangedFile(files[i]);
        i := i + 1;
      }
    }

    /** One changed file: its entry in the flags, then its versions. */
    method RecordChangedFile(cf: CommitFile)
      requires forall j | 0 <= j < |cf.versions| :: cf.versions[j].name in snippets
      modifies this
      ensures Current() == RecordVersions(HistoryState(old(snippets), OpenFile(old(seen), cf.file.filePath)),
                                          cf.file, cf.versions)
    {
      if cf.file.filePath !in seen {
        seen := seen[cf.file.filePath := map[]];
      }
      RecordFile(cf);
    }

    /** The inner loop: the versions of one changed file, in order. */
    method RecordFile(cf: CommitFile)
      requires cf.file.filePath in seen
      requires forall j | 0 <= j < |cf.versions| :: cf.versions[j].name in snippets
      modifies this
      ensures Current() == RecordVersions(old(Current()), cf.file, cf.versions)
    {
      ghost var st0 := Current();
      var j := 0;
      while j < |cf.versions|
        invariant 0 <= j <= |cf.versions|
        invariant Current() == RecordVersions(st0, cf.file, cf.versions[..j])
      {
        RecordVersionsStep(st0, cf.file, cf.versions, j, Current());
        var v := cf.versions[j];
        var sn := snippets[v.name];
        var v' := v.(file := Some(cf.file), name := VersionName(v.name, |sn.versions|));
        if !SnippetsEquivalent(sn.primary, v') {
          snippets := snippets[v.name := sn.(versions := sn.versions + [v'], primary := v')];
          seen := seen[cf.file.filePath := seen[cf.file.filePath][sn.name := true]];
        }
        j := j + 1;
      }
      assert cf.versions[..j] == cf.versions;
    }

    /**
     * The sweep shared by processDeletedFiles and processPreviouslySeenSnippets:
     * for every file of order, every known snippet flagged seen there gets a
     * tombstone and loses its flag when the rule gives a tombstone file.
     * Snippets absent from the map are skipped and keep their flags.
     */
    method Sweep(rule: Rule, order: seq<string>)
      requires forall i, j | 0 <= i < j < |order| :: order[i] != order[j]
      modifies this
      ensures Swept(old(Current()), Current(), order, rule)
    {
      var k := 0;
      while k < |order|
        invariant 0 <= k <= |order|
        invariant Swept(old(Current()), Current(), order[..k], rule)
      {
        var f := order[k];
        assert f !in order[..k];
        ghost var before := Current();
        if f in seen {
          SweepFile(rule, f);
          SweptStep(old(Current()), before, Current(), order, k, rule);
        } else {
          SweptSkip(old(Current()), before, order, k, rule);
        }
        k := k + 1;
      }
      assert order[..k] == order;
    }

    /** The inner loop of the sweep: the snippets flagged in file f, in any order. */
    method SweepFile(rule: Rule, f: string)
      requires f in seen
      modifies this
      ensures f in old(seen) && PartSwept(old(Current()), Current(), f, old(seen)[f].Keys, rule)
    {
      var names := seen[f].Keys;
      ghost var done: set<string> := {};
      while names != {}
        invariant names !! done && names + done == old(seen)[f].Keys
        invariant PartSwept(old(Current()), Current(), f, done, rule)
        decreases names
      {
        ghost var any := SomeElement(names);  // the choice below has a candidate
        var s :| s in names;
        ghost var before := Current();
        if seen[f][s] && s in snippets {
          var tf := TombFileOf(rule, f, s);
          if tf.Some? {
            snippets := snippets[s := AddTombstone(snippets[s], s, tf.value)];
            seen := seen[f := seen[f][s := false]];
          }
        }
        PartSweptStep(old(Current()), before, Current(), f, done, s, rule);
        names := names - {s};
        done := done + {s};
      }
    }
  }

  /** The state st after sweeping, from st0, the snippets of file f named in done. */
  ghost predicate PartSwept(st0: HistoryState, st: HistoryState, f: string, done: set<string>, rule: Rule) {
    st.snippets.Keys == st0.snippets.Keys
    && (forall s | s in st.snippets ::
          st.snippets[s] == if s in done && Flagged(st0.seen, f, s) && TombFile(rule, f, s).Some?
                            then AddTombstone(st0.snippets[s], s, TombFile(rule, f, s).value)
                            else st0.snippets[s])
    && FlagsCleared(st0.seen, st.seen, f, done, st0.snippets.Keys, rule)
  }

  /** The flags of file f for the snippets of done that are in names and get a tombstone are cleared. */
  ghost predicate FlagsCleared(seen: Seen, seen': Seen, f: string, done: set<string>, names: set<string>, rule: Rule) {
    seen'.Keys == seen.Keys
    && (forall g | g in seen :: seen'[g].Keys == seen[g].Keys)
    && forall g, n {:trigger seen'[g][n]} | g in seen && n in seen[g] ::
         seen'[g][n] == (seen[g][n] && !(g == f && n in done && n in names && TombFile(rule, g, n).Some?))
  }

  lemma FlagsClearedTomb(seen0: Seen, seen1: Seen, f: string, s: string, done: set<string>,
                         names: set<string>, rule: Rule)
    requires FlagsCleared(seen0, seen1, f, done, names, rule)
    requires f in seen0 && s in seen0[f] && s in names && TombFile(rule, f, s).Some?
    ensures FlagsCleared(seen0, seen1[f := seen1[f][s := false]], f, done + {s}, names, rule)
  {
    var seen2 := seen1[f := seen1[f][s := false]];
    forall g, n | g in seen0 && n in seen0[g]
      ensures seen2[g][n] == (seen0[g][n] && !(g == f && n in done + {s} && n in names && TombFile(rule, g, n).Some?))
    {
      FlagsClearedAt(seen0, seen1, f, done, names, rule, g, n);
      if g != f || n != s {
        assert seen2[g][n] == seen1[g][n];
      }
    }
  }

  lemma FlagsClearedAt(seen0: Seen, seen1: Seen, f: string, done: set<string>, names: set<string>, rule: Rule,
                       g: string, n: string)
    requires FlagsCleared(seen0, seen1, f, done, names, rule) && g in seen0 && n in seen0[g]
    ensures g in seen1 && n in seen1[g]
    ensures seen1[g][n] == (seen0[g][n] && !(g == f && n in done && n in names && TombFile(rule, g, n).Some?))
  {
  }

  lemma FlagsClearedSame(seen0: Seen, seen1: Seen, f: string, s: string, done: set<string>,
                         names: set<string>, rule: Rule)
    requires FlagsCleared(seen0, seen1, f, done, names, rule)
    requires f in seen0 && s in seen0[f] && !(seen0[f][s] && s in names && TombFile(rule, f, s).Some?)
    ensures FlagsCleared(seen0, seen1, f, done + {s}, names, rule)
  {
  }

  lemma PartSweptStep(st0: HistoryState, st1: HistoryState, st2: HistoryState, f: string, done: set<string>,
                      s: string, rule: Rule)
    requires f in st0.seen && s in st0.seen[f] && s !in done
    requires PartSwept(st0, st1, f, done, rule)
    requires st2 == if Flagged(st1.seen, f, s) && s in st1.snippets && TombFile(rule, f, s).Some?
                    then HistoryState(st1.snippets[s := AddTombstone(st1.snippets[s], s, TombFile(rule, f, s).value)],
                                      st1.seen[f := st1.seen[f][s := false]])
                    else st1
    ensures PartSwept(st0, st2, f, done + {s}, rule)
  {
    assert st1.seen[f][s] == st0.seen[f][s];
    if Flagged(st0.seen, f, s) && s in st0.snippets && TombFile(rule, f, s).Some? {
      FlagsClearedTomb(st0.seen, st1.seen, f, s, done, st0.snippets.Keys, rule);
      assert st1.snippets[s] == st0.snippets[s];
      forall t | t in st2.snippets
        ensures st2.snippets[t] == if t in done + {s} && Flagged(st0.seen, f, t) && TombFile(rule, f, t).Some?
                                   then AddTombstone(st0.snippets[t], t, TombFile(rule, f, t).value)
                                   else st0.snippets[t]
      {
        if t != s {
          assert st2.snippets[t] == st1.snippets[t];
        }
      }
    } else {
      FlagsClearedSame(st0.seen, st1.seen, f, s, done, st0.snippets.Keys, rule);
    }
  }

  /** Sweeping every snippet of file f: at most one tombstone each, and the flags of f swept. */
  lemma PartSweptDone(st0: HistoryState, st: HistoryState, f: string, rule: Rule)
    requires f in st0.seen && PartSwept(st0, st, f, st0.seen[f].Keys, rule)
    ensures forall s | s in st.snippets ::
      st.snippets[s] == if Flagged(st0.seen, f, s) && TombFile(rule, f, s).Some?
                        then AddTombstone(st0.snippets[s], s, TombFile(rule, f, s).value)
                        else st0.snippets[s]
    ensures SweptFlags(st0.seen, st.seen, [f], st0.snippets.Keys, rule)
  {
    assert forall g :: g in [f] <==> g == f;
  }

  /** The state st after sweeping, from st0, the files of order. */
  ghost predicate Swept(st0: HistoryState, st: HistoryState, order: seq<string>, rule: Rule) {
    st.snippets.Keys == st0.snippets.Keys
    && (forall s | s in st.snippets ::
          st.snippets[s] == AddTombstones(st0.snippets[s], s, Hits(st0.seen, order, s, rule)))
    && SweptFlags(st0.seen, st.seen, order, st0.snippets.Keys, rule)
  }

  lemma HitsSkip(s0: Seen, s1: Seen, order: seq<string>, k: nat, s: string, rule: Rule)
    requires k < |order| && s1.Keys == s0.Keys && order[k] !in s1
    ensures Hits(s0, order[..k + 1], s, rule) == Hits(s0, order[..k], s, rule)
  {
    HitsUnfold(s0, order, k, s, rule);
  }

  /** A file without flags adds nothing to the sweep. */
  lemma SweptSkip(st0: HistoryState, st1: HistoryState, order: seq<string>, k: nat, rule: Rule)
    requires k < |order| && order[k] !in order[..k] && order[k] !in st1.seen
    requires Swept(st0, st1, order[..k], rule)
    ensures Swept(st0, st1, order[..k + 1], rule)
  {
    forall s | s in st1.snippets
      ensures Hits(st0.seen, order[..k + 1], s, rule) == Hits(st0.seen, order[..k], s, rule)
    {
      HitsSkip(st0.seen, st1.seen, order, k, s, rule);
    }
    SweptCompose(st0.seen, st1.seen, st1.seen, order, k, st0.snippets.Keys, rule);
  }

  lemma SweptStep(st0: HistoryState, st1: HistoryState, st2: HistoryState, order: seq<string>, k: nat, rule: Rule)
    requires k < |order| && order[k] !in order[..k] && order[k] in st1.seen
    requires Swept(st0, st1, order[..k], rule)
    requires PartSwept(st1, st2, order[k], st1.seen[order[k]].Keys, rule)
    ensures Swept(st0, st2, order[..k + 1], rule)
  {
    var f := order[k];
    PartSweptDone(st1, st2, f, rule);
    forall s | s in st2.snippets
      ensures st2.snippets[s] == AddTombstones(st0.snippets[s], s, Hits(st0.seen, order[..k + 1], s, rule))
    {
      SweepStep(st0.snippets[s], st1.snippets[s], st2.snippets[s], s, st0.seen, st1.seen, order, k,
                st0.snippets.Keys, rule);
    }
    SweptCompose(st0.seen, st1.seen, st2.seen, order, k, st0.snippets.Keys, rule);
  }

  /** One more file of the sweep adds at most one tombstone to a snippet. */
  lemma SweepStep(orig: Snippet, cur: Snippet, next: Snippet, s: string, s0: Seen, s1: Seen,
                  order: seq<string>, k: nat, names: set<string>, rule: Rule)
    requires k < |order| && order[k] !in order[..k] && s in names
    requires SweptFlags(s0, s1, order[..k], names, rule)
    requires cur == AddTombstones(orig, s, Hits(s0, order[..k], s, rule))
    requires next == if Flagged(s1, order[k], s) && TombFile(rule, order[k], s).Some?
                     then AddTombstone(cur, s, TombFile(rule, order[k], s).value)
                     else cur
    ensures next == AddTombstones(orig, s, Hits(s0, order[..k + 1], s, rule))
  {
    var f := order[k];
    HitsUnfold(s0, order, k, s, rule);
    if f in s0 && s in s0[f] {
      assert s1[f][s] == (s0[f][s] && !(f in order[..k] && s in names && TombFile(rule, f, s).Some?));
    }
    assert Flagged(s1, f, s) == Flagged(s0, f, s);
    var h := Hits(s0, order[..k], s, rule);
    if Flagged(s0, f, s) && TombFile(rule, f, s).Some? {
      var x := TombFile(rule, f, s).value;
      assert Hits(s0, order[..k + 1], s, rule) == h + [x];
      AddTombstonesSnoc(orig, s, h, x);
      assert next == AddTombstone(cur, s, x);
    } else {
      assert Hits(s0, order[..k + 1], s, rule) == h;
    }
  }

  /** Sweeping order[..k] and then order[k] is sweeping order[..k + 1]. */
  lemma SweptCompose(s0: Seen, s1: Seen, s2: Seen, order: seq<string>, k: nat, names: set<string>, rule: Rule)
    requires k < |order| && order[k] !in order[..k]
    requires SweptFlags(s0, s1, order[..k], names, rule)
    requires order[k] in s1 ==> SweptFlags(s1, s2, [order[k]], names, rule)
    requires order[k] !in s1 ==> s2 == s1
    ensures SweptFlags(s0, s2, order[..k + 1], names, rule)
  {
    assert order[..k + 1] == order[..k] + [order[k]];
  }

  /** The tombstone file of a snippet, computed as the source does. */
  method TombFileOf(rule: Rule, f: string, s: string) returns (r: Option<File>)
    ensures r == TombFile(rule, f, s)
  {
    match rule
    case Deleted(cmt) =>
      r := Some(File(f, Some(cmt), 0));
    case Missing(cmt, files) =>
      var found, foundFile := FindSeen(files, f, s);
      if found || foundFile.None? {
        r := None;
      } else {
        r := Some(File(foundFile.value.filePath, Some(cmt), foundFile.value.size));
      }
  }

  /**
   * The search of processPreviouslySeenSnippets over the changed files:
   * whether a changed file at path holds the snippet and, if not, the last
   * changed file at path.
   */
  method FindSeen(files: seq<CommitFile>, path: string, name: string) returns (found: bool, foundFile: Option<File>)
    ensures found == FoundIn(files, path, name)
    ensures !found ==> foundFile == LastWithPath(files, path)
  {
    found := false;
    foundFile := None;
    var i := 0;
    while i < |files|
      invariant 0 <= i <= |files|
      invariant found == FoundIn(files[..i], path, name)
      invariant !found ==> foundFile == LastWithPath(files[..i], path)
    {
      assert files[..i + 1][..i] == files[..i];
      if !found && files[i].file.filePath == path {
        foundFile := Some(files[i].file);
        var j := 0;
        while j < |files[i].versions|
          invariant 0 <= j <= |files[i].versions|
          invariant found <==> exists q :: 0 <= q < j && files[i].versions[q].name == name
        {
          if files[i].versions[j].name == name {
            found := true;
          }
          j := j + 1;
        }
        assert found == HasVersion(files[i], name);
      }
      FoundInSnoc(files, i, path, name);
      i := i + 1;
    }
    assert files[..i] == files;
  }

  lemma FoundInSnoc(files: seq<CommitFile>, i: nat, path: string, name: string)
    requires i < |files|
    ensures FoundIn(files[..i + 1], path, name) ==
      (FoundIn(files[..i], path, name) || (files[i].file.filePath == path && HasVersion(files[i], name)))
  {
    var p := files[..i + 1];
    if FoundIn(p, path, name) {
      var q :| 0 <= q < |p| && p[q].file.filePath == path && HasVersion(p[q], name);
      if q < i {
        assert files[..i][q] == p[q];
      }
    }
    if FoundIn(files[..i], path, name) {
      var q :| 0 <= q < i && files[..i][q].file.filePath == path && HasVersion(files[..i][q], name);
      assert p[q] == files[..i][q];
    }
    if files[i].file.filePath == path && HasVersion(files[i], name) {
      assert p[i] == files[i];
    }
  }
}
