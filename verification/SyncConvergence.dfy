/** What a first sync leaves to the second. */
module SyncConvergence {
  // Nothing, exactly under conditions on the project, on the groups made for new files, and on the
  // build files that are taken from targets.

  import opened Wrappers
  import opened SyncValues
  import opened SyncTheorems

  // ---------------------------------------------------------------- the groups

  /** The groups refer only once to each file that is gone. */
  ghost predicate GoneOnce(refs: seq<Ref>, gone: set<Path>) {
    forall a, b :: a in refs && b in refs && a.path == b.path && a.path in gone ==> a == b
  }

  /** The directories of the new groups hold only files that were found or shown already. */
  ghost predicate NothingNew(env: Env, p: Project, newDirs: seq<Path>) {
    Found(env, newDirs) <= Found(env, p.dirs) + PathsOf(p.grouped)
  }

  function Gone(env: Env, p: Project): set<Path> {
    ToRemove(GroupDiff(env, p))
  }

  lemma {:induction false} RemovedExact(env: Env, p: Project, r: Ref)
    ensures r in RemovedRefs(GroupDiff(env, p)) <==> r.path in Gone(env, p) && LastRef(p.grouped, r.path) == Some(r)
  {
    var d := GroupDiff(env, p);
    if r.path in Gone(env, p) && LastRef(p.grouped, r.path) == Some(r) {
      assert d[r.path].ref == Some(r);
    }
  }

  lemma {:induction false} GroupDiffExact(env: Env, p: Project, path: Path)
    ensures path in Gone(env, p) <==> Grouped(p, path) && path !in Found(env, p.dirs) && !IsFile(env.fs, path)
    ensures path in ToAdd(GroupDiff(env, p)) <==> path in Found(env, p.dirs) && !Grouped(p, path)
  {
  }

  lemma {:induction false} GroupedAfter(env: Env, p: Project, plan: Plan, q: Project, changes: nat, path: Path)
    requires SyncStep(env, p, plan, q, changes) && GoneOnce(p.grouped, Gone(env, p))
    ensures Grouped(q, path) <==> (Grouped(p, path) && path !in Gone(env, p)) || path in ToAdd(GroupDiff(env, p))
  {
    var d := GroupDiff(env, p);
    if Grouped(q, path) {
      var r :| r in q.grouped && r.path == path;
      RemovedExact(env, p, r);
      if r in plan.added {
        assert path in PathsOf(plan.added);
      } else {
        assert r in p.grouped;
      }
    }
    if path in ToAdd(d) {
      assert path in PathsOf(plan.added);
      var r :| r in plan.added && r.path == path;
      RemovedExact(env, p, r);
      assert r in q.grouped;
    }
    if Grouped(p, path) && path !in Gone(env, p) {
      var r :| r in p.grouped && r.path == path;
      RemovedExact(env, p, r);
      assert r in q.grouped;
    }
  }

  lemma {:induction false} FoundThenGrouped(env: Env, p: Project, plan: Plan, q: Project, changes: nat, path: Path)
    requires UniqueNames(env.fs) && SyncStep(env, p, plan, q, changes) && GoneOnce(p.grouped, Gone(env, p))
    requires path in Found(env, q.dirs) && (path in Found(env, p.dirs) || Grouped(p, path))
    ensures Grouped(q, path)
  {
    FoundIsFile(env, q.dirs, path);
    GroupedAfter(env, p, plan, q, changes, path);
    GroupDiffExact(env, p, path);
  }

  lemma {:induction false} GroupedThenFile(env: Env, p: Project, plan: Plan, q: Project, changes: nat, path: Path)
    requires UniqueNames(env.fs) && SyncStep(env, p, plan, q, changes) && GoneOnce(p.grouped, Gone(env, p))
    requires Grouped(q, path)
    ensures IsFile(env.fs, path)
  {
    GroupedAfter(env, p, plan, q, changes, path);
    GroupDiffExact(env, p, path);
    if path in Found(env, p.dirs) {
      FoundIsFile(env, p.dirs, path);
    }
  }

  lemma {:induction false} GroupsThenMatch(env: Env, p: Project, plan: Plan, q: Project, changes: nat)
    requires UniqueNames(env.fs) && SyncStep(env, p, plan, q, changes)
    requires NothingNew(env, p, plan.newDirs) && GoneOnce(p.grouped, Gone(env, p))
    ensures GroupsMatch(env, q)
  {
    FoundJoin(env, p.dirs, plan.newDirs);
    forall path | path in Found(env, q.dirs) ensures path in PathsOf(q.grouped) {
      FoundThenGrouped(env, p, plan, q, changes, path);
    }
    forall path | path in PathsOf(q.grouped) ensures IsFile(env.fs, path) {
      GroupedThenFile(env, p, plan, q, changes, path);
    }
  }

  lemma {:induction false} GoneThenOnce(env: Env, p: Project, plan: Plan, q: Project, changes: nat, a: Ref, b: Ref)
    requires SyncStep(env, p, plan, q, changes) && GroupsMatch(env, q)
    requires a in p.grouped && b in p.grouped && a.path == b.path && a.path in Gone(env, p)
    ensures a == b
  {
    RemovedExact(env, p, a);
    RemovedExact(env, p, b);
    assert !IsFile(env.fs, a.path);
    assert a in q.grouped ==> a.path in PathsOf(q.grouped);
    assert b in q.grouped ==> b.path in PathsOf(q.grouped);
  }

  /** After a sync the groups match the file system exactly when no file that was gone had two
      references in the groups, and the new groups bring in nothing new. */
  lemma {:induction false} GroupsConvergeExact(env: Env, p: Project, plan: Plan, q: Project, changes: nat)
    requires UniqueNames(env.fs) && SyncStep(env, p, plan, q, changes)
    ensures GroupsMatch(env, q) <==> NothingNew(env, p, plan.newDirs) && GoneOnce(p.grouped, Gone(env, p))
  {
    if NothingNew(env, p, plan.newDirs) && GoneOnce(p.grouped, Gone(env, p)) {
      GroupsThenMatch(env, p, plan, q, changes);
    }
    if GroupsMatch(env, q) {
      forall a, b | a in p.grouped && b in p.grouped && a.path == b.path && a.path in Gone(env, p) ensures a == b {
        GoneThenOnce(env, p, plan, q, changes, a, b);
      }
      FoundJoin(env, p.dirs, plan.newDirs);
      forall path | path in Found(env, plan.newDirs) ensures path in Found(env, p.dirs) + PathsOf(p.grouped) {
        GroupedAfter(env, p, plan, q, changes, path);
      }
    }
  }

  // ---------------------------------------------------------------- the targets

  /** The paths that a target is to have after a sync. */
  function Wanted(env: Env, p: Project, def: TargetDef): set<Path> {
    Matched(def, ProjectFiles(env, p.files, Gone(env, p))) +
    set path | path in ToAdd(GroupDiff(env, p)) && Matches(def, path) && !Ignored(env, path)
  }

  lemma {:induction false} MatchedIsWanted(env: Env, p: Project, added: seq<Ref>, def: TargetDef)
    requires NewRefs(p, added, ToAdd(GroupDiff(env, p)))
    ensures Matched(def, ProjectFiles(env, p.files + added, Gone(env, p))) == Wanted(env, p, def)
  {
    var after := ProjectFiles(env, p.files + added, Gone(env, p));
    forall path | path in Wanted(env, p, def) ensures path in Matched(def, after) {
      if path in ToAdd(GroupDiff(env, p)) && Matches(def, path) && !Ignored(env, path) {
        assert path in PathsOf(added);
        var r :| r in added && r.path == path;
        assert r in after;
      } else {
        var r :| r in ProjectFiles(env, p.files, Gone(env, p)) && Matches(def, r.path) && r.path == path;
        assert r in after;
      }
    }
    forall path | path in Matched(def, after) ensures path in Wanted(env, p, def) {
      var r :| r in after && Matches(def, r.path) && r.path == path;
      if r in added {
        assert path in PathsOf(added);
      } else {
        assert r in ProjectFiles(env, p.files, Gone(env, p));
      }
    }
  }

  /** A file that is gone is still referred to, by a reference that a definition matches and that is
      not the one removed from the groups. */
  ghost predicate Shadowed(env: Env, p: Project, def: TargetDef, path: Path) {
    exists r :: IsShadow(env, p, def, path, r)
  }

  ghost predicate IsShadow(env: Env, p: Project, def: TargetDef, path: Path, r: Ref) {
    && r in p.files && r.path == path && LastRef(p.grouped, path) != Some(r)
    && r.inGroup && !Ignored(env, path) && Matches(def, path)
  }

  lemma {:induction false} KeptRef(env: Env, p: Project, plan: Plan, q: Project, changes: nat, r: Ref)
    requires SyncStep(env, p, plan, q, changes)
    ensures r in q.files
       <==> r in p.files + plan.added && !(r.path in Gone(env, p) && LastRef(p.grouped, r.path) == Some(r))
    ensures r in plan.added ==> r.path !in Gone(env, p)
  {
    RemovedExact(env, p, r);
    if r in plan.added {
      assert r.path in PathsOf(plan.added);
      GroupDiffExact(env, p, r.path);
    }
  }

  /** What a definition matches after a sync. */
  lemma {:induction false} MatchedAfter(
      env: Env, p: Project, plan: Plan, q: Project, changes: nat, def: TargetDef, path: Path)
    requires SyncStep(env, p, plan, q, changes)
    ensures path in Matched(def, ProjectFiles(env, q.files, {})) <==>
            if path in Gone(env, p) then Shadowed(env, p, def, path) else path in Wanted(env, p, def)
  {
    var before, after := ProjectFiles(env, p.files + plan.added, Gone(env, p)), ProjectFiles(env, q.files, {});
    MatchedIsWanted(env, p, plan.added, def);
    forall r: Ref | r.path == path
      ensures r in q.files
         <==> r in p.files + plan.added && !(path in Gone(env, p) && LastRef(p.grouped, path) == Some(r))
      ensures r in plan.added ==> path !in Gone(env, p)
    {
      KeptRef(env, p, plan, q, changes, r);
    }
    if path in Gone(env, p) {
      if path in Matched(def, after) {
        var r :| r in after && Matches(def, r.path) && r.path == path;
        assert IsShadow(env, p, def, path, r);
      }
      if Shadowed(env, p, def, path) {
        var r :| IsShadow(env, p, def, path, r);
        assert r in after;
      }
    } else {
      assert forall r: Ref :: r.path == path ==> (r in after <==> r in before);
    }
  }

  /** The only build file of a path, and in the phase where it is synced. */
  ghost predicate OnlyBuildFile(t: Target, path: Path) {
    exists r :: IsOnlyBuildFile(t, path, r)
  }

  ghost predicate IsOnlyBuildFile(t: Target, path: Path, r: Ref) {
    && r.path == path && TargetFiles(t)[r] == 1
    && FindPhase(path).Some? && r in FilesOf(t, FindPhase(path).value)
    && (forall other :: other in TargetFiles(t) && other.path == path ==> other == r)
  }

  /** Every file that a target is to lose is built once, in the phase where it is synced; those
      that are gone from the project do not matter. */
  ghost predicate RightPhases(env: Env, p: Project, def: TargetDef, t: Target) {
    forall path :: path in TargetPaths(t) && FindPhase(path).Some? && path !in Wanted(env, p, def)
      && path !in Gone(env, p)
      ==> OnlyBuildFile(t, path)
  }

  ghost predicate RightAt(env: Env, p: Project, i: nat)
    requires i < |p.targets|
  {
    IsSynced(env, p.targets[i].name) ==>
      RightPhases(env, p, FindTarget(env.defs, p.targets[i].name).value, p.targets[i])
  }

  ghost predicate AllRightPhases(env: Env, p: Project) {
    forall i: nat :: i < |p.targets| ==> RightAt(env, p, i)
  }

  lemma {:induction false} PhaseRefExact(def: TargetDef, files: seq<Ref>, t: Target, d: DiffValue, paths: set<Path>,
                                         phase: Phase, r: Ref)
    requires IsTargetDiff(def, files, t, d) && paths <= d.Keys
    ensures r in PhaseRefs(d, paths, phase) <==>
            r.path in paths && d[r.path].ref == Some(r) && FindPhase(r.path) == Some(phase)
  {
    if r in PhaseRefs(d, paths, phase) {
      var path :| path in paths && d[path].ref == Some(r) && FindPhase(path) == Some(phase);
      assert TargetEntry(def, files, t, path, d[path]);
    }
  }

  predicate IsEntryOf(d: DiffValue, r: Ref) {
    r.path in d && d[r.path].ref == Some(r) && FindPhase(r.path).Some?
  }

  function CountAfter(d: DiffValue, n: nat, r: Ref): nat {
    if r.path in ToAdd(d) then n + 1 else if r.path in ToRemove(d) && n > 0 then n - 1 else n
  }

  /** How often a reference occurs in a phase after its target was synced. */
  lemma {:induction false} PhaseCount(def: TargetDef, files: seq<Ref>, t: Target, d: DiffValue, phase: Phase, r: Ref)
    requires IsTargetDiff(def, files, t, d)
    ensures SyncPhase(d, t, phase)[r] == var n := FilesOf(t, phase)[r];
                                         if IsEntryOf(d, r) && FindPhase(r.path) == Some(phase)
                                         then CountAfter(d, n, r) else n
  {
    PhaseRefExact(def, files, t, d, ToAdd(d), phase, r);
    PhaseRefExact(def, files, t, d, ToRemove(d), phase, r);
  }

  lemma {:induction false} FileCount(def: TargetDef, files: seq<Ref>, t: Target, d: DiffValue, r: Ref)
    requires IsTargetDiff(def, files, t, d)
    ensures TargetFiles(SyncTarget(d, t))[r] == FileCountAfter(t, d, r)
  {
    PhaseCount(def, files, t, d, Sources, r);
    PhaseCount(def, files, t, d, Resources, r);
    SumAfter(t, SyncTarget(d, t), d, r, FindPhase(r.path));
  }

  function FileCountAfter(t: Target, d: DiffValue, r: Ref): int {
    var n := TargetFiles(t)[r];
    if !IsEntryOf(d, r) then n
    else
      var k := FilesOf(t, FindPhase(r.path).value)[r];
      n - k + CountAfter(d, k, r)
  }

  lemma {:induction false} SumAfter(t: Target, u: Target, d: DiffValue, r: Ref, phase: Option<Phase>)
    requires phase == FindPhase(r.path) && u.headers == t.headers
    requires u.sources[r] == var n := t.sources[r];
                             if IsEntryOf(d, r) && phase == Some(Sources) then CountAfter(d, n, r) else n
    requires u.resources[r] == var n := t.resources[r];
                               if IsEntryOf(d, r) && phase == Some(Resources) then CountAfter(d, n, r) else n
    ensures TargetFiles(u)[r] == FileCountAfter(t, d, r)
  {
    FilesSum(t, r);
    FilesSum(u, r);
    assert phase in {None, Some(Sources), Some(Resources)};
  }

  lemma {:induction false} FilesSum(t: Target, r: Ref)
    ensures TargetFiles(t)[r] == t.headers[r] + t.sources[r] + t.resources[r]
  {
  }

  /** What is left of a path after one build file was taken from one phase. */
  ghost predicate LessOne(t: Target, u: Target, path: Path, r: Ref, phase: Phase) {
    forall other: Ref :: other.path == path ==>
      TargetFiles(u)[other] == TargetFiles(t)[other] - if other == r && r in FilesOf(t, phase) then 1 else 0
  }

  lemma {:induction false} LessOneLeaves(t: Target, u: Target, path: Path, r: Ref, phase: Phase)
    requires LessOne(t, u, path, r, phase) && FindPhase(path) == Some(phase)
    requires r.path == path && r in TargetFiles(t)
    ensures path in TargetPaths(u) <==> !OnlyBuildFile(t, path)
  {
    if OnlyBuildFile(t, path) {
      var only :| IsOnlyBuildFile(t, path, only);
      assert only == r;
      assert forall other: Ref :: other.path == path ==> other !in TargetFiles(u);
    }
    if path !in TargetPaths(u) {
      forall other | other in TargetFiles(t) && other.path == path ensures other == r {
        assert other in TargetFiles(u) ==> other.path in TargetPaths(u);
      }
      assert r in TargetFiles(u) ==> r.path in TargetPaths(u);
      assert IsOnlyBuildFile(t, path, r);
    }
  }

  lemma {:induction false} RemovedFromTarget(def: TargetDef, files: seq<Ref>, t: Target, d: DiffValue, path: Path)
    requires IsTargetDiff(def, files, t, d) && path in ToRemove(d) && FindPhase(path).Some?
    ensures path in TargetPaths(SyncTarget(d, t)) <==> !OnlyBuildFile(t, path)
  {
    assert TargetEntry(def, files, t, path, d[path]);
    var r, phase := d[path].ref.value, FindPhase(path).value;
    forall other: Ref | other.path == path
      ensures TargetFiles(SyncTarget(d, t))[other] ==
              TargetFiles(t)[other] - if other == r && r in FilesOf(t, phase) then 1 else 0
    {
      FileCount(def, files, t, d, other);
    }
    LessOneLeaves(t, SyncTarget(d, t), path, r, phase);
  }

  lemma {:induction false} PathOfFile(t: Target, r: Ref)
    requires r in TargetFiles(t)
    ensures r.path in TargetPaths(t)
  {
  }

  lemma {:induction false} FileOfPath(t: Target, path: Path) returns (r: Ref)
    requires path in TargetPaths(t)
    ensures r in TargetFiles(t) && r.path == path
  {
    r :| r in TargetFiles(t) && r.path == path;
  }

  lemma {:induction false} KeptInTarget(def: TargetDef, files: seq<Ref>, t: Target, d: DiffValue, path: Path)
    requires IsTargetDiff(def, files, t, d) && path !in ToRemove(d) && FindPhase(path).Some?
    ensures path in TargetPaths(SyncTarget(d, t)) <==> path in Matched(def, files)
  {
    var u := SyncTarget(d, t);
    if path in d {
      assert TargetEntry(def, files, t, path, d[path]);
      var r := d[path].ref.value;
      if path in TargetPaths(t) {
        r := FileOfPath(t, path);
      }
      FileCount(def, files, t, d, r);
      PathOfFile(u, r);
    } else if path in TargetPaths(u) {
      var r := FileOfPath(u, path);
      FileCount(def, files, t, d, r);
      PathOfFile(t, r);
    }
  }

  lemma {:induction false} DroppedFiles(t: Target, u: Target, removed: set<Ref>, r: Ref)
    requires TargetDropped(t, u, removed)
    ensures r in TargetFiles(u) <==> r in TargetFiles(t) && r !in removed
  {
    assert u.headers[r] == if r in removed then 0 else t.headers[r];
    assert u.sources[r] == if r in removed then 0 else t.sources[r];
    assert u.resources[r] == if r in removed then 0 else t.resources[r];
  }

  /** The build file that was taken from a target for a path, if any. */
  function Taken(d: DiffValue, path: Path): Option<Ref> {
    if path in d then d[path].ref else None
  }

  /** A target still has a build file of a path that is gone: not of the reference that left the
      project, and not the one build file that was taken away. */
  ghost predicate LeftBehind(t: Target, path: Path, gone: Option<Ref>, taken: Option<Ref>) {
    exists r :: IsLeft(t, path, gone, taken, r)
  }

  ghost predicate IsLeft(t: Target, path: Path, gone: Option<Ref>, taken: Option<Ref>, r: Ref) {
    && r.path == path && r in TargetFiles(t) && Some(r) != gone
    && !(Some(r) == taken && TargetFiles(t)[r] == 1 && FindPhase(path).Some? && r in FilesOf(t, FindPhase(path).value))
  }

  lemma {:induction false} UnmatchedCount(def: TargetDef, files: seq<Ref>, t: Target, d: DiffValue, r: Ref)
    requires IsTargetDiff(def, files, t, d) && r.path !in Matched(def, files) && FindPhase(r.path).Some?
    ensures r in TargetFiles(SyncTarget(d, t)) <==>
            r in TargetFiles(t) && !(Some(r) == Taken(d, r.path) && TargetFiles(t)[r] == 1
                                     && r in FilesOf(t, FindPhase(r.path).value))
  {
    FileCount(def, files, t, d, r);
    FilesSum(t, r);
    if r.path in d {
      assert TargetEntry(def, files, t, r.path, d[r.path]);
    } else if r in TargetFiles(t) {
      PathOfFile(t, r);
    }
  }

  /** What a target has of a path that is gone, after the sync. */
  lemma {:induction false} GoneFromTarget(
      env: Env, p: Project, plan: Plan, q: Project, changes: nat, i: nat, path: Path)
    requires SyncStep(env, p, plan, q, changes) && FindPhase(path).Some?
    requires i < |p.targets| && IsSynced(env, p.targets[i].name) && path in Gone(env, p)
    ensures path in TargetPaths(q.targets[i]) <==>
            LeftBehind(p.targets[i], path, LastRef(p.grouped, path), Taken(plan.targets[i], path))
  {
    var t, d, u := p.targets[i], plan.targets[i], q.targets[i];
    assert TargetStep(env, p.files + plan.added, GroupDiff(env, p), t, d, u);
    var def, files := FindTarget(env.defs, t.name).value, ProjectFiles(env, p.files + plan.added, Gone(env, p));
    forall r: Ref | r.path == path
      ensures r in TargetFiles(u) <==> IsLeft(t, path, LastRef(p.grouped, path), Taken(d, path), r)
    {
      UnmatchedCount(def, files, t, d, r);
      DroppedFiles(SyncTarget(d, t), u, RemovedRefs(GroupDiff(env, p)), r);
      RemovedExact(env, p, r);
    }
    if path in TargetPaths(u) {
      var r := FileOfPath(u, path);
      assert IsLeft(t, path, LastRef(p.grouped, path), Taken(d, path), r);
    }
    if LeftBehind(t, path, LastRef(p.grouped, path), Taken(d, path)) {
      var r :| IsLeft(t, path, LastRef(p.grouped, path), Taken(d, path), r);
      PathOfFile(u, r);
    }
  }

  lemma {:induction false} TargetAfter(env: Env, p: Project, plan: Plan, q: Project, changes: nat, i: nat, path: Path)
    requires SyncStep(env, p, plan, q, changes)
    requires i < |p.targets| && IsSynced(env, p.targets[i].name)
    requires FindPhase(path).Some? && path !in Gone(env, p)
    ensures var t, wanted := p.targets[i], Wanted(env, p, FindTarget(env.defs, p.targets[i].name).value);
            path in TargetPaths(q.targets[i]) <==>
            path in wanted || (path in TargetPaths(t) && !OnlyBuildFile(t, path))
  {
    var t, d, u := p.targets[i], plan.targets[i], q.targets[i];
    assert TargetStep(env, p.files + plan.added, GroupDiff(env, p), t, d, u);
    var def, files := FindTarget(env.defs, t.name).value, ProjectFiles(env, p.files + plan.added, Gone(env, p));
    MatchedIsWanted(env, p, plan.added, def);
    forall r: Ref | r.path == path ensures r in TargetFiles(u) <==> r in TargetFiles(SyncTarget(d, t)) {
      DroppedFiles(SyncTarget(d, t), u, RemovedRefs(GroupDiff(env, p)), r);
      RemovedExact(env, p, r);
    }
    assert path in TargetPaths(u) <==> path in TargetPaths(SyncTarget(d, t));
    if path in d {
      assert TargetEntry(def, files, t, path, d[path]);
    }
    if path in ToRemove(d) {
      RemovedFromTarget(def, files, t, d, path);
    } else {
      KeptInTarget(def, files, t, d, path);
    }
  }

  /** For the paths that are gone: a target keeps a build file exactly when a definition still finds
      a reference to match. */
  ghost predicate GoneSettled(env: Env, p: Project, def: TargetDef, t: Target, d: DiffValue) {
    forall path :: path in Gone(env, p) && FindPhase(path).Some? ==>
      (Shadowed(env, p, def, path) <==> LeftBehind(t, path, LastRef(p.grouped, path), Taken(d, path)))
  }

  ghost predicate SettledAt(env: Env, p: Project, plan: Plan, i: nat)
    requires i < |p.targets| && i < |plan.targets|
  {
    IsSynced(env, p.targets[i].name) ==>
      GoneSettled(env, p, FindTarget(env.defs, p.targets[i].name).value, p.targets[i], plan.targets[i])
  }

  ghost predicate AllSettled(env: Env, p: Project, plan: Plan)
    requires |p.targets| == |plan.targets|
  {
    forall i: nat :: i < |p.targets| ==> SettledAt(env, p, plan, i)
  }

  /** Nothing is left to do for one path: the two conditions at that path. */
  ghost predicate PathSettled(env: Env, p: Project, def: TargetDef, t: Target, d: DiffValue, path: Path) {
    if path in Gone(env, p)
    then (Shadowed(env, p, def, path) <==> LeftBehind(t, path, LastRef(p.grouped, path), Taken(d, path)))
    else (path in TargetPaths(t) && path !in Wanted(env, p, def) && FindPhase(path).Some? ==> OnlyBuildFile(t, path))
  }

  ghost predicate PathsSettled(env: Env, p: Project, def: TargetDef, t: Target, d: DiffValue) {
    forall path :: FindPhase(path).Some? ==> PathSettled(env, p, def, t, d, path)
  }

  lemma {:induction false} PathsAndTargets(env: Env, p: Project, def: TargetDef, t: Target, d: DiffValue)
    ensures PathsSettled(env, p, def, t, d) <==> RightPhases(env, p, def, t) && GoneSettled(env, p, def, t, d)
  {
    if PathsSettled(env, p, def, t, d) {
      forall path | path in TargetPaths(t) && FindPhase(path).Some? && path !in Wanted(env, p, def)
        && path !in Gone(env, p)
        ensures OnlyBuildFile(t, path)
      {
        assert PathSettled(env, p, def, t, d, path);
      }
      forall path | path in Gone(env, p) && FindPhase(path).Some?
        ensures Shadowed(env, p, def, path) <==> LeftBehind(t, path, LastRef(p.grouped, path), Taken(d, path))
      {
        assert PathSettled(env, p, def, t, d, path);
      }
    }
  }

  lemma {:induction false} PathConverges(env: Env, p: Project, plan: Plan, q: Project, changes: nat, i: nat, path: Path)
    requires SyncStep(env, p, plan, q, changes) && FindPhase(path).Some?
    requires i < |p.targets| && IsSynced(env, p.targets[i].name)
    ensures var def := FindTarget(env.defs, p.targets[i].name).value;
            PathMatches(env, def, q.files, q.targets[i], path) <==>
            PathSettled(env, p, def, p.targets[i], plan.targets[i], path)
  {
    MatchedAfter(env, p, plan, q, changes, FindTarget(env.defs, p.targets[i].name).value, path);
    if path in Gone(env, p) {
      GoneFromTarget(env, p, plan, q, changes, i, path);
    } else {
      TargetAfter(env, p, plan, q, changes, i, path);
    }
  }

  lemma {:induction false} TargetConverges(env: Env, p: Project, plan: Plan, q: Project, changes: nat, i: nat)
    requires SyncStep(env, p, plan, q, changes)
    requires i < |p.targets| && IsSynced(env, p.targets[i].name)
    ensures var def := FindTarget(env.defs, p.targets[i].name).value;
            TargetMatches(env, def, q.files, q.targets[i]) <==> PathsSettled(env, p, def, p.targets[i], plan.targets[i])
  {
    var def := FindTarget(env.defs, p.targets[i].name).value;
    var u, t, d := q.targets[i], p.targets[i], plan.targets[i];
    forall path: Path | FindPhase(path).Some?
      ensures PathMatches(env, def, q.files, u, path) <==> PathSettled(env, p, def, t, d, path)
    {
      PathConverges(env, p, plan, q, changes, i, path);
    }
  }

  lemma {:induction false} OneTargetConverges(env: Env, p: Project, plan: Plan, q: Project, changes: nat, i: nat)
    requires SyncStep(env, p, plan, q, changes) && i < |p.targets|
    ensures TargetQuiet(env, q, i) <==> RightAt(env, p, i) && SettledAt(env, p, plan, i)
  {
    SameName(env, p, plan, q, changes, i);
    if IsSynced(env, p.targets[i].name) {
      TargetConverges(env, p, plan, q, changes, i);
      PathsAndTargets(env, p, FindTarget(env.defs, p.targets[i].name).value, p.targets[i], plan.targets[i]);
    }
  }

  lemma {:induction false} SameName(env: Env, p: Project, plan: Plan, q: Project, changes: nat, i: nat)
    requires SyncStep(env, p, plan, q, changes) && i < |p.targets|
    ensures q.targets[i].name == p.targets[i].name
  {
    assert TargetStep(env, p.files + plan.added, GroupDiff(env, p), p.targets[i], plan.targets[i], q.targets[i]);
  }

  lemma {:induction false} TargetsConverge(env: Env, p: Project, plan: Plan, q: Project, changes: nat)
    requires SyncStep(env, p, plan, q, changes)
    ensures TargetsMatch(env, q) <==> AllRightPhases(env, p) && AllSettled(env, p, plan)
  {
    if TargetsMatch(env, q) {
      forall i: nat | i < |p.targets| ensures RightAt(env, p, i) && SettledAt(env, p, plan, i) {
        assert TargetQuiet(env, q, i);
        OneTargetConverges(env, p, plan, q, changes, i);
      }
    }
    if AllRightPhases(env, p) && AllSettled(env, p, plan) {
      QuietIfSettled(env, p, plan, q, changes);
    }
  }

  lemma {:induction false} QuietIfSettled(env: Env, p: Project, plan: Plan, q: Project, changes: nat)
    requires SyncStep(env, p, plan, q, changes) && AllRightPhases(env, p) && AllSettled(env, p, plan)
    ensures TargetsMatch(env, q)
  {
    forall i: nat | i < |q.targets| ensures TargetQuiet(env, q, i) {
      assert RightAt(env, p, i) && SettledAt(env, p, plan, i);
      OneTargetConverges(env, p, plan, q, changes, i);
    }
  }

  /** The first sync left nothing to do. */
  ghost predicate Settles(env: Env, p: Project, plan: Plan)
    requires |p.targets| == |plan.targets|
  {
    && NothingNew(env, p, plan.newDirs) && GoneOnce(p.grouped, Gone(env, p))
    && AllRightPhases(env, p) && AllSettled(env, p, plan)
  }

  /** A second sync returns 0 exactly when the new groups brought in nothing new, no file that is gone
      had two references in the groups, every other file that a target was to lose was built once,
      in the phase where it is synced, and each target keeps a file that is gone exactly when a
      definition still matches a reference to it. */
  lemma {:induction false} SecondSyncExact(env: Env, p: Project, plan: Plan, q: Project, changes: nat,
                                           again: Plan, r: Project, more: nat)
    requires UniqueNames(env.fs) && SyncStep(env, p, plan, q, changes) && SyncStep(env, q, again, r, more)
    ensures more == 0 <==> Settles(env, p, plan)
    ensures more == 0 ==> r == q
  {
    ZeroExact(env, q, again, r, more);
    GroupsConvergeExact(env, p, plan, q, changes);
    TargetsConverge(env, p, plan, q, changes);
  }

  lemma {:induction false} OnceIsSettled(env: Env, p: Project, plan: Plan, i: nat)
    requires WellFormed(p) && GoneOnce(p.files, Gone(env, p)) && i < |p.targets| == |plan.targets|
    ensures SettledAt(env, p, plan, i)
  {
    if IsSynced(env, p.targets[i].name) {
      var t, d, def := p.targets[i], plan.targets[i], FindTarget(env.defs, p.targets[i].name).value;
      forall path | path in Gone(env, p)
        ensures !Shadowed(env, p, def, path) && !LeftBehind(t, path, LastRef(p.grouped, path), Taken(d, path))
      {
        GroupDiffExact(env, p, path);
        var gone := LastRef(p.grouped, path).value;
        assert gone in p.files && gone.path == path;
        assert forall r :: r in TargetFiles(t) ==> r in p.files;
      }
    }
  }

  /** Where each file that is gone has one reference in the project, the first and the third of these
      conditions are all that is needed. */
  lemma {:induction false} SettlesOnce(env: Env, p: Project, plan: Plan)
    requires WellFormed(p) && GoneOnce(p.files, Gone(env, p)) && |p.targets| == |plan.targets|
    ensures Settles(env, p, plan) <==> NothingNew(env, p, plan.newDirs) && AllRightPhases(env, p)
  {
    forall a, b | a in p.grouped && b in p.grouped && a.path == b.path && a.path in Gone(env, p) ensures a == b {
      assert a in p.files && b in p.files;
    }
    forall i: nat | i < |p.targets| ensures SettledAt(env, p, plan, i) {
      OnceIsSettled(env, p, plan, i);
    }
  }

  /** A second reference, outside the synced groups, to a file that is gone comes back as a file to
      add: the sync after the first is not 0. */
  lemma {:induction false} ShadowReference(env: Env, p: Project, plan: Plan, q: Project, changes: nat,
                                           again: Plan, r: Project, more: nat, shadow: Ref, i: nat)
    requires UniqueNames(env.fs)
    requires SyncStep(env, p, plan, q, changes) && SyncStep(env, q, again, r, more)
    requires shadow in p.files && shadow !in p.grouped && shadow.inGroup && !Ignored(env, shadow.path)
    requires shadow.path in Gone(env, p) && FindPhase(shadow.path).Some?
    requires i < |p.targets| && IsSynced(env, p.targets[i].name) && shadow.path !in TargetPaths(p.targets[i])
    requires Matches(FindTarget(env.defs, p.targets[i].name).value, shadow.path)
    ensures more > 0
  {
    var t, d, u := p.targets[i], plan.targets[i], q.targets[i];
    var def, files := FindTarget(env.defs, t.name).value, ProjectFiles(env, p.files + plan.added, Gone(env, p));
    assert TargetStep(env, p.files + plan.added, GroupDiff(env, p), t, d, u);
    RemovedExact(env, p, shadow);
    assert shadow in q.files && shadow in ProjectFiles(env, q.files, {});
    KeptInTarget(def, files, t, d, shadow.path);
    if shadow.path in TargetPaths(u) {
      var left := FileOfPath(u, shadow.path);
      DroppedFiles(SyncTarget(d, t), u, RemovedRefs(GroupDiff(env, p)), left);
      PathOfFile(SyncTarget(d, t), left);
    }
    assert !PathMatches(env, def, q.files, u, shadow.path);
    assert !TargetQuiet(env, q, i);
    ZeroExact(env, q, again, r, more);
  }

  /** A sync keeps the project well formed. */
  lemma {:induction false} StaysWellFormed(env: Env, p: Project, plan: Plan, q: Project, changes: nat)
    requires WellFormed(p) && SyncStep(env, p, plan, q, changes)
    ensures WellFormed(q)
  {
    var removed := RemovedRefs(GroupDiff(env, p));
    forall r | r in q.grouped ensures r in q.files {
      assert r in p.grouped + plan.added && r !in removed;
    }
    forall i, r | 0 <= i < |q.targets| && r in TargetFiles(q.targets[i]) ensures r in q.files {
      assert TargetStep(env, p.files + plan.added, GroupDiff(env, p), p.targets[i], plan.targets[i], q.targets[i]);
      DroppedFiles(SyncTarget(plan.targets[i], p.targets[i]), q.targets[i], removed, r);
      FilesAfter(FindTarget(env.defs, p.targets[i].name), ProjectFiles(env, p.files + plan.added, Gone(env, p)),
                 p.targets[i], plan.targets[i], p.files + plan.added, r);
    }
    forall a, b | a in q.files && b in q.files && a.id == b.id ensures a == b {
      SameId(p, plan.added, ToAdd(GroupDiff(env, p)), a, b);
    }
  }

  lemma {:induction false} SameId(p: Project, added: seq<Ref>, paths: set<Path>, a: Ref, b: Ref)
    requires WellFormed(p) && NewRefs(p, added, paths)
    requires a in p.files + added && b in p.files + added && a.id == b.id
    ensures a == b
  {
  }

  lemma {:induction false} OldOrListed(def: TargetDef, files: seq<Ref>, t: Target, d: DiffValue, r: Ref)
    requires IsTargetDiff(def, files, t, d) && r in TargetFiles(SyncTarget(d, t))
    ensures r in TargetFiles(t) || r in files
  {
    FileCount(def, files, t, d, r);
    if r !in TargetFiles(t) {
      assert TargetEntry(def, files, t, r.path, d[r.path]);
    }
  }

  lemma {:induction false} Untouched(t: Target, d: DiffValue)
    requires Syncable(Changed(d)) == {}
    ensures SyncTarget(d, t) == t
  {
    SamePhase(t, d, Sources);
    SamePhase(t, d, Resources);
  }

  lemma {:induction false} FilesAfter(
      def: Option<TargetDef>, files: seq<Ref>, t: Target, d: DiffValue, all: seq<Ref>, r: Ref)
    requires d == map[] || (def.Some? && IsTargetDiff(def.value, files, t, d))
    requires r in TargetFiles(SyncTarget(d, t))
    requires (forall f :: f in TargetFiles(t) ==> f in all) && (forall f :: f in files ==> f in all)
    ensures r in all
  {
    if d == map[] {
      Untouched(t, d);
    } else {
      OldOrListed(def.value, files, t, d, r);
    }
  }
}
