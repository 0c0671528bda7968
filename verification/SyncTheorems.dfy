/** What one sync of a project does. */
module SyncTheorems {
  // When nothing is to be changed, and that the sync then changes nothing.

  import opened Wrappers
  import opened SyncValues

  // ---------------------------------------------------------------- nothing to change

  /** The groups show the files that there are. */
  ghost predicate GroupsMatch(env: Env, p: Project) {
    && Found(env, p.dirs) <= PathsOf(p.grouped)
    && (forall path :: path in PathsOf(p.grouped) ==> IsFile(env.fs, path))
  }

  /** A target has, but for headers, exactly the project files that its definition matches. */
  ghost predicate TargetMatches(env: Env, def: TargetDef, files: seq<Ref>, t: Target) {
    forall path :: FindPhase(path).Some? ==> PathMatches(env, def, files, t, path)
  }

  ghost predicate PathMatches(env: Env, def: TargetDef, files: seq<Ref>, t: Target, path: Path) {
    path in TargetPaths(t) <==> path in Matched(def, ProjectFiles(env, files, {}))
  }

  ghost predicate TargetQuiet(env: Env, p: Project, i: nat)
    requires i < |p.targets|
  {
    IsSynced(env, p.targets[i].name) ==>
      TargetMatches(env, FindTarget(env.defs, p.targets[i].name).value, p.files, p.targets[i])
  }

  ghost predicate TargetsMatch(env: Env, p: Project) {
    forall i: nat :: i < |p.targets| ==> TargetQuiet(env, p, i)
  }

  lemma {:induction false} FoundIsFile(env: Env, dirs: seq<Path>, path: Path)
    requires UniqueNames(env.fs) && path in Found(env, dirs)
    ensures IsFile(env.fs, path)
  {
    FoundExact(env, dirs, path);
  }

  lemma {:induction false} NoGroupChange(env: Env, p: Project)
    requires UniqueNames(env.fs)
    ensures Changed(GroupDiff(env, p)) == {} <==> GroupsMatch(env, p)
    ensures GroupsMatch(env, p) ==> RemovedRefs(GroupDiff(env, p)) == {}
  {
    var d := GroupDiff(env, p);
    if Changed(d) == {} {
      forall path | path in Found(env, p.dirs) ensures path in PathsOf(p.grouped) {
        assert path !in ToAdd(d);
      }
      forall path | path in PathsOf(p.grouped) ensures IsFile(env.fs, path) {
        assert path !in ToRemove(d);
        if path in Found(env, p.dirs) {
          FoundIsFile(env, p.dirs, path);
        }
      }
    }
  }

  lemma {:induction false} ChangesZero(ds: seq<DiffValue>)
    ensures Changes(ds) == 0 <==> forall i :: 0 <= i < |ds| ==> Syncable(Changed(ds[i])) == {}
  {
    if ds != [] {
      ChangesZero(ds[..|ds| - 1]);
      assert forall i :: 0 <= i < |ds| - 1 ==> ds[..|ds| - 1][i] == ds[i];
    }
  }

  lemma {:induction false} NoTargetChange(env: Env, def: TargetDef, files: seq<Ref>, t: Target, d: DiffValue)
    requires IsTargetDiff(def, ProjectFiles(env, files, {}), t, d)
    ensures Syncable(Changed(d)) == {} <==> TargetMatches(env, def, files, t)
  {
    var matched := Matched(def, ProjectFiles(env, files, {}));
    if Syncable(Changed(d)) == {} {
      forall path | FindPhase(path).Some? ensures PathMatches(env, def, files, t, path) {
        assert path !in Syncable(Changed(d));
        assert path in d ==> TargetEntry(def, ProjectFiles(env, files, {}), t, path, d[path]);
      }
    }
    if TargetMatches(env, def, files, t) {
      forall path | path in Changed(d) ensures FindPhase(path).None? {
        assert FindPhase(path).Some? ==> PathMatches(env, def, files, t, path);
        assert TargetEntry(def, ProjectFiles(env, files, {}), t, path, d[path]);
      }
    }
  }

  lemma {:induction false} NoRefs(added: seq<Ref>)
    ensures PathsOf(added) == {} ==> added == []
  {
    if added != [] {
      assert added[0].path in PathsOf(added);
    }
  }

  lemma {:induction false} WithoutNone(refs: seq<Ref>)
    ensures Without(refs, {}) == refs
  {
    if refs != [] {
      WithoutNone(refs[..|refs| - 1]);
    }
  }

  lemma {:induction false} DroppedNone(before: multiset<Ref>, after: multiset<Ref>)
    requires Dropped(before, after, {})
    ensures after == before
  {
    assert forall r :: after[r] == before[r];
  }

  lemma {:induction false} SamePhase(t: Target, d: DiffValue, phase: Phase)
    requires Syncable(Changed(d)) == {}
    ensures SyncPhase(d, t, phase) == FilesOf(t, phase)
  {
    NoPhaseRefs(d, ToAdd(d), phase);
    NoPhaseRefs(d, ToRemove(d), phase);
  }

  lemma {:induction false} SameTarget(t: Target, d: DiffValue, u: Target)
    requires Syncable(Changed(d)) == {} && TargetDropped(SyncTarget(d, t), u, {})
    ensures u == t
  {
    SamePhase(t, d, Sources);
    SamePhase(t, d, Resources);
    DroppedNone(t.headers, u.headers);
    DroppedNone(t.sources, u.sources);
    DroppedNone(t.resources, u.resources);
  }

  lemma {:induction false} NoPhaseRefs(d: DiffValue, paths: set<Path>, phase: Phase)
    requires Syncable(Changed(d)) == {} && paths <= Changed(d)
    ensures PhaseRefs(d, paths, phase) == {}
  {
    forall path | path in paths ensures FindPhase(path) != Some(phase) {
      assert path !in Syncable(Changed(d));
    }
  }

  lemma {:induction false} TargetZero(env: Env, p: Project, i: nat, d: DiffValue, u: Target)
    requires i < |p.targets| && ToRemove(GroupDiff(env, p)) == {}
    requires TargetStep(env, p.files, GroupDiff(env, p), p.targets[i], d, u)
    ensures Syncable(Changed(d)) == {} <==> TargetQuiet(env, p, i)
    ensures Syncable(Changed(d)) == {} ==> u == p.targets[i]
  {
    if IsSynced(env, p.targets[i].name) {
      NoTargetChange(env, FindTarget(env.defs, p.targets[i].name).value, p.files, p.targets[i], d);
    }
    assert RemovedRefs(GroupDiff(env, p)) == {};
    if Syncable(Changed(d)) == {} {
      SameTarget(p.targets[i], d, u);
    }
  }

  lemma {:induction false} TargetsZero(env: Env, p: Project, plan: Plan, q: Project, changes: nat)
    requires SyncStep(env, p, plan, q, changes) && Changed(GroupDiff(env, p)) == {}
    ensures Changes(plan.targets) == 0 <==> TargetsMatch(env, p)
    ensures Changes(plan.targets) == 0 ==> q.targets == p.targets
  {
    NoRefs(plan.added);
    assert p.files + plan.added == p.files;
    ChangesZero(plan.targets);
    forall i: nat | i < |p.targets|
      ensures Syncable(Changed(plan.targets[i])) == {} <==> TargetQuiet(env, p, i)
      ensures Syncable(Changed(plan.targets[i])) == {} ==> q.targets[i] == p.targets[i]
    {
      TargetZero(env, p, i, plan.targets[i], q.targets[i]);
    }
  }

  /** A sync returns 0 exactly when the groups match the file system and the targets match their
      definitions; it then changes nothing. */
  lemma {:induction false} ZeroExact(env: Env, p: Project, plan: Plan, q: Project, changes: nat)
    requires UniqueNames(env.fs) && SyncStep(env, p, plan, q, changes)
    ensures changes == 0 <==> GroupsMatch(env, p) && TargetsMatch(env, p)
    ensures changes == 0 ==> q == p
  {
    NoGroupChange(env, p);
    if Changed(GroupDiff(env, p)) == {} {
      TargetsZero(env, p, plan, q, changes);
      NoRefs(plan.added);
      assert p.files + plan.added == p.files && p.grouped + plan.added == p.grouped;
      WithoutNone(p.files);
      WithoutNone(p.grouped);
    }
  }

  lemma {:induction false} EmptyDiff(t: Target)
    ensures SyncTarget(map[], t) == t && Syncable(Changed(map[])) == {}
  {
    assert ToAdd(map[]) == {} == ToRemove(map[]);
    assert forall phase :: PhaseRefs(map[], {}, phase) == {};
  }
}
