/** The project object and the syncer. */
module SyncProject {
  // One sync finds the differences, adds files, syncs each target and removes files, and is proved to be
  // one SyncStep.

  import opened Sequences
  import opened Wrappers
  import opened SyncValues
  import opened SyncGroups
  import opened SyncTargets
  import opened SyncTheorems
  import opened SyncConvergence

  ghost function TargetValues(targets: seq<NativeTarget>): (s: seq<Target>)
    reads targets
    ensures |s| == |targets|
    ensures forall i :: 0 <= i < |s| ==> s[i] == targets[i].Value()
  {
    seq(|targets|, i requires 0 <= i < |targets| reads targets => targets[i].Value())
  }

  /** relative_path_from: up from the root to what it has in common with the path, and down again. */
  function RelativeFrom(root: Path, path: Path): Path {
    if root != [] && path != [] && root[0] == path[0] then RelativeFrom(root[1..], path[1..])
    else Ups(|root|) + path
  }

  function Ups(n: nat): Path {
    if n == 0 then [] else [".."] + Ups(n - 1)
  }

  function PathText(path: Path): string {
    if path == [] then "."
    else if |path| == 1 then path[0]
    else path[0] + "/" + PathText(path[1..])
  }

  /** The relative path, as a text, does not start with two dots. */
  predicate Holds(root: Path, path: Path) {
    !(".." <= PathText(RelativeFrom(root, path)))
  }

  lemma {:induction false} RelativeBelow(root: Path, path: Path)
    ensures if root <= path then RelativeFrom(root, path) == path[|root|..]
            else RelativeFrom(root, path) != [] && RelativeFrom(root, path)[0] == ".."
  {
    if root == [] {
      assert RelativeFrom(root, path) == path;
    } else if path != [] && root[0] == path[0] {
      RelativeBelow(root[1..], path[1..]);
      assert root <= path <==> root[1..] <= path[1..];
    }
  }

  lemma {:induction false} StartsWithDots(path: Path)
    ensures ".." <= PathText(path) <==> path != [] && ".." <= path[0]
  {
    if |path| > 1 {
      var text := PathText(path);
      assert text == path[0] + ("/" + PathText(path[1..]));
      assert |path[0]| >= 2 ==> text[..2] == path[0][..2];
      assert |path[0]| < 2 ==> text[|path[0]|] == '/';
    }
  }

  /** A root group holds what lies below it, but for paths whose first name below it begins with two
      dots. */
  lemma {:induction false} HoldsExact(root: Path, path: Path)
    ensures Holds(root, path) <==> root <= path && !(|root| < |path| && ".." <= path[|root|])
    ensures !Holds(root, root + ["..x"])
  {
    RelativeBelow(root, path);
    StartsWithDots(RelativeFrom(root, path));
    RelativeBelow(root, root + ["..x"]);
    StartsWithDots(RelativeFrom(root, root + ["..x"]));
    assert (root + ["..x"])[|root|..] == ["..x"];
  }

  /** The first root group that holds the path. */
  function FirstRoot(roots: seq<Path>, path: Path): Option<Path> {
    if roots == [] then None
    else if Holds(roots[0], path) then Some(roots[0])
    else FirstRoot(roots[1..], path)
  }

  /** Some root group holds the path; a path that none holds is an error. */
  predicate HasRoot(env: Env, path: Path) {
    FirstRoot(env.roots, path).Some?
  }

  class XcodeProject {
    var files: seq<Ref>
    var grouped: seq<Ref>
    var dirs: seq<Path>
    const targets: seq<NativeTarget>
    var nextId: nat   // no reference made so far has this identity or a later one

    constructor (files: seq<Ref>, grouped: seq<Ref>, dirs: seq<Path>, targets: seq<NativeTarget>, nextId: nat)
      requires (forall i :: 0 <= i < |targets| ==> targets[i].id == i) && forall r :: r in files ==> r.id < nextId
      ensures Valid() && Value() == Project(files, grouped, dirs, TargetValues(targets))
      ensures this.targets == targets
    {
      this.files, this.grouped, this.dirs := files, grouped, dirs;
      this.targets, this.nextId := targets, nextId;
    }

    ghost predicate Valid()
      reads this
    {
      && (forall i :: 0 <= i < |targets| ==> targets[i].id == i)
      && (forall r :: r in files ==> r.id < nextId)
    }

    ghost function Value(): Project
      reads this, targets
    {
      Project(files, grouped, dirs, TargetValues(targets))
    }

    /** A new reference in the groups; newDirs are the directories of the groups made for it. */
    method NewFile(path: Path, newDirs: seq<Path>) returns (ref: Ref)
      requires Valid()
      modifies this
      ensures Valid() && nextId == old(nextId) + 1 && ref == Ref(old(nextId), path, true)
      ensures files == old(files) + [ref] && grouped == old(grouped) + [ref] && dirs == old(dirs) + newDirs
    {
      ref := Ref(nextId, path, true);
      nextId := nextId + 1;
      files, grouped, dirs := files + [ref], grouped + [ref], dirs + newDirs;
    }

    /** A reference leaves the project, its groups and all the build phases. */
    method RemoveFile(ref: Ref)
      requires Valid()
      modifies this, targets
      ensures Valid() && dirs == old(dirs) && nextId == old(nextId)
      ensures files == Without(old(files), {ref}) && grouped == Without(old(grouped), {ref})
      ensures forall i :: 0 <= i < |targets| ==> TargetDropped(old(targets[i].Value()), targets[i].Value(), {ref})
    {
      files, grouped := Without(files, {ref}), Without(grouped, {ref});
      for i := 0 to |targets|
        modifies targets
        invariant forall j :: 0 <= j < i ==> TargetDropped(old(targets[j].Value()), targets[j].Value(), {ref})
        invariant forall j :: i <= j < |targets| ==> targets[j].Value() == old(targets[j].Value())
      {
        targets[i].RemoveEverywhere(ref);
      }
    }
  }

  lemma {:induction false} WithoutLast(front: seq<Ref>, last: Ref, removed: set<Ref>)
    ensures Without(front + [last], removed) == Without(front, removed) + if last in removed then [] else [last]
  {
    assert (front + [last])[..|front|] == front;
  }

  lemma {:induction false} WithoutMore(refs: seq<Ref>, removed: set<Ref>, ref: Ref)
    ensures Without(Without(refs, removed), {ref}) == Without(refs, removed + {ref})
  {
    if refs != [] {
      var front, last := refs[..|refs| - 1], refs[|refs| - 1];
      assert refs == front + [last];
      var kept := Without(front, removed);
      WithoutMore(front, removed, ref);
      WithoutLast(front, last, removed);
      WithoutLast(front, last, removed + {ref});
      WithoutLast(kept, last, {ref});
      assert kept + [] == kept;
    }
  }

  lemma {:induction false} DroppedMore(t: Target, u: Target, v: Target, removed: set<Ref>, ref: Ref)
    requires TargetDropped(t, u, removed) && TargetDropped(u, v, {ref})
    ensures TargetDropped(t, v, removed + {ref})
  {
  }

  class Syncer {
    const env: Env
    const project: XcodeProject
    /** The directories of the groups that are made when a file is added below a root group. */
    const newGroups: (seq<Path>, Path, Path) -> seq<Path>

    constructor (env: Env, project: XcodeProject, newGroups: (seq<Path>, Path, Path) -> seq<Path>)
      ensures this.env == env && this.project == project && this.newGroups == newGroups
    {
      this.env, this.project, this.newGroups := env, project, newGroups;
    }

    ghost predicate Valid()
      reads this, project
    {
      project.Valid() && UniqueNames(env.fs)
    }

    /** find_group_containing */
    method FindGroupContaining(path: Path) returns (root: Option<Path>)
      ensures root == FirstRoot(env.roots, path)
    {
      for i := 0 to |env.roots|
        invariant FirstRoot(env.roots, path) == FirstRoot(env.roots[i..], path)
      {
        assert env.roots[i..][1..] == env.roots[i + 1..];
        if Holds(env.roots[i], path) {
          return Some(env.roots[i]);
        }
      }
      return None;
    }

    method AddOne(path: Path) returns (ref: Option<Ref>, ghost dirs: seq<Path>)
      requires Valid()
      modifies project
      ensures Valid() && (ref.Some? <==> HasRoot(env, path))
      ensures ref.Some? ==>
                && ref.value == Ref(old(project.nextId), path, true) && project.nextId == old(project.nextId) + 1
                && Added(old(project.Value()), [ref.value], dirs, project.Value())
    {
      var root := FindGroupContaining(path);
      if root.None? {
        return None, [];
      }
      var made := newGroups(project.dirs, root.value, path);
      var file := project.NewFile(path, made);
      return Some(file), made;
    }

    /** add_to_project: fails at the first path that no root group holds. */
    method AddToProject(toAdd: seq<Path>) returns (ok: bool, ghost added: seq<Ref>, ghost newDirs: seq<Path>)
      requires Valid() && NoDuplicates(toAdd)
      modifies project
      ensures Valid() && (ok <==> Rooted(env, toAdd, |toAdd|))
      ensures ok ==> Added(old(project.Value()), added, newDirs, project.Value()) && (added == [] ==> newDirs == [])
      ensures ok ==> NewRefs(old(project.Value()), added, Elements(toAdd))
    {
      ghost var p, firstId := project.Value(), project.nextId;
      added, newDirs := [], [];
      NothingAdded(p);
      for i := 0 to |toAdd|
        invariant Valid() && Rooted(env, toAdd, i)
        invariant Added(p, added, newDirs, project.Value()) && (added == [] ==> newDirs == [])
        invariant project.nextId == firstId + i && AddedInOrder(added, firstId, toAdd[..i])
      {
        var ref, dirs := AddOne(toAdd[i]);
        if ref.None? {
          NotRooted(env, toAdd, i);
          return false, [], [];
        }
        AddedMore(added, firstId, toAdd, i, ref.value);
        added, newDirs := added + [ref.value], newDirs + dirs;
      }
      assert toAdd[..|toAdd|] == toAdd;
      AddedIsNew(p, added, firstId, toAdd);
      ok := true;
    }

    /** remove_from_project */
    method RemoveFromProject(refs: set<Ref>)
      requires Valid()
      modifies project, project.targets
      ensures Valid() && project.dirs == old(project.dirs)
      ensures project.files == Without(old(project.files), refs)
        && project.grouped == Without(old(project.grouped), refs)
      ensures forall i :: 0 <= i < |project.targets| ==>
                TargetDropped(old(project.targets[i].Value()), project.targets[i].Value(), refs)
    {
      ghost var files, grouped, targets, removed := project.files, project.grouped, TargetValues(project.targets), {};
      WithoutNone(files);
      WithoutNone(grouped);
      var left := refs;
      while left != {}
        invariant Valid() && project.dirs == old(project.dirs)
        invariant removed + left == refs
        invariant project.files == Without(files, removed) && project.grouped == Without(grouped, removed)
        invariant forall i :: 0 <= i < |targets| ==> TargetDropped(targets[i], project.targets[i].Value(), removed)
        decreases |left|
      {
        var ref :| ref in left;
        ghost var before := TargetValues(project.targets);
        WithoutMore(files, removed, ref);
        WithoutMore(grouped, removed, ref);
        project.RemoveFile(ref);
        forall i | 0 <= i < |targets| ensures TargetDropped(targets[i], project.targets[i].Value(), removed + {ref}) {
          DroppedMore(targets[i], before[i], project.targets[i].Value(), removed, ref);
        }
        left := left - {ref};
        removed := removed + {ref};
      }
    }
  
    /** find_project_files_after_removal */
    method FindProjectFiles(removed: set<Path>) returns (kept: seq<Ref>)
      ensures kept == ProjectFiles(env, project.files, removed)
    {
      kept := [];
      for i := 0 to |project.files|
        invariant kept == ProjectFiles(env, project.files[..i], removed)
      {
        var ref := project.files[i];
        assert project.files[..i + 1][..i] == project.files[..i];
        if ref.inGroup && ref.path !in removed && !Ignored(env, ref.path) {
          kept := kept + [ref];
        }
      }
      assert project.files[..|project.files|] == project.files;
    }

    /** find_target */
    method FindTargetDef(name: string) returns (def: Option<TargetDef>)
      ensures def == FindTarget(env.defs, name)
    {
      for i := 0 to |env.defs|
        invariant FindTarget(env.defs, name) == FindTarget(env.defs[i..], name)
      {
        assert env.defs[i..][1..] == env.defs[i + 1..];
        if env.defs[i].name == name {
          return Some(env.defs[i]);
        }
      }
      return None;
    }

    method SyncOneTarget(target: NativeTarget, projectFiles: seq<Ref>) returns (changes: nat, ghost d: DiffValue)
      modifies target
      ensures TargetDone(env, projectFiles, old(target.Value()), d, target.Value())
      ensures changes == |Syncable(Changed(d))|
    {
      var def := FindTargetDef(target.name);
      if def.None? || !def.value.syncSources {
        EmptyDiff(target.Value());
        return 0, map[];
      }
      var diff := DiffTarget(def.value, projectFiles, target);
      d := diff.Value();
      TargetDiffOwnsRefs(def.value, projectFiles, target.Value(), d);
      changes := SyncEntries(target, diff, d);
    }

    method SyncTargets(projectFiles: seq<Ref>) returns (changes: nat, ghost ds: seq<DiffValue>)
      requires Valid()
      modifies project.targets
      ensures Valid() && |ds| == |project.targets| && changes == Changes(ds)
      ensures DoneSoFar(env, projectFiles, old(TargetValues(project.targets)), ds, TargetValues(project.targets))
    {
      ghost var before, now := TargetValues(project.targets), TargetValues(project.targets);
      changes, ds := 0, [];
      for i := 0 to |project.targets|
        invariant |ds| == i && changes == Changes(ds) && now == TargetValues(project.targets)
        invariant DoneSoFar(env, projectFiles, before, ds, now)
      {
        var n, d, after := SyncNext(i, projectFiles, before, ds, now);
        changes, ds, now := changes + n, ds + [d], after;
      }
    }

    method SyncNext(i: nat, projectFiles: seq<Ref>, ghost before: seq<Target>, ghost ds: seq<DiffValue>,
                    ghost now: seq<Target>)
      returns (changes: nat, ghost d: DiffValue, ghost after: seq<Target>)
      requires Valid() && i == |ds| < |project.targets| && now == TargetValues(project.targets)
      requires DoneSoFar(env, projectFiles, before, ds, now)
      modifies project.targets[i]
      ensures after == TargetValues(project.targets) && DoneSoFar(env, projectFiles, before, ds + [d], after)
      ensures Changes(ds + [d]) == Changes(ds) + changes
    {
      changes, d := SyncTargetAt(i, projectFiles, now);
      after := now[i := project.targets[i].Value()];
      OneMoreDone(env, projectFiles, before, ds, now, d, after[i]);
    }

    method SyncTargetAt(i: nat, projectFiles: seq<Ref>, ghost now: seq<Target>)
      returns (changes: nat, ghost d: DiffValue)
      requires Valid() && i < |project.targets| && now == TargetValues(project.targets)
      modifies project.targets[i]
      ensures TargetValues(project.targets) == now[i := project.targets[i].Value()]
      ensures TargetDone(env, projectFiles, now[i], d, project.targets[i].Value())
      ensures changes == |Syncable(Changed(d))|
    {
      changes, d := SyncOneTarget(project.targets[i], projectFiles);
      assert TargetValues(project.targets) == now[i := project.targets[i].Value()];
    }

    /** GroupDiffer.diff, and what follows from it: the paths to add, those to remove, and the
        references to remove. */
    method FindGroupDiff() returns (toAdd: set<Path>, toRemove: set<Path>, refs: set<Ref>)
      requires Valid()
      ensures var d := GroupDiff(env, project.Value());
              toAdd == ToAdd(d) && toRemove == ToRemove(d) && refs == RemovedRefs(d)
    {
      var differ := new GroupDiffer(env);
      differ.DiffGroups(project.dirs, project.grouped);
      SameGroups(env, project.Value());
      toAdd, toRemove, refs := Select(differ.diff);
    }

    /** sync: the number of changes, or nothing when a file to be added lies below no root group. */
    method Sync() returns (changes: Option<nat>, ghost plan: Plan)
      requires Valid()
      modifies project, project.targets
      ensures Valid()
      ensures changes.None?
         <==> exists path :: path in ToAdd(GroupDiff(env, old(project.Value()))) && !HasRoot(env, path)
      ensures changes.Some? ==> SyncStep(env, old(project.Value()), plan, project.Value(), changes.value)
    {
      ghost var p := project.Value();
      var toAdd, toRemove, refs := FindGroupDiff();
      var paths := Listed(toAdd);
      RootedExact(env, paths, |paths|);
      assert forall path :: path in paths <==> path in Elements(paths);
      var ok, added, newDirs := AddToProject(paths);
      plan := Plan(added, newDirs, []);
      if !ok {
        return None, plan;
      }
      var n;
      n, plan := SyncAndRemove(p, plan, toAdd, toRemove, refs);
      return Some(n), plan;
    }

    method RemoveAtEnd(ghost projectFiles: seq<Ref>, ghost ds: seq<DiffValue>, ghost p: Project, refs: set<Ref>)
      requires Valid() && |ds| == |p.targets|
      requires DoneSoFar(env, projectFiles, p.targets, ds, TargetValues(project.targets))
      modifies project, project.targets
      ensures Valid() && project.dirs == old(project.dirs)
      ensures project.files == Without(old(project.files), refs)
        && project.grouped == Without(old(project.grouped), refs)
      ensures AllDone(env, projectFiles, p.targets, ds, TargetValues(project.targets), refs)
    {
      ghost var done := TargetValues(project.targets);
      RemoveFromProject(refs);
      forall i | 0 <= i < |ds|
        ensures TargetGone(env, projectFiles, p.targets[i], ds[i], project.targets[i].Value(), refs)
      {
        DoneEach(env, projectFiles, p.targets, ds, done, i);
      }
    }

    /** The steps that follow once the files were added. */
    method SyncAndRemove(ghost p: Project, ghost start: Plan, toAdd: set<Path>, toRemove: set<Path>, refs: set<Ref>)
      returns (changes: nat, ghost plan: Plan)
      requires Valid() && NewRefs(p, start.added, toAdd) && (start.added == [] ==> start.newDirs == [])
      requires toAdd == ToAdd(GroupDiff(env, p)) && toRemove == ToRemove(GroupDiff(env, p))
      requires refs == RemovedRefs(GroupDiff(env, p))
      requires project.Value()
            == Project(p.files + start.added, p.grouped + start.added, p.dirs + start.newDirs, p.targets)
      modifies project, project.targets
      ensures Valid() && SyncStep(env, p, plan, project.Value(), changes)
    {
      var projectFiles := FindProjectFiles(toRemove);
      var n, ds := SyncTargets(projectFiles);
      RemoveAtEnd(projectFiles, ds, p, refs);
      plan := start.(targets := ds);
      changes := |toAdd| + |toRemove| + n;
      StepTaken(env, p, plan, project.Value(), toAdd, toRemove, refs, projectFiles, changes);
    }
  }

  /** One sync right after another: it returns 0, and cannot fail, exactly when the first settled
      everything. */
  method SyncTwice(syncer: Syncer) returns (first: Option<nat>, second: Option<nat>, ghost plan: Plan)
    requires syncer.Valid()
    modifies syncer.project, syncer.project.targets
    ensures first.None? <==> exists path :: path in ToAdd(GroupDiff(syncer.env, old(syncer.project.Value())))
                                            && !HasRoot(syncer.env, path)
    ensures first.Some? ==> |plan.targets| == |syncer.project.targets|
    ensures first.Some? ==> (second == Some(0) <==> Settles(syncer.env, old(syncer.project.Value()), plan))
  {
    ghost var p := syncer.project.Value();
    first, plan := syncer.Sync();
    second := None;
    if first.Some? {
      ghost var q := syncer.project.Value();
      ghost var again;
      second, again := syncer.Sync();
      CannotFail(syncer.env, p, plan, q, first.value);
      if second.Some? {
        SecondSyncExact(syncer.env, p, plan, q, first.value, again, syncer.project.Value(), second.value);
      }
    }
  }

  /** Where the second sync has nothing to do, there is nothing that it could fail to add. */
  lemma {:induction false} CannotFail(env: Env, p: Project, plan: Plan, q: Project, changes: nat)
    requires UniqueNames(env.fs) && SyncStep(env, p, plan, q, changes)
    ensures Settles(env, p, plan) ==> ToAdd(GroupDiff(env, q)) == {}
  {
    if Settles(env, p, plan) {
      GroupsConvergeExact(env, p, plan, q, changes);
      NoGroupChange(env, q);
    }
  }

  /** The targets after their entries were synced and references were removed. */
  ghost predicate AllDone(env: Env, projectFiles: seq<Ref>, before: seq<Target>, ds: seq<DiffValue>, now: seq<Target>,
                          refs: set<Ref>)
  {
    && |ds| == |before| == |now|
    && (forall i :: 0 <= i < |ds| ==> TargetGone(env, projectFiles, before[i], ds[i], now[i], refs))
  }

  ghost predicate TargetGone(env: Env, projectFiles: seq<Ref>, t: Target, d: DiffValue, u: Target, refs: set<Ref>) {
    && (if IsSynced(env, t.name) then IsTargetDiff(FindTarget(env.defs, t.name).value, projectFiles, t, d)
        else d == map[])
    && TargetDropped(SyncTarget(d, t), u, refs)
  }

  method Select(diff: Diff) returns (toAdd: set<Path>, toRemove: set<Path>, refs: set<Ref>)
    requires diff.Valid()
    ensures toAdd == ToAdd(diff.Value()) && toRemove == ToRemove(diff.Value()) && refs == RemovedRefs(diff.Value())
  {
    var entries := diff.entries;
    toAdd := set path | path in entries && entries[path].inSource && !entries[path].inTarget;
    toRemove := set path | path in entries && !entries[path].inSource && entries[path].inTarget;
    refs := set path | path in toRemove && entries[path].ref.Some? :: entries[path].ref.value;
    assert toRemove == ToRemove(diff.Value());
  }

  /** The targets up to some place were synced, the others are as they were. */
  ghost predicate DoneSoFar(env: Env, projectFiles: seq<Ref>, before: seq<Target>, ds: seq<DiffValue>, now: seq<Target>)
    decreases |ds|
  {
    && |ds| <= |before| == |now|
    && if ds == [] then now == before
       else
         var j := |ds| - 1;
         && TargetDone(env, projectFiles, before[j], ds[j], now[j])
         && DoneSoFar(env, projectFiles, before, ds[..j], now[j := before[j]])
  }

  lemma {:induction false} DoneEach(env: Env, projectFiles: seq<Ref>, before: seq<Target>, ds: seq<DiffValue>,
                                    now: seq<Target>, i: nat)
    requires DoneSoFar(env, projectFiles, before, ds, now) && i < |now|
    ensures if i < |ds| then TargetDone(env, projectFiles, before[i], ds[i], now[i]) else now[i] == before[i]
    decreases |ds|
  {
    if ds != [] && i != |ds| - 1 {
      DoneEach(env, projectFiles, before, ds[..|ds| - 1], now[|ds| - 1 := before[|ds| - 1]], i);
    }
  }

  lemma {:induction false} OneMoreDone(env: Env, projectFiles: seq<Ref>, before: seq<Target>, ds: seq<DiffValue>,
                                       now: seq<Target>, d: DiffValue, u: Target)
    requires DoneSoFar(env, projectFiles, before, ds, now) && |ds| < |now|
    requires TargetDone(env, projectFiles, now[|ds|], d, u)
    ensures DoneSoFar(env, projectFiles, before, ds + [d], now[|ds| := u])
    ensures Changes(ds + [d]) == Changes(ds) + |Syncable(Changed(d))|
  {
    DoneEach(env, projectFiles, before, ds, now, |ds|);
    ChangesAppend(ds, d);
    assert now[|ds| := u][|ds| := before[|ds|]] == now;
  }

  lemma {:induction false} ChangesAppend(ds: seq<DiffValue>, d: DiffValue)
    ensures (ds + [d])[..|ds|] == ds
    ensures Changes(ds + [d]) == Changes(ds) + |Syncable(Changed(d))|
  {
    assert (ds + [d])[..|ds|] == ds;
  }

  lemma {:induction false} StepTaken(
      env: Env, p: Project, plan: Plan, q: Project, toAdd: set<Path>, toRemove: set<Path>,
      refs: set<Ref>, projectFiles: seq<Ref>, changes: nat)
    requires var d := GroupDiff(env, p); toAdd == ToAdd(d) && toRemove == ToRemove(d) && refs == RemovedRefs(d)
    requires NewRefs(p, plan.added, toAdd) && (plan.added == [] ==> plan.newDirs == [])
    requires projectFiles == ProjectFiles(env, p.files + plan.added, toRemove)
    requires AllDone(env, projectFiles, p.targets, plan.targets, q.targets, refs)
    requires q.files == Without(p.files + plan.added, refs) && q.grouped == Without(p.grouped + plan.added, refs)
    requires q.dirs == p.dirs + plan.newDirs
    requires changes == |toAdd| + |toRemove| + Changes(plan.targets)
    ensures SyncStep(env, p, plan, q, changes)
  {
    forall i | 0 <= i < |p.targets|
      ensures TargetStep(env, p.files + plan.added, GroupDiff(env, p), p.targets[i], plan.targets[i], q.targets[i])
    {
      assert TargetGone(env, projectFiles, p.targets[i], plan.targets[i], q.targets[i], refs);
    }
    assert |Changed(GroupDiff(env, p))| == |toAdd| + |toRemove|;
  }

  /** A target after its entries were synced, before references are removed from the project. */
  ghost predicate TargetDone(env: Env, projectFiles: seq<Ref>, t: Target, d: DiffValue, u: Target) {
    && (if IsSynced(env, t.name) then IsTargetDiff(FindTarget(env.defs, t.name).value, projectFiles, t, d)
        else d == map[])
    && u == SyncTarget(d, t)
  }

  lemma {:induction false} SameGroups(env: Env, p: Project)
    ensures GroupDiff(env, Project([], p.grouped, p.dirs, [])) == GroupDiff(env, p)
  {
  }

  /** All of the first i paths lie below some root group. */
  ghost predicate Rooted(env: Env, paths: seq<Path>, i: nat)
    requires i <= |paths|
  {
    i == 0 || (Rooted(env, paths, i - 1) && HasRoot(env, paths[i - 1]))
  }

  lemma {:induction false} RootedEach(env: Env, paths: seq<Path>, i: nat, k: nat)
    requires k < i <= |paths| && Rooted(env, paths, i)
    ensures HasRoot(env, paths[k])
  {
    if k < i - 1 {
      RootedEach(env, paths, i - 1, k);
    }
  }

  lemma {:induction false} NotRooted(env: Env, paths: seq<Path>, k: nat)
    requires k < |paths| && !HasRoot(env, paths[k])
    ensures !Rooted(env, paths, |paths|)
  {
    if Rooted(env, paths, |paths|) {
      RootedEach(env, paths, |paths|, k);
    }
  }

  lemma {:induction false} RootedExact(env: Env, paths: seq<Path>, i: nat)
    requires i <= |paths|
    ensures Rooted(env, paths, i) <==> forall k :: 0 <= k < i ==> HasRoot(env, paths[k])
  {
    if i > 0 {
      RootedExact(env, paths, i - 1);
    }
  }

  /** New references, and the directories of new groups, at the end of a project. */
  ghost predicate Added(p: Project, added: seq<Ref>, newDirs: seq<Path>, q: Project) {
    q == Project(p.files + added, p.grouped + added, p.dirs + newDirs, p.targets)
  }

  lemma {:induction false} NothingAdded(p: Project)
    ensures Added(p, [], [], p)
  {
  }

  lemma {:induction false} AddedMore(added: seq<Ref>, firstId: nat, paths: seq<Path>, i: nat, ref: Ref)
    requires i < |paths| && AddedInOrder(added, firstId, paths[..i]) && ref == Ref(firstId + i, paths[i], true)
    ensures AddedInOrder(added + [ref], firstId, paths[..i + 1])
  {
  }

  /** References with consecutive identities, one for each path. */
  ghost predicate AddedInOrder(added: seq<Ref>, firstId: nat, paths: seq<Path>) {
    |added| == |paths| && forall k :: 0 <= k < |added| ==> added[k] == Ref(firstId + k, paths[k], true)
  }

  lemma {:induction false} AddedIsNew(p: Project, added: seq<Ref>, firstId: nat, paths: seq<Path>)
    requires AddedInOrder(added, firstId, paths) && NoDuplicates(paths)
    requires forall r :: r in p.files ==> r.id < firstId
    ensures NewRefs(p, added, Elements(paths))
  {
    forall path | path in Elements(paths) ensures path in PathsOf(added) {
      var k :| 0 <= k < |paths| && paths[k] == path;
      assert added[k] in added && added[k].path == path;
    }
    assert PathsOf(added) == Elements(paths);
  }
}
