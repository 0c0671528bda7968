/** Where a sync puts the files of a target. */
module SyncEffects {
  // Said of the endings of names and of the data alone: which files are added to a target and which
  // are taken from it, and in which build phase.

  import opened Wrappers
  import opened SyncValues
  import opened SyncTheorems
  import opened SyncConvergence

  // ---------------------------------------------------------------- endings

  /** The name is the ending after a base name that does not consist of dots alone. */
  ghost predicate HasEnding(name: string, ending: string) {
    && |ending| < |name| && name[|name| - |ending|..] == ending
    && exists k :: 0 <= k < |name| - |ending| && name[k] != '.'
  }

  /** A dot and then no more dots. */
  predicate IsEnding(ending: string) {
    |ending| > 1 && ending[0] == '.' && '.' !in ending[1..]
  }

  /** i is the place of the last dot, or the end if there is none. */
  ghost predicate IsLastDot(name: string, i: nat) {
    && i <= |name| && (i < |name| ==> name[i] == '.')
    && forall k :: 0 <= k < |name| && (i == |name| || k > i) ==> name[k] != '.'
  }

  lemma {:induction false} LastDot(name: string) returns (i: nat)
    ensures IsLastDot(name, i) && FromLastDot(name) == name[i..]
  {
    if name == [] {
      i := 0;
    } else {
      var k := LastDot(name[1..]);
      i := if k == |name| - 1 && name[0] == '.' then 0 else k + 1;
      assert forall j :: 1 <= j < |name| ==> name[j] == name[1..][j - 1];
    }
  }

  lemma {:induction false} FromLastDotExact(name: string, ending: string)
    requires IsEnding(ending)
    ensures FromLastDot(name) == ending <==> |ending| <= |name| && name[|name| - |ending|..] == ending
  {
    var i := LastDot(name);
    if |ending| <= |name| && name[|name| - |ending|..] == ending {
      var n := |name| - |ending|;
      assert name[n] == name[n..][0] == '.';
      assert forall k :: n < k < |name| ==> name[k] == name[n..][k - n] == ending[1..][k - n - 1];
    }
  }

  lemma {:induction false} ExtnameExact(name: string, ending: string)
    requires IsEnding(ending)
    ensures Extname(name) == ending <==> HasEnding(name, ending)
  {
    if name != [] && name[0] == '.' {
      ExtnameExact(name[1..], ending);
      EndingLater(name, ending);
    } else {
      FromLastDotExact(name, ending);
    }
  }

  /** A leading dot does not matter. */
  lemma {:induction false} EndingLater(name: string, ending: string)
    requires name != [] && name[0] == '.' && ending != []
    ensures HasEnding(name, ending) <==> HasEnding(name[1..], ending)
  {
    var rest, n := name[1..], |name| - |ending|;
    assert forall k :: 0 <= k < |rest| ==> rest[k] == name[k + 1];
    if n >= 1 { assert name[n..] == rest[n - 1..]; }
    if HasEnding(name, ending) {
      var k :| 0 <= k < n && name[k] != '.';
      assert rest[k - 1] != '.';
    }
  }

  /** C, Objective-C, C++ and Swift sources. */
  ghost predicate IsSourceFile(path: Path) {
    path != [] && var name := path[|path| - 1];
    || HasEnding(name, ".c") || HasEnding(name, ".cc") || HasEnding(name, ".m") || HasEnding(name, ".mm")
    || HasEnding(name, ".swift")
  }

  ghost predicate IsHeaderFile(path: Path) {
    path != [] && HasEnding(path[|path| - 1], ".h")
  }

  lemma {:induction false} PhaseExact(path: Path)
    ensures FindPhase(path) == Some(Sources) <==> IsSourceFile(path)
    ensures FindPhase(path) == None <==> IsHeaderFile(path)
    ensures FindPhase(path) == Some(Resources) <==> !IsSourceFile(path) && !IsHeaderFile(path)
  {
    if path != [] {
      var name := path[|path| - 1];
      ExtnameExact(name, ".c");
      ExtnameExact(name, ".cc");
      ExtnameExact(name, ".m");
      ExtnameExact(name, ".mm");
      ExtnameExact(name, ".swift");
      ExtnameExact(name, ".h");
    }
  }

  // ---------------------------------------------------------------- what is to be built

  /** A reference of the groups leads to no file. */
  ghost predicate IsMissing(env: Env, p: Project, path: Path) {
    (exists r :: r in p.grouped && r.path == path) && !IsFile(env.fs, path)
  }

  /** A file below one of the groups that no reference of the groups leads to. */
  ghost predicate IsNew(env: Env, p: Project, path: Path) {
    && (exists i :: 0 <= i < |p.dirs| && VisibleFrom(env, p.dirs[i], path))
    && !(exists r :: r in p.grouped && r.path == path)
  }

  ghost predicate IsIgnored(env: Env, path: Path) {
    (path != [] && env.ignoreBasename(path[|path| - 1])) || env.ignorePathname(path)
  }

  /** A file of the project, old or new, that the definition matches. */
  ghost predicate IsWanted(env: Env, p: Project, def: TargetDef, path: Path) {
    && def.sourceFiles(path) && !def.excludeFiles(path) && !IsIgnored(env, path) && !IsMissing(env, p, path)
    && ((exists r :: r in p.files && r.inGroup && r.path == path) || IsNew(env, p, path))
  }

  ghost predicate IsBuilt(t: Target, path: Path) {
    exists r :: (r in t.headers || r in t.sources || r in t.resources) && r.path == path
  }

  lemma {:induction false} MissingExact(env: Env, p: Project, path: Path)
    requires UniqueNames(env.fs)
    ensures path in Gone(env, p) <==> IsMissing(env, p, path)
    ensures path in ToAdd(GroupDiff(env, p)) <==> IsNew(env, p, path)
  {
    GroupDiffExact(env, p, path);
    FoundExact(env, p.dirs, path);
    if path in Found(env, p.dirs) { FoundIsFile(env, p.dirs, path); }
  }

  lemma {:induction false} WantedExact(env: Env, p: Project, def: TargetDef, path: Path)
    requires UniqueNames(env.fs)
    ensures path in Wanted(env, p, def) <==> IsWanted(env, p, def, path)
  {
    MissingExact(env, p, path);
    var kept := ProjectFiles(env, p.files, Gone(env, p));
    if path in Matched(def, kept) {
      var r :| r in kept && Matches(def, r.path) && r.path == path;
      assert r in p.files && r.inGroup && r.path == path;
    }
    if r :| IsWanted(env, p, def, path) && r in p.files && r.inGroup && r.path == path {
      assert r in kept;
    }
    assert IsNew(env, p, path) ==> !IsMissing(env, p, path);
  }

  // ---------------------------------------------------------------- where it is built

  datatype Move = Adds | Takes | Stays

  /** What the sync does to a path of a target. */
  ghost function MoveOf(env: Env, p: Project, def: TargetDef, t: Target, path: Path): Move {
    if IsWanted(env, p, def, path) && !IsBuilt(t, path) then Adds
    else if IsBuilt(t, path) && !IsWanted(env, p, def, path) then Takes
    else Stays
  }

  /** How often a reference occurs in a phase after a move of its path in that phase. */
  function Moved(move: Move, n: nat): nat {
    match move
    case Adds => n + 1
    case Takes => if n > 0 then n - 1 else 0
    case Stays => n
  }

  /** The last reference of the groups to a missing file is the one that leaves the project. */
  ghost predicate Leaves(env: Env, p: Project, r: Ref) {
    IsMissing(env, p, r.path) && exists k: nat :: IsLastTo(p.grouped, r, k)
  }

  ghost predicate IsLastTo(refs: seq<Ref>, r: Ref, k: nat) {
    k < |refs| && refs[k] == r && forall j :: k < j < |refs| ==> refs[j].path != r.path
  }

  lemma {:induction false} LastRefExact(refs: seq<Ref>, r: Ref)
    ensures LastRef(refs, r.path) == Some(r) <==> exists k: nat :: IsLastTo(refs, r, k)
  {
    if refs != [] {
      var front, last := refs[..|refs| - 1], refs[|refs| - 1];
      LastRefExact(front, r);
      if last.path == r.path {
        assert last == r ==> IsLastTo(refs, r, |front|);
      } else {
        forall k: nat ensures IsLastTo(refs, r, k) <==> IsLastTo(front, r, k) {
          assert forall j :: 0 <= j < |front| ==> front[j] == refs[j];
        }
      }
    }
  }

  lemma {:induction false} LeavesExact(env: Env, p: Project, a: Ref)
    requires UniqueNames(env.fs)
    ensures Leaves(env, p, a) <==> a in RemovedRefs(GroupDiff(env, p))
  {
    RemovedExact(env, p, a);
    MissingExact(env, p, a.path);
    LastRefExact(p.grouped, a);
  }

  /** One reference r of the path moves, in the phase that the ending of the name says; then all that
      leave the project are gone. */
  ghost predicate PlacedBy(env: Env, p: Project, t: Target, u: Target, path: Path, r: Ref, move: Move) {
    forall a: Ref :: a.path == path ==> PlacedOne(Leaves(env, p, a), t, u, a, if a == r then move else Stays)
  }

  ghost predicate PlacedOne(leaves: bool, t: Target, u: Target, a: Ref, move: Move) {
    var source, header := IsSourceFile(a.path), IsHeaderFile(a.path);
    && u.headers[a] == (if leaves then 0 else t.headers[a])
    && u.sources[a] == (if leaves then 0 else if source then Moved(move, t.sources[a]) else t.sources[a])
    && u.resources[a]
       == (if leaves then 0 else if source || header then t.resources[a] else Moved(move, t.resources[a]))
  }

  /** r can stand for the path in this move. */
  ghost predicate StandsFor(env: Env, p: Project, plan: Plan, t: Target, path: Path, r: Ref, move: Move) {
    && r.path == path
    && (move == Adds ==> r in p.files + plan.added)
    && (move == Takes ==> r in t.headers || r in t.sources || r in t.resources)
  }

  /** The entry of a path, if there is one, says which reference moves. */
  lemma {:induction false} EntryMoves(
      env: Env, p: Project, plan: Plan, def: TargetDef, t: Target, d: DiffValue, path: Path) returns (r: Ref)
    requires UniqueNames(env.fs) && NewRefs(p, plan.added, ToAdd(GroupDiff(env, p)))
    requires IsTargetDiff(def, ProjectFiles(env, p.files + plan.added, Gone(env, p)), t, d)
    ensures StandsFor(env, p, plan, t, path, r, MoveOf(env, p, def, t, path))
    ensures (path in ToAdd(d) <==> MoveOf(env, p, def, t, path) == Adds)
    ensures (path in ToRemove(d) <==> MoveOf(env, p, def, t, path) == Takes)
    ensures path in d ==> d[path].ref == Some(r)
  {
    var files := ProjectFiles(env, p.files + plan.added, Gone(env, p));
    MatchedIsWanted(env, p, plan.added, def);
    WantedExact(env, p, def, path);
    BuiltExact(t, path);
    if path in d {
      assert TargetEntry(def, files, t, path, d[path]);
      r := d[path].ref.value;
    } else {
      r := Ref(0, path, true);
    }
  }

  lemma {:induction false} BuiltExact(t: Target, path: Path)
    ensures path in TargetPaths(t) <==> IsBuilt(t, path)
  {
    assert forall r :: r in TargetFiles(t) <==> r in t.headers || r in t.sources || r in t.resources;
    if path in TargetPaths(t) {
      var r :| r in TargetFiles(t) && r.path == path;
      assert (r in t.headers || r in t.sources || r in t.resources) && r.path == path;
    }
    if r :| (r in t.headers || r in t.sources || r in t.resources) && r.path == path {
      assert r in TargetFiles(t);
    }
  }

  lemma {:induction false} OneMoved(def: TargetDef, files: seq<Ref>, t: Target, d: DiffValue, a: Ref, move: Move)
    requires IsTargetDiff(def, files, t, d)
    requires move == if a.path in d && d[a.path].ref == Some(a) && a.path in ToAdd(d) then Adds
                     else if a.path in d && d[a.path].ref == Some(a) && a.path in ToRemove(d) then Takes
                     else Stays
    ensures PlacedOne(false, t, SyncTarget(d, t), a, move)
  {
    PhaseExact(a.path);
    PhaseCount(def, files, t, d, Sources, a);
    PhaseCount(def, files, t, d, Resources, a);
  }

  lemma {:induction false} ThenDropped(t: Target, w: Target, u: Target, removed: set<Ref>, a: Ref, move: Move)
    requires PlacedOne(false, t, w, a, move) && TargetDropped(w, u, removed)
    ensures PlacedOne(a in removed, t, u, a, move)
  {
  }

  /** What a sync does to a synced target, path by path: a wanted file that was not built is added, and
      a built file that is not wanted is taken, once and in the phase of its ending: sources for .c .cc
      .m .mm .swift, nowhere for .h, resources otherwise.  Everything else stays where it is. */
  lemma {:induction false} SyncPlaces(
      env: Env, p: Project, plan: Plan, q: Project, changes: nat, i: nat, path: Path) returns (r: Ref)
    requires UniqueNames(env.fs) && SyncStep(env, p, plan, q, changes) && i < |p.targets|
    requires IsSynced(env, p.targets[i].name)
    ensures var def, t := FindTarget(env.defs, p.targets[i].name).value, p.targets[i];
            var move := MoveOf(env, p, def, t, path);
            StandsFor(env, p, plan, t, path, r, move) && PlacedBy(env, p, t, q.targets[i], path, r, move)
  {
    var def, t, d, u := FindTarget(env.defs, p.targets[i].name).value, p.targets[i], plan.targets[i], q.targets[i];
    var files := ProjectFiles(env, p.files + plan.added, Gone(env, p));
    assert TargetStep(env, p.files + plan.added, GroupDiff(env, p), t, d, u);
    r := EntryMoves(env, p, plan, def, t, d, path);
    var move := MoveOf(env, p, def, t, path);
    forall a: Ref | a.path == path
      ensures PlacedOne(Leaves(env, p, a), t, u, a, if a == r then move else Stays)
    {
      OneMoved(def, files, t, d, a, if a == r then move else Stays);
      ThenDropped(t, SyncTarget(d, t), u, RemovedRefs(GroupDiff(env, p)), a, if a == r then move else Stays);
      LeavesExact(env, p, a);
    }
  }

  /** A target that is not synced only loses the references that leave the project. */
  lemma {:induction false} UnsyncedKeeps(env: Env, p: Project, plan: Plan, q: Project, changes: nat, i: nat, a: Ref)
    requires UniqueNames(env.fs) && SyncStep(env, p, plan, q, changes) && i < |p.targets|
    requires !IsSynced(env, p.targets[i].name)
    ensures PlacedOne(Leaves(env, p, a), p.targets[i], q.targets[i], a, Stays)
  {
    var t, d, u := p.targets[i], plan.targets[i], q.targets[i];
    assert TargetStep(env, p.files + plan.added, GroupDiff(env, p), t, d, u);
    UnsyncedStep(env, p.files + plan.added, GroupDiff(env, p), t, d, u);
    assert PlacedOne(false, t, t, a, Stays);
    ThenDropped(t, t, u, RemovedRefs(GroupDiff(env, p)), a, Stays);
    LeavesExact(env, p, a);
  }

  lemma {:induction false} UnsyncedStep(
      env: Env, files: seq<Ref>, groups: DiffValue, t: Target, d: DiffValue, u: Target)
    requires TargetStep(env, files, groups, t, d, u) && !IsSynced(env, t.name)
    ensures TargetDropped(t, u, RemovedRefs(groups))
  {
    EmptyDiff(t);
  }

  /** The definition of a target is the first one of its name, if that syncs sources. */
  lemma {:induction false} SyncedExact(env: Env, name: string)
    ensures IsSynced(env, name) <==>
            exists k :: 0 <= k < |env.defs| && env.defs[k].name == name && env.defs[k].syncSources
                        && FindTarget(env.defs, name) == Some(env.defs[k])
                        && forall j :: 0 <= j < k ==> env.defs[j].name != name
  {
    FirstDef(env.defs, name);
  }

  lemma {:induction false} FirstDef(defs: seq<TargetDef>, name: string)
    ensures match FindTarget(defs, name)
            case None => forall j :: 0 <= j < |defs| ==> defs[j].name != name
            case Some(def) => exists k :: 0 <= k < |defs| && defs[k] == def && def.name == name
                                          && forall j :: 0 <= j < k ==> defs[j].name != name
  {
    if defs != [] && defs[0].name != name {
      FirstDef(defs[1..], name);
      if FindTarget(defs, name).Some? {
        var k :| 0 <= k < |defs| - 1 && defs[1..][k] == FindTarget(defs, name).value
                 && forall j :: 0 <= j < k ==> defs[1..][j].name != name;
        assert defs[k + 1] == FindTarget(defs, name).value;
      }
    }
  }

  // ---------------------------------------------------------------- the project and the count

  /** A new reference for each new file, and nothing else; references to missing files leave, one for
      each file. */
  lemma {:induction false} SyncFiles(env: Env, p: Project, plan: Plan, q: Project, changes: nat, r: Ref)
    requires UniqueNames(env.fs) && SyncStep(env, p, plan, q, changes)
    ensures r in q.files <==> r in p.files + plan.added && !Leaves(env, p, r)
    ensures r in q.grouped <==> r in p.grouped + plan.added && !Leaves(env, p, r)
    ensures q.dirs == p.dirs + plan.newDirs
    ensures r in plan.added ==> IsNew(env, p, r.path)
    ensures IsNew(env, p, r.path) ==> exists a :: a in plan.added && a.path == r.path
    ensures forall a, b :: a in plan.added && b in plan.added && a.path == b.path ==> a == b
  {
    LeavesExact(env, p, r);
    MissingExact(env, p, r.path);
    AddedExact(p, plan.added, ToAdd(GroupDiff(env, p)), r);
  }

  lemma {:induction false} AddedExact(p: Project, added: seq<Ref>, paths: set<Path>, r: Ref)
    requires NewRefs(p, added, paths)
    ensures r in added ==> r.path in paths
    ensures r.path in paths ==> exists a :: a in added && a.path == r.path
    ensures forall a, b :: a in added && b in added && a.path == b.path ==> a == b
  {
    assert r in added ==> r.path in PathsOf(added);
    assert forall a, b :: a in added && b in added && a.path == b.path ==> a == b by {
      forall a, b | a in added && b in added && a.path == b.path ensures a == b {
        var i :| 0 <= i < |added| && added[i] == a;
        var j :| 0 <= j < |added| && added[j] == b;
      }
    }
  }

  function Sizes(moved: seq<set<Path>>): nat {
    if moved == [] then 0 else Sizes(moved[..|moved| - 1]) + |moved[|moved| - 1]|
  }

  /** The paths that move in a target, but for headers. */
  ghost predicate MovesIn(env: Env, p: Project, i: nat, path: Path)
    requires i < |p.targets|
  {
    && !IsHeaderFile(path) && IsSynced(env, p.targets[i].name)
    && MoveOf(env, p, FindTarget(env.defs, p.targets[i].name).value, p.targets[i], path) != Stays
  }

  /** What a sync counts: the files that are new or missing, and in each target the files that move. */
  lemma {:induction false} ChangesExact(env: Env, p: Project, plan: Plan, q: Project, changes: nat)
    returns (files: set<Path>, moved: seq<set<Path>>)
    requires UniqueNames(env.fs) && SyncStep(env, p, plan, q, changes)
    ensures forall path :: path in files <==> IsNew(env, p, path) || IsMissing(env, p, path)
    ensures |moved| == |p.targets|
    ensures forall i, path :: 0 <= i < |moved| ==> (path in moved[i] <==> MovesIn(env, p, i, path))
    ensures changes == |files| + Sizes(moved)
  {
    files := Changed(GroupDiff(env, p));
    forall path ensures path in files <==> IsNew(env, p, path) || IsMissing(env, p, path) {
      MissingExact(env, p, path);
    }
    moved := SyncableSets(plan.targets);
    forall i, path | 0 <= i < |moved| ensures path in moved[i] <==> MovesIn(env, p, i, path) {
      MovedExact(env, p, plan, q, changes, i, path);
    }
    SizesAreChanges(plan.targets);
  }

  ghost function SyncableSets(ds: seq<DiffValue>): (sets: seq<set<Path>>)
    ensures |sets| == |ds|
  {
    seq(|ds|, i requires 0 <= i < |ds| => Syncable(Changed(ds[i])))
  }

  lemma {:induction false} SizesAreChanges(ds: seq<DiffValue>)
    ensures Sizes(SyncableSets(ds)) == Changes(ds)
  {
    if ds != [] {
      SizesAreChanges(ds[..|ds| - 1]);
      assert SyncableSets(ds)[..|ds| - 1] == SyncableSets(ds[..|ds| - 1]);
    }
  }

  lemma {:induction false} MovedExact(
      env: Env, p: Project, plan: Plan, q: Project, changes: nat, i: nat, path: Path)
    requires UniqueNames(env.fs) && SyncStep(env, p, plan, q, changes) && i < |p.targets|
    ensures path in Syncable(Changed(plan.targets[i])) <==> MovesIn(env, p, i, path)
  {
    var t, d := p.targets[i], plan.targets[i];
    assert TargetStep(env, p.files + plan.added, GroupDiff(env, p), t, d, q.targets[i]);
    PhaseExact(path);
    if IsSynced(env, t.name) {
      var r := EntryMoves(env, p, plan, FindTarget(env.defs, t.name).value, t, d, path);
    }
  }
}
