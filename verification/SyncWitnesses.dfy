/** Two projects on which a second sync does not return 0. */
module SyncWitnesses {
  import opened SyncConvergence
  import opened SyncProject
  import opened SyncTargets
  import opened SyncValues
  import opened Wrappers

  const X_M: Path := ["x.m"]

  lemma {:induction false} SourceFile()
    ensures FindPhase(X_M) == Some(Sources)
  {
    assert FromLastDot("m") == "" by { assert "m"[1..] == ""; }
    assert FromLastDot(".m") == ".m" by { assert ".m"[1..] == "m"; }
    assert FromLastDot("x.m") == ".m" by { assert "x.m"[1..] == ".m"; }
    assert SkipDots("x.m") == "x.m";
  }

  lemma {:induction false} NothingFound(env: Env, dirs: seq<Path>)
    requires env.fs == Directory(Nil)
    ensures Found(env, dirs) == {}
  {
    if dirs != [] {
      NothingFound(env, dirs[..|dirs| - 1]);
      assert EntriesAt(env.fs, dirs[|dirs| - 1]) == Nil;
    }
  }

  /** With no files there is nothing to add, and a sync does not fail. */
  lemma {:induction false} NothingToAdd(env: Env, p: Project)
    requires env.fs == Directory(Nil)
    ensures ToAdd(GroupDiff(env, p)) == {}
  {
    NothingFound(env, p.dirs);
  }

  /** A target T that is synced with all files, or with none. */
  function OneDef(all: bool): Env {
    Env(Directory(Nil), _ => false, _ => false, [], [TargetDef("T", true, _ => all, _ => false)])
  }

  method TwoSyncs(syncer: Syncer)
    returns (second: nat, ghost plan: Plan, ghost q: Project, ghost again: Plan, ghost r: Project)
    requires syncer.Valid() && syncer.env.fs == Directory(Nil)
    modifies syncer.project, syncer.project.targets
    ensures exists n :: SyncStep(syncer.env, old(syncer.project.Value()), plan, q, n)
    ensures SyncStep(syncer.env, q, again, r, second)
  {
    NothingToAdd(syncer.env, syncer.project.Value());
    var first;
    first, plan := syncer.Sync();
    q := syncer.project.Value();
    NothingToAdd(syncer.env, q);
    var more;
    more, again := syncer.Sync();
    r := syncer.project.Value();
    second := more.value;
  }

  function OneTarget(files: seq<Ref>, grouped: seq<Ref>, resources: multiset<Ref>): Project {
    Project(files, grouped, [[]], [Target("T", multiset{}, multiset{}, resources)])
  }

  /** A project with one target, some of whose files may be built as resources. */
  method NewSyncer(env: Env, files: seq<Ref>, grouped: seq<Ref>, resources: seq<Ref>, nextId: nat)
    returns (syncer: Syncer)
    requires UniqueNames(env.fs) && (forall r :: r in files ==> r.id < nextId)
    ensures syncer.Valid() && syncer.env == env
    ensures syncer.project.Value() == OneTarget(files, grouped, multiset(resources))
    ensures fresh(syncer) && fresh(syncer.project)
    ensures forall i :: 0 <= i < |syncer.project.targets| ==> fresh(syncer.project.targets[i])
  {
    var target := new NativeTarget(0, "T");
    for i := 0 to |resources|
      invariant target.Value() == Target("T", multiset{}, multiset{}, multiset(resources[..i]))
    {
      assert resources[..i + 1] == resources[..i] + [resources[i]];
      target.AddFileReference(Resources, resources[i]);
    }
    assert resources[..|resources|] == resources;
    var project := new XcodeProject(files, grouped, [[]], [target], nextId);
    assert TargetValues([target]) == [target.Value()];
    syncer := new Syncer(env, project, (_, _, _) => []);
  }

  /** Two references to the missing file x.m, one of them outside the groups, and a target that wants
      it: the first sync removes one, and the second adds the other to the target. */
  method ShadowedFile() returns (second: nat)
    ensures second > 0
  {
    var a, b := Ref(0, X_M, true), Ref(1, X_M, true);
    var syncer := NewSyncer(OneDef(true), [a, b], [a], [], 2);
    ghost var p := syncer.project.Value();
    ghost var plan, q, again, r;
    second, plan, q, again, r := TwoSyncs(syncer);
    ShadowedAgain(p, a, b, plan, q, again, r, second);
  }

  lemma {:induction false} ShadowedAgain(
      p: Project, a: Ref, b: Ref, plan: Plan, q: Project, again: Plan, r: Project, second: nat)
    requires a == Ref(0, X_M, true) && b == Ref(1, X_M, true) && p == OneTarget([a, b], [a], multiset{})
    requires (exists n :: SyncStep(OneDef(true), p, plan, q, n)) && SyncStep(OneDef(true), q, again, r, second)
    ensures second > 0
  {
    var n :| SyncStep(OneDef(true), p, plan, q, n);
    ShadowedProject(OneDef(true), p, a, b);
    Shadow(OneDef(true), p, plan, q, n, again, r, second, b);
  }

  /** ShadowReference for the first target. */
  lemma {:induction false} Shadow(
      env: Env, p: Project, plan: Plan, q: Project, n: nat, again: Plan, r: Project, second: nat,
      b: Ref)
    requires IsShadowed(env, p, b) && SyncStep(env, p, plan, q, n) && SyncStep(env, q, again, r, second)
    ensures second > 0
  {
    ShadowReference(env, p, plan, q, n, again, r, second, b, 0);
  }

  ghost predicate IsShadowed(env: Env, p: Project, b: Ref) {
    && UniqueNames(env.fs) && b in p.files && b !in p.grouped && b.inGroup && !Ignored(env, b.path)
    && b.path in Gone(env, p) && FindPhase(b.path).Some? && p.targets != [] && IsSynced(env, p.targets[0].name)
    && b.path !in TargetPaths(p.targets[0]) && Matches(FindTarget(env.defs, p.targets[0].name).value, b.path)
  }

  lemma {:induction false} ShadowedProject(env: Env, p: Project, a: Ref, b: Ref)
    requires env == OneDef(true) && a == Ref(0, X_M, true) && b == Ref(1, X_M, true)
    requires p == OneTarget([a, b], [a], multiset{})
    ensures IsShadowed(env, p, b)
  {
    SourceFile();
    NothingFound(env, p.dirs);
    assert a in p.grouped && Grouped(p, X_M);
    GroupDiffExact(env, p, X_M);
    assert Child(Nil, "x.m") == None;
  }

  /** The file x.m is built as a resource, and no definition matches it: it is looked for among the
      sources, and so each sync counts a removal that does not happen. */
  method WrongPhase() returns (second: nat)
    ensures second > 0
  {
    var a := Ref(0, X_M, true);
    var syncer := NewSyncer(OneDef(false), [a], [], [a], 1);
    ghost var p := syncer.project.Value();
    ghost var plan, q, again, r;
    second, plan, q, again, r := TwoSyncs(syncer);
    WrongAgain(p, a, plan, q, again, r, second);
  }

  lemma {:induction false} WrongAgain(p: Project, a: Ref, plan: Plan, q: Project, again: Plan, r: Project, second: nat)
    requires a == Ref(0, X_M, true) && p == OneTarget([a], [], multiset([a]))
    requires (exists n :: SyncStep(OneDef(false), p, plan, q, n)) && SyncStep(OneDef(false), q, again, r, second)
    ensures second > 0
  {
    var n :| SyncStep(OneDef(false), p, plan, q, n);
    WrongPhaseProject(OneDef(false), p, a);
    SecondSyncExact(OneDef(false), p, plan, q, n, again, r, second);
  }

  lemma {:induction false} WrongPhaseProject(env: Env, p: Project, a: Ref)
    requires env == OneDef(false) && a == Ref(0, X_M, true)
    requires p == OneTarget([a], [], multiset([a]))
    ensures !RightAt(env, p, 0) && !AllRightPhases(env, p)
  {
    SourceFile();
    NothingFound(env, p.dirs);
    var def, t := FindTarget(env.defs, "T").value, p.targets[0];
    GroupDiffExact(env, p, X_M);
    assert X_M !in Wanted(env, p, def);
    assert a in TargetFiles(t) && X_M in TargetPaths(t);
    assert !OnlyBuildFile(t, X_M);
  }
}
