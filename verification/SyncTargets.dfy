/** The targets of an Xcode project as objects. */
module SyncTargets {
  // The differences of one target are found and then applied to its build phases, entry by entry.

  import opened Sequences
  import opened Wrappers
  import opened SyncValues
  import opened SyncGroups

  class NativeTarget {
    const id: nat   // its place in the project
    const name: string
    var headers: multiset<Ref>
    var sources: multiset<Ref>
    var resources: multiset<Ref>

    constructor (id: nat, name: string)
      ensures this.id == id && Value() == Target(name, multiset{}, multiset{}, multiset{})
    {
      this.id, this.name := id, name;
      headers, sources, resources := multiset{}, multiset{}, multiset{};
    }

    ghost function Value(): Target
      reads this
    {
      Target(name, headers, sources, resources)
    }

    method AddFileReference(phase: Phase, ref: Ref)
      modifies this
      ensures Value() == WithPhase(old(Value()), phase, FilesOf(old(Value()), phase) + multiset{ref})
    {
      match phase
      case Headers => headers := headers + multiset{ref};
      case Sources => sources := sources + multiset{ref};
      case Resources => resources := resources + multiset{ref};
    }

    method RemoveFileReference(phase: Phase, ref: Ref)
      modifies this
      ensures Value() == WithPhase(old(Value()), phase, FilesOf(old(Value()), phase) - multiset{ref})
    {
      match phase
      case Headers => headers := headers - multiset{ref};
      case Sources => sources := sources - multiset{ref};
      case Resources => resources := resources - multiset{ref};
    }

    method RemoveEverywhere(ref: Ref)
      modifies this
      ensures TargetDropped(old(Value()), Value(), {ref})
    {
      headers, sources, resources := headers[ref := 0], sources[ref := 0], resources[ref := 0];
    }
  }

  function WithPhase(t: Target, phase: Phase, files: multiset<Ref>): Target {
    match phase
    case Headers => t.(headers := files)
    case Sources => t.(sources := files)
    case Resources => t.(resources := files)
  }

  // ---------------------------------------------------------------- the differences of a target

  lemma {:induction false} OneMoreFile(def: TargetDef, files: seq<Ref>, j: nat, d: DiffValue)
    requires j < |files| && IsDiffOf(def, files[..j], multiset{}, d)
    ensures var ref := files[j];
            IsDiffOf(def, files[..j + 1], multiset{},
                     if Matches(def, ref.path)
                     then d[ref.path := Marked(Base(d, ref.path), true, false, Some(ref))]
                     else d)
  {
    var ref, more := files[j], files[..j + 1];
    assert more == files[..j] + [ref];
    assert Matched(def, more) == Matched(def, files[..j]) + if Matches(def, ref.path) then {ref.path} else {};
    var e := if Matches(def, ref.path) then d[ref.path := Marked(Base(d, ref.path), true, false, Some(ref))] else d;
    forall path | path in e ensures EntryOf(def, more, multiset{}, path, e[path]) {
      if path in d {
        assert EntryOf(def, files[..j], multiset{}, path, d[path]);
      }
    }
  }

  lemma {:induction false} OneMoreSeen(def: TargetDef, files: seq<Ref>, seen: multiset<Ref>, ref: Ref, d: DiffValue)
    requires IsDiffOf(def, files, seen, d)
    ensures IsDiffOf(def, files, seen + multiset{ref}, d[ref.path := Marked(Base(d, ref.path), false, true, Some(ref))])
  {
    var e := d[ref.path := Marked(Base(d, ref.path), false, true, Some(ref))];
    forall path | path in e ensures EntryOf(def, files, seen + multiset{ref}, path, e[path]) {
      if path in d {
        assert EntryOf(def, files, seen, path, d[path]);
      }
      if path != ref.path && e[path].inTarget {
        var r :| r in seen && r.path == path;
        assert r in seen + multiset{ref};
      }
    }
  }

  /** TargetDef.diff */
  method DiffTarget(def: TargetDef, files: seq<Ref>, target: NativeTarget) returns (diff: Diff)
    ensures fresh(diff) && fresh(diff.entries.Values) && diff.Valid()
    ensures IsTargetDiff(def, files, target.Value(), diff.Value())
  {
    diff := new Diff();
    MarkFiles(def, files, diff);
    MarkTargetFiles(def, files, target.headers + target.sources + target.resources, diff);
  }

  method MarkFiles(def: TargetDef, files: seq<Ref>, diff: Diff)
    requires diff.Valid() && diff.Value() == map[]
    modifies diff, diff.entries.Values
    ensures fresh(diff.entries.Values - old(diff.entries.Values)) && diff.Valid()
    ensures IsDiffOf(def, files, multiset{}, diff.Value())
  {
    for j := 0 to |files|
      invariant fresh(diff.entries.Values - old(diff.entries.Values)) && diff.Valid()
      invariant IsDiffOf(def, files[..j], multiset{}, diff.Value())
    {
      OneMoreFile(def, files, j, diff.Value());
      if Matches(def, files[j].path) {
        diff.Mark(files[j].path, true, false, Some(files[j]));
      }
    }
    assert files[..|files|] == files;
  }

  method MarkTargetFile(ghost def: TargetDef, ghost files: seq<Ref>, ghost seen: multiset<Ref>, ref: Ref, diff: Diff)
    requires diff.Valid() && IsDiffOf(def, files, seen, diff.Value())
    modifies diff, diff.entries.Values
    ensures fresh(diff.entries.Values - old(diff.entries.Values)) && diff.Valid()
    ensures IsDiffOf(def, files, seen + multiset{ref}, diff.Value())
  {
    OneMoreSeen(def, files, seen, ref, diff.Value());
    diff.Mark(ref.path, false, true, Some(ref));
  }

  lemma {:induction false} OneMoved(seen: multiset<Ref>, left: multiset<Ref>, ref: Ref)
    requires ref in left
    ensures (seen + multiset{ref}) + (left - multiset{ref}) == seen + left
    ensures |left - multiset{ref}| < |left|
  {
  }

  method MarkTargetFiles(ghost def: TargetDef, ghost files: seq<Ref>, targetFiles: multiset<Ref>, diff: Diff)
    requires diff.Valid() && IsDiffOf(def, files, multiset{}, diff.Value())
    modifies diff, diff.entries.Values
    ensures fresh(diff.entries.Values - old(diff.entries.Values)) && diff.Valid()
    ensures IsDiffOf(def, files, targetFiles, diff.Value())
  {
    var left := targetFiles;
    ghost var seen := multiset{};
    while left != multiset{}
      invariant fresh(diff.entries.Values - old(diff.entries.Values)) && diff.Valid()
      invariant seen + left == targetFiles
      invariant IsDiffOf(def, files, seen, diff.Value())
      decreases |left|
    {
      var ref :| ref in left;
      MarkTargetFile(def, files, seen, ref, diff);
      OneMoved(seen, left, ref);
      left := left - multiset{ref};
      seen := seen + multiset{ref};
    }
    assert seen == targetFiles;
  }

  // ---------------------------------------------------------------- applying them

  function PartialPhase(d: DiffValue, t: Target, phase: Phase, done: set<Path>): multiset<Ref> {
    FilesOf(t, phase)
    + multiset(PhaseRefs(d, ToAdd(d) * done, phase))
    - multiset(PhaseRefs(d, ToRemove(d) * done, phase))
  }

  /** A target some of whose entries have been synced. */
  function Partial(d: DiffValue, t: Target, done: set<Path>): Target {
    Target(t.name, t.headers, PartialPhase(d, t, Sources, done), PartialPhase(d, t, Resources, done))
  }

  ghost predicate OwnRefs(d: DiffValue) {
    forall path :: path in d ==>
      d[path].ref.Some? && d[path].ref.value.path == path && (d[path].inSource || d[path].inTarget)
  }

  lemma {:induction false} OneMorePhaseRef(d: DiffValue, some: set<Path>, done: set<Path>, path: Path, phase: Phase)
    requires OwnRefs(d) && path in d && path !in done
    ensures var mine := path in some && FindPhase(path) == Some(phase);
            var before := PhaseRefs(d, some * done, phase);
            && PhaseRefs(d, some * (done + {path}), phase) == before + (if mine then {d[path].ref.value} else {})
            && d[path].ref.value !in before
  {
    if path in some {
      assert some * (done + {path}) == some * done + {path};
    } else {
      assert some * (done + {path}) == some * done;
    }
  }

  lemma {:induction false} PhaseStep(files: multiset<Ref>, a: set<Ref>, a2: set<Ref>, r: set<Ref>, r2: set<Ref>,
                                     x: Ref, adds: bool, removes: bool)
    requires a2 == a + (if adds then {x} else {}) && r2 == r + (if removes then {x} else {})
    requires x !in a && x !in r && !(adds && removes)
    ensures files + multiset(a2) - multiset(r2) ==
            var before := files + multiset(a) - multiset(r);
            if adds then before + multiset{x} else if removes then before - multiset{x} else before
  {
  }

  function SyncEntry(t: Target, path: Path, entry: Entry): Target
    requires entry.ref.Some?
  {
    var phase := FindPhase(path);
    if (entry.inSource && entry.inTarget) || phase.None? then t
    else
      var ref := multiset{entry.ref.value};
      if entry.inSource then WithPhase(t, phase.value, FilesOf(t, phase.value) + ref)
      else WithPhase(t, phase.value, FilesOf(t, phase.value) - ref)
  }

  lemma {:induction false} OneMorePhase(d: DiffValue, t: Target, phase: Phase, done: set<Path>, path: Path)
    requires OwnRefs(d) && path in d && path !in done
    ensures var before, after := PartialPhase(d, t, phase, done), PartialPhase(d, t, phase, done + {path});
            var ref := multiset{d[path].ref.value};
            after == if FindPhase(path) != Some(phase) || (d[path].inSource && d[path].inTarget) then before
                     else if d[path].inSource then before + ref
                     else before - ref
  {
    OneMorePhaseRef(d, ToAdd(d), done, path, phase);
    OneMorePhaseRef(d, ToRemove(d), done, path, phase);
    var mine := FindPhase(path) == Some(phase);
    PhaseStep(FilesOf(t, phase),
              PhaseRefs(d, ToAdd(d) * done, phase), PhaseRefs(d, ToAdd(d) * (done + {path}), phase),
              PhaseRefs(d, ToRemove(d) * done, phase), PhaseRefs(d, ToRemove(d) * (done + {path}), phase),
              d[path].ref.value, mine && path in ToAdd(d), mine && path in ToRemove(d));
  }

  lemma {:induction false} OneMoreEntry(d: DiffValue, t: Target, done: set<Path>, path: Path)
    requires OwnRefs(d) && path in d && path !in done
    ensures Partial(d, t, done + {path}) == SyncEntry(Partial(d, t, done), path, d[path])
  {
    OneMorePhase(d, t, Sources, done, path);
    OneMorePhase(d, t, Resources, done, path);
  }

  predicate Counts(path: Path, entry: Entry) {
    !(entry.inSource && entry.inTarget) && FindPhase(path).Some?
  }

  lemma {:induction false} OneMoreChange(d: DiffValue, done: set<Path>, path: Path)
    requires OwnRefs(d) && path in d && path !in done
    ensures |Syncable(Changed(d) * (done + {path}))|
         == |Syncable(Changed(d) * done)| + if Counts(path, d[path]) then 1 else 0
  {
    if Counts(path, d[path]) {
      assert Syncable(Changed(d) * (done + {path})) == Syncable(Changed(d) * done) + {path};
    } else {
      assert Syncable(Changed(d) * (done + {path})) == Syncable(Changed(d) * done);
    }
  }

  /** What has been done to a target, and how many changes that took. */
  ghost predicate Progress(d: DiffValue, t: Target, done: set<Path>, now: Target, changes: nat) {
    now == Partial(d, t, done) && changes == |Syncable(Changed(d) * done)|
  }

  lemma {:induction false} ProgressStarts(d: DiffValue, t: Target)
    ensures Progress(d, t, {}, t, 0)
  {
    assert ToAdd(d) * {} == {} == ToRemove(d) * {};
    forall phase ensures PartialPhase(d, t, phase, {}) == FilesOf(t, phase) {
      assert PhaseRefs(d, {}, phase) == {};
    }
    assert Syncable(Changed(d) * {}) == {};
  }

  lemma {:induction false} ProgressContinues(
      d: DiffValue, t: Target, done: set<Path>, path: Path, now: Target, next: Target,
      changes: nat)
    requires OwnRefs(d) && path in d && path !in done
    requires Progress(d, t, done, now, changes) && next == SyncEntry(now, path, d[path])
    ensures Progress(d, t, done + {path}, next, changes + if Counts(path, d[path]) then 1 else 0)
  {
    OneMoreEntry(d, t, done, path);
    OneMoreChange(d, done, path);
  }

  lemma {:induction false} ProgressEnds(d: DiffValue, t: Target, now: Target, changes: nat)
    requires Progress(d, t, d.Keys, now, changes)
    ensures now == SyncTarget(d, t) && changes == |Syncable(Changed(d))|
  {
    assert ToAdd(d) * d.Keys == ToAdd(d) && ToRemove(d) * d.Keys == ToRemove(d);
    assert Changed(d) * d.Keys == Changed(d);
  }

  /** sync_target_entry */
  method SyncTargetEntry(target: NativeTarget, entry: DiffEntry) returns (changes: nat)
    requires entry.ref.Some? && (entry.inSource || entry.inTarget)
    modifies target
    ensures target.Value() == SyncEntry(old(target.Value()), entry.path, entry.Value())
    ensures changes == if Counts(entry.path, entry.Value()) then 1 else 0
  {
    if entry.inSource && entry.inTarget {
      return 0;
    }
    var phase := FindPhase(entry.path);
    if phase.None? {
      return 0;
    }
    if entry.inSource && !entry.inTarget {
      target.AddFileReference(phase.value, entry.ref.value);
    } else {
      target.RemoveFileReference(phase.value, entry.ref.value);
    }
    return 1;
  }

  /** The entries of these paths, one after the other. */
  ghost function Applied(d: DiffValue, t: Target, order: seq<Path>): (Target, nat)
    requires OwnRefs(d) && forall path :: path in order ==> path in d
  {
    if order == [] then (t, 0)
    else
      var path, (u, n) := order[|order| - 1], Applied(d, t, order[..|order| - 1]);
      (SyncEntry(u, path, d[path]), n + if Counts(path, d[path]) then 1 else 0)
  }

  lemma {:induction false} ElementsMore(front: seq<Path>, path: Path)
    requires NoDuplicates(front + [path])
    ensures Elements(front + [path]) == Elements(front) + {path} && path !in Elements(front)
  {
    assert (front + [path])[|front|] == path;
    assert forall i :: 0 <= i < |front| ==> (front + [path])[i] == front[i];
  }

  lemma {:induction false} AppliedProgress(d: DiffValue, t: Target, order: seq<Path>)
    requires OwnRefs(d) && NoDuplicates(order) && forall path :: path in order ==> path in d
    ensures var (u, n) := Applied(d, t, order); Progress(d, t, Elements(order), u, n)
  {
    if order == [] {
      ProgressStarts(d, t);
      assert Elements(order) == {};
    } else {
      var front, path := order[..|order| - 1], order[|order| - 1];
      assert order == front + [path];
      ElementsMore(front, path);
      AppliedProgress(d, t, front);
      var (u, n) := Applied(d, t, front);
      ProgressContinues(d, t, Elements(front), path, u, SyncEntry(u, path, d[path]), n);
    }
  }

  /** All the entries have been synced. */
  ghost predicate Synced(d: DiffValue, t: Target, u: Target, changes: nat) {
    u == SyncTarget(d, t) && changes == |Syncable(Changed(d))|
  }

  /** Some order of all the tracked paths. */
  ghost predicate IsOrder(order: seq<Path>, d: DiffValue) {
    NoDuplicates(order) && Elements(order) == d.Keys && forall path :: path in order ==> path in d
  }

  /** The order in which the entries are synced does not matter. */
  lemma {:induction false} AnyOrder(d: DiffValue, t: Target, order: seq<Path>, u: Target, changes: nat)
    requires OwnRefs(d) && IsOrder(order, d) && (u, changes) == Applied(d, t, order)
    ensures Synced(d, t, u, changes)
  {
    AppliedProgress(d, t, order);
    ProgressEnds(d, t, u, changes);
  }

  ghost predicate Lists(order: seq<Path>, paths: set<Path>) {
    NoDuplicates(order) && Elements(order) == paths
  }

  lemma {:induction false} ListsMore(order: seq<Path>, paths: set<Path>, path: Path)
    requires Lists(order, paths) && path !in paths
    ensures Lists(order + [path], paths + {path})
  {
    assert forall i :: 0 <= i < |order| ==> order[i] in Elements(order);
  }

  /** Some paths as a list; the order of those with equal file names is not determined. */
  method Listed(paths: set<Path>) returns (order: seq<Path>)
    ensures NoDuplicates(order) && Elements(order) == paths
  {
    order := [];
    var left := paths;
    while left != {}
      invariant Lists(order, paths - left) && left <= paths
      decreases |left|
    {
      var path :| path in left;
      ListsMore(order, paths - left, path);
      left := left - {path};
      order := order + [path];
    }
  }

  lemma {:induction false} AppliedNext(d: DiffValue, t: Target, order: seq<Path>, i: nat)
    requires OwnRefs(d) && i < |order| && forall path :: path in order ==> path in d
    ensures var (u, n) := Applied(d, t, order[..i]);
            Applied(d, t, order[..i + 1]) ==
            (SyncEntry(u, order[i], d[order[i]]), n + if Counts(order[i], d[order[i]]) then 1 else 0)
  {
    assert order[..i + 1][..i] == order[..i];
  }

  method ListEntries(diff: Diff, ghost d: DiffValue) returns (order: seq<Path>)
    requires d == diff.Value()
    ensures IsOrder(order, d)
  {
    order := Listed(diff.entries.Keys);
    assert forall path :: path in order ==> path in Elements(order);
  }

  /** All the entries of a difference. */
  method SyncEntries(target: NativeTarget, diff: Diff, ghost d: DiffValue) returns (changes: nat)
    requires diff.Valid() && d == diff.Value() && OwnRefs(d)
    modifies target
    ensures Synced(d, old(target.Value()), target.Value(), changes)
  {
    ghost var before := target.Value();
    var order := ListEntries(diff, d);
    changes := ApplyEntries(target, diff, order, d);
    AnyOrder(d, before, order, target.Value(), changes);
  }

  method ApplyEntries(target: NativeTarget, diff: Diff, order: seq<Path>, ghost d: DiffValue) returns (changes: nat)
    requires diff.Valid() && d == diff.Value() && OwnRefs(d) && forall path :: path in order ==> path in d
    modifies target
    ensures (target.Value(), changes) == Applied(d, old(target.Value()), order)
  {
    ghost var before := target.Value();
    changes := 0;
    for i := 0 to |order|
      invariant (target.Value(), changes) == Applied(d, before, order[..i])
    {
      AppliedNext(d, before, order, i);
      var path := order[i];
      assert path in order && path in d;
      var n := SyncTargetEntry(target, diff.entries[path]);
      changes := changes + n;
    }
    assert order[..|order|] == order;
  }

  lemma {:induction false} TargetDiffOwnsRefs(def: TargetDef, files: seq<Ref>, t: Target, d: DiffValue)
    requires IsTargetDiff(def, files, t, d)
    ensures OwnRefs(d)
  {
    forall path | path in d
      ensures d[path].ref.Some? && d[path].ref.value.path == path && (d[path].inSource || d[path].inTarget)
    {
      assert TargetEntry(def, files, t, path, d[path]);
    }
  }
}
