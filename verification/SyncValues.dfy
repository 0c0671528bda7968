/** Synchronizing an Xcode project with the file system. */
module SyncValues {
  // The project, the differences found and what one sync does to the project, as values.

  import opened Wrappers

  type Path = seq<string>

  // ---------------------------------------------------------------- the file system

  datatype Node = File | Directory(entries: Entries)
  datatype Entries = Nil | Cons(name: string, node: Node, rest: Entries)

  function Child(entries: Entries, name: string): Option<Node> {
    match entries
    case Nil => None
    case Cons(n, node, rest) => if n == name then Some(node) else Child(rest, name)
  }

  function NodeAt(node: Node, path: Path): Option<Node>
    decreases |path|
  {
    if path == [] then Some(node)
    else if node.File? then None
    else
      match Child(node.entries, path[0])
      case None => None
      case Some(child) => NodeAt(child, path[1..])
  }

  predicate IsFile(fs: Node, path: Path) {
    NodeAt(fs, path) == Some(File)
  }

  function EntriesAt(fs: Node, path: Path): Entries {
    match NodeAt(fs, path)
    case Some(Directory(entries)) => entries
    case _ => Nil
  }

  /** No directory has two entries of one name. */
  predicate UniqueNames(node: Node) {
    node.File? || UniqueEntries(node.entries)
  }

  predicate UniqueEntries(entries: Entries) {
    entries.Nil?
    || (Child(entries.rest, entries.name).None? && UniqueNames(entries.node) && UniqueEntries(entries.rest))
  }

  // ---------------------------------------------------------------- what is to be synced

  /** A target definition: the patterns it matches, and whether its sources are synced. */
  datatype TargetDef = TargetDef(name: string, syncSources: bool, sourceFiles: Path -> bool, excludeFiles: Path -> bool)

  datatype Env = Env(fs: Node, ignoreBasename: string -> bool, ignorePathname: Path -> bool, roots: seq<Path>,
                     defs: seq<TargetDef>)

  predicate Ignored(env: Env, path: Path) {
    (path != [] && env.ignoreBasename(path[|path| - 1])) || env.ignorePathname(path)
  }

  predicate Matches(def: TargetDef, path: Path) {
    def.sourceFiles(path) && !def.excludeFiles(path)
  }

  /** The first definition of that name. */
  function FindTarget(defs: seq<TargetDef>, name: string): Option<TargetDef> {
    if defs == [] then None
    else if defs[0].name == name then Some(defs[0])
    else FindTarget(defs[1..], name)
  }

  /** A file reference; inGroup says that its source tree is its group. */
  datatype Ref = Ref(id: nat, path: Path, inGroup: bool)

  datatype Phase = Sources | Headers | Resources

  datatype Target = Target(name: string, headers: multiset<Ref>, sources: multiset<Ref>, resources: multiset<Ref>)

  /** files are all references of the project, grouped those in the groups being synced, and dirs
      the directories these groups stand for. */
  datatype Project = Project(files: seq<Ref>, grouped: seq<Ref>, dirs: seq<Path>, targets: seq<Target>)

  // ---------------------------------------------------------------- phases

  function SkipDots(name: string): string {
    if name != [] && name[0] == '.' then SkipDots(name[1..]) else name
  }

  function FromLastDot(name: string): string {
    if name == [] then []
    else
      var rest := FromLastDot(name[1..]);
      if rest == [] && name[0] == '.' then name else rest
  }

  function Extname(name: string): string {
    FromLastDot(SkipDots(name))
  }

  /** The phase in which a file is synced; headers are not. */
  function FindPhase(path: Path): Option<Phase> {
    var ext := if path == [] then "" else Extname(path[|path| - 1]);
    if ext in {".c", ".cc", ".m", ".mm", ".swift"} then Some(Sources)
    else if ext == ".h" then None
    else Some(Resources)
  }

  function FilesOf(t: Target, phase: Phase): multiset<Ref> {
    match phase
    case Sources => t.sources
    case Headers => t.headers
    case Resources => t.resources
  }

  function TargetFiles(t: Target): multiset<Ref> {
    t.headers + t.sources + t.resources
  }

  // ---------------------------------------------------------------- differences

  datatype Entry = Entry(inSource: bool, inTarget: bool, ref: Option<Ref>)

  type DiffValue = map<Path, Entry>

  function ToAdd(d: DiffValue): set<Path> {
    set p | p in d && d[p].inSource && !d[p].inTarget
  }

  function ToRemove(d: DiffValue): set<Path> {
    set p | p in d && !d[p].inSource && d[p].inTarget
  }

  function Changed(d: DiffValue): set<Path> {
    ToAdd(d) + ToRemove(d)
  }

  /** Those of the changed paths that have a phase. */
  function Syncable(paths: set<Path>): set<Path> {
    set p | p in paths && FindPhase(p).Some?
  }

  function PathsOf(refs: seq<Ref>): set<Path> {
    set r | r in refs :: r.path
  }

  /** The files below a directory that are reached without meeting an ignored name. */
  function FilesIn(env: Env, dir: Path, entries: Entries): set<Path>
    decreases entries
  {
    match entries
    case Nil => {}
    case Cons(name, node, rest) =>
      var here := dir + [name];
      (if Ignored(env, here) then {}
       else if node.File? then {here}
       else FilesIn(env, here, node.entries)) + FilesIn(env, dir, rest)
  }

  function FoundIn(env: Env, dir: Path): set<Path> {
    FilesIn(env, dir, EntriesAt(env.fs, dir))
  }

  function Found(env: Env, dirs: seq<Path>): set<Path> {
    if dirs == [] then {} else Found(env, dirs[..|dirs| - 1]) + FoundIn(env, dirs[|dirs| - 1])
  }

  ghost predicate VisibleFrom(env: Env, dir: Path, path: Path) {
    && |dir| < |path| && path[..|dir|] == dir && IsFile(env.fs, path)
    && (forall k :: |dir| < k <= |path| ==> !Ignored(env, path[..k]))
  }

  lemma {:induction false} NodeBelow(node: Node, dir: Path, path: Path)
    ensures NodeAt(node, dir + path) == match NodeAt(node, dir)
                                        case None => None
                                        case Some(below) => NodeAt(below, path)
    decreases |dir|
  {
    if dir == [] {
      assert dir + path == path;
    } else if node.Directory? && Child(node.entries, dir[0]).Some? {
      NodeBelow(Child(node.entries, dir[0]).value, dir[1..], path);
      assert (dir + path)[1..] == dir[1..] + path;
    }
  }

  lemma {:induction false} UniqueBelow(node: Node, path: Path)
    requires UniqueNames(node) && NodeAt(node, path).Some?
    ensures UniqueNames(NodeAt(node, path).value)
    decreases |path|
  {
    if path != [] {
      UniqueChild(node.entries, path[0]);
      UniqueBelow(Child(node.entries, path[0]).value, path[1..]);
    }
  }

  lemma {:induction false} UniqueChild(entries: Entries, name: string)
    requires UniqueEntries(entries) && Child(entries, name).Some?
    ensures UniqueNames(Child(entries, name).value)
  {
    if entries.name != name {
      UniqueChild(entries.rest, name);
    }
  }

  /** A file is visible from a directory exactly when one of its entries leads to it. */
  ghost predicate Leads(env: Env, dir: Path, entries: Entries, path: Path) {
    && |dir| < |path| && path[..|dir|] == dir
    && (match Child(entries, path[|dir|])
        case None => false
        case Some(node) => NodeAt(node, path[|dir| + 1..]) == Some(File))
    && (forall k :: |dir| < k <= |path| ==> !Ignored(env, path[..k]))
  }

  lemma {:induction false} FilesInExact(env: Env, dir: Path, entries: Entries, path: Path)
    requires UniqueEntries(entries)
    ensures path in FilesIn(env, dir, entries) <==> Leads(env, dir, entries, path)
    decreases entries
  {
    match entries
    case Nil =>
    case Cons(name, node, rest) =>
      FilesInExact(env, dir, rest, path);
      var here := dir + [name];
      if node.Directory? {
        FilesInExact(env, here, node.entries, path);
      }
      if |dir| < |path| && path[..|dir|] == dir && path[|dir|] == name {
        assert path[..|here|] == here;
        if |path| > |here| {
          assert path[|dir| + 1..][0] == path[|here|] && path[|dir| + 1..][1..] == path[|here| + 1..];
        } else {
          assert path == here && path[|dir| + 1..] == [];
        }
      }
  }

  lemma {:induction false} FoundInExact(env: Env, dir: Path, path: Path)
    requires UniqueNames(env.fs)
    ensures path in FoundIn(env, dir) <==> VisibleFrom(env, dir, path)
  {
    var entries := EntriesAt(env.fs, dir);
    if NodeAt(env.fs, dir).Some? {
      UniqueBelow(env.fs, dir);
    }
    FilesInExact(env, dir, entries, path);
    if |dir| < |path| && path[..|dir|] == dir {
      var below := path[|dir|..];
      NodeBelow(env.fs, dir, below);
      assert dir + below == path && below[0] == path[|dir|] && below[1..] == path[|dir| + 1..];
    }
  }

  /** What is found is what is visible from one of the directories. */
  lemma {:induction false} FoundExact(env: Env, dirs: seq<Path>, path: Path)
    requires UniqueNames(env.fs)
    ensures path in Found(env, dirs) <==> exists i :: 0 <= i < |dirs| && VisibleFrom(env, dirs[i], path)
  {
    if dirs != [] {
      var front, last := dirs[..|dirs| - 1], dirs[|dirs| - 1];
      FoundExact(env, front, path);
      FoundInExact(env, last, path);
      assert forall i :: 0 <= i < |front| ==> front[i] == dirs[i];
      if VisibleFrom(env, last, path) {
        assert VisibleFrom(env, dirs[|dirs| - 1], path);
      }
    }
  }

  lemma {:induction false} FoundJoin(env: Env, dirs: seq<Path>, more: seq<Path>)
    ensures Found(env, dirs + more) == Found(env, dirs) + Found(env, more)
  {
    if more == [] {
      assert dirs + more == dirs;
    } else {
      FoundJoin(env, dirs, more[..|more| - 1]);
      assert (dirs + more)[..|dirs + more| - 1] == dirs + more[..|more| - 1];
    }
  }

  // ---------------------------------------------------------------- one sync

  /** The last of the references to a path. */
  function LastRef(refs: seq<Ref>, path: Path): (r: Option<Ref>)
    ensures r.Some? <==> path in PathsOf(refs)
    ensures r.Some? ==> r.value in refs && r.value.path == path
  {
    if refs == [] then None
    else
      var last := refs[|refs| - 1];
      assert refs == refs[..|refs| - 1] + [last];
      if last.path == path then assert last in refs; Some(last) else LastRef(refs[..|refs| - 1], path)
  }

  predicate Grouped(p: Project, path: Path) {
    path in PathsOf(p.grouped)
  }

  /** GroupDiffer: what is on the file system against what is in the groups. */
  function GroupDiff(env: Env, p: Project): DiffValue {
    map path | path in Found(env, p.dirs) + PathsOf(p.grouped) ::
      Entry(path in Found(env, p.dirs) || (Grouped(p, path) && IsFile(env.fs, path)), Grouped(p, path),
            LastRef(p.grouped, path))
  }

  /** find_project_files_after_removal */
  function ProjectFiles(env: Env, files: seq<Ref>, removed: set<Path>): (kept: seq<Ref>)
    ensures forall r :: r in kept <==> r in files && r.inGroup && r.path !in removed && !Ignored(env, r.path)
  {
    if files == [] then []
    else
      var last := files[|files| - 1];
      assert files == files[..|files| - 1] + [last];
      ProjectFiles(env, files[..|files| - 1], removed) +
      if last.inGroup && last.path !in removed && !Ignored(env, last.path) then [last] else []
  }

  function Matched(def: TargetDef, files: seq<Ref>): set<Path> {
    set r | r in files && Matches(def, r.path) :: r.path
  }

  function PathsIn(files: multiset<Ref>): set<Path> {
    set r | r in files :: r.path
  }

  function TargetPaths(t: Target): set<Path> {
    PathsIn(TargetFiles(t))
  }

  /** The difference between the matched files and some files of a target. */
  ghost predicate IsDiffOf(def: TargetDef, files: seq<Ref>, seen: multiset<Ref>, d: DiffValue) {
    && d.Keys == Matched(def, files) + PathsIn(seen)
    && (forall path :: path in d ==> EntryOf(def, files, seen, path, d[path]))
  }

  ghost predicate EntryOf(def: TargetDef, files: seq<Ref>, seen: multiset<Ref>, path: Path, entry: Entry) {
    && (entry.inSource <==> path in Matched(def, files))
    && (entry.inTarget <==> path in PathsIn(seen))
    && entry.ref.Some? && entry.ref.value.path == path
    && (if entry.inTarget then entry.ref.value in seen else entry.ref.value in files)
  }

  /** TargetDef.diff: the matched project files against the files of the target. */
  ghost predicate IsTargetDiff(def: TargetDef, files: seq<Ref>, t: Target, d: DiffValue) {
    IsDiffOf(def, files, TargetFiles(t), d)
  }

  ghost predicate TargetEntry(def: TargetDef, files: seq<Ref>, t: Target, path: Path, entry: Entry) {
    EntryOf(def, files, TargetFiles(t), path, entry)
  }

  /** The references, one for each of these paths, that belong in a phase. */
  function PhaseRefs(d: DiffValue, paths: set<Path>, phase: Phase): set<Ref> {
    set path | path in paths && path in d && d[path].ref.Some? && FindPhase(path) == Some(phase) :: d[path].ref.value
  }

  function SyncPhase(d: DiffValue, t: Target, phase: Phase): multiset<Ref> {
    FilesOf(t, phase) + multiset(PhaseRefs(d, ToAdd(d), phase)) - multiset(PhaseRefs(d, ToRemove(d), phase))
  }

  function SyncTarget(d: DiffValue, t: Target): Target {
    Target(t.name, t.headers, SyncPhase(d, t, Sources), SyncPhase(d, t, Resources))
  }

  /** The references that are taken out of the project. */
  function RemovedRefs(d: DiffValue): set<Ref> {
    set path | path in ToRemove(d) && d[path].ref.Some? :: d[path].ref.value
  }

  function Without(refs: seq<Ref>, removed: set<Ref>): (kept: seq<Ref>)
    ensures forall r :: r in kept <==> r in refs && r !in removed
  {
    if refs == [] then []
    else
      var last := refs[|refs| - 1];
      assert refs == refs[..|refs| - 1] + [last];
      Without(refs[..|refs| - 1], removed) + if last in removed then [] else [last]
  }

  ghost predicate Dropped(before: multiset<Ref>, after: multiset<Ref>, removed: set<Ref>) {
    forall r :: after[r] == if r in removed then 0 else before[r]
  }

  ghost predicate TargetDropped(before: Target, after: Target, removed: set<Ref>) {
    && after.name == before.name
    && Dropped(before.headers, after.headers, removed)
    && Dropped(before.sources, after.sources, removed)
    && Dropped(before.resources, after.resources, removed)
  }

  predicate IsSynced(env: Env, name: string) {
    var def := FindTarget(env.defs, name);
    def.Some? && def.value.syncSources
  }

  ghost predicate TargetStep(env: Env, files: seq<Ref>, groups: DiffValue, t: Target, d: DiffValue, u: Target) {
    && (if IsSynced(env, t.name) then
          IsTargetDiff(FindTarget(env.defs, t.name).value, ProjectFiles(env, files, ToRemove(groups)), t, d)
        else d == map[])
    && TargetDropped(SyncTarget(d, t), u, RemovedRefs(groups))
  }

  function Changes(ds: seq<DiffValue>): nat {
    if ds == [] then 0 else Changes(ds[..|ds| - 1]) + |Syncable(Changed(ds[|ds| - 1]))|
  }

  /** What one sync decided: the references it made, the directories of the groups it made for them,
      and the differences it found for each target. */
  datatype Plan = Plan(added: seq<Ref>, newDirs: seq<Path>, targets: seq<DiffValue>)

  /** One new reference for each of the paths. */
  ghost predicate NewRefs(p: Project, added: seq<Ref>, paths: set<Path>) {
    && PathsOf(added) == paths
    && (forall r :: r in added ==> r.inGroup && forall f :: f in p.files ==> f.id != r.id)
    && (forall i, j :: 0 <= i < j < |added| ==> added[i].id != added[j].id && added[i].path != added[j].path)
  }

  ghost predicate SyncStep(env: Env, p: Project, plan: Plan, q: Project, changes: nat) {
    var d := GroupDiff(env, p);
    && NewRefs(p, plan.added, ToAdd(d))
    && (plan.added == [] ==> plan.newDirs == [])
    && q.files == Without(p.files + plan.added, RemovedRefs(d))
    && q.grouped == Without(p.grouped + plan.added, RemovedRefs(d))
    && q.dirs == p.dirs + plan.newDirs
    && |q.targets| == |p.targets| == |plan.targets|
    && (forall i :: 0 <= i < |p.targets| ==>
          TargetStep(env, p.files + plan.added, d, p.targets[i], plan.targets[i], q.targets[i]))
    && changes == |Changed(d)| + Changes(plan.targets)
  }

  /** Everything refers to files of the project, and each file has its own identity. */
  ghost predicate WellFormed(p: Project) {
    && (forall r :: r in p.grouped ==> r in p.files)
    && (forall i, r :: 0 <= i < |p.targets| && r in TargetFiles(p.targets[i]) ==> r in p.files)
    && (forall a, b :: a in p.files && b in p.files && a.id == b.id ==> a == b)
  }
}
