/** Diff and GroupDiffer as classes. */
module SyncGroups {
  // The entries of a difference are objects whose flags are set in place while the file system and the
  // groups are walked.

  import opened Wrappers
  import opened SyncValues

  const NEW_ENTRY := Entry(false, false, None)

  function Base(d: DiffValue, path: Path): Entry {
    if path in d then d[path] else NEW_ENTRY
  }

  /** All these paths were found to be in the source. */
  function WithSources(d: DiffValue, paths: set<Path>): DiffValue {
    map path | path in d.Keys + paths :: Base(d, path).(inSource := path in paths || Base(d, path).inSource)
  }

  function InSources(d: DiffValue): set<Path> {
    set path | path in d && d[path].inSource
  }

  function Marked(base: Entry, inSource: bool, inTarget: bool, ref: Option<Ref>): Entry {
    Entry(base.inSource || inSource, base.inTarget || inTarget, if ref.Some? then ref else base.ref)
  }

  class DiffEntry {
    const path: Path
    var inSource: bool
    var inTarget: bool
    var ref: Option<Ref>

    constructor (path: Path)
      ensures this.path == path && Value() == NEW_ENTRY
    {
      this.path := path;
      inSource, inTarget, ref := false, false, None;
    }

    ghost function Value(): Entry
      reads this
    {
      Entry(inSource, inTarget, ref)
    }

    method Set(inSource: bool, inTarget: bool, ref: Option<Ref>)
      modifies this
      ensures Value() == Marked(old(Value()), inSource, inTarget, ref)
    {
      this.inSource := this.inSource || inSource;
      this.inTarget := this.inTarget || inTarget;
      if ref.Some? {
        this.ref := ref;
      }
    }
  }

  class Diff {
    var entries: map<Path, DiffEntry>

    constructor ()
      ensures Valid() && Value() == map[] && entries == map[]
    {
      entries := map[];
    }

    ghost predicate Valid()
      reads this
    {
      forall path :: path in entries ==> entries[path].path == path
    }

    ghost function Value(): DiffValue
      reads this, entries.Values
    {
      map path | path in entries :: entries[path].Value()
    }

    method Track(path: Path) returns (entry: DiffEntry)
      requires Valid()
      modifies this
      ensures Valid() && entry.path == path
      ensures entries == old(entries)[path := entry]
      ensures path in old(entries) ==> entry == old(entries)[path]
      ensures path !in old(entries) ==> fresh(entry)
      ensures entry.Value() == Base(old(Value()), path)
      ensures Value() == old(Value())[path := entry.Value()]
    {
      if path in entries {
        entry := entries[path];
        assert entries == old(entries)[path := entry];
      } else {
        entry := new DiffEntry(path);
        entries := entries[path := entry];
      }
      assert Value() == old(Value())[path := entry.Value()];
    }

    /** Tracks a path and sets what is known of it. */
    method Mark(path: Path, inSource: bool, inTarget: bool, ref: Option<Ref>)
      requires Valid()
      modifies this, entries.Values
      ensures Valid() && fresh(entries.Values - old(entries.Values))
      ensures Value() == old(Value())[path := Marked(Base(old(Value()), path), inSource, inTarget, ref)]
    {
      var entry := Track(path);
      ghost var base := entry.Value();
      SetEntry(entry, inSource, inTarget, ref);
      assert Value() == old(Value())[path := base][path := Marked(base, inSource, inTarget, ref)];
    }

    method SetEntry(entry: DiffEntry, inSource: bool, inTarget: bool, ref: Option<Ref>)
      requires Valid() && entry.path in entries && entries[entry.path] == entry
      modifies entry
      ensures Valid()
      ensures Value() == old(Value())[entry.path := Marked(old(entry.Value()), inSource, inTarget, ref)]
    {
      ghost var before := Value();
      entry.Set(inSource, inTarget, ref);
      forall other | other in entries ensures entries[other].Value() == before[entry.path := entry.Value()][other] {
        assert entries[other] == entry <==> other == entry.path;
      }
      assert Value() == before[entry.path := entry.Value()];
    }
  }

  lemma {:induction false} MarkedSource(d: DiffValue, path: Path)
    ensures d[path := Marked(Base(d, path), true, false, None)] == WithSources(d, {path})
  {
  }

  lemma {:induction false} WithMoreSources(d: DiffValue, a: set<Path>, b: set<Path>)
    ensures WithSources(WithSources(d, a), b) == WithSources(d, a + b)
  {
  }

  lemma {:induction false} WithOldSources(d: DiffValue, a: set<Path>)
    requires a <= InSources(d)
    ensures WithSources(d, a) == d
  {
    assert forall path :: path in a ==> path in d && d[path].inSource;
  }

  lemma {:induction false} SourcesWith(d: DiffValue, a: set<Path>)
    ensures InSources(WithSources(d, a)) == InSources(d) + a
  {
  }

  /** In the entries of a directory, from some entry on, a name leads where it leads in all of them. */
  ghost predicate Suffix(entries: Entries, rest: Entries) {
    && UniqueEntries(rest)
    && (forall name :: Child(rest, name).Some? ==> Child(entries, name) == Child(rest, name))
  }

  lemma {:induction false} SuffixRest(entries: Entries, rest: Entries)
    requires Suffix(entries, rest) && rest.Cons?
    ensures Suffix(entries, rest.rest) && Child(entries, rest.name) == Some(rest.node)
  {
    assert Child(rest, rest.name) == Some(rest.node);
    forall name | Child(rest.rest, name).Some? ensures Child(entries, name) == Child(rest.rest, name) {
      assert Child(rest, name) == Child(rest.rest, name);
    }
  }

  /** The entries up to rest were walked, and their files are those in done. */
  ghost predicate Walked(env: Env, dir: Path, rest: Entries, before: DiffValue, done: set<Path>, now: DiffValue) {
    && Suffix(EntriesAt(env.fs, dir), rest) && now == WithSources(before, done)
    && done + FilesIn(env, dir, rest) == FoundIn(env, dir)
  }

  lemma {:induction false} WalkedNext(
      env: Env, dir: Path, rest: Entries, before: DiffValue, done: set<Path>, now: DiffValue)
    requires rest.Cons? && Walked(env, dir, rest, before, done, now)
    ensures Child(EntriesAt(env.fs, dir), rest.name) == Some(rest.node)
    ensures var found := EntryFiles(env, dir, rest.name, rest.node);
            Walked(env, dir, rest.rest, before, done + found, WithSources(now, found))
  {
    SuffixRest(EntriesAt(env.fs, dir), rest);
    WithMoreSources(before, done, EntryFiles(env, dir, rest.name, rest.node));
  }

  lemma {:induction false} EntriesBelow(fs: Node, dir: Path, name: string, node: Node)
    requires Child(EntriesAt(fs, dir), name) == Some(node)
    ensures NodeAt(fs, dir + [name]) == Some(node)
  {
    NodeBelow(fs, dir, [name]);
    assert NodeAt(NodeAt(fs, dir).value, [name]) == NodeAt(node, [name][1..]);
  }

  class GroupDiffer {
    const env: Env   // what DirectoryLister lists and ignores
    var dirs: set<Path>
    const diff: Diff

    constructor (env: Env)
      ensures this.env == env && Valid() && dirs == {} && diff.Value() == map[]
      ensures fresh(diff) && diff.entries.Values == {}
    {
      this.env := env;
      dirs := {};
      diff := new Diff();
    }

    ghost predicate Valid()
      reads this, diff
    {
      diff.Valid()
    }

    /** All that lies below a directory was tracked, unless the directory is still being walked. */
    ghost predicate Explored(open: set<Path>)
      reads this, diff, diff.entries.Values
    {
      forall dir :: dir in dirs && dir !in open ==> FoundIn(env, dir) <= InSources(diff.Value())
    }

    /** find_fs_files */
    method FindFsFiles(dir: Path, entries: Entries, ghost open: set<Path>)
      requires Valid() && UniqueNames(env.fs) && entries == EntriesAt(env.fs, dir)
      requires Explored(open) && forall o :: o in open ==> |o| < |dir|
      modifies this, diff, diff.entries.Values
      ensures Valid() && fresh(diff.entries.Values - old(diff.entries.Values))
      ensures diff.Value() == WithSources(old(diff.Value()), FoundIn(env, dir))
      ensures Explored(open)
      decreases entries, 1
    {
      if dir in dirs {
        assert dir !in open;
        WithOldSources(diff.Value(), FoundIn(env, dir));
        return;
      }
      dirs := dirs + {dir};
      ghost var before := diff.Value();
      WalkEntries(dir, entries, open + {dir});
      SourcesWith(before, FoundIn(env, dir));
      assert FoundIn(env, dir) <= InSources(diff.Value());
    }

    method WalkEntries(dir: Path, entries: Entries, ghost open: set<Path>)
      requires Valid() && UniqueNames(env.fs) && entries == EntriesAt(env.fs, dir)
      requires Explored(open) && forall o :: o in open ==> |o| <= |dir|
      modifies this, diff, diff.entries.Values
      ensures Valid() && fresh(diff.entries.Values - old(diff.entries.Values))
      ensures diff.Value() == WithSources(old(diff.Value()), FoundIn(env, dir))
      ensures Explored(open)
      decreases entries, 0
    {
      ghost var before, done := diff.Value(), {};
      WithOldSources(before, {});
      if NodeAt(env.fs, dir).Some? {
        UniqueBelow(env.fs, dir);
      }
      var rest := entries;
      while rest.Cons?
        invariant Valid() && fresh(diff.entries.Values - old(diff.entries.Values))
        invariant (rest == entries || rest < entries) && Walked(env, dir, rest, before, done, diff.Value())
        invariant Explored(open)
        decreases rest
      {
        ghost var found := EntryFiles(env, dir, rest.name, rest.node);
        WalkedNext(env, dir, rest, before, done, diff.Value());
        WalkEntry(dir, rest.name, rest.node, open);
        done := done + found;
        rest := rest.rest;
      }
    }

    method WalkEntry(dir: Path, name: string, node: Node, ghost open: set<Path>)
      requires Valid() && UniqueNames(env.fs) && Child(EntriesAt(env.fs, dir), name) == Some(node)
      requires Explored(open) && forall o :: o in open ==> |o| <= |dir|
      modifies this, diff, diff.entries.Values
      ensures Valid() && fresh(diff.entries.Values - old(diff.entries.Values))
      ensures diff.Value() == WithSources(old(diff.Value()), EntryFiles(env, dir, name, node))
      ensures Explored(open)
      decreases node, 2
    {
      var here := dir + [name];
      if Ignored(env, here) {
        WithOldSources(diff.Value(), {});
        return;
      }
      if node.Directory? {
        EntriesBelow(env.fs, dir, name, node);
        FindFsFiles(here, node.entries, open);
      } else {
        MarkedSource(diff.Value(), here);
        SourcesWith(diff.Value(), {here});
        diff.Mark(here, true, false, None);
      }
    }
  
    /** The directories of the groups, then the references that they hold. */
    method DiffGroups(groupDirs: seq<Path>, grouped: seq<Ref>)
      requires Valid() && UniqueNames(env.fs) && dirs == {} && diff.Value() == map[]
      modifies this, diff, diff.entries.Values
      ensures Valid() && fresh(diff.entries.Values - old(diff.entries.Values))
      ensures diff.Value() == GroupDiff(env, Project([], grouped, groupDirs, []))
    {
      WithOldSources(map[], {});
      for i := 0 to |groupDirs|
        invariant Valid() && fresh(diff.entries.Values - old(diff.entries.Values))
        invariant diff.Value() == WithSources(map[], Found(env, groupDirs[..i]))
        invariant Explored({})
      {
        FindFsFiles(groupDirs[i], EntriesAt(env.fs, groupDirs[i]), {});
        WithMoreSources(map[], Found(env, groupDirs[..i]), FoundIn(env, groupDirs[i]));
        assert groupDirs[..i + 1][..i] == groupDirs[..i];
      }
      assert groupDirs[..|groupDirs|] == groupDirs;
      DiffFiles(groupDirs, grouped);
    }

    method DiffFiles(ghost groupDirs: seq<Path>, grouped: seq<Ref>)
      requires Valid() && diff.Value() == WithSources(map[], Found(env, groupDirs))
      modifies diff, diff.entries.Values
      ensures Valid() && fresh(diff.entries.Values - old(diff.entries.Values))
      ensures diff.Value() == GroupDiff(env, Project([], grouped, groupDirs, []))
    {
      NothingGrouped(env, groupDirs);
      for j := 0 to |grouped|
        invariant Valid() && fresh(diff.entries.Values - old(diff.entries.Values))
        invariant diff.Value() == GroupDiff(env, Project([], grouped[..j], groupDirs, []))
      {
        var ref := grouped[j];
        OneMoreRef(grouped, j);
        OneMoreGrouped(env, groupDirs, grouped[..j], ref, grouped[..j + 1], diff.Value());
        diff.Mark(ref.path, IsFile(env.fs, ref.path), true, Some(ref));
      }
      assert grouped[..|grouped|] == grouped;
    }
  }

  lemma {:induction false} NothingGrouped(env: Env, dirs: seq<Path>)
    ensures GroupDiff(env, Project([], [], dirs, [])) == WithSources(map[], Found(env, dirs))
  {
  }

  ghost predicate OneMore(grouped: seq<Ref>, ref: Ref, more: seq<Ref>) {
    && PathsOf(more) == PathsOf(grouped) + {ref.path}
    && (forall path :: LastRef(more, path) == if path == ref.path then Some(ref) else LastRef(grouped, path))
  }

  lemma {:induction false} OneMoreRef(refs: seq<Ref>, j: nat)
    requires j < |refs|
    ensures OneMore(refs[..j], refs[j], refs[..j + 1])
  {
    var ref, more := refs[j], refs[..j + 1];
    assert more[..|more| - 1] == refs[..j] && more[|more| - 1] == ref;
    assert more == refs[..j] + [ref];
    assert PathsOf(more) == PathsOf(refs[..j]) + {ref.path};
  }

  lemma {:induction false} OneMoreGrouped(
      env: Env, dirs: seq<Path>, grouped: seq<Ref>, ref: Ref, more: seq<Ref>, d: DiffValue)
    requires OneMore(grouped, ref, more) && d == GroupDiff(env, Project([], grouped, dirs, []))
    ensures d[ref.path := Marked(Base(d, ref.path), IsFile(env.fs, ref.path), true, Some(ref))] ==
            GroupDiff(env, Project([], more, dirs, []))
  {
  }

  function EntryFiles(env: Env, dir: Path, name: string, node: Node): set<Path> {
    if Ignored(env, dir + [name]) then {}
    else if node.File? then {dir + [name]}
    else FilesIn(env, dir + [name], node.entries)
  }
}
