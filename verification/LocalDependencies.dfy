/** Which podspecs of a directory a podspec depends on. */
module LocalDependencies {
  // As the pod lib lint script finds them: a depth-first search over a shared set of podspecs already
  // seen.

  import opened Sequences

  /** A spec names the pods it depends on, and may have subspecs. */
  datatype Spec = Spec(dependencies: seq<string>, subspecs: seq<Spec>)

  /** The podspec files of one directory. */
  type Directory = map<string, Spec>

  // ---------------------------------------------------------------- the edges

  /** load_specs: a spec and its direct subspecs, not the subspecs of those. */
  function Loaded(spec: Spec): seq<Spec> {
    [spec] + spec.subspecs
  }

  /** A dependency on a subspec is one on its pod. */
  function PodOf(dependency: string): string {
    if dependency == [] || dependency[0] == '/' then []
    else [dependency[0]] + PodOf(dependency[1..])
  }

  /** Each element once, in the order of the first occurrences. */
  function Distinct(s: seq<string>): seq<string> {
    if s == [] then []
    else
      var d, x := Distinct(s[..|s| - 1]), s[|s| - 1];
      if x in d then d else d + [x]
  }

  function Pods(dependencies: seq<string>): seq<string> {
    seq(|dependencies|, i requires 0 <= i < |dependencies| => PodOf(dependencies[i]))
  }

  function AllPods(specs: seq<Spec>): seq<string> {
    if specs == [] then []
    else AllPods(specs[..|specs| - 1]) + Pods(specs[|specs| - 1].dependencies)
  }

  function Podspec(pod: string): string {
    pod + ".podspec"
  }

  function Podspecs(pods: seq<string>): seq<string> {
    seq(|pods|, i requires 0 <= i < |pods| => Podspec(pods[i]))
  }

  /** The podspec file names that the specs of a file depend on, local or not. */
  function Targets(spec: Spec): seq<string> {
    Podspecs(Distinct(AllPods(Loaded(spec))))
  }

  lemma {:induction false} DistinctIsDistinct(s: seq<string>)
    ensures NoDuplicates(Distinct(s)) && Elements(Distinct(s)) == Elements(s)
  {
    if s != [] {
      var front, x := s[..|s| - 1], s[|s| - 1];
      DistinctIsDistinct(front);
      assert s == front + [x];
      assert forall y :: y in Distinct(front) <==> y in Elements(Distinct(front));
    }
  }

  /** Adding one element to an insertion-ordered set. */
  method AddTo(result: seq<string>, x: string) returns (added: seq<string>)
    ensures added == if x in result then result else result + [x]
  {
    added := result;
    if x !in added {
      added := added + [x];
    }
  }

  lemma {:induction false} DistinctNext(before: seq<string>, pods: seq<string>, j: nat)
    requires j < |pods|
    ensures Distinct(before + pods[..j + 1]) == var d := Distinct(before + pods[..j]);
                                                if pods[j] in d then d else d + [pods[j]]
  {
    var more := before + pods[..j + 1];
    assert more[..|more| - 1] == before + pods[..j];
  }

  method AddDependencies(result: seq<string>, dependencies: seq<string>, ghost before: seq<string>)
    returns (added: seq<string>)
    requires result == Distinct(before)
    ensures added == Distinct(before + Pods(dependencies))
  {
    added := result;
    ghost var pods := Pods(dependencies);
    assert before + pods[..0] == before;
    for j := 0 to |dependencies|
      invariant added == Distinct(before + pods[..j])
    {
      DistinctNext(before, pods, j);
      added := AddTo(added, PodOf(dependencies[j]));
    }
    assert pods[..|dependencies|] == pods;
  }

  method AllDeps(specs: seq<Spec>) returns (result: seq<string>)
    ensures result == Distinct(AllPods(specs))
    ensures NoDuplicates(result)
    ensures forall pod :: pod in result <==> pod in AllPods(specs)
  {
    result := [];
    for i := 0 to |specs|
      invariant result == Distinct(AllPods(specs[..i]))
    {
      assert specs[..i + 1][..i] == specs[..i];
      result := AddDependencies(result, specs[i].dependencies, AllPods(specs[..i]));
    }
    assert specs[..|specs|] == specs;
    DistinctIsDistinct(AllPods(specs));
    assert forall pod :: pod in result <==> pod in Elements(result);
  }

  // ---------------------------------------------------------------- paths

  const PODSPEC := ".podspec"

  /** The spec, or one of its direct subspecs, names the dependency. */
  ghost predicate DependsOn(spec: Spec, dependency: string) {
    || dependency in spec.dependencies
    || exists k :: 0 <= k < |spec.subspecs| && dependency in spec.subspecs[k].dependencies
  }

  /** The dependency is the pod of this file, or a subspec of it. */
  ghost predicate Names(dependency: string, file: string) {
    && |file| >= |PODSPEC| && file[|file| - |PODSPEC|..] == PODSPEC
    && var pod := file[..|file| - |PODSPEC|]; '/' !in pod && (dependency == pod || pod + "/" <= dependency)
  }

  ghost predicate Edge(dir: Directory, a: string, b: string) {
    a in dir && b in dir && exists dependency :: DependsOn(dir[a], dependency) && Names(dependency, b)
  }

  lemma {:induction false} PodOfExact(dependency: string, pod: string)
    ensures PodOf(dependency) == pod <==> '/' !in pod && (dependency == pod || pod + "/" <= dependency)
  {
    if dependency != [] && dependency[0] != '/' {
      if pod != [] {
        PodOfExact(dependency[1..], pod[1..]);
        assert pod == [pod[0]] + pod[1..] && dependency == [dependency[0]] + dependency[1..];
        assert pod + "/" == [pod[0]] + (pod[1..] + "/");
      }
    }
  }

  lemma {:induction false} NamesExact(dependency: string, file: string)
    ensures Names(dependency, file) <==> file == Podspec(PodOf(dependency))
  {
    var pod := PodOf(dependency);
    PodOfExact(dependency, pod);
    assert Podspec(pod)[..|pod|] == pod && Podspec(pod)[|pod|..] == PODSPEC;
    if |file| >= |PODSPEC| {
      var own := file[..|file| - |PODSPEC|];
      PodOfExact(dependency, own);
      assert file == own + file[|file| - |PODSPEC|..];
    }
  }

  lemma {:induction false} AllPodsExact(specs: seq<Spec>, pod: string)
    ensures pod in AllPods(specs) <==>
            exists i, j :: 0 <= i < |specs| && 0 <= j < |specs[i].dependencies|
                           && PodOf(specs[i].dependencies[j]) == pod
  {
    if specs != [] {
      var front, last := specs[..|specs| - 1], specs[|specs| - 1];
      AllPodsExact(front, pod);
      var pods := Pods(last.dependencies);
      assert forall j :: 0 <= j < |pods| ==> pods[j] == PodOf(last.dependencies[j]);
      assert forall i :: 0 <= i < |front| ==> front[i] == specs[i];
      assert pod in pods <==> exists j :: 0 <= j < |pods| && pods[j] == pod;
      if pod in pods {
        var j :| 0 <= j < |pods| && pods[j] == pod;
        assert PodOf(specs[|specs| - 1].dependencies[j]) == pod;
      }
    }
  }

  lemma {:induction false} PodsOf(spec: Spec, pod: string)
    ensures pod in Distinct(AllPods(Loaded(spec))) <==>
            exists dependency :: DependsOn(spec, dependency) && PodOf(dependency) == pod
  {
    var specs := Loaded(spec);
    DistinctIsDistinct(AllPods(specs));
    assert pod in Distinct(AllPods(specs)) <==> pod in Elements(AllPods(specs));
    AllPodsExact(specs, pod);
    if pod in AllPods(specs) {
      var i, j :| 0 <= i < |specs| && 0 <= j < |specs[i].dependencies| && PodOf(specs[i].dependencies[j]) == pod;
      assert i > 0 ==> specs[i] == spec.subspecs[i - 1];
      assert DependsOn(spec, specs[i].dependencies[j]);
    }
    if dependency :| DependsOn(spec, dependency) && PodOf(dependency) == pod {
      var i := LoadedFrom(spec, dependency);
      var j :| 0 <= j < |specs[i].dependencies| && specs[i].dependencies[j] == dependency;
      assert PodOf(specs[i].dependencies[j]) == pod;
    }
  }

  lemma {:induction false} TargetsExact(spec: Spec, file: string)
    ensures file in Targets(spec) <==> exists dependency :: DependsOn(spec, dependency) && Names(dependency, file)
  {
    var pods := Distinct(AllPods(Loaded(spec)));
    if file in Targets(spec) {
      var k :| 0 <= k < |pods| && file == Podspec(pods[k]);
      PodsOf(spec, pods[k]);
      var dependency :| DependsOn(spec, dependency) && PodOf(dependency) == pods[k];
      NamesExact(dependency, file);
    }
    if dependency :| DependsOn(spec, dependency) && Names(dependency, file) {
      NamesExact(dependency, file);
      PodsOf(spec, PodOf(dependency));
      var k :| 0 <= k < |pods| && pods[k] == PodOf(dependency);
      assert Podspecs(pods)[k] == file;
    }
  }

  lemma {:induction false} LoadedFrom(spec: Spec, dependency: string) returns (i: nat)
    requires DependsOn(spec, dependency)
    ensures i < |Loaded(spec)| && dependency in Loaded(spec)[i].dependencies
  {
    if dependency in spec.dependencies {
      i := 0;
    } else {
      var k :| 0 <= k < |spec.subspecs| && dependency in spec.subspecs[k].dependencies;
      i := k + 1;
    }
  }

  /** The edges of the data are the steps of the search. */
  lemma {:induction false} EdgeExact(dir: Directory, a: string, b: string)
    requires a in dir && b in dir
    ensures Edge(dir, a, b) <==> b in Targets(dir[a])
  {
    TargetsExact(dir[a], b);
  }

  /** A path of local podspecs; every step leads to one that is not avoided. */
  ghost predicate Path(dir: Directory, avoid: set<string>, path: seq<string>)
    decreases |path|
  {
    path != [] && (|path| == 1 || (Edge(dir, path[0], path[1]) && path[1] !in avoid && Path(dir, avoid, path[1..])))
  }

  ghost predicate PathTo(dir: Directory, from: string, to: string, avoid: set<string>, path: seq<string>) {
    |path| > 1 && path[0] == from && path[|path| - 1] == to && Path(dir, avoid, path)
  }

  ghost predicate Reaches(dir: Directory, from: string, to: string, avoid: set<string>) {
    exists path :: PathTo(dir, from, to, avoid, path)
  }

  lemma {:induction false} PathAvoidsLess(dir: Directory, avoid: set<string>, less: set<string>, path: seq<string>)
    requires Path(dir, avoid, path) && less <= avoid
    ensures Path(dir, less, path)
    decreases |path|
  {
    if |path| > 1 {
      PathAvoidsLess(dir, avoid, less, path[1..]);
    }
  }

  lemma {:induction false} ReachesByEdge(dir: Directory, from: string, to: string, avoid: set<string>)
    requires Edge(dir, from, to) && to !in avoid
    ensures Reaches(dir, from, to, avoid)
  {
    assert PathTo(dir, from, to, avoid, [from, to]);
  }

  lemma {:induction false} ReachesThrough(dir: Directory, from: string, via: string, to: string,
                                          avoid: set<string>, more: set<string>)
    requires Edge(dir, from, via) && via !in avoid && avoid <= more && Reaches(dir, via, to, more)
    ensures Reaches(dir, from, to, avoid)
  {
    var path :| PathTo(dir, via, to, more, path);
    PathAvoidsLess(dir, more, avoid, path);
    assert ([from] + path)[1..] == path;
    assert PathTo(dir, from, to, avoid, [from] + path);
  }

  /** A set with an edge only into itself or into what is avoided holds all that a path reaches. */
  lemma {:induction false} ClosedHolds(dir: Directory, avoid: set<string>, inside: set<string>, path: seq<string>)
    requires path != [] && path[0] in inside && Path(dir, avoid, path)
    requires forall a, b :: a in inside && Edge(dir, a, b) ==> b in inside || b in avoid
    ensures path[|path| - 1] in inside
    decreases |path|
  {
    if |path| > 1 {
      ClosedHolds(dir, avoid, inside, path[1..]);
    }
  }

  // ---------------------------------------------------------------- the search

  /** The podspecs found from one file, in the order in which they are found. */
  function Search(dir: Directory, podspec: string, seen: set<string>): seq<string>
    requires podspec in dir
    decreases dir.Keys - seen, 1, 0
  {
    assert dir.Keys - (seen + {podspec}) <= dir.Keys - seen;
    assert dir.Keys - (seen + {podspec}) == dir.Keys - seen || dir.Keys - (seen + {podspec}) < dir.Keys - seen;
    SearchAll(dir, Targets(dir[podspec]), seen + {podspec})
  }

  function SearchAll(dir: Directory, targets: seq<string>, seen: set<string>): seq<string>
    decreases dir.Keys - seen, 0, |targets|
  {
    if targets == [] then []
    else
      var d := targets[0];
      if d in dir && d !in seen then
        assert d in dir.Keys - seen;
        var below := Search(dir, d, seen + {d});
        [d] + below + SearchAll(dir, targets[1..], seen + {d} + Elements(below))
      else SearchAll(dir, targets[1..], seen)
  }

  /** What one search establishes: everything found is new, local and found once. */
  ghost predicate Fresh(dir: Directory, found: seq<string>, seen: set<string>) {
    NoDuplicates(found) && (forall x :: x in found ==> x in dir && x !in seen)
  }

  /** All the edges from these lead to what has been seen. */
  ghost predicate Closed(dir: Directory, from: set<string>, seen: set<string>) {
    forall a, b :: a in from && Edge(dir, a, b) ==> b in seen
  }

  lemma {:induction false} SearchIsFresh(dir: Directory, podspec: string, seen: set<string>)
    requires podspec in dir
    ensures Fresh(dir, Search(dir, podspec, seen), seen + {podspec})
    decreases dir.Keys - seen, 1, 0
  {
    assert dir.Keys - (seen + {podspec}) == dir.Keys - seen || dir.Keys - (seen + {podspec}) < dir.Keys - seen;
    SearchAllIsFresh(dir, Targets(dir[podspec]), seen + {podspec});
  }

  lemma {:induction false} SearchAllIsFresh(dir: Directory, targets: seq<string>, seen: set<string>)
    ensures Fresh(dir, SearchAll(dir, targets, seen), seen)
    decreases dir.Keys - seen, 0, |targets|
  {
    if targets != [] {
      var d := targets[0];
      if d in dir && d !in seen {
        assert d in dir.Keys - seen;
        var below := Search(dir, d, seen + {d});
        SearchIsFresh(dir, d, seen + {d});
        SearchAllIsFresh(dir, targets[1..], seen + {d} + Elements(below));
        FreshJoin(dir, d, below, SearchAll(dir, targets[1..], seen + {d} + Elements(below)), seen);
      } else {
        SearchAllIsFresh(dir, targets[1..], seen);
      }
    }
  }

  lemma {:induction false} FreshJoin(
      dir: Directory, d: string, below: seq<string>, after: seq<string>, seen: set<string>)
    requires d in dir && d !in seen
    requires Fresh(dir, below, seen + {d}) && Fresh(dir, after, seen + {d} + Elements(below))
    ensures Fresh(dir, [d] + below + after, seen)
  {
    var found := [d] + below + after;
    forall i, j | 0 <= i < j < |found| ensures found[i] != found[j] {
      if j > |below| {
        assert found[j] in after && found[j] !in seen + {d} + Elements(below);
        assert i <= |below| ==> found[i] == d || found[i] in below;
      } else {
        assert found[j] in below && found[j] !in seen + {d};
      }
    }
  }

  lemma {:induction false} SearchIsClosed(dir: Directory, podspec: string, seen: set<string>)
    requires podspec in dir
    ensures var found := Elements(Search(dir, podspec, seen));
            Closed(dir, found + {podspec}, found + seen + {podspec})
    decreases dir.Keys - seen, 1, 0
  {
    assert dir.Keys - (seen + {podspec}) == dir.Keys - seen || dir.Keys - (seen + {podspec}) < dir.Keys - seen;
    SearchAllIsClosed(dir, Targets(dir[podspec]), seen + {podspec});
    forall b | Edge(dir, podspec, b) ensures b in Targets(dir[podspec]) { EdgeExact(dir, podspec, b); }
  }

  lemma {:induction false} SearchAllIsClosed(dir: Directory, targets: seq<string>, seen: set<string>)
    ensures var found := Elements(SearchAll(dir, targets, seen));
            && Closed(dir, found, found + seen)
            && (forall b :: b in targets && b in dir ==> b in found + seen)
    decreases dir.Keys - seen, 0, |targets|
  {
    if targets != [] {
      var d := targets[0];
      if d in dir && d !in seen {
        assert d in dir.Keys - seen;
        var below := Search(dir, d, seen + {d});
        var after := SearchAll(dir, targets[1..], seen + {d} + Elements(below));
        SearchIsClosed(dir, d, seen + {d});
        SearchAllIsClosed(dir, targets[1..], seen + {d} + Elements(below));
        assert Elements([d] + below + after) == {d} + Elements(below) + Elements(after);
      } else {
        SearchAllIsClosed(dir, targets[1..], seen);
      }
    }
  }

  lemma {:induction false} SearchReaches(dir: Directory, podspec: string, seen: set<string>, x: string)
    requires podspec in dir && x in Search(dir, podspec, seen)
    ensures Reaches(dir, podspec, x, seen + {podspec})
    decreases dir.Keys - seen, 1, 0
  {
    assert dir.Keys - (seen + {podspec}) == dir.Keys - seen || dir.Keys - (seen + {podspec}) < dir.Keys - seen;
    SearchAllReaches(dir, podspec, Targets(dir[podspec]), seen + {podspec}, x);
  }

  lemma {:induction false} SearchAllReaches(dir: Directory, podspec: string, targets: seq<string>, seen: set<string>,
                                            x: string)
    requires podspec in dir && x in SearchAll(dir, targets, seen)
    requires forall b :: b in targets ==> b in Targets(dir[podspec])
    ensures Reaches(dir, podspec, x, seen)
    decreases dir.Keys - seen, 0, |targets|
  {
    var d := targets[0];
    if d in dir && d !in seen {
      assert d in dir.Keys - seen;
      var below := Search(dir, d, seen + {d});
      var later := seen + {d} + Elements(below);
      EdgeExact(dir, podspec, d);
      if x == d {
        ReachesByEdge(dir, podspec, d, seen);
      } else if x in below {
        SearchReaches(dir, d, seen + {d}, x);
        assert seen + {d} + {d} == seen + {d};
        ReachesThrough(dir, podspec, d, x, seen, seen + {d});
      } else {
        SearchAllReaches(dir, podspec, targets[1..], later, x);
        ReachesAvoidsLess(dir, podspec, x, later, seen);
      }
    } else {
      SearchAllReaches(dir, podspec, targets[1..], seen, x);
    }
  }

  lemma {:induction false} ReachesAvoidsLess(
      dir: Directory, from: string, to: string, avoid: set<string>, less: set<string>)
    requires Reaches(dir, from, to, avoid) && less <= avoid
    ensures Reaches(dir, from, to, less)
  {
    var path :| PathTo(dir, from, to, avoid, path);
    PathAvoidsLess(dir, avoid, less, path);
    assert PathTo(dir, from, to, less, path);
  }

  /** The search finds, once each, exactly the podspecs reached by paths that avoid the root and
      what had been seen before. */
  lemma {:induction false} SearchExact(dir: Directory, podspec: string, seen: set<string>)
    requires podspec in dir
    ensures NoDuplicates(Search(dir, podspec, seen))
    ensures forall x :: x in Search(dir, podspec, seen) <==> Reaches(dir, podspec, x, seen + {podspec})
  {
    SearchIsFresh(dir, podspec, seen);
    SearchIsClosed(dir, podspec, seen);
    var found := Search(dir, podspec, seen);
    forall x | x in found ensures Reaches(dir, podspec, x, seen + {podspec}) {
      SearchReaches(dir, podspec, seen, x);
    }
    forall x | Reaches(dir, podspec, x, seen + {podspec}) ensures x in found {
      var path :| PathTo(dir, podspec, x, seen + {podspec}, path);
      ClosedHolds(dir, seen + {podspec}, Elements(found) + {podspec}, path);
      LastIsNotAvoided(dir, seen + {podspec}, path);
    }
  }

  lemma {:induction false} LastIsNotAvoided(dir: Directory, avoid: set<string>, path: seq<string>)
    requires |path| > 1 && Path(dir, avoid, path)
    ensures path[|path| - 1] !in avoid
    decreases |path|
  {
    if |path| > 2 {
      LastIsNotAvoided(dir, avoid, path[1..]);
    }
  }

  /** Every podspec that is found comes after one that depends on it, or the root does. */
  ghost predicate ParentsFirst(dir: Directory, podspec: string, found: seq<string>) {
    forall i :: 0 <= i < |found| ==> Edge(dir, podspec, found[i]) || HasParent(dir, found, i)
  }

  ghost predicate HasParent(dir: Directory, found: seq<string>, i: nat)
    requires i < |found|
  {
    exists j :: 0 <= j < i && Edge(dir, found[j], found[i])
  }

  lemma {:induction false} SearchOrder(dir: Directory, podspec: string, seen: set<string>)
    requires podspec in dir
    ensures ParentsFirst(dir, podspec, Search(dir, podspec, seen))
    decreases dir.Keys - seen, 1, 0
  {
    assert dir.Keys - (seen + {podspec}) == dir.Keys - seen || dir.Keys - (seen + {podspec}) < dir.Keys - seen;
    SearchAllOrder(dir, podspec, Targets(dir[podspec]), seen + {podspec});
  }

  lemma {:induction false} SearchAllOrder(dir: Directory, podspec: string, targets: seq<string>, seen: set<string>)
    requires podspec in dir && forall b :: b in targets ==> b in Targets(dir[podspec])
    ensures ParentsFirst(dir, podspec, SearchAll(dir, targets, seen))
    decreases dir.Keys - seen, 0, |targets|
  {
    if targets != [] {
      var d := targets[0];
      if d in dir && d !in seen {
        assert d in dir.Keys - seen;
        var below := Search(dir, d, seen + {d});
        var after := SearchAll(dir, targets[1..], seen + {d} + Elements(below));
        EdgeExact(dir, podspec, d);
        SearchOrder(dir, d, seen + {d});
        SearchAllOrder(dir, podspec, targets[1..], seen + {d} + Elements(below));
        OrderJoined(dir, podspec, d, below, after);
      } else {
        SearchAllOrder(dir, podspec, targets[1..], seen);
      }
    }
  }

  lemma {:induction false} OrderJoined(
      dir: Directory, podspec: string, d: string, below: seq<string>, after: seq<string>)
    requires Edge(dir, podspec, d) && ParentsFirst(dir, d, below) && ParentsFirst(dir, podspec, after)
    ensures ParentsFirst(dir, podspec, [d] + below + after)
  {
    var found, n := [d] + below + after, |below| + 1;
    assert found[1..n] == below && found[n..] == after;
    forall i: nat | i < |found| && !Edge(dir, podspec, found[i]) ensures HasParent(dir, found, i) {
      assert found[0] == d;
      if i < n {
        OrderBelow(dir, d, below, found, i - 1);
      } else {
        ParentMoves(dir, after, i - n, found, n);
      }
    }
  }

  lemma {:induction false} OrderBelow(dir: Directory, d: string, below: seq<string>, found: seq<string>, i: nat)
    requires i < |below| && |below| < |found| && found[0] == d && found[1..1 + |below|] == below
    requires ParentsFirst(dir, d, below)
    ensures HasParent(dir, found, i + 1)
  {
    assert found[i + 1] == found[1..1 + |below|][i];
    if Edge(dir, d, below[i]) {
      assert Edge(dir, found[0], found[i + 1]);
    } else {
      ParentMoves(dir, below, i, found, 1);
    }
  }

  lemma {:induction false} ParentMoves(dir: Directory, part: seq<string>, i: nat, found: seq<string>, n: nat)
    requires i < |part| && HasParent(dir, part, i)
    requires n + |part| <= |found| && found[n..n + |part|] == part
    ensures HasParent(dir, found, n + i)
  {
    var j :| 0 <= j < i && Edge(dir, part[j], part[i]);
    assert found[n + j] == found[n..n + |part|][j] && found[n + i] == found[n..n + |part|][i];
  }

  ghost predicate SameEdges(dir: Directory, other: Directory) {
    dir.Keys == other.Keys && forall a, b :: Edge(dir, a, b) <==> Edge(other, a, b)
  }

  /** The order in which the dependencies are listed, and how often, does not change what is found. */
  lemma {:induction false} OrderDoesNotMatter(dir: Directory, other: Directory, podspec: string, seen: set<string>)
    requires podspec in dir && SameEdges(dir, other)
    ensures Elements(Search(dir, podspec, seen)) == Elements(Search(other, podspec, seen))
    ensures |Search(dir, podspec, seen)| == |Search(other, podspec, seen)|
  {
    var s, t := Search(dir, podspec, seen), Search(other, podspec, seen);
    SearchExact(dir, podspec, seen);
    SearchExact(other, podspec, seen);
    forall x ensures x in s <==> x in t {
      if x in s {
        SameReaches(dir, other, podspec, x, seen + {podspec});
      }
      if x in t {
        SameReaches(other, dir, podspec, x, seen + {podspec});
      }
    }
    CountsElements(s);
    CountsElements(t);
  }

  lemma {:induction false} SameReaches(dir: Directory, other: Directory, from: string, to: string, avoid: set<string>)
    requires SameEdges(dir, other) && Reaches(dir, from, to, avoid)
    ensures Reaches(other, from, to, avoid)
  {
    var path :| PathTo(dir, from, to, avoid, path);
    SamePath(dir, other, avoid, path);
    assert PathTo(other, from, to, avoid, path);
  }

  lemma {:induction false} SamePath(dir: Directory, other: Directory, avoid: set<string>, path: seq<string>)
    requires SameEdges(dir, other) && Path(dir, avoid, path)
    ensures Path(other, avoid, path)
    decreases |path|
  {
    if |path| > 1 {
      SamePath(dir, other, avoid, path[1..]);
    }
  }

  lemma {:induction false} CountsElements(s: seq<string>)
    requires NoDuplicates(s)
    ensures |s| == |Elements(s)|
  {
    if s != [] {
      var front, x := s[..|s| - 1], s[|s| - 1];
      CountsElements(front);
      assert s == front + [x];
      assert x !in front;
      assert Elements(s) == Elements(front) + {x};
    }
  }

  // ---------------------------------------------------------------- the script

  /** The set shared by all the recursive calls. */
  class Seen {
    var podspecs: set<string>

    constructor (ignored: set<string>)
      ensures podspecs == ignored
    {
      podspecs := ignored;
    }

    method Add(podspec: string) returns (added: bool)
      modifies this
      ensures podspecs == old(podspecs) + {podspec}
      ensures added <==> podspec !in old(podspecs)
    {
      added := podspec !in podspecs;
      podspecs := podspecs + {podspec};
    }
  }

  function SearchOne(dir: Directory, target: string, seen: set<string>): seq<string> {
    if target in dir && target !in seen then [target] + Search(dir, target, seen + {target}) else []
  }

  lemma {:induction false} SearchNext(dir: Directory, targets: seq<string>, i: nat, seen: set<string>)
    requires i < |targets|
    ensures var found := SearchOne(dir, targets[i], seen);
            SearchAll(dir, targets[i..], seen) == found + SearchAll(dir, targets[i + 1..], seen + Elements(found))
  {
    assert targets[i..][1..] == targets[i + 1..];
    var found := SearchOne(dir, targets[i], seen);
    if found == [] {
      assert seen + Elements(found) == seen;
    } else {
      assert Elements(found) == {targets[i]} + Elements(found[1..]);
      assert seen + Elements(found) == seen + {targets[i]} + Elements(found[1..]);
    }
  }

  /** find_local_deps: what is found is also what is added to the shared set, beside the root. */
  method FindLocalDeps(dir: Directory, podspec: string, seen: Seen) returns (results: seq<string>)
    requires podspec in dir
    modifies seen
    ensures results == Search(dir, podspec, old(seen.podspecs))
    ensures seen.podspecs == old(seen.podspecs) + {podspec} + Elements(results)
    ensures NoDuplicates(results)
    ensures forall x :: x in results <==> Reaches(dir, podspec, x, old(seen.podspecs) + {podspec})
    ensures ParentsFirst(dir, podspec, results)
    decreases dir.Keys - seen.podspecs, 1
  {
    var _ := seen.Add(podspec);
    assert dir.Keys - seen.podspecs == dir.Keys - old(seen.podspecs)
        || dir.Keys - seen.podspecs < dir.Keys - old(seen.podspecs);
    var deps := AllDeps(Loaded(dir[podspec]));
    results := FollowDeps(dir, deps, seen);
    SearchExact(dir, podspec, old(seen.podspecs));
    SearchOrder(dir, podspec, old(seen.podspecs));
  }

  /** After the first i targets: what was found, and what the others will add to it. */
  ghost predicate Followed(dir: Directory, targets: seq<string>, before: set<string>, i: nat, results: seq<string>,
                           seen: set<string>)
    requires i <= |targets|
  {
    && seen == before + Elements(results)
    && results + SearchAll(dir, targets[i..], seen) == SearchAll(dir, targets, before)
  }

  lemma {:induction false} FollowedNext(
      dir: Directory, targets: seq<string>, before: set<string>, i: nat, results: seq<string>,
      seen: set<string>, found: seq<string>)
    requires i < |targets| && Followed(dir, targets, before, i, results, seen)
      && found == SearchOne(dir, targets[i], seen)
    ensures Followed(dir, targets, before, i + 1, results + found, seen + Elements(found))
  {
    SearchNext(dir, targets, i, seen);
    assert Elements(results + found) == Elements(results) + Elements(found);
  }

  lemma {:induction false} FollowedAll(dir: Directory, targets: seq<string>, before: set<string>, results: seq<string>,
                                       seen: set<string>)
    requires Followed(dir, targets, before, |targets|, results, seen)
    ensures results == SearchAll(dir, targets, before) && seen == before + Elements(results)
  {
    assert targets[|targets|..] == [];
  }

  method FollowDeps(dir: Directory, deps: seq<string>, seen: Seen) returns (results: seq<string>)
    modifies seen
    ensures results == SearchAll(dir, Podspecs(deps), old(seen.podspecs))
    ensures seen.podspecs == old(seen.podspecs) + Elements(results)
    decreases dir.Keys - seen.podspecs, 0, 1
  {
    ghost var targets, before := Podspecs(deps), seen.podspecs;
    results := [];
    for i := 0 to |deps|
      invariant before <= seen.podspecs && Followed(dir, targets, before, i, results, seen.podspecs)
    {
      ghost var was := seen.podspecs;
      var found := FollowDep(dir, Podspec(deps[i]), seen);
      FollowedNext(dir, targets, before, i, results, was, found);
      results := results + found;
    }
    FollowedAll(dir, targets, before, results, seen.podspecs);
  }

  method FollowDep(dir: Directory, dep: string, seen: Seen) returns (results: seq<string>)
    modifies seen
    ensures results == SearchOne(dir, dep, old(seen.podspecs))
    ensures seen.podspecs == old(seen.podspecs) + Elements(results)
    decreases dir.Keys - seen.podspecs, 0, 0
  {
    results := [];
    if dep in dir {
      var added := seen.Add(dep);
      if added {
        assert dep in dir.Keys - old(seen.podspecs);
        var found := FindLocalDeps(dir, dep, seen);
        results := [dep] + found;
      }
    }
  }
}
