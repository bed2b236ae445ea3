/** The order in which crates are published: passes over the packages, each taking those whose dependencies are all out. */
module CrateOrder {
  import opened Arithmetic

  /** A package and its dependencies, some of which may be outside the workspace. */
  datatype Package = Package(name: string, dependencies: seq<string>)

  /** The dictionary of packages, in insertion order; names are unique. */
  type Graph = seq<Package>

  datatype Outcome = Ordered(names: seq<string>) | DirectCycle | SuspectedCycle(left: seq<string>)

  function Names(graph: Graph): (names: seq<string>)
    ensures |names| == |graph|
    ensures forall i :: 0 <= i < |graph| ==> names[i] == graph[i].name
  {
    seq(|graph|, i requires 0 <= i < |graph| => graph[i].name)
  }

  ghost predicate UniqueNames(graph: Graph) {
    NoDuplicates(Names(graph))
  }

  /** `y` is a dependency of `x`, and both are in the workspace. */
  ghost predicate Edge(graph: Graph, x: string, y: string) {
    y in Names(graph) && exists i :: 0 <= i < |graph| && graph[i].name == x && y in graph[i].dependencies
  }

  ghost predicate Link(graph: Graph, walk: seq<string>, i: int) {
    0 <= i < |walk| - 1 ==> Edge(graph, walk[i], walk[i + 1])
  }

  ghost predicate Walk(graph: Graph, walk: seq<string>) {
    forall i :: Link(graph, walk, i)
  }

  /** A walk of at least one edge that comes back to where it started. */
  ghost predicate Cycle(graph: Graph, walk: seq<string>) {
    |walk| >= 2 && Walk(graph, walk) && walk[0] == walk[|walk| - 1]
  }

  ghost predicate Acyclic(graph: Graph) {
    forall walk :: !Cycle(graph, walk)
  }

  /** Every in-workspace dependency of a listed package is listed strictly before it. */
  ghost predicate DependenciesFirst(graph: Graph, names: seq<string>) {
    forall i, y :: 0 <= i < |names| && Edge(graph, names[i], y) ==> y in names[..i]
  }

  // ---------------------------------------------------------------------------------------------
  // Graphs

  ghost predicate HasNext(graph: Graph, s: set<string>, x: string) {
    exists y :: y in s && Edge(graph, x, y)
  }

  ghost predicate Stuck(graph: Graph, s: set<string>) {
    forall x {:trigger HasNext(graph, s, x)} :: x in s ==> HasNext(graph, s, x)
  }

  lemma ExtendWalk(graph: Graph, x: string, rest: seq<string>)
    requires rest != [] && Edge(graph, x, rest[0]) && Walk(graph, rest)
    ensures Walk(graph, [x] + rest)
  {
    var walk := [x] + rest;
    forall i ensures Link(graph, walk, i) {
      if 0 < i < |walk| - 1 {
        assert Link(graph, rest, i - 1);
      }
    }
  }

  lemma PartOfWalk(graph: Graph, walk: seq<string>, i: nat, j: nat)
    requires Walk(graph, walk) && i < j < |walk| && walk[i] == walk[j]
    ensures Cycle(graph, walk[i..j + 1])
  {
    var loop := walk[i..j + 1];
    forall k ensures Link(graph, loop, k) {
      assert Link(graph, walk, i + k);
    }
  }

  lemma {:induction false} LongWalk(graph: Graph, s: set<string>, x: string, n: nat) returns (walk: seq<string>)
    requires Stuck(graph, s) && x in s
    ensures |walk| == n + 1 && walk[0] == x && Walk(graph, walk) && forall i :: 0 <= i < |walk| ==> walk[i] in s
    decreases n
  {
    if n == 0 {
      walk := [x];
    } else {
      assert HasNext(graph, s, x);
      var y :| y in s && Edge(graph, x, y);
      var rest := LongWalk(graph, s, y, n - 1);
      walk := [x] + rest;
      ExtendWalk(graph, x, rest);
    }
  }

  /** If every package of a non-empty set depends on another one of it, there is a cycle. */
  lemma StuckHasCycle(graph: Graph, s: set<string>)
    requires s != {} && Stuck(graph, s)
    ensures !Acyclic(graph)
  {
    var x :| x in s;
    var walk := LongWalk(graph, s, x, |s|);
    var i, j := Pigeonhole(walk, s);
    PartOfWalk(graph, walk, i, j);
  }

  /** A listing with all dependencies first leaves no room for a cycle. */
  lemma OrderedIsAcyclic(graph: Graph, names: seq<string>)
    requires UniqueNames(graph) && multiset(names) == multiset(Names(graph)) && DependenciesFirst(graph, names)
    ensures Acyclic(graph)
  {
    forall walk ensures !Cycle(graph, walk) {
      if Cycle(graph, walk) {
        SameElements(names, Names(graph));
        assert Link(graph, walk, 0);
        EdgeStart(graph, walk[0], walk[1]);
        var first :| 0 <= first < |names| && names[first] == walk[0];
        var last := WalkGoesBack(graph, names, walk, first, |walk| - 1);
        NoRepeats(graph, names);
      }
    }
  }

  lemma EdgeStart(graph: Graph, x: string, y: string)
    requires Edge(graph, x, y)
    ensures x in Names(graph)
  {
    var i :| 0 <= i < |graph| && graph[i].name == x && y in graph[i].dependencies;
    assert Names(graph)[i] == x;
  }

  lemma SameElements(a: seq<string>, b: seq<string>)
    requires multiset(a) == multiset(b)
    ensures forall x :: x in a <==> x in b
  {
    forall x ensures x in a <==> x in b {
      assert x in a <==> x in multiset(a);
      assert x in b <==> x in multiset(b);
    }
  }

  lemma NoRepeats(graph: Graph, names: seq<string>)
    requires UniqueNames(graph) && multiset(names) == multiset(Names(graph))
    ensures NoDuplicates(names)
  {
    forall i, j | 0 <= i < j < |names| ensures names[i] != names[j] {
      UniqueMultiplicity(Names(graph), names[i]);
      if names[i] == names[j] {
        TwiceIn(names, i, j);
      }
    }
  }

  lemma TwiceIn(names: seq<string>, i: nat, j: nat)
    requires i < j < |names| && names[i] == names[j]
    ensures multiset(names)[names[i]] >= 2
  {
    assert names == names[..j] + [names[j]] + names[j + 1..];
    assert names[..j][i] == names[j];
    assert names[j] in multiset(names[..j]);
  }

  lemma {:induction false} UniqueMultiplicity(names: seq<string>, x: string)
    requires NoDuplicates(names)
    ensures multiset(names)[x] <= 1
  {
    if names != [] {
      UniqueMultiplicity(names[1..], x);
      assert names == [names[0]] + names[1..];
      if names[0] == x {
        assert x !in names[1..];
      }
    }
  }

  /** Following `n` edges from position `first` leads to a smaller position. */
  lemma {:induction false} WalkGoesBack(graph: Graph, names: seq<string>, walk: seq<string>, first: nat, n: nat)
    returns (last: nat)
    requires DependenciesFirst(graph, names) && Walk(graph, walk) && 0 < n < |walk|
    requires first < |names| && names[first] == walk[0]
    ensures last < first && names[last] == walk[n]
    decreases n
  {
    if n == 1 {
      assert Link(graph, walk, 0);
      last :| 0 <= last < first && names[last] == walk[1];
    } else {
      var middle := WalkGoesBack(graph, names, walk, first, n - 1);
      assert Link(graph, walk, n - 1);
      last :| 0 <= last < middle && names[last] == walk[n];
    }
  }

  // ---------------------------------------------------------------------------------------------
  // The direct check

  method Find(graph: Graph, name: string) returns (i: nat)
    ensures i <= |graph|
    ensures i < |graph| ==> graph[i].name == name
    ensures i == |graph| ==> name !in Names(graph)
  {
    i := 0;
    while i < |graph|
      invariant 0 <= i <= |graph| && forall k :: 0 <= k < i ==> graph[k].name != name
    {
      if graph[i].name == name {
        return;
      }
      i := i + 1;
    }
  }

  /** Two packages that depend on each other, or one that depends on itself. */
  ghost predicate Mutual(graph: Graph, x: string, y: string) {
    Edge(graph, x, y) && Edge(graph, y, x)
  }

  /** The dependency of package `i` in place `j` is a package that depends on package `i`. */
  ghost predicate MutualAt(graph: Graph, i: nat, j: nat)
    requires i < |graph| && j < |graph[i].dependencies|
  {
    exists k :: 0 <= k < |graph| && graph[k].name == graph[i].dependencies[j] && graph[i].name in graph[k].dependencies
  }

  lemma MutualAtIsMutual(graph: Graph, i: nat, j: nat)
    requires i < |graph| && j < |graph[i].dependencies| && MutualAt(graph, i, j)
    ensures Mutual(graph, graph[i].name, graph[i].dependencies[j]) && !Acyclic(graph)
  {
    var x, y := graph[i].name, graph[i].dependencies[j];
    var k :| 0 <= k < |graph| && graph[k].name == y && x in graph[k].dependencies;
    assert Names(graph)[i] == x && Names(graph)[k] == y;
    assert Edge(graph, x, y) && Edge(graph, y, x);
    var walk := [x, y, x];
    forall n ensures Link(graph, walk, n) {}
    assert Cycle(graph, walk);
  }

  lemma MutualIsMutualAt(graph: Graph, x: string, y: string)
    requires Mutual(graph, x, y)
    ensures exists i, j :: 0 <= i < |graph| && 0 <= j < |graph[i].dependencies| && MutualAt(graph, i, j)
  {
    var i :| 0 <= i < |graph| && graph[i].name == x && y in graph[i].dependencies;
    var j :| 0 <= j < |graph[i].dependencies| && graph[i].dependencies[j] == y;
    var k :| 0 <= k < |graph| && graph[k].name == y && x in graph[k].dependencies;
    assert MutualAt(graph, i, j);
  }

  method HasDirectCycle(graph: Graph) returns (found: bool)
    requires UniqueNames(graph)
    ensures found <==> exists x, y :: Mutual(graph, x, y)
    ensures found ==> !Acyclic(graph)
  {
    for i := 0 to |graph|
      invariant forall a, c :: 0 <= a < i && 0 <= c < |graph[a].dependencies| ==> !MutualAt(graph, a, c)
    {
      for j := 0 to |graph[i].dependencies|
        invariant forall c :: 0 <= c < j ==> !MutualAt(graph, i, c)
      {
        var k := Find(graph, graph[i].dependencies[j]);
        if k < |graph| && graph[i].name in graph[k].dependencies {
          assert MutualAt(graph, i, j);
          MutualAtIsMutual(graph, i, j);
          return true;
        }
        OnlyOne(graph, i, j, k);
      }
    }
    forall x, y ensures !Mutual(graph, x, y) {
      if Mutual(graph, x, y) {
        MutualIsMutualAt(graph, x, y);
      }
    }
    found := false;
  }

  lemma OnlyOne(graph: Graph, i: nat, j: nat, k: nat)
    requires UniqueNames(graph) && i < |graph| && j < |graph[i].dependencies| && k <= |graph|
    requires if k < |graph| then graph[k].name == graph[i].dependencies[j] && graph[i].name !in graph[k].dependencies
             else graph[i].dependencies[j] !in Names(graph)
    ensures !MutualAt(graph, i, j)
  {
    forall n | 0 <= n < |graph| && Names(graph)[n] == graph[i].dependencies[j] ensures n == k {
    }
  }

  // ---------------------------------------------------------------------------------------------
  // The passes

  predicate Ready(remaining: Graph, p: Package) {
    forall y :: y in p.dependencies ==> y !in Names(remaining)
  }

  method IsReady(remaining: Graph, p: Package) returns (ready: bool)
    ensures ready == Ready(remaining, p)
  {
    for j := 0 to |p.dependencies|
      invariant forall k :: 0 <= k < j ==> p.dependencies[k] !in Names(remaining)
    {
      var k := Find(remaining, p.dependencies[j]);
      if k < |remaining| {
        var y := p.dependencies[j];
        assert y in p.dependencies && Names(remaining)[k] == y;
        assert y in Names(remaining);
        return false;
      }
    }
    ready := true;
  }

  function Last(from: Graph): Package
    requires from != []
  {
    from[|from| - 1]
  }

  /** The names of one pass that can go out. */
  function Takes(remaining: Graph, from: Graph): seq<string> {
    if from == [] then []
    else Takes(remaining, from[..|from| - 1]) + if Ready(remaining, Last(from)) then [Last(from).name] else []
  }

  /** The packages that stay. */
  function Leaves(remaining: Graph, from: Graph): Graph {
    if from == [] then []
    else Leaves(remaining, from[..|from| - 1]) + if Ready(remaining, Last(from)) then [] else [Last(from)]
  }

  /** One pass over the dictionary: the names that go out, in order, and the rebuilt dictionary. */
  method Pass(remaining: Graph) returns (deleted: seq<string>, rest: Graph)
    ensures deleted == Takes(remaining, remaining)
    ensures rest == Leaves(remaining, remaining)
  {
    deleted, rest := [], [];
    var i := 0;
    while i < |remaining|
      invariant 0 <= i <= |remaining|
      invariant deleted == Takes(remaining, remaining[..i])
      invariant rest == Leaves(remaining, remaining[..i])
    {
      assert remaining[..i + 1][..i] == remaining[..i] && Last(remaining[..i + 1]) == remaining[i];
      var ready := IsReady(remaining, remaining[i]);
      if ready {
        deleted := deleted + [remaining[i].name];
      } else {
        rest := rest + [remaining[i]];
      }
      i := i + 1;
    }
    assert remaining[..|remaining|] == remaining;
  }

  /** A pass deals with the packages one by one, in their order, and each only depends on what is remaining. */
  lemma {:induction false} PassInOrder(remaining: Graph, front: Graph, back: Graph)
    ensures Takes(remaining, front + back) == Takes(remaining, front) + Takes(remaining, back)
    ensures Leaves(remaining, front + back) == Leaves(remaining, front) + Leaves(remaining, back)
    decreases |back|
  {
    if back == [] {
      assert front + back == front;
    } else {
      var k := |back| - 1;
      assert (front + back)[..|front| + k] == front + back[..k] && Last(front + back) == Last(back);
      PassInOrder(remaining, front, back[..k]);
    }
  }

  /** A package goes out exactly if none of its dependencies is remaining. */
  lemma PassOfOne(remaining: Graph, p: Package)
    ensures Takes(remaining, [p]) == if exists y :: y in p.dependencies && y in Names(remaining) then [] else [p.name]
    ensures Leaves(remaining, [p]) == if exists y :: y in p.dependencies && y in Names(remaining) then [p] else []
  {
    assert [p][..0] == [];
  }

  lemma {:induction false} NothingTaken(remaining: Graph, from: Graph)
    requires Takes(remaining, from) == []
    ensures Leaves(remaining, from) == from
  {
    if from != [] {
      NothingTaken(remaining, from[..|from| - 1]);
      assert from == from[..|from| - 1] + [Last(from)];
    }
  }

  lemma NamesAppend(front: Graph, p: Package)
    ensures Names(front + [p]) == Names(front) + [p.name]
  {
  }

  /** A pass loses no package and duplicates none. */
  lemma {:induction false} PassSplits(remaining: Graph, from: Graph)
    ensures multiset(Takes(remaining, from)) + multiset(Names(Leaves(remaining, from))) == multiset(Names(from))
    ensures |Takes(remaining, from)| + |Leaves(remaining, from)| == |from|
  {
    if from == [] {
      assert Names(from) == [] && Names(Leaves(remaining, from)) == [];
    } else {
      var front, p := from[..|from| - 1], Last(from);
      PassSplits(remaining, front);
      NamesAppend(front, p);
      assert front + [p] == from;
      assert multiset(Names(from)) == multiset(Names(front)) + multiset{p.name};
      if Ready(remaining, p) {
        assert Takes(remaining, from) == Takes(remaining, front) + [p.name];
        assert Leaves(remaining, from) == Leaves(remaining, front);
      } else {
        NamesAppend(Leaves(remaining, front), p);
        assert Takes(remaining, from) == Takes(remaining, front);
        assert multiset(Names(Leaves(remaining, from))) == multiset(Names(Leaves(remaining, front))) + multiset{p.name};
      }
    }
  }

  lemma {:induction false} LeavesAre(remaining: Graph, from: Graph)
    ensures forall p :: p in Leaves(remaining, from) ==> p in from
  {
    if from != [] {
      LeavesAre(remaining, from[..|from| - 1]);
    }
  }

  lemma {:induction false} TakesAre(remaining: Graph, from: Graph, x: string)
    requires x in Takes(remaining, from)
    ensures exists p :: p in from && Ready(remaining, p) && p.name == x
  {
    if !(Ready(remaining, Last(from)) && Last(from).name == x) {
      TakesAre(remaining, from[..|from| - 1], x);
    }
  }

  /** `sorted` and `remaining` share out the packages, and `sorted` has all dependencies first. */
  ghost predicate Progress(graph: Graph, sorted: seq<string>, remaining: Graph) {
    && multiset(sorted) + multiset(Names(remaining)) == multiset(Names(graph))
    && (forall p :: p in remaining ==> p in graph)
    && DependenciesFirst(graph, sorted)
  }

  lemma InOne(graph: Graph, sorted: seq<string>, remaining: Graph, x: string)
    requires multiset(sorted) + multiset(Names(remaining)) == multiset(Names(graph))
    ensures x in Names(graph) <==> x in sorted || x in Names(remaining)
  {
    assert x in Names(graph) <==> x in multiset(Names(graph));
    assert x in sorted <==> x in multiset(sorted);
    assert x in Names(remaining) <==> x in multiset(Names(remaining));
  }

  lemma PackageOf(graph: Graph, p: Package, y: string)
    requires UniqueNames(graph) && p in graph && Edge(graph, p.name, y)
    ensures y in p.dependencies
  {
    var i :| 0 <= i < |graph| && graph[i].name == p.name && y in graph[i].dependencies;
    var j :| 0 <= j < |graph| && graph[j] == p;
    assert Names(graph)[i] == Names(graph)[j];
  }

  /** A package that is ready in a pass has all its dependencies in the list already. */
  lemma ReadyIsServed(graph: Graph, sorted: seq<string>, remaining: Graph, p: Package, y: string)
    requires UniqueNames(graph) && Progress(graph, sorted, remaining)
    requires p in remaining && Ready(remaining, p) && Edge(graph, p.name, y)
    ensures y in sorted
  {
    PackageOf(graph, p, y);
    InOne(graph, sorted, remaining, y);
  }

  lemma PassKeepsOrder(graph: Graph, sorted: seq<string>, remaining: Graph, i: nat, y: string)
    requires UniqueNames(graph) && Progress(graph, sorted, remaining)
    requires var names := sorted + Takes(remaining, remaining); i < |names| && Edge(graph, names[i], y)
    ensures y in (sorted + Takes(remaining, remaining))[..i]
  {
    var taken := Takes(remaining, remaining);
    var names := sorted + taken;
    if i < |sorted| {
      assert names[..i] == sorted[..i];
    } else {
      assert names[i] == taken[i - |sorted|] && taken[i - |sorted|] in taken;
      TakesAre(remaining, remaining, names[i]);
      var p :| p in remaining && Ready(remaining, p) && p.name == names[i];
      ReadyIsServed(graph, sorted, remaining, p, y);
      assert names[..i] == sorted + taken[..i - |sorted|];
    }
  }

  lemma PassProgresses(graph: Graph, sorted: seq<string>, remaining: Graph)
    requires UniqueNames(graph) && Progress(graph, sorted, remaining)
    ensures Progress(graph, sorted + Takes(remaining, remaining), Leaves(remaining, remaining))
  {
    PassSplits(remaining, remaining);
    LeavesAre(remaining, remaining);
    var names := sorted + Takes(remaining, remaining);
    assert multiset(names) == multiset(sorted) + multiset(Takes(remaining, remaining));
    forall i, y | 0 <= i < |names| && Edge(graph, names[i], y) ensures y in names[..i] {
      PassKeepsOrder(graph, sorted, remaining, i, y);
    }
  }

  /** If a pass takes nothing, every package that is left depends on one that is left. */
  lemma EmptyPassIsStuck(graph: Graph, sorted: seq<string>, remaining: Graph)
    requires UniqueNames(graph) && Progress(graph, sorted, remaining)
    requires Takes(remaining, remaining) == []
    ensures Stuck(graph, set x | x in Names(remaining))
  {
    var s := set x | x in Names(remaining);
    forall x | x in s ensures HasNext(graph, s, x) {
      var i :| 0 <= i < |remaining| && Names(remaining)[i] == x;
      var p := remaining[i];
      if Ready(remaining, p) {
        ReadyIsTaken(remaining, remaining, p);
      }
      var y :| y in p.dependencies && y in Names(remaining);
      InOne(graph, sorted, remaining, y);
      assert p in graph;
      var j :| 0 <= j < |graph| && graph[j] == p;
      assert Edge(graph, x, y);
    }
  }

  /** A pass that takes nothing, while something is left, proves a cycle. */
  lemma EmptyPassHasCycle(graph: Graph, sorted: seq<string>, remaining: Graph)
    requires UniqueNames(graph) && Progress(graph, sorted, remaining) && remaining != []
    requires Takes(remaining, remaining) == []
    ensures !Acyclic(graph)
  {
    var s := set x | x in Names(remaining);
    EmptyPassIsStuck(graph, sorted, remaining);
    assert Names(remaining)[0] in s;
    StuckHasCycle(graph, s);
  }

  lemma {:induction false} ReadyIsTaken(remaining: Graph, from: Graph, p: Package)
    requires p in from && Ready(remaining, p)
    ensures p.name in Takes(remaining, from)
  {
    if p != Last(from) {
      ReadyIsTaken(remaining, from[..|from| - 1], p);
    }
  }

  /** On an acyclic graph every pass takes at least one package. */
  lemma PassShrinks(graph: Graph, sorted: seq<string>, remaining: Graph)
    requires UniqueNames(graph) && Progress(graph, sorted, remaining) && remaining != []
    ensures Acyclic(graph) ==> |Leaves(remaining, remaining)| < |remaining|
  {
    PassSplits(remaining, remaining);
    if Takes(remaining, remaining) == [] {
      EmptyPassHasCycle(graph, sorted, remaining);
    }
  }

  /** Every pass has taken a package, or no pass will any more, which is never so on an acyclic graph. */
  ghost predicate Counting(graph: Graph, remaining: Graph, passes: nat) {
    && (Acyclic(graph) ==> passes + |remaining| <= |graph|)
    && (passes + |remaining| <= |graph| || Takes(remaining, remaining) == [])
  }

  lemma PassCounts(graph: Graph, sorted: seq<string>, remaining: Graph, passes: nat)
    requires UniqueNames(graph) && Progress(graph, sorted, remaining) && remaining != []
    requires Counting(graph, remaining, passes)
    ensures Counting(graph, Leaves(remaining, remaining), passes + 1)
  {
    PassShrinks(graph, sorted, remaining);
    PassSplits(remaining, remaining);
    if Takes(remaining, remaining) == [] {
      NothingTaken(remaining, remaining);
    }
  }

  /** When the passes are used up, what is left is in a deadlock. */
  lemma GivesUpWhenStuck(graph: Graph, sorted: seq<string>, remaining: Graph, passes: nat)
    requires UniqueNames(graph) && Progress(graph, sorted, remaining) && remaining != []
    requires Counting(graph, remaining, passes) && passes >= |graph|
    ensures Names(remaining) != [] && Stuck(graph, set x | x in Names(remaining))
    ensures forall x :: x in Names(remaining) ==> x in Names(graph)
    ensures !Acyclic(graph)
  {
    EmptyPassIsStuck(graph, sorted, remaining);
    EmptyPassHasCycle(graph, sorted, remaining);
    forall x | x in Names(remaining) ensures x in Names(graph) {
      InOne(graph, sorted, remaining, x);
    }
  }

  // ---------------------------------------------------------------------------------------------
  // The script

  /**
   An order is found exactly if the graph is acyclic. It lists every package once, with every
   in-workspace dependency strictly earlier, after at most as many passes as there are packages. The
   packages reported otherwise are in a deadlock: each of them depends on another one of them.
   */
  method OrderPackages(graph: Graph) returns (outcome: Outcome, ghost passes: nat)
    requires UniqueNames(graph)
    ensures outcome.Ordered? <==> Acyclic(graph)
    ensures outcome.DirectCycle? <==> exists x, y :: Mutual(graph, x, y)
    ensures outcome.Ordered? ==>
              multiset(outcome.names) == multiset(Names(graph)) && DependenciesFirst(graph, outcome.names)
    ensures outcome.Ordered? ==> passes <= |graph|
    ensures outcome.SuspectedCycle? ==>
              && outcome.left != [] && (forall x :: x in outcome.left ==> x in Names(graph))
              && Stuck(graph, set x | x in outcome.left)
  {
    passes := 0;
    var direct := HasDirectCycle(graph);
    if direct {
      return DirectCycle, passes;
    }
    var sorted, remaining := [], graph;
    var maxIterations := |graph| * |graph|;
    ghost var limit := maxIterations;
    assert |graph| <= limit by {
      if |graph| > 0 {
        MulAtLeast(|graph|, |graph|);
      }
    }
    while remaining != []
      invariant Progress(graph, sorted, remaining)
      invariant Counting(graph, remaining, passes)
      invariant maxIterations >= 0 && maxIterations + passes == limit >= |graph|
      decreases maxIterations
    {
      if maxIterations == 0 {
        GivesUpWhenStuck(graph, sorted, remaining, passes);
        return SuspectedCycle(Names(remaining)), passes;
      }
      maxIterations, passes := maxIterations - 1, passes + 1;
      var deleted, rest := Pass(remaining);
      PassProgresses(graph, sorted, remaining);
      PassCounts(graph, sorted, remaining, passes - 1);
      sorted, remaining := sorted + deleted, rest;
    }
    assert Names(remaining) == [];
    OrderedIsAcyclic(graph, sorted);
    outcome := Ordered(sorted);
  }
}
