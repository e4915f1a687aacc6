/** The `DependencyGraph` object: an adjacency map built in place by a
    recursive depth-first traversal, with the queries the report generators
    use.  Every state change is proved to be exactly the corresponding
    definition of `GraphModel`. */
module DependencyGraphs {
  import opened Text
  import opened Wrappers
  import opened GraphModel

  class DependencyGraph {
    /** Package name to the names it depends on. */
    var graph: Graph
    /** The lower-cased filter, or "" when filtering is off. */
    const filterSubstring: string
    /** Kept by the object but used by no traversal; only `Clear` touches them. */
    var visited: set<string>
    var recursionStack: set<string>
    /** The cycles recorded so far, in discovery order. */
    var cycles: seq<seq<string>>
    /** Every package passed to a dependency source, in call order. */
    ghost var fetchLog: seq<string>

    /** The object invariant: the graph is closed and free of filtered
        names, and every recorded cycle is a closed walk of it. */
    ghost predicate Invariant()
      reads this
    {
      Valid(filterSubstring, graph, cycles)
    }

    /** A fresh, empty graph; the filter is stored in lower case. */
    constructor(filter: string)
      ensures filterSubstring == Lower(filter)
      ensures graph == map[] && cycles == [] && visited == {} && recursionStack == {}
      ensures fetchLog == []
      ensures Invariant()
    {
      filterSubstring := if filter != "" then Lower(filter) else "";
      graph := map[];
      visited := {};
      recursionStack := {};
      cycles := [];
      fetchLog := [];
    }

    /** `add_dependency`: the edge `package -> dependency`, unless either
        name is filtered; the invariant is kept. */
    method AddDependency(package: string, dependency: string)
      modifies this`graph
      ensures graph == AddEdge(filterSubstring, old(graph), package, dependency)
      ensures old(Invariant()) ==> Invariant()
    {
      if Filtered(filterSubstring, package) || Filtered(filterSubstring, dependency) {
        return;
      }
      graph := graph[package := Deps(graph, package) + {dependency}];
      if dependency !in graph {
        graph := graph[dependency := {}];
      }
      if old(Invariant()) {
        AddEdgeKeepsShape(filterSubstring, old(graph), package, dependency);
        AddEdgeGrows(filterSubstring, old(graph), package, dependency);
        forall c | c in cycles ensures IsCycle(graph, c) {
          WalkGrows(old(graph), graph, c);
        }
      }
    }

    /** `build_graph_dfs(package, source, visited, path)`.  The traversal
        set is passed in and handed back; `path` is a value, since every
        caller passes a fresh list or a copy.  The new graph, cycle list,
        traversal set and fetch log are exactly those of `DfsNode`; when the
        path is a walk of the graph leading to `package`, as it is for every
        call the traversal makes, the invariant is kept. */
    method BuildGraphDfs(package: string, source: Source, visitedIn: set<string>, path: seq<string>)
      returns (visitedOut: set<string>)
      modifies this`graph, this`cycles, this`fetchLog
      ensures Build(graph, cycles, visitedOut, fetchLog)
        == DfsNode(source, filterSubstring, package, path, Build(old(graph), old(cycles), visitedIn, old(fetchLog)))
      ensures old(Invariant()) && PathLeadsTo(old(graph), path, package) ==> Invariant()
      decreases |Names(source) - visitedIn|
    {
      if Invariant() && PathLeadsTo(graph, path, package) {
        NodeKeepsValid(source, filterSubstring, package, path, Build(graph, cycles, visitedIn, fetchLog));
      }
      if Filtered(filterSubstring, package) {
        return visitedIn;
      }
      if package in path {
        var cycleStart := IndexOf(path, package);
        cycles := cycles + [path[cycleStart..] + [package]];
        return visitedIn;
      }
      if package in visitedIn {
        return visitedIn;
      }
      visitedOut := visitedIn + {package};
      var path' := path + [package];
      fetchLog := fetchLog + [package];
      var fetched := Fetch(source, package);
      if fetched.Some? {
        var deps := fetched.value;
        ghost var st1 := Build(graph, cycles, visitedOut, fetchLog);
        var i := 0;
        while i < |deps|
          invariant 0 <= i <= |deps|
          invariant visitedIn + {package} <= visitedOut
          invariant DfsList(source, filterSubstring, package, path', deps[i..], Build(graph, cycles, visitedOut, fetchLog))
            == DfsList(source, filterSubstring, package, path', deps, st1)
        {
          var depName := deps[i];
          assert deps[i..][1..] == deps[i + 1..];
          if !Filtered(filterSubstring, depName) {
            AddDependency(package, depName);
            CardDiffShrinks(Names(source), visitedIn, visitedOut, package);
            visitedOut := BuildGraphDfs(depName, source, visitedOut, path');
          }
          i := i + 1;
        }
      }
    }

    /** The public entry point: `build_graph_dfs(package, source)` with a
        fresh traversal set and an empty path.  The invariant is kept. */
    method BuildGraph(package: string, source: Source)
      modifies this`graph, this`cycles, this`fetchLog
      ensures var r := DfsNode(source, filterSubstring, package, [], Build(old(graph), old(cycles), {}, old(fetchLog)));
        graph == r.graph && cycles == r.cycles && fetchLog == r.fetched
      ensures old(Invariant()) ==> Invariant()
    {
      var _ := BuildGraphDfs(package, source, {}, []);
      if old(Invariant()) {
        NodeKeepsValid(source, filterSubstring, package, [], Build(old(graph), old(cycles), {}, old(fetchLog)));
      }
    }

    /** The depth-first collection behind `get_all_dependencies`:
        `seen` and `found` are the caller's sets, returned updated.  Every
        name newly seen steps into the result, and everything newly seen
        or found is reached from `pkg`. */
    method CollectDeps(pkg: string, seen: set<string>, found: set<string>)
      returns (seen': set<string>, found': set<string>)
      requires pkg in AllPackages(graph)
      ensures seen <= seen' && found <= found'
      ensures !Filtered(filterSubstring, pkg) ==> pkg in seen'
      ensures forall x :: x in seen' && x !in seen ==> StepsInto(filterSubstring, graph, x, seen', found')
      ensures forall x :: x in seen' && x !in seen ==>
        (x == pkg && !Filtered(filterSubstring, pkg)) || ReachesUnfiltered(filterSubstring, graph, pkg, x)
      ensures forall x :: x in found' && x !in found ==> ReachesUnfiltered(filterSubstring, graph, pkg, x)
      decreases |AllPackages(graph) - seen|
    {
      if pkg in seen || Filtered(filterSubstring, pkg) {
        return seen, found;
      }
      seen', found' := seen + {pkg}, found;
      var todo := Deps(graph, pkg);
      while todo != {}
        invariant todo <= Deps(graph, pkg)
        invariant seen + {pkg} <= seen' && found <= found'
        invariant forall d :: d in Deps(graph, pkg) && d !in todo && !Filtered(filterSubstring, d) ==>
          d in found' && d in seen'
        invariant forall x :: x in seen' && x !in seen && x != pkg ==> StepsInto(filterSubstring, graph, x, seen', found')
        invariant forall x :: x in seen' && x !in seen ==>
          x == pkg || ReachesUnfiltered(filterSubstring, graph, pkg, x)
        invariant forall x :: x in found' && x !in found ==> ReachesUnfiltered(filterSubstring, graph, pkg, x)
        decreases |todo|
      {
        var dep :| dep in todo;
        todo := todo - {dep};
        if !Filtered(filterSubstring, dep) {
          ReachesUnfilteredStep(filterSubstring, graph, pkg, dep);
          found' := found' + {dep};
          CardDiffShrinks(AllPackages(graph), seen, seen', pkg);
          ghost var s0, f0 := seen', found';
          seen', found' := CollectDeps(dep, seen', found');
          forall x | x in seen' && x !in s0
            ensures ReachesUnfiltered(filterSubstring, graph, pkg, x)
          {
            if x != dep {
              ReachesUnfilteredPrepend(filterSubstring, graph, pkg, dep, x);
            }
          }
          forall x | x in found' && x !in f0
            ensures ReachesUnfiltered(filterSubstring, graph, pkg, x)
          {
            ReachesUnfilteredPrepend(filterSubstring, graph, pkg, dep, x);
          }
          forall x | x in s0 && x !in seen && x != pkg
            ensures StepsInto(filterSubstring, graph, x, seen', found')
          {
            assert StepsInto(filterSubstring, graph, x, s0, f0);
          }
        }
      }
    }

    /** `get_all_dependencies`: every package reachable from `package`
        through unfiltered names; under the invariant, simply every package
        reachable from it. */
    method GetAllDependencies(package: string) returns (r: set<string>)
      ensures r == CollectedDeps(filterSubstring, graph, package)
      ensures Invariant() ==> r == TransitiveDeps(graph, package)
    {
      if package !in graph {
        NonKeyCollectsNothing(filterSubstring, graph, package);
        r := {};
      } else {
        var seen;
        seen, r := CollectDeps(package, {}, {});
        forall b | b in CollectedDeps(filterSubstring, graph, package) ensures b in r {
          var w :| |w| >= 2 && w[0] == package && w[|w| - 1] == b && IsWalk(graph, w)
                   && NoneFiltered(filterSubstring, w);
          ClosedSetCollects(filterSubstring, graph, seen, r, package, b);
        }
        forall b | b in r ensures b in AllPackages(graph) {
          var w :| |w| >= 2 && w[0] == package && w[|w| - 1] == b && IsWalk(graph, w)
                   && NoneFiltered(filterSubstring, w);
          assert w[|w| - 2] in graph;
        }
      }
      if Invariant() {
        CollectedIsTransitive(filterSubstring, graph, package);
      }
    }

    /** `get_direct_dependencies`: the set stored for `package`, empty for
        a name that is not a key. */
    method GetDirectDependencies(package: string) returns (r: set<string>)
      ensures forall d :: d in r <==> package in graph && d in graph[package]
      ensures Invariant() ==> r <= graph.Keys
    {
      r := if package in graph then graph[package] else {};
    }

    /** `get_cycles`: the recorded cycles; under the invariant each one is
        a closed walk of the graph. */
    method GetCycles() returns (r: seq<seq<string>>)
      ensures r == cycles
      ensures Invariant() ==> forall c :: c in r ==> |c| >= 2 && c[0] == c[|c| - 1] && IsWalk(graph, c)
    {
      r := cycles;
    }

    /** `has_cycles`: whether a cycle was recorded; under the invariant a
        recorded cycle means some package reaches itself. */
    method HasCycles() returns (r: bool)
      ensures r <==> cycles != []
      ensures Invariant() && r ==> exists a :: a in graph && Reaches(graph, a, a)
    {
      r := |cycles| > 0;
      if Invariant() && r {
        var c := cycles[0];
        assert c in cycles;
        assert c[0] in graph && Reaches(graph, c[0], c[0]);
      }
    }

    /** `get_all_packages`: the keys, then every dependency set added in. */
    method GetAllPackages() returns (r: set<string>)
      ensures r == AllPackages(graph)
      ensures Invariant() ==> r == graph.Keys
    {
      r := graph.Keys;
      var todo := graph.Keys;
      while todo != {}
        invariant todo <= graph.Keys
        invariant graph.Keys <= r <= AllPackages(graph)
        invariant forall p :: p in graph && p !in todo ==> graph[p] <= r
        decreases |todo|
      {
        var p :| p in todo;
        r := r + graph[p];
        todo := todo - {p};
      }
      if Invariant() {
        ClosedPackagesAreKeys(graph);
      }
    }

    /** `clear`: empties the graph, both auxiliary sets and the cycle list. */
    method Clear()
      modifies this`graph, this`visited, this`recursionStack, this`cycles
      ensures graph == map[] && visited == {} && recursionStack == {} && cycles == []
      ensures Invariant()
    {
      graph := map[];
      visited := {};
      recursionStack := {};
      cycles := [];
    }
  }
}
