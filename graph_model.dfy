/** The dependency-graph engine as pure definitions.

    A graph maps a package name to the set of names it depends on.  This
    module defines the filtering policy, edge insertion, the set of all
    packages, walks and reachability, the dependency source that the
    traversal consults, and the depth-first construction of the graph with
    cycle detection (`DfsNode` / `DfsList`).  The `DependencyGraph` class
    is proved to compute exactly these; the lemmas here state what the
    construction guarantees. */
module GraphModel {
  import opened Text
  import opened Wrappers

  type Graph = map<string, set<string>>

  // ---------------------------------------------------------------------
  // Filtering and edges

  /** A name is filtered when the stored filter, which is already lower
      case, is non-empty and occurs in the lower-cased name. */
  predicate Filtered(filter: string, name: string) {
    filter != "" && Contains(Lower(name), filter)
  }

  /** `f` occurs in `n` at position `i` when ASCII case is ignored. */
  predicate MatchesAt(n: string, f: string, i: nat) {
    i + |f| <= |n| && forall k :: 0 <= k < |f| ==> LowerChar(n[i + k]) == LowerChar(f[k])
  }

  /** What filtering means for the filter as the user gave it: an empty
      filter removes nothing; otherwise a name is filtered exactly when the
      filter, ignoring ASCII case, occurs in it at some position.  Hence
      the case of the name does not matter either. */
  lemma FilterMatchesIgnoringCase(f: string, n: string)
    ensures f == "" ==> !Filtered(Lower(f), n)
    ensures Filtered(Lower(f), n) <==> f != "" && Contains(Lower(n), Lower(f))
    ensures Filtered(Lower(f), n) <==> f != "" && exists i: nat :: MatchesAt(n, f, i)
    ensures Filtered(Lower(f), n) <==> Filtered(Lower(f), Lower(n))
  {
    forall i: nat ensures OccursAt(Lower(n), Lower(f), i) <==> MatchesAt(n, f, i) {
      OccursIgnoringCase(f, n, i);
    }
    LowerLower(n);
  }

  /** Position by position, an occurrence of the lower-cased filter in the
      lower-cased name is a case-insensitive match. */
  lemma OccursIgnoringCase(f: string, n: string, i: nat)
    ensures OccursAt(Lower(n), Lower(f), i) <==> MatchesAt(n, f, i)
  {
    var lf, ln := Lower(f), Lower(n);
    if i + |f| <= |n| {
      if MatchesAt(n, f, i) {
        assert ln[i..i + |lf|] == lf;
      }
      if OccursAt(ln, lf, i) {
        forall k | 0 <= k < |f| ensures LowerChar(n[i + k]) == LowerChar(f[k]) {
          assert ln[i..i + |lf|][k] == lf[k];
        }
      }
    }
  }

  /** Lower-casing twice changes nothing more. */
  lemma LowerLower(s: string)
    ensures Lower(Lower(s)) == Lower(s)
  {
  }

  /** Direct dependencies of `p`, empty for a name that is not a key. */
  function Deps(g: Graph, p: string): set<string> {
    if p in g then g[p] else {}
  }

  /** Inserting the edge `p -> d`: nothing happens when either name is
      filtered; otherwise `d` joins the set of `p` (created if absent) and
      `d` gets an empty set if it has none yet. */
  function AddEdge(filter: string, g: Graph, p: string, d: string): (r: Graph)
    ensures Filtered(filter, p) || Filtered(filter, d) ==> r == g
    ensures !Filtered(filter, p) && !Filtered(filter, d) ==>
      && r.Keys == g.Keys + {p, d}
      && r[p] == Deps(g, p) + {d}
      && (forall k :: k in g && k != p ==> r[k] == g[k])
      && (d != p && d !in g ==> r[d] == {})
  {
    if Filtered(filter, p) || Filtered(filter, d) then g
    else
      var g1 := g[p := Deps(g, p) + {d}];
      if d in g1 then g1 else g1[d := {}]
  }

  /** The union of all keys and all values. */
  function AllPackages(g: Graph): (r: set<string>)
    ensures forall p :: p in g ==> p in r && g[p] <= r
    ensures forall x :: x in r ==> x in g || exists p :: p in g && x in g[p]
  {
    g.Keys + set p, d | p in g && d in g[p] :: d
  }

  /** Every name that occurs as a value is also a key. */
  ghost predicate Closed(g: Graph) {
    forall p, d :: p in g && d in g[p] ==> d in g
  }

  /** No key is a filtered name (with `Closed`, no value is either). */
  ghost predicate Unfiltered(filter: string, g: Graph) {
    forall p :: p in g ==> !Filtered(filter, p)
  }

  /** In a closed graph the packages are exactly the keys. */
  lemma ClosedPackagesAreKeys(g: Graph)
    requires Closed(g)
    ensures AllPackages(g) == g.Keys
  {
  }

  /** `g'` has every edge of `g`. */
  ghost predicate Grows(g: Graph, g': Graph) {
    forall p :: p in g ==> p in g' && g[p] <= g'[p]
  }

  lemma AddEdgeGrows(filter: string, g: Graph, p: string, d: string)
    ensures Grows(g, AddEdge(filter, g, p, d))
  {
  }

  lemma GrowsTransitive(g1: Graph, g2: Graph, g3: Graph)
    requires Grows(g1, g2) && Grows(g2, g3)
    ensures Grows(g1, g3)
  {
  }

  /** Inserting an edge keeps the graph closed and free of filtered names. */
  lemma AddEdgeKeepsShape(filter: string, g: Graph, p: string, d: string)
    requires Closed(g) && Unfiltered(filter, g)
    ensures Closed(AddEdge(filter, g, p, d)) && Unfiltered(filter, AddEdge(filter, g, p, d))
  {
  }

  // ---------------------------------------------------------------------
  // Walks, reachability and cycles

  /** Consecutive names of `w` are edges of `g`. */
  ghost predicate IsWalk(g: Graph, w: seq<string>) {
    forall i :: 0 <= i < |w| - 1 ==> w[i] in g && w[i + 1] in g[w[i]]
  }

  /** `b` is reachable from `a` by one or more edges. */
  ghost predicate Reaches(g: Graph, a: string, b: string) {
    exists w :: |w| >= 2 && w[0] == a && w[|w| - 1] == b && IsWalk(g, w)
  }

  /** A recorded cycle: a walk of at least two names that ends where it starts. */
  ghost predicate IsCycle(g: Graph, c: seq<string>) {
    |c| >= 2 && c[0] == c[|c| - 1] && IsWalk(g, c)
  }

  /** The invariant of the engine's state. */
  ghost predicate Valid(filter: string, g: Graph, cycles: seq<seq<string>>) {
    && Closed(g)
    && Unfiltered(filter, g)
    && forall c :: c in cycles ==> IsCycle(g, c)
  }

  lemma WalkGrows(g: Graph, g': Graph, w: seq<string>)
    requires Grows(g, g') && IsWalk(g, w)
    ensures IsWalk(g', w)
  {
  }

  /** The names reachable from `p` by one or more edges. */
  ghost function TransitiveDeps(g: Graph, p: string): set<string> {
    set b | b in AllPackages(g) && Reaches(g, p, b)
  }

  /** Every name reached by an edge is a package of the graph. */
  lemma ReachedIsPackage(g: Graph, a: string, b: string)
    requires Reaches(g, a, b)
    ensures b in AllPackages(g)
  {
    var w :| |w| >= 2 && w[0] == a && w[|w| - 1] == b && IsWalk(g, w);
    assert w[|w| - 2] in g;
  }

  /** A walk extended by one edge. */
  lemma ReachesStep(g: Graph, a: string, b: string, c: string)
    requires a == b || Reaches(g, a, b)
    requires b in g && c in g[b]
    ensures Reaches(g, a, c)
  {
    if a == b {
      assert IsWalk(g, [a, c]);
    } else {
      var w :| |w| >= 2 && w[0] == a && w[|w| - 1] == b && IsWalk(g, w);
      assert IsWalk(g, w + [c]);
    }
  }

  /** A reach from a successor is a reach from its parent. */
  lemma ReachesPrepend(g: Graph, p: string, d: string, b: string)
    requires p in g && d in g[p]
    requires d == b || Reaches(g, d, b)
    ensures Reaches(g, p, b)
  {
    if d == b {
      assert IsWalk(g, [p, d]);
    } else {
      var w :| |w| >= 2 && w[0] == d && w[|w| - 1] == b && IsWalk(g, w);
      var w' := [p] + w;
      forall i | 0 <= i < |w'| - 1 ensures w'[i] in g && w'[i + 1] in g[w'[i]] {
        if i > 0 {
          assert w'[i] == w[i - 1] && w'[i + 1] == w[i];
        }
      }
      assert IsWalk(g, w');
    }
  }

  /** A set that contains `a` and the successors of each of its members
      contains everything `a` reaches. */
  lemma {:induction false} ClosedHoldsReach(g: Graph, s: set<string>, a: string, b: string)
    requires a in s
    requires forall x :: x in s ==> Deps(g, x) <= s
    requires Reaches(g, a, b)
    ensures b in s
  {
    var w :| |w| >= 2 && w[0] == a && w[|w| - 1] == b && IsWalk(g, w);
    var i := 0;
    while i < |w| - 1
      invariant 0 <= i <= |w| - 1
      invariant w[i] in s
    {
      assert w[i + 1] in Deps(g, w[i]);
      i := i + 1;
    }
  }

  /** No name on the walk is filtered. */
  ghost predicate NoneFiltered(filter: string, w: seq<string>) {
    forall i :: 0 <= i < |w| ==> !Filtered(filter, w[i])
  }

  /** `b` is reachable from `a` by one or more edges through unfiltered
      names only (both ends included). */
  ghost predicate ReachesUnfiltered(filter: string, g: Graph, a: string, b: string) {
    exists w :: |w| >= 2 && w[0] == a && w[|w| - 1] == b && IsWalk(g, w) && NoneFiltered(filter, w)
  }

  /** What `get_all_dependencies(p)` collects: every package reachable from
      `p` through unfiltered names. */
  ghost function CollectedDeps(filter: string, g: Graph, p: string): set<string> {
    set b | b in AllPackages(g) && ReachesUnfiltered(filter, g, p, b)
  }

  /** Every unfiltered successor of `x` is in `seen` and in `found`. */
  ghost predicate StepsInto(filter: string, g: Graph, x: string, seen: set<string>, found: set<string>) {
    forall d :: d in Deps(g, x) && !Filtered(filter, d) ==> d in found && d in seen
  }

  lemma ReachesUnfilteredStep(filter: string, g: Graph, p: string, d: string)
    requires p in g && d in g[p] && !Filtered(filter, p) && !Filtered(filter, d)
    ensures ReachesUnfiltered(filter, g, p, d)
  {
    assert IsWalk(g, [p, d]) && NoneFiltered(filter, [p, d]);
  }

  /** A reach from a successor is a reach from its parent. */
  lemma ReachesUnfilteredPrepend(filter: string, g: Graph, p: string, d: string, b: string)
    requires p in g && d in g[p] && !Filtered(filter, p)
    requires ReachesUnfiltered(filter, g, d, b)
    ensures ReachesUnfiltered(filter, g, p, b)
  {
    var w :| |w| >= 2 && w[0] == d && w[|w| - 1] == b && IsWalk(g, w) && NoneFiltered(filter, w);
    var w' := [p] + w;
    forall i | 0 <= i < |w'| - 1 ensures w'[i] in g && w'[i + 1] in g[w'[i]] {
      if i > 0 {
        assert w'[i] == w[i - 1] && w'[i + 1] == w[i];
      }
    }
    assert IsWalk(g, w') && NoneFiltered(filter, w');
  }

  /** A name that is not a key starts no walk. */
  lemma NonKeyCollectsNothing(filter: string, g: Graph, p: string)
    requires p !in g
    ensures CollectedDeps(filter, g, p) == {}
  {
    assert forall w :: |w| >= 2 && IsWalk(g, w) ==> w[0] in g;
  }

  /** A set of visited names that contains `a` and whose every member
      steps into it (and into `found`) holds everything `a` reaches through
      unfiltered names in `found`. */
  lemma {:induction false} ClosedSetCollects(filter: string, g: Graph, seen: set<string>, found: set<string>, a: string, b: string)
    requires a in seen
    requires forall x :: x in seen ==> StepsInto(filter, g, x, seen, found)
    requires ReachesUnfiltered(filter, g, a, b)
    ensures b in found
  {
    var w :| |w| >= 2 && w[0] == a && w[|w| - 1] == b && IsWalk(g, w) && NoneFiltered(filter, w);
    var i := 0;
    while i < |w| - 2
      invariant 0 <= i <= |w| - 2
      invariant w[i] in seen
    {
      assert StepsInto(filter, g, w[i], seen, found);
      assert w[i + 1] in Deps(g, w[i]);
      i := i + 1;
    }
    assert StepsInto(filter, g, w[i], seen, found);
    assert w[i + 1] in Deps(g, w[i]);
  }

  /** In a closed graph without filtered names, the unfiltered reach is
      plain reachability. */
  lemma CollectedIsTransitive(filter: string, g: Graph, p: string)
    requires Closed(g) && Unfiltered(filter, g)
    ensures CollectedDeps(filter, g, p) == TransitiveDeps(g, p)
  {
    forall b | Reaches(g, p, b) ensures ReachesUnfiltered(filter, g, p, b) {
      var w :| |w| >= 2 && w[0] == p && w[|w| - 1] == b && IsWalk(g, w);
      forall i | 0 <= i < |w| ensures !Filtered(filter, w[i]) {
        if i < |w| - 1 {
          assert w[i] in g;
        } else {
          assert w[i - 1] in g && w[i] in g[w[i - 1]];
        }
      }
    }
  }

  // ---------------------------------------------------------------------
  // The dependency source

  /** A finite dependency source: the ordered dependency names it returns
      for each known package, and the packages whose fetch fails.  A name
      that is neither known nor failing has no dependencies. */
  datatype Source = Source(deps: map<string, seq<string>>, failing: set<string>)

  /** One call to the source: `None` when it fails. */
  function Fetch(src: Source, p: string): (r: Option<seq<string>>)
    ensures r.None? <==> p in src.failing
    ensures r.Some? && r.value != [] ==> p in src.deps && r.value == src.deps[p]
    ensures p !in src.failing && p in src.deps ==> r == Some(src.deps[p])
    ensures p !in src.failing && p !in src.deps ==> r == Some([])
  {
    if p in src.failing then None
    else if p in src.deps then Some(src.deps[p])
    else Some([])
  }

  /** Every name the source mentions, as a package or as a dependency. */
  ghost function Names(src: Source): set<string> {
    src.deps.Keys + set p, i | p in src.deps && 0 <= i < |src.deps[p]| :: src.deps[p][i]
  }

  lemma CardDiffMono(u: set<string>, v: set<string>, w: set<string>)
    requires v <= w
    ensures |u - w| <= |u - v|
  {
    var a, b := u - w, u - v;
    assert b == a + (b - a);
    assert a * (b - a) == {};
  }

  lemma CardDiffShrinks(u: set<string>, v: set<string>, w: set<string>, x: string)
    requires v <= w && x in u && x in w && x !in v
    ensures |u - w| < |u - v|
  {
    var a, b := u - w, u - v;
    assert b == a + (b - a);
    assert a * (b - a) == {};
    assert x in b - a;
  }

  // ---------------------------------------------------------------------
  // Depth-first construction

  /** The engine's state during a build: the graph, the recorded cycles,
      the packages visited in this build, and the packages passed to the
      source, in call order. */
  datatype Build = Build(graph: Graph, cycles: seq<seq<string>>, visited: set<string>, fetched: seq<string>)

  /** `build_graph_dfs(pkg, source, visited, path)`: skip a filtered name;
      record a cycle when `pkg` is already on the current path; skip a
      visited name; otherwise mark it visited, fetch its dependencies
      (a failure ends the visit) and process them in order with `DfsList`.
      Children see the current path extended by `pkg`. */
  function DfsNode(src: Source, filter: string, pkg: string, path: seq<string>, st: Build): (r: Build)
    ensures st.visited <= r.visited
    decreases |Names(src) - st.visited|, 1, 0
  {
    if Filtered(filter, pkg) then st
    else if pkg in path then st.(cycles := st.cycles + [path[IndexOf(path, pkg)..] + [pkg]])
    else if pkg in st.visited then st
    else
      var st1 := st.(visited := st.visited + {pkg}, fetched := st.fetched + [pkg]);
      match Fetch(src, pkg)
      case None => st1
      case Some(deps) =>
        CardDiffMono(Names(src), st.visited, st1.visited);
        assert deps != [] ==> |Names(src) - st1.visited| < |Names(src) - st.visited| by {
          if deps != [] {
            CardDiffShrinks(Names(src), st.visited, st1.visited, pkg);
          }
        }
        DfsList(src, filter, pkg, path + [pkg], deps, st1)
  }

  /** The loop over the fetched names of `pkg`: each unfiltered name gets
      the edge `pkg -> name` and is then visited, in order. */
  function DfsList(src: Source, filter: string, pkg: string, path: seq<string>, deps: seq<string>, st: Build): (r: Build)
    ensures st.visited <= r.visited
    decreases |Names(src) - st.visited|, if deps == [] then 0 else 2, |deps|
  {
    if deps == [] then st
    else if Filtered(filter, deps[0]) then DfsList(src, filter, pkg, path, deps[1..], st)
    else
      var st1 := st.(graph := AddEdge(filter, st.graph, pkg, deps[0]));
      var st2 := DfsNode(src, filter, deps[0], path, st1);
      CardDiffMono(Names(src), st.visited, st2.visited);
      DfsList(src, filter, pkg, path, deps[1..], st2)
  }

  /** The state before a top-level call: no edges, no cycles, nothing visited. */
  function Start(): Build {
    Build(map[], [], {}, [])
  }

  /** A top-level `build_graph_dfs(root, source)`: fresh `visited` and `path`. */
  function BuildFrom(src: Source, filter: string, root: string): Build {
    DfsNode(src, filter, root, [], Start())
  }

  // ---------------------------------------------------------------------
  // What the construction guarantees

  ghost predicate Distinct(s: seq<string>) {
    forall i, j :: 0 <= i < j < |s| ==> s[i] != s[j]
  }

  /** `r` extends `st`: edges are only added, cycles only appended and the
      visited set only grows. */
  ghost predicate Extends(st: Build, r: Build) {
    && Grows(st.graph, r.graph)
    && |st.cycles| <= |r.cycles| && r.cycles[..|st.cycles|] == st.cycles
    && st.visited <= r.visited
  }

  /** The source calls made between `st` and `r` are appended to the log,
      go to distinct packages, and go to exactly the packages newly visited. */
  ghost predicate FetchedOnce(st: Build, r: Build) {
    && |st.fetched| <= |r.fetched| && r.fetched[..|st.fetched|] == st.fetched
    && Distinct(r.fetched[|st.fetched|..])
    && forall x :: x in r.fetched[|st.fetched|..] <==> x in r.visited && x !in st.visited
  }

  lemma ExtendsTransitive(a: Build, b: Build, c: Build)
    requires Extends(a, b) && Extends(b, c) && FetchedOnce(a, b) && FetchedOnce(b, c)
    ensures Extends(a, c) && FetchedOnce(a, c)
  {
    GrowsTransitive(a.graph, b.graph, c.graph);
    assert c.cycles[..|a.cycles|] == c.cycles[..|b.cycles|][..|a.cycles|];
    assert c.fetched[..|a.fetched|] == c.fetched[..|b.fetched|][..|a.fetched|];
    var f1, f2 := b.fetched[|a.fetched|..], c.fetched[|b.fetched|..];
    assert c.fetched[|a.fetched|..] == f1 + f2 by {
      assert c.fetched == b.fetched + f2;
    }
    assert forall i, j :: 0 <= i < |f1| && 0 <= j < |f2| ==> f1[i] != f2[j] by {
      forall i, j | 0 <= i < |f1| && 0 <= j < |f2| ensures f1[i] != f2[j] {
        assert f1[i] in f1 && f2[j] in f2;
      }
    }
  }

  lemma StaysPut(st: Build)
    ensures Extends(st, st) && FetchedOnce(st, st)
  {
    assert st.fetched[|st.fetched|..] == [];
  }

  lemma CycleStep(st: Build, c: seq<string>)
    ensures Extends(st, st.(cycles := st.cycles + [c]))
    ensures FetchedOnce(st, st.(cycles := st.cycles + [c]))
  {
    assert st.fetched[|st.fetched|..] == [];
  }

  lemma EdgeStep(st: Build, g: Graph)
    requires Grows(st.graph, g)
    ensures Extends(st, st.(graph := g)) && FetchedOnce(st, st.(graph := g))
  {
    assert st.fetched[|st.fetched|..] == [];
  }

  lemma VisitStep(st: Build, pkg: string)
    requires pkg !in st.visited
    ensures Extends(st, st.(visited := st.visited + {pkg}, fetched := st.fetched + [pkg]))
    ensures FetchedOnce(st, st.(visited := st.visited + {pkg}, fetched := st.fetched + [pkg]))
  {
    var st1 := st.(visited := st.visited + {pkg}, fetched := st.fetched + [pkg]);
    assert st1.fetched[|st.fetched|..] == [pkg];
  }

  /** A build only adds: see `Extends`; and it fetches each package at
      most once, exactly the packages it newly visits. */
  lemma {:induction false} NodeGrows(src: Source, filter: string, pkg: string, path: seq<string>, st: Build)
    ensures Extends(st, DfsNode(src, filter, pkg, path, st))
    ensures FetchedOnce(st, DfsNode(src, filter, pkg, path, st))
    decreases |Names(src) - st.visited|, 1, 0
  {
    if Filtered(filter, pkg) {
      StaysPut(st);
    } else if pkg in path {
      CycleStep(st, path[IndexOf(path, pkg)..] + [pkg]);
    } else if pkg in st.visited {
      StaysPut(st);
    } else {
      var st1 := st.(visited := st.visited + {pkg}, fetched := st.fetched + [pkg]);
      VisitStep(st, pkg);
      match Fetch(src, pkg)
      case None =>
      case Some(deps) =>
        CardDiffMono(Names(src), st.visited, st1.visited);
        if deps != [] {
          CardDiffShrinks(Names(src), st.visited, st1.visited, pkg);
        }
        ListGrows(src, filter, pkg, path + [pkg], deps, st1);
        ExtendsTransitive(st, st1, DfsList(src, filter, pkg, path + [pkg], deps, st1));
    }
  }

  lemma {:induction false} ListGrows(src: Source, filter: string, pkg: string, path: seq<string>, deps: seq<string>, st: Build)
    ensures Extends(st, DfsList(src, filter, pkg, path, deps, st))
    ensures FetchedOnce(st, DfsList(src, filter, pkg, path, deps, st))
    decreases |Names(src) - st.visited|, if deps == [] then 0 else 2, |deps|
  {
    if deps == [] {
      StaysPut(st);
    } else if Filtered(filter, deps[0]) {
      ListGrows(src, filter, pkg, path, deps[1..], st);
    } else {
      var st1 := st.(graph := AddEdge(filter, st.graph, pkg, deps[0]));
      AddEdgeGrows(filter, st.graph, pkg, deps[0]);
      EdgeStep(st, st1.graph);
      NodeGrows(src, filter, deps[0], path, st1);
      var st2 := DfsNode(src, filter, deps[0], path, st1);
      CardDiffMono(Names(src), st.visited, st2.visited);
      ListGrows(src, filter, pkg, path, deps[1..], st2);
      ExtendsTransitive(st, st1, st2);
      ExtendsTransitive(st, st2, DfsList(src, filter, pkg, path, deps[1..], st2));
    }
  }

  /** The current path is a walk of the graph ending with an edge into `pkg`. */
  ghost predicate PathLeadsTo(g: Graph, path: seq<string>, pkg: string) {
    IsWalk(g, path) && (path != [] ==> path[|path| - 1] in g && pkg in g[path[|path| - 1]])
  }

  /** The cycle recorded when `pkg` is met again on the path is a closed walk. */
  lemma ClosingCycle(g: Graph, path: seq<string>, pkg: string)
    requires PathLeadsTo(g, path, pkg) && pkg in path
    ensures IsCycle(g, path[IndexOf(path, pkg)..] + [pkg])
  {
    var i := IndexOf(path, pkg);
    var c := path[i..] + [pkg];
    forall j | 0 <= j < |c| - 1
      ensures c[j] in g && c[j + 1] in g[c[j]]
    {
      if j < |path| - i - 1 {
        assert c[j] == path[i + j] && c[j + 1] == path[i + j + 1];
      } else {
        assert c[j] == path[|path| - 1] && c[j + 1] == pkg;
      }
    }
  }

  lemma PathStep(g: Graph, path: seq<string>, pkg: string)
    requires PathLeadsTo(g, path, pkg)
    ensures IsWalk(g, path + [pkg])
  {
    var path' := path + [pkg];
    forall j | 0 <= j < |path'| - 1
      ensures path'[j] in g && path'[j + 1] in g[path'[j]]
    {
      if j < |path| - 1 {
        assert path'[j] == path[j] && path'[j + 1] == path[j + 1];
      }
    }
  }

  /** A build keeps the invariant: the graph stays closed and free of
      filtered names, and every recorded cycle is a closed walk of the graph
      (the edge into a package is added before the package is visited). */
  lemma {:induction false} NodeKeepsValid(src: Source, filter: string, pkg: string, path: seq<string>, st: Build)
    requires Valid(filter, st.graph, st.cycles)
    requires PathLeadsTo(st.graph, path, pkg)
    ensures Valid(filter, DfsNode(src, filter, pkg, path, st).graph, DfsNode(src, filter, pkg, path, st).cycles)
    decreases |Names(src) - st.visited|, 1, 0
  {
    if Filtered(filter, pkg) {
    } else if pkg in path {
      ClosingCycle(st.graph, path, pkg);
    } else if pkg in st.visited {
    } else {
      var st1 := st.(visited := st.visited + {pkg}, fetched := st.fetched + [pkg]);
      match Fetch(src, pkg)
      case None =>
      case Some(deps) =>
        CardDiffMono(Names(src), st.visited, st1.visited);
        if deps != [] {
          CardDiffShrinks(Names(src), st.visited, st1.visited, pkg);
        }
        PathStep(st.graph, path, pkg);
        ListKeepsValid(src, filter, pkg, path + [pkg], deps, st1);
    }
  }

  lemma {:induction false} ListKeepsValid(src: Source, filter: string, pkg: string, path: seq<string>, deps: seq<string>, st: Build)
    requires Valid(filter, st.graph, st.cycles)
    requires IsWalk(st.graph, path) && path != [] && path[|path| - 1] == pkg && !Filtered(filter, pkg)
    ensures Valid(filter, DfsList(src, filter, pkg, path, deps, st).graph, DfsList(src, filter, pkg, path, deps, st).cycles)
    decreases |Names(src) - st.visited|, if deps == [] then 0 else 2, |deps|
  {
    if deps == [] {
    } else if Filtered(filter, deps[0]) {
      ListKeepsValid(src, filter, pkg, path, deps[1..], st);
    } else {
      var st1 := st.(graph := AddEdge(filter, st.graph, pkg, deps[0]));
      AddEdgeKeepsShape(filter, st.graph, pkg, deps[0]);
      AddEdgeGrows(filter, st.graph, pkg, deps[0]);
      forall c | c in st1.cycles ensures IsCycle(st1.graph, c) {
        WalkGrows(st.graph, st1.graph, c);
      }
      WalkGrows(st.graph, st1.graph, path);
      NodeKeepsValid(src, filter, deps[0], path, st1);
      NodeGrows(src, filter, deps[0], path, st1);
      var st2 := DfsNode(src, filter, deps[0], path, st1);
      WalkGrows(st1.graph, st2.graph, path);
      CardDiffMono(Names(src), st.visited, st2.visited);
      ListKeepsValid(src, filter, pkg, path, deps[1..], st2);
    }
  }

  /** `p -> d` is an edge the source reports. */
  ghost predicate SourceEdge(src: Source, p: string, d: string) {
    p in src.deps && d in src.deps[p]
  }

  /** Every edge of `r` was already in `g` or is reported by the source. */
  ghost predicate EdgesFromSource(src: Source, g: Graph, r: Graph) {
    forall p, d :: p in r && d in r[p] ==> (p in g && d in g[p]) || SourceEdge(src, p, d)
  }

  /** Every package first visited between `st` and `r` whose fetch
      succeeded has an edge to each unfiltered name the source reported. */
  ghost predicate ExpandedFully(src: Source, filter: string, st: Build, r: Build) {
    forall p :: p in r.visited && p !in st.visited && p in src.deps && p !in src.failing ==>
      forall d :: d in src.deps[p] && !Filtered(filter, d) ==> p in r.graph && d in r.graph[p]
  }

  lemma EdgesCompose(src: Source, g1: Graph, g2: Graph, g3: Graph)
    requires EdgesFromSource(src, g1, g2) && EdgesFromSource(src, g2, g3)
    ensures EdgesFromSource(src, g1, g3)
  {
  }

  lemma ExpandedCompose(src: Source, filter: string, a: Build, b: Build, c: Build)
    requires ExpandedFully(src, filter, a, b) && ExpandedFully(src, filter, b, c)
    requires a.visited <= b.visited && Grows(b.graph, c.graph)
    ensures ExpandedFully(src, filter, a, c)
  {
  }

  /** Adding a source edge, then building from its target and from the
      remaining names: the edges added come from the source, and every
      package newly visited along the way is fully expanded. */
  lemma EdgeThenBuild(src: Source, filter: string, pkg: string, dep: string, st: Build, st2: Build, r: Build)
    requires SourceEdge(src, pkg, dep) && !Filtered(filter, pkg) && !Filtered(filter, dep)
    requires EdgesFromSource(src, AddEdge(filter, st.graph, pkg, dep), st2.graph)
    requires ExpandedFully(src, filter, st.(graph := AddEdge(filter, st.graph, pkg, dep)), st2)
    requires EdgesFromSource(src, st2.graph, r.graph) && ExpandedFully(src, filter, st2, r)
    requires Grows(AddEdge(filter, st.graph, pkg, dep), st2.graph) && Grows(st2.graph, r.graph)
    requires st.visited <= st2.visited
    ensures EdgesFromSource(src, st.graph, r.graph)
    ensures ExpandedFully(src, filter, st, r)
    ensures pkg in r.graph && dep in r.graph[pkg]
  {
    var g1 := AddEdge(filter, st.graph, pkg, dep);
    assert EdgesFromSource(src, st.graph, g1);
    EdgesCompose(src, st.graph, g1, st2.graph);
    EdgesCompose(src, st.graph, st2.graph, r.graph);
    ExpandedCompose(src, filter, st, st2, r);
    GrowsTransitive(g1, st2.graph, r.graph);
  }

  /** The edges a build adds are exactly the unfiltered source edges out
      of the packages it visits for the first time. */
  lemma {:induction false} NodeEdges(src: Source, filter: string, pkg: string, path: seq<string>, st: Build)
    ensures EdgesFromSource(src, st.graph, DfsNode(src, filter, pkg, path, st).graph)
    ensures ExpandedFully(src, filter, st, DfsNode(src, filter, pkg, path, st))
    decreases |Names(src) - st.visited|, 1, 0
  {
    if Filtered(filter, pkg) || pkg in path || pkg in st.visited {
    } else {
      var st1 := st.(visited := st.visited + {pkg}, fetched := st.fetched + [pkg]);
      match Fetch(src, pkg)
      case None =>
      case Some(deps) =>
        CardDiffMono(Names(src), st.visited, st1.visited);
        if deps != [] {
          CardDiffShrinks(Names(src), st.visited, st1.visited, pkg);
        }
        ListEdges(src, filter, pkg, path + [pkg], deps, st1);
    }
  }

  lemma {:induction false} ListEdges(src: Source, filter: string, pkg: string, path: seq<string>, deps: seq<string>, st: Build)
    requires !Filtered(filter, pkg)
    requires forall d :: d in deps ==> SourceEdge(src, pkg, d)
    ensures EdgesFromSource(src, st.graph, DfsList(src, filter, pkg, path, deps, st).graph)
    ensures ExpandedFully(src, filter, st, DfsList(src, filter, pkg, path, deps, st))
    ensures forall d :: d in deps && !Filtered(filter, d) ==>
      pkg in DfsList(src, filter, pkg, path, deps, st).graph && d in DfsList(src, filter, pkg, path, deps, st).graph[pkg]
    decreases |Names(src) - st.visited|, if deps == [] then 0 else 2, |deps|
  {
    if deps == [] {
    } else if Filtered(filter, deps[0]) {
      ListEdges(src, filter, pkg, path, deps[1..], st);
      assert forall d :: d in deps && !Filtered(filter, d) ==> d in deps[1..];
    } else {
      var st1 := st.(graph := AddEdge(filter, st.graph, pkg, deps[0]));
      NodeEdges(src, filter, deps[0], path, st1);
      NodeGrows(src, filter, deps[0], path, st1);
      var st2 := DfsNode(src, filter, deps[0], path, st1);
      CardDiffMono(Names(src), st.visited, st2.visited);
      ListEdges(src, filter, pkg, path, deps[1..], st2);
      ListGrows(src, filter, pkg, path, deps[1..], st2);
      var r := DfsList(src, filter, pkg, path, deps[1..], st2);
      assert deps[0] in deps;
      EdgeThenBuild(src, filter, pkg, deps[0], st, st2, r);
      assert forall d :: d in deps && !Filtered(filter, d) ==> d == deps[0] || d in deps[1..];
    }
  }

  /** Every package first visited between `st` and `r` whose fetch
      succeeded has each unfiltered name the source reported visited too. */
  ghost predicate VisitsClosed(src: Source, filter: string, st: Build, r: Build) {
    forall p, d ::
      p in r.visited && p !in st.visited && p in src.deps && p !in src.failing && d in src.deps[p] && !Filtered(filter, d)
      ==> d in r.visited
  }

  /** A build visits `pkg` unless it is filtered (a name on the current
      path was visited when it was pushed), and whatever it newly visits
      has its unfiltered dependencies visited as well. */
  lemma {:induction false} NodeVisits(src: Source, filter: string, pkg: string, path: seq<string>, st: Build)
    requires forall x :: x in path ==> x in st.visited
    ensures !Filtered(filter, pkg) ==> pkg in DfsNode(src, filter, pkg, path, st).visited
    ensures VisitsClosed(src, filter, st, DfsNode(src, filter, pkg, path, st))
    decreases |Names(src) - st.visited|, 1, 0
  {
    if Filtered(filter, pkg) || pkg in path || pkg in st.visited {
    } else {
      var st1 := st.(visited := st.visited + {pkg}, fetched := st.fetched + [pkg]);
      match Fetch(src, pkg)
      case None =>
      case Some(deps) =>
        CardDiffMono(Names(src), st.visited, st1.visited);
        if deps != [] {
          CardDiffShrinks(Names(src), st.visited, st1.visited, pkg);
        }
        ListVisits(src, filter, pkg, path + [pkg], deps, st1);
    }
  }

  lemma {:induction false} ListVisits(src: Source, filter: string, pkg: string, path: seq<string>, deps: seq<string>, st: Build)
    requires forall x :: x in path ==> x in st.visited
    ensures forall d :: d in deps && !Filtered(filter, d) ==> d in DfsList(src, filter, pkg, path, deps, st).visited
    ensures VisitsClosed(src, filter, st, DfsList(src, filter, pkg, path, deps, st))
    decreases |Names(src) - st.visited|, if deps == [] then 0 else 2, |deps|
  {
    if deps == [] {
    } else if Filtered(filter, deps[0]) {
      ListVisits(src, filter, pkg, path, deps[1..], st);
      assert forall d :: d in deps && !Filtered(filter, d) ==> d in deps[1..];
    } else {
      var st1 := st.(graph := AddEdge(filter, st.graph, pkg, deps[0]));
      NodeVisits(src, filter, deps[0], path, st1);
      var st2 := DfsNode(src, filter, deps[0], path, st1);
      CardDiffMono(Names(src), st.visited, st2.visited);
      ListVisits(src, filter, pkg, path, deps[1..], st2);
      assert forall d :: d in deps && !Filtered(filter, d) ==> d == deps[0] || d in deps[1..];
    }
  }

  /** What a top-level build from `root` guarantees: the invariant holds;
      every package is fetched at most once and exactly the visited
      packages are fetched; every edge is an edge of the source; and every
      visited package whose fetch succeeded has an edge to each unfiltered
      name the source reported for it; the root is visited unless filtered,
      and so is every unfiltered name reported for a visited package. */
  lemma BuildGuarantees(src: Source, filter: string, root: string)
    ensures Valid(filter, BuildFrom(src, filter, root).graph, BuildFrom(src, filter, root).cycles)
    ensures Distinct(BuildFrom(src, filter, root).fetched)
    ensures forall x :: x in BuildFrom(src, filter, root).fetched <==> x in BuildFrom(src, filter, root).visited
    ensures forall p, d :: p in BuildFrom(src, filter, root).graph && d in BuildFrom(src, filter, root).graph[p] ==>
      SourceEdge(src, p, d)
    ensures forall p :: p in BuildFrom(src, filter, root).visited && p in src.deps && p !in src.failing ==>
      forall d :: d in src.deps[p] && !Filtered(filter, d) ==>
        p in BuildFrom(src, filter, root).graph && d in BuildFrom(src, filter, root).graph[p]
    ensures !Filtered(filter, root) ==> root in BuildFrom(src, filter, root).visited
    ensures forall p, d ::
      p in BuildFrom(src, filter, root).visited && p in src.deps && p !in src.failing && d in src.deps[p] && !Filtered(filter, d)
      ==> d in BuildFrom(src, filter, root).visited
  {
    var r := BuildFrom(src, filter, root);
    NodeKeepsValid(src, filter, root, [], Start());
    NodeGrows(src, filter, root, [], Start());
    assert r.fetched[0..] == r.fetched;
    NodeEdges(src, filter, root, [], Start());
    NodeVisits(src, filter, root, [], Start());
  }
}
