/** The D2 diagram: every package of the graph declared once in sorted
    order (the root with a highlighted style block), then every edge once,
    ordered by package and then by dependency (edges out of the root
    styled), then, when cycles were recorded, a red block for each
    consecutive pair of a cycle that is an edge of the diagram. */
module D2Diagram {
  import opened Text
  import opened GraphModel
  import opened DependencyGraphs

  type Edge = (string, string)

  // ---------------------------------------------------------------------
  // The pieces of the text

  const Heading: string := "# Граф зависимостей пакета"
  const CycleHeading: string := "# Циклические зависимости"

  /** The two comment lines and the empty line that open the diagram. */
  function Preamble(root: string): seq<string> {
    [Heading, "# Корневой пакет: " + root, ""]
  }

  function Quoted(name: string): string {
    "\"" + name + "\""
  }

  /** The declaration of `pkg`: a five-line style block for the root, a
      single quoted name otherwise. */
  function NodeLines(pkg: string, root: string): seq<string> {
    if pkg == root then
      [Quoted(pkg) + ": {",
       "  style.fill: \"#e1f5ff\"",
       "  style.stroke: \"#01579b\"",
       "  style.stroke-width: 3",
       "}"]
    else [Quoted(pkg)]
  }

  /** The edge `pkg -> dep`: a four-line style block when it leaves the
      root, a single line otherwise. */
  function EdgeLines(e: Edge, root: string): seq<string> {
    if e.0 == root then
      [Quoted(e.0) + " -> " + Quoted(e.1) + ": {",
       "  style.stroke: \"#0277bd\"",
       "  style.stroke-width: 2",
       "}"]
    else [Quoted(e.0) + " -> " + Quoted(e.1)]
  }

  /** The red block that marks the edge `e` as part of a cycle. */
  function CycleEdgeLines(e: Edge): seq<string> {
    [Quoted(e.0) + " -> " + Quoted(e.1) + ": {",
     "  style.stroke: \"#d32f2f\"",
     "  style.stroke-width: 2",
     "  style.stroke-dash: 3",
     "}"]
  }

  // ---------------------------------------------------------------------
  // The diagram as a function of the graph

  /** The declarations of `pkgs[i..]`. */
  function Nodes(pkgs: seq<string>, i: nat, root: string): seq<string>
    requires i <= |pkgs|
    decreases |pkgs| - i
  {
    if i == |pkgs| then [] else NodeLines(pkgs[i], root) + Nodes(pkgs, i + 1, root)
  }

  /** The edges out of `p` to `deps[j..]`, in that order. */
  function EdgesFrom(p: string, deps: seq<string>, j: nat): (r: seq<Edge>)
    requires j <= |deps|
    decreases |deps| - j
  {
    if j == |deps| then [] else [(p, deps[j])] + EdgesFrom(p, deps, j + 1)
  }

  /** The edges out of `p`: its direct dependencies in sorted order. */
  ghost function PackageEdges(g: Graph, p: string): seq<Edge> {
    EdgesFrom(p, SortedSeq(Deps(g, p)), 0)
  }

  /** The edges of the diagram out of `pkgs[i..]`, package by package. */
  ghost function EdgeList(g: Graph, pkgs: seq<string>, i: nat): seq<Edge>
    requires i <= |pkgs|
    decreases |pkgs| - i
  {
    if i == |pkgs| then [] else PackageEdges(g, pkgs[i]) + EdgeList(g, pkgs, i + 1)
  }

  /** The lines of a list of edges. */
  function EdgeBlock(edges: seq<Edge>, root: string): seq<string> {
    if edges == [] then [] else EdgeLines(edges[0], root) + EdgeBlock(edges[1..], root)
  }

  /** The red blocks of cycle `c` from position `j` on: one for each
      consecutive pair that is an edge of the graph. */
  ghost function CycleHighlights(g: Graph, c: seq<string>, j: nat): seq<string>
    decreases |c| - j
  {
    if j + 1 >= |c| then []
    else
      (if c[j + 1] in Deps(g, c[j]) then CycleEdgeLines((c[j], c[j + 1])) else [])
        + CycleHighlights(g, c, j + 1)
  }

  /** The red blocks of `cycles[k..]`, cycle by cycle. */
  ghost function CyclesHighlights(g: Graph, cycles: seq<seq<string>>, k: nat): seq<string>
    requires k <= |cycles|
    decreases |cycles| - k
  {
    if k == |cycles| then [] else CycleHighlights(g, cycles[k], 0) + CyclesHighlights(g, cycles, k + 1)
  }

  /** The cycle section: present exactly when a cycle was recorded. */
  ghost function CycleSection(g: Graph, cycles: seq<seq<string>>): (r: seq<string>)
    ensures r != [] <==> cycles != []
  {
    if cycles == [] then [] else ["", CycleHeading] + CyclesHighlights(g, cycles, 0)
  }

  /** The lines of `generate()`. */
  ghost function D2Lines(g: Graph, cycles: seq<seq<string>>, root: string): seq<string> {
    var pkgs := SortedSeq(AllPackages(g));
    Preamble(root) + Nodes(pkgs, 0, root) + [""] + EdgeBlock(EdgeList(g, pkgs, 0), root) + CycleSection(g, cycles)
  }

  // ---------------------------------------------------------------------
  // What the diagram shows

  /** No element occurs twice. */
  ghost predicate DistinctEdges(s: seq<Edge>) {
    forall a, b :: 0 <= a < b < |s| ==> s[a] != s[b]
  }

  /** The order of the edge section: by package, then by dependency. */
  predicate EdgeLess(x: Edge, y: Edge) {
    Less(x.0, y.0) || (x.0 == y.0 && Less(x.1, y.1))
  }

  ghost predicate EdgesSorted(s: seq<Edge>) {
    forall a, b :: 0 <= a < b < |s| ==> EdgeLess(s[a], s[b])
  }

  lemma SortedDistinct(s: seq<Edge>)
    requires EdgesSorted(s)
    ensures DistinctEdges(s)
  {
    forall a, b | 0 <= a < b < |s| ensures s[a] != s[b] {
      LessIrreflexive(s[a].0);
      LessIrreflexive(s[a].1);
    }
  }

  /** The edges out of `p` are `p` paired with `deps[j..]`, in order. */
  lemma {:induction false} EdgesFromFacts(p: string, deps: seq<string>, j: nat)
    requires j <= |deps| && SortedStrictly(deps)
    ensures forall e :: e in EdgesFrom(p, deps, j) <==> e.0 == p && e.1 in deps[j..]
    ensures EdgesSorted(EdgesFrom(p, deps, j))
    decreases |deps| - j
  {
    if j < |deps| {
      EdgesFromFacts(p, deps, j + 1);
      var r := EdgesFrom(p, deps, j);
      var rest := EdgesFrom(p, deps, j + 1);
      assert r == [(p, deps[j])] + rest;
      assert deps[j..] == [deps[j]] + deps[j + 1..];
      forall a, b | 0 <= a < b < |r| ensures EdgeLess(r[a], r[b]) {
        if a == 0 {
          assert r[b] in rest;
          var k :| j + 1 <= k < |deps| && deps[k] == r[b].1;
        } else {
          assert r[a] == rest[a - 1] && r[b] == rest[b - 1];
        }
      }
    }
  }

  /** Sorted lists `x` and `y` where everything in `x` precedes
      everything in `y` make a sorted list. */
  lemma SortedAppend(x: seq<Edge>, y: seq<Edge>)
    requires EdgesSorted(x) && EdgesSorted(y)
    requires forall u, v :: u in x && v in y ==> EdgeLess(u, v)
    ensures EdgesSorted(x + y)
  {
    var s := x + y;
    forall a, b | 0 <= a < b < |s| ensures EdgeLess(s[a], s[b]) {
      if b < |x| {
        assert s[a] == x[a] && s[b] == x[b];
      } else if a >= |x| {
        assert s[a] == y[a - |x|] && s[b] == y[b - |x|];
      } else {
        assert s[a] == x[a] && s[b] == y[b - |x|];
        assert s[a] in x && s[b] in y;
      }
    }
  }

  /** The edge list from `pkgs[i]` on holds exactly the graph's edges out
      of `pkgs[i..]`, ordered by package and then by dependency. */
  lemma {:induction false} EdgeListFacts(g: Graph, pkgs: seq<string>, i: nat)
    requires i <= |pkgs| && SortedStrictly(pkgs)
    ensures forall e :: e in EdgeList(g, pkgs, i) <==> e.0 in pkgs[i..] && e.1 in Deps(g, e.0)
    ensures EdgesSorted(EdgeList(g, pkgs, i))
    decreases |pkgs| - i
  {
    if i < |pkgs| {
      var p := pkgs[i];
      var deps := SortedSeq(Deps(g, p));
      SortedSeqSorted(Deps(g, p));
      EdgesFromFacts(p, deps, 0);
      EdgeListFacts(g, pkgs, i + 1);
      var here := EdgesFrom(p, deps, 0);
      var rest := EdgeList(g, pkgs, i + 1);
      assert deps[0..] == deps;
      assert pkgs[i..] == [p] + pkgs[i + 1..];
      forall u, v | u in here && v in rest ensures EdgeLess(u, v) {
        var k :| i + 1 <= k < |pkgs| && pkgs[k] == v.0;
      }
      SortedAppend(here, rest);
    }
  }

  /** Every edge of the graph appears exactly once in the edge section,
      and nothing else does. */
  lemma EdgeListExact(g: Graph)
    ensures var edges := EdgeList(g, SortedSeq(AllPackages(g)), 0);
      && (forall e :: e in edges <==> e.1 in Deps(g, e.0))
      && DistinctEdges(edges)
      && EdgesSorted(edges)
  {
    var pkgs := SortedSeq(AllPackages(g));
    SortedSeqSorted(AllPackages(g));
    EdgeListFacts(g, pkgs, 0);
    assert pkgs[0..] == pkgs;
    SortedDistinct(EdgeList(g, pkgs, 0));
  }

  /** The declarations: one line per package, and four more for the root
      when it is among them. */
  lemma {:induction false} NodesSize(pkgs: seq<string>, i: nat, root: string)
    requires i <= |pkgs| && SortedStrictly(pkgs)
    ensures |Nodes(pkgs, i, root)| == |pkgs| - i + if root in pkgs[i..] then 4 else 0
    decreases |pkgs| - i
  {
    if i < |pkgs| {
      NodesSize(pkgs, i + 1, root);
      assert pkgs[i..] == [pkgs[i]] + pkgs[i + 1..];
      if pkgs[i] == root {
        forall k | i + 1 <= k < |pkgs| ensures pkgs[k] != root {
          LessIrreflexive(root);
        }
      }
    }
  }

  /** Every consecutive pair of a walk of the graph is an edge, so a
      recorded cycle gets one red block per pair. */
  lemma {:induction false} WalkAllRed(g: Graph, c: seq<string>, j: nat)
    requires IsWalk(g, c) && j < |c|
    ensures |CycleHighlights(g, c, j)| == 5 * (|c| - 1 - j)
    decreases |c| - j
  {
    if j + 1 < |c| {
      assert c[j + 1] in Deps(g, c[j]);
      WalkAllRed(g, c, j + 1);
    }
  }

  /** Under the graph's invariant every pair of every recorded cycle is
      drawn red: the cycle section holds the two heading lines and five
      lines per pair. */
  lemma {:induction false} CyclesAllRed(g: Graph, cycles: seq<seq<string>>, k: nat)
    requires k <= |cycles|
    requires forall c :: c in cycles ==> IsCycle(g, c)
    ensures |CyclesHighlights(g, cycles, k)| == 5 * PairCount(cycles, k)
    decreases |cycles| - k
  {
    if k < |cycles| {
      assert cycles[k] in cycles;
      WalkAllRed(g, cycles[k], 0);
      CyclesAllRed(g, cycles, k + 1);
    }
  }

  /** The number of consecutive pairs in `cycles[k..]`. */
  function PairCount(cycles: seq<seq<string>>, k: nat): nat
    requires k <= |cycles|
    decreases |cycles| - k
  {
    if k == |cycles| then 0
    else (if |cycles[k]| > 0 then |cycles[k]| - 1 else 0) + PairCount(cycles, k + 1)
  }

  /** The consecutive pairs of `c` from position `j` on that are edges of
      the graph, in order. */
  ghost function RedPairs(g: Graph, c: seq<string>, j: nat): seq<Edge>
    decreases |c| - j
  {
    if j + 1 >= |c| then []
    else (if c[j + 1] in Deps(g, c[j]) then [(c[j], c[j + 1])] else []) + RedPairs(g, c, j + 1)
  }

  /** The red blocks of a list of edges, one after the other. */
  function RedBlocks(es: seq<Edge>): seq<string> {
    if es == [] then [] else CycleEdgeLines(es[0]) + RedBlocks(es[1..])
  }

  /** A consecutive pair of `c` from position `j` on is among the red
      pairs exactly when it is an edge of the graph. */
  lemma {:induction false} RedPairsExact(g: Graph, c: seq<string>, j: nat)
    ensures forall e :: e in RedPairs(g, c, j) <==>
      e.1 in Deps(g, e.0) && exists k :: j <= k < |c| - 1 && c[k] == e.0 && c[k + 1] == e.1
    decreases |c| - j
  {
    if j + 1 < |c| {
      RedPairsExact(g, c, j + 1);
      var rest := RedPairs(g, c, j + 1);
      forall e: Edge | e.1 in Deps(g, e.0) && exists k :: j <= k < |c| - 1 && c[k] == e.0 && c[k + 1] == e.1
        ensures e in RedPairs(g, c, j)
      {
        var k :| j <= k < |c| - 1 && c[k] == e.0 && c[k + 1] == e.1;
        if k > j {
          assert e in rest;
        }
      }
    }
  }

  /** The highlights of a cycle are decided pair by pair: they are one red
      block for each consecutive pair, in order, that is an edge of the
      graph, and a pair gets a block exactly when it is an edge; a pair
      that is not an edge is never drawn red. */
  lemma {:induction false} NoEdgeNoRed(g: Graph, c: seq<string>, j: nat)
    ensures CycleHighlights(g, c, j) == RedBlocks(RedPairs(g, c, j))
    ensures forall e :: e in RedPairs(g, c, j) <==>
      e.1 in Deps(g, e.0) && exists k :: j <= k < |c| - 1 && c[k] == e.0 && c[k + 1] == e.1
    decreases |c| - j
  {
    RedPairsExact(g, c, j);
    if j + 1 < |c| {
      NoEdgeNoRed(g, c, j + 1);
      var rest := RedPairs(g, c, j + 1);
      if c[j + 1] in Deps(g, c[j]) {
        var p := (c[j], c[j + 1]);
        assert ([p] + rest)[0] == p && ([p] + rest)[1..] == rest;
      } else {
        assert [] + rest == rest;
      }
    }
  }

  // ---------------------------------------------------------------------
  // One step of the generator's loops

  lemma NodesStep(pkgs: seq<string>, i: nat, root: string, lines: seq<string>, whole: seq<string>)
    requires i < |pkgs|
    requires lines + Nodes(pkgs, i, root) == whole
    ensures lines + NodeLines(pkgs[i], root) + Nodes(pkgs, i + 1, root) == whole
  {
  }

  /** The lines of two lists of edges, one after the other. */
  lemma {:induction false} EdgeBlockAppend(x: seq<Edge>, y: seq<Edge>, root: string)
    ensures EdgeBlock(x + y, root) == EdgeBlock(x, root) + EdgeBlock(y, root)
    decreases |x|
  {
    if x != [] {
      assert (x + y)[0] == x[0] && (x + y)[1..] == x[1..] + y;
      EdgeBlockAppend(x[1..], y, root);
      calc {
        EdgeBlock(x + y, root);
        EdgeLines(x[0], root) + EdgeBlock(x[1..] + y, root);
        EdgeLines(x[0], root) + (EdgeBlock(x[1..], root) + EdgeBlock(y, root));
        EdgeLines(x[0], root) + EdgeBlock(x[1..], root) + EdgeBlock(y, root);
      }
    } else {
      assert x + y == y;
    }
  }

  /** A list with no repeats: the head of a suffix is not in the prefix. */
  lemma DistinctSplit(done: seq<Edge>, rest: seq<Edge>)
    requires DistinctEdges(done + rest) && rest != []
    ensures rest[0] !in done
  {
    var s := done + rest;
    forall a | 0 <= a < |done| ensures done[a] != rest[0] {
      assert s[a] == done[a] && s[|done|] == rest[0];
    }
  }

  /** One edge out of `p`: it is new, and it is the next one drawn. */
  lemma EdgesFromStep(p: string, deps: seq<string>, j: nat, root: string,
                      lines: seq<string>, whole: seq<string>, done: seq<Edge>, edges: seq<Edge>)
    requires j < |deps|
    requires lines + EdgeBlock(EdgesFrom(p, deps, j), root) == whole
    requires done + EdgesFrom(p, deps, j) == edges && DistinctEdges(edges)
    ensures (p, deps[j]) !in done
    ensures lines + EdgeLines((p, deps[j]), root) + EdgeBlock(EdgesFrom(p, deps, j + 1), root) == whole
    ensures done + [(p, deps[j])] + EdgesFrom(p, deps, j + 1) == edges
  {
    var rest := EdgesFrom(p, deps, j);
    assert rest == [(p, deps[j])] + EdgesFrom(p, deps, j + 1);
    DistinctSplit(done, rest);
  }

  /** One package: its edges come first in what is left of the list. */
  lemma EdgeListStep(g: Graph, pkgs: seq<string>, i: nat, root: string,
                     lines: seq<string>, whole: seq<string>, done: seq<Edge>, edges: seq<Edge>)
    requires i < |pkgs|
    requires lines + EdgeBlock(EdgeList(g, pkgs, i), root) == whole
    requires done + EdgeList(g, pkgs, i) == edges && DistinctEdges(edges)
    ensures DistinctEdges(done + PackageEdges(g, pkgs[i]))
    ensures lines + EdgeBlock(PackageEdges(g, pkgs[i]), root) + EdgeBlock(EdgeList(g, pkgs, i + 1), root) == whole
    ensures done + PackageEdges(g, pkgs[i]) + EdgeList(g, pkgs, i + 1) == edges
  {
    var here := PackageEdges(g, pkgs[i]);
    var later := EdgeList(g, pkgs, i + 1);
    assert EdgeList(g, pkgs, i) == here + later;
    EdgeBlockAppend(here, later, root);
    Regroup(done, here, later, edges);
    Regroup(lines, EdgeBlock(here, root), EdgeBlock(later, root), whole);
    DistinctPrefix(done + here, later);
  }

  lemma DistinctPrefix(x: seq<Edge>, y: seq<Edge>)
    requires DistinctEdges(x + y)
    ensures DistinctEdges(x)
  {
    forall a, b | 0 <= a < b < |x| ensures x[a] != x[b] {
      assert x[a] == (x + y)[a] && x[b] == (x + y)[b];
    }
  }

  lemma HighlightStep(g: Graph, c: seq<string>, j: nat, lines: seq<string>, whole: seq<string>)
    requires j + 1 < |c|
    requires lines + CycleHighlights(g, c, j) == whole
    ensures c[j + 1] in Deps(g, c[j]) ==>
      lines + CycleEdgeLines((c[j], c[j + 1])) + CycleHighlights(g, c, j + 1) == whole
    ensures c[j + 1] !in Deps(g, c[j]) ==> lines + CycleHighlights(g, c, j + 1) == whole
  {
  }

  lemma CyclesStep(g: Graph, cycles: seq<seq<string>>, k: nat, lines: seq<string>, whole: seq<string>)
    requires k < |cycles|
    requires lines + CyclesHighlights(g, cycles, k) == whole
    ensures lines + CycleHighlights(g, cycles[k], 0) + CyclesHighlights(g, cycles, k + 1) == whole
  {
  }

  /** The diagram is the text up to the edges followed by the cycle
      section, which is there only when a cycle was recorded. */
  lemma D2LinesParts(g: Graph, cycles: seq<seq<string>>, root: string, pkgs: seq<string>, upToCycles: seq<string>)
    requires pkgs == SortedSeq(AllPackages(g))
    requires upToCycles == Preamble(root) + Nodes(pkgs, 0, root) + [""] + EdgeBlock(EdgeList(g, pkgs, 0), root)
    ensures cycles == [] ==> D2Lines(g, cycles, root) == upToCycles
    ensures cycles != [] ==>
      D2Lines(g, cycles, root) == upToCycles + ["", CycleHeading] + CyclesHighlights(g, cycles, 0)
  {
  }

  // ---------------------------------------------------------------------
  // The generator object

  class D2Generator {
    const graph: DependencyGraph
    const rootPackage: string

    constructor(graph: DependencyGraph, rootPackage: string)
      ensures this.graph == graph && this.rootPackage == rootPackage
    {
      this.graph := graph;
      this.rootPackage := rootPackage;
    }

    /** `generate()`: the diagram text, lines joined with line breaks. */
    method Generate() returns (r: string)
      ensures r == Join("\n", D2Lines(graph.graph, graph.cycles, rootPackage))
    {
      ghost var g := graph.graph;
      var lines := Preamble(rootPackage);
      var all := graph.GetAllPackages();
      var pkgs := SortNames(all);
      lines := EmitNodes(pkgs, lines);
      lines := lines + [""];
      var visitedEdges;
      lines, visitedEdges := EmitEdges(pkgs, lines);
      D2LinesParts(g, graph.cycles, rootPackage, pkgs, lines);
      var cycles := graph.GetCycles();
      if |cycles| > 0 {
        lines := lines + ["", CycleHeading];
        lines := EmitCycles(cycles, visitedEdges, lines);
      }
      assert lines == D2Lines(g, graph.cycles, rootPackage);
      r := Join("\n", lines);
    }

    /** The declarations loop: the lines of `pkgs` appended, in order. */
    method EmitNodes(pkgs: seq<string>, lines: seq<string>) returns (out: seq<string>)
      ensures out == lines + Nodes(pkgs, 0, rootPackage)
    {
      ghost var whole := lines + Nodes(pkgs, 0, rootPackage);
      out := lines;
      var i := 0;
      while i < |pkgs|
        invariant 0 <= i <= |pkgs|
        invariant out + Nodes(pkgs, i, rootPackage) == whole
      {
        NodesStep(pkgs, i, rootPackage, out, whole);
        out := out + NodeLines(pkgs[i], rootPackage);
        i := i + 1;
      }
    }

    /** The edges loop over the sorted packages. The set of emitted edges
        is kept as the code keeps it; since the edge list has no repeats,
        its check never skips an edge, and at the end it holds exactly the
        graph's edges. */
    method EmitEdges(pkgs: seq<string>, lines: seq<string>) returns (out: seq<string>, visitedEdges: set<Edge>)
      requires pkgs == SortedSeq(AllPackages(graph.graph))
      ensures out == lines + EdgeBlock(EdgeList(graph.graph, pkgs, 0), rootPackage)
      ensures forall e :: e in visitedEdges <==> e.1 in Deps(graph.graph, e.0)
    {
      ghost var g := graph.graph;
      ghost var edges := EdgeList(g, pkgs, 0);
      assert DistinctEdges(edges) by { EdgeListExact(g); }
      ghost var whole := lines + EdgeBlock(edges, rootPackage);
      ghost var done: seq<Edge> := [];
      out, visitedEdges := lines, {};
      var i := 0;
      while i < |pkgs|
        invariant 0 <= i <= |pkgs|
        invariant done + EdgeList(g, pkgs, i) == edges
        invariant out + EdgeBlock(EdgeList(g, pkgs, i), rootPackage) == whole
        invariant forall e :: e in visitedEdges <==> e in done
      {
        EdgeListStep(g, pkgs, i, rootPackage, out, whole, done, edges);
        out, visitedEdges := EmitPackageEdges(pkgs[i], out, visitedEdges, done);
        done := done + PackageEdges(g, pkgs[i]);
        i := i + 1;
      }
      assert done == edges;
      EdgeListExact(g);
    }

    /** The body of the edges loop for package `p`: its sorted direct
        dependencies, each edge drawn when it is not yet in the set of
        emitted edges. */
    method EmitPackageEdges(p: string, lines: seq<string>, visited: set<Edge>, ghost done: seq<Edge>)
      returns (out: seq<string>, visitedOut: set<Edge>)
      requires DistinctEdges(done + PackageEdges(graph.graph, p))
      requires forall e :: e in visited <==> e in done
      ensures out == lines + EdgeBlock(PackageEdges(graph.graph, p), rootPackage)
      ensures forall e :: e in visitedOut <==> e in done + PackageEdges(graph.graph, p)
    {
      var depSet := graph.GetDirectDependencies(p);
      assert depSet == Deps(graph.graph, p);
      var deps := SortNames(depSet);
      ghost var edges := done + EdgesFrom(p, deps, 0);
      ghost var whole := lines + EdgeBlock(EdgesFrom(p, deps, 0), rootPackage);
      ghost var emitted := done;
      out, visitedOut := lines, visited;
      var j := 0;
      while j < |deps|
        invariant 0 <= j <= |deps|
        invariant emitted + EdgesFrom(p, deps, j) == edges
        invariant out + EdgeBlock(EdgesFrom(p, deps, j), rootPackage) == whole
        invariant forall e :: e in visitedOut <==> e in emitted
      {
        var edge := (p, deps[j]);
        EdgesFromStep(p, deps, j, rootPackage, out, whole, emitted, edges);
        if edge !in visitedOut {
          out := out + EdgeLines(edge, rootPackage);
          visitedOut := visitedOut + {edge};
          emitted := emitted + [edge];
        }
        j := j + 1;
      }
      assert emitted == edges;
    }

    /** The cycles loop: the red blocks of every cycle, in order. */
    method EmitCycles(cycles: seq<seq<string>>, visitedEdges: set<Edge>, lines: seq<string>) returns (out: seq<string>)
      requires forall e :: e in visitedEdges <==> e.1 in Deps(graph.graph, e.0)
      ensures out == lines + CyclesHighlights(graph.graph, cycles, 0)
    {
      ghost var g := graph.graph;
      ghost var whole := lines + CyclesHighlights(g, cycles, 0);
      out := lines;
      var k := 0;
      while k < |cycles|
        invariant 0 <= k <= |cycles|
        invariant out + CyclesHighlights(g, cycles, k) == whole
      {
        CyclesStep(g, cycles, k, out, whole);
        out := EmitCycle(cycles[k], visitedEdges, out);
        k := k + 1;
      }
    }

    /** One cycle: a red block for each consecutive pair that is an
        emitted edge. */
    method EmitCycle(cycle: seq<string>, visitedEdges: set<Edge>, lines: seq<string>) returns (out: seq<string>)
      requires forall e :: e in visitedEdges <==> e.1 in Deps(graph.graph, e.0)
      ensures out == lines + CycleHighlights(graph.graph, cycle, 0)
    {
      ghost var g := graph.graph;
      ghost var whole := lines + CycleHighlights(g, cycle, 0);
      out := lines;
      if |cycle| > 1 {
        var j := 0;
        while j < |cycle| - 1
          invariant 0 <= j <= |cycle| - 1
          invariant out + CycleHighlights(g, cycle, j) == whole
        {
          var edge := (cycle[j], cycle[j + 1]);
          HighlightStep(g, cycle, j, out, whole);
          if edge in visitedEdges {
            out := out + CycleEdgeLines(edge);
          }
          j := j + 1;
        }
      }
    }
  }
}
