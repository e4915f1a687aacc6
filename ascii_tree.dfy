/** The ASCII tree report: the packages reachable from a root drawn as an
    indented tree, either in full (a package is expanded again wherever
    it occurs, a name already on the current path is marked as a cycle)
    or compactly (a package is expanded once, later occurrences are
    marked as shown above; the root is exempt from that check).  The recursive printers are methods that
    append to the list of lines; each is proved to produce exactly the
    lines of the corresponding definition below. */
module AsciiTree {
  import opened Text
  import opened Wrappers
  import opened GraphModel
  import opened DependencyGraphs

  // ---------------------------------------------------------------------
  // The pieces of a line

  function Title(root: string): string {
    TitlePrefix + root
  }

  const TitlePrefix: string := "Зависимости пакета: "

  const CompactNote: string := " (компактное представление)"
  const NoDependencies: string := "(нет зависимостей)"
  const CycleMark: string := " [ЦИКЛ]"
  const ShownMark: string := " [уже показано выше]"

  /** The connector in front of a name. */
  function Branch(isLast: bool): string {
    if isLast then "└── " else "├── "
  }

  /** What the children of a name add to the indentation. */
  function Indent(isLast: bool): string {
    if isLast then "    " else "│   "
  }

  /** None of the fixed pieces of a line holds a line break. */
  lemma PiecesUnbroken()
    ensures '\n' !in TitlePrefix && '\n' !in NoDependencies && '\n' !in CycleMark
    ensures '\n' !in Branch(true) && '\n' !in Branch(false) && '\n' !in Indent(true) && '\n' !in Indent(false)
  {
  }

  /** The three header lines: the title, a rule of 60 `=`, an empty line. */
  function Header(title: string): seq<string> {
    [title, Repeat('=', 60), ""]
  }

  /** The dependencies of `p` in sorted order. */
  ghost function SortedDeps(g: Graph, p: string): (r: seq<string>)
    ensures forall d :: d in r <==> d in Deps(g, p)
    ensures forall d :: d in r ==> d in AllPackages(g)
  {
    SortedSeq(Deps(g, p))
  }

  // ---------------------------------------------------------------------
  // The full tree

  /** `_build_tree(pkg, prefix, is_last, lines, path)`: the lines it
      appends.  A name already on the path is a cycle leaf; otherwise its
      own line (the bare name for the root) and then each sorted
      dependency, one level deeper, with the path extended by the name. */
  ghost function TreeNode(g: Graph, root: string, pkg: string, prefix: string, isLast: bool, path: set<string>): (r: seq<string>)
    requires pkg in AllPackages(g)
    ensures |r| >= 1
    decreases AllPackages(g) - path, 0, 0
  {
    if pkg in path then [prefix + Branch(isLast) + pkg + CycleMark]
    else
      [if pkg == root then pkg else prefix + Branch(isLast) + pkg]
        + TreeChildren(g, root, SortedDeps(g, pkg), 0, prefix + Indent(isLast), path + {pkg})
  }

  /** The subtrees of `deps[i..]`; the last one is drawn as the last. */
  /** The cycle mark: a package already on the path is one marked line
      with nothing under it, and a package not on the path gets no mark. */
  lemma TreeCycleMark(g: Graph, root: string, pkg: string, prefix: string, isLast: bool, path: set<string>)
    requires pkg in AllPackages(g)
    ensures pkg in path ==> TreeNode(g, root, pkg, prefix, isLast, path) == [prefix + Branch(isLast) + pkg + CycleMark]
    ensures pkg !in path ==> TreeNode(g, root, pkg, prefix, isLast, path)[0] != prefix + Branch(isLast) + pkg + CycleMark
  {
    if pkg !in path {
      var marked := prefix + Branch(isLast) + pkg + CycleMark;
      assert |marked| > |prefix + Branch(isLast) + pkg| && |marked| > |pkg|;
    }
  }

  ghost function TreeChildren(g: Graph, root: string, deps: seq<string>, i: nat, prefix: string, path: set<string>): (r: seq<string>)
    requires i <= |deps|
    requires forall d :: d in deps ==> d in AllPackages(g)
    ensures |r| >= |deps| - i
    decreases AllPackages(g) - path, 1, |deps| - i
  {
    if i == |deps| then []
    else TreeNode(g, root, deps[i], prefix, i == |deps| - 1, path) + TreeChildren(g, root, deps, i + 1, prefix, path)
  }

  /** `generate()`: the header and the tree of the root, or a note when
      the root is not a package of the graph. */
  ghost function TreeReport(g: Graph, root: string): seq<string> {
    Header(Title(root))
      + if root in AllPackages(g) then TreeNode(g, root, root, "", true, {}) else [NoDependencies]
  }

  /** Every line of a subtree starts with its prefix, as long as the bare
      root line can only be the first line of the whole tree. */
  lemma {:induction false} TreePrefixed(g: Graph, root: string, pkg: string, prefix: string, isLast: bool, path: set<string>)
    requires pkg in AllPackages(g)
    requires root in path || (pkg == root && prefix == [])
    ensures forall l :: l in TreeNode(g, root, pkg, prefix, isLast, path) ==> prefix <= l
    decreases AllPackages(g) - path, 0, 0
  {
    if pkg !in path {
      var inner := prefix + Indent(isLast);
      ChildrenPrefixed(g, root, SortedDeps(g, pkg), 0, inner, path + {pkg});
      forall l | l in TreeChildren(g, root, SortedDeps(g, pkg), 0, inner, path + {pkg}) ensures prefix <= l {
        assert inner <= l;
        assert l[..|prefix|] == inner[..|prefix|];
      }
    }
  }

  lemma {:induction false} ChildrenPrefixed(g: Graph, root: string, deps: seq<string>, i: nat, prefix: string, path: set<string>)
    requires i <= |deps|
    requires forall d :: d in deps ==> d in AllPackages(g)
    requires root in path
    ensures forall l :: l in TreeChildren(g, root, deps, i, prefix, path) ==> prefix <= l
    decreases AllPackages(g) - path, 1, |deps| - i
  {
    if i < |deps| {
      TreePrefixed(g, root, deps[i], prefix, i == |deps| - 1, path);
      ChildrenPrefixed(g, root, deps, i + 1, prefix, path);
    }
  }

  /** The lines below a name's own line are its subtrees, one level
      deeper: they all start with the prefix and the name's indentation. */
  lemma {:induction false} TreeIndented(g: Graph, root: string, pkg: string, prefix: string, isLast: bool, path: set<string>)
    requires pkg in AllPackages(g)
    requires root in path || pkg == root
    ensures forall k :: 1 <= k < |TreeNode(g, root, pkg, prefix, isLast, path)| ==>
      prefix + Indent(isLast) <= TreeNode(g, root, pkg, prefix, isLast, path)[k]
  {
    if pkg !in path {
      var inner := prefix + Indent(isLast);
      var children := TreeChildren(g, root, SortedDeps(g, pkg), 0, inner, path + {pkg});
      ChildrenPrefixed(g, root, SortedDeps(g, pkg), 0, inner, path + {pkg});
      var r := TreeNode(g, root, pkg, prefix, isLast, path);
      assert r[1..] == children;
      forall k | 1 <= k < |r| ensures inner <= r[k] {
        assert r[k] == children[k - 1] && children[k - 1] in children;
      }
    }
  }

  // ---------------------------------------------------------------------
  // The compact tree

  /** One line of the compact tree: the indentation in front of it, whether
      it is the last of its siblings, the package it names, and whether it
      is a repeat (a package shown before, drawn as a leaf). */
  datatype Row = Row(prefix: string, isLast: bool, name: string, repeat: bool)

  /** The text of a row: a repeat carries the shown mark, and an expanded
      root is its bare name. */
  function RowText(r: Row, root: string): string {
    if r.repeat then r.prefix + Branch(r.isLast) + r.name + ShownMark
    else if r.name == root then r.name
    else r.prefix + Branch(r.isLast) + r.name
  }

  /** The texts of rows, in order. */
  function Texts(rows: seq<Row>, root: string): seq<string> {
    if rows == [] then [] else [RowText(rows[0], root)] + Texts(rows[1..], root)
  }

  /** The shown check of `_build_tree_compact`: `pkg` is drawn as a repeat
      when it was shown before.  As written (`exempt`), the root is exempt
      from the check; without `exempt` it is not. */
  predicate Repeated(exempt: bool, root: string, pkg: string, shown: set<string>) {
    (!exempt || pkg != root) && pkg in shown
  }

  /** Where the compact tree is defined: with the root exempt, the root
      must not list itself (see `SelfLoopNeverEnds`). */
  ghost predicate CompactDefined(exempt: bool, g: Graph, root: string) {
    exempt ==> root !in Deps(g, root)
  }

  /** The set of shown packages after `_build_tree_compact` has drawn
      `pkg` with `shown` already shown: unchanged for a repeat; otherwise
      `pkg` is added and its sorted dependencies are drawn in turn.  An
      exempt root met again is expanded again, but only through packages
      not shown yet, since it does not list itself. */
  ghost function ShownAfter(exempt: bool, g: Graph, root: string, pkg: string, shown: set<string>): (r: set<string>)
    requires pkg in AllPackages(g) && CompactDefined(exempt, g, root)
    ensures shown + {pkg} <= r
    decreases AllPackages(g) - shown, if exempt && pkg == root then 1 else 0, 0
  {
    if Repeated(exempt, root, pkg, shown) then shown
    else ShownAfterAll(exempt, g, root, SortedDeps(g, pkg), 0, shown + {pkg})
  }

  /** The shown set after the packages `deps[i..]` are drawn in turn. */
  ghost function ShownAfterAll(exempt: bool, g: Graph, root: string, deps: seq<string>, i: nat, shown: set<string>)
    : (r: set<string>)
    requires i <= |deps| && CompactDefined(exempt, g, root)
    requires forall d :: d in deps ==> d in AllPackages(g)
    ensures shown <= r
    decreases AllPackages(g) - shown, if exempt && root in deps then 2 else 0, |deps| - i
  {
    if i == |deps| then shown
    else ShownAfterAll(exempt, g, root, deps, i + 1, ShownAfter(exempt, g, root, deps[i], shown))
  }

  /** `_build_tree_compact(pkg, prefix, is_last, lines)`: the rows it
      appends.  A repeat is a single leaf; otherwise the package's own row
      and then its sorted dependencies, one level deeper, each drawn with
      the packages shown before it. */
  ghost function CompactNode(exempt: bool, g: Graph, root: string, pkg: string, prefix: string, isLast: bool,
                             shown: set<string>): (r: seq<Row>)
    requires pkg in AllPackages(g) && CompactDefined(exempt, g, root)
    ensures r != [] && r[0] == Row(prefix, isLast, pkg, Repeated(exempt, root, pkg, shown))
    ensures Repeated(exempt, root, pkg, shown) ==> |r| == 1
    decreases AllPackages(g) - shown, if exempt && pkg == root then 1 else 0, 0
  {
    if Repeated(exempt, root, pkg, shown) then [Row(prefix, isLast, pkg, true)]
    else
      [Row(prefix, isLast, pkg, false)]
        + CompactChildren(exempt, g, root, SortedDeps(g, pkg), 0, prefix + Indent(isLast), shown + {pkg})
  }

  ghost function CompactChildren(exempt: bool, g: Graph, root: string, deps: seq<string>, i: nat, prefix: string,
                                 shown: set<string>): (r: seq<Row>)
    requires i <= |deps| && CompactDefined(exempt, g, root)
    requires forall d :: d in deps ==> d in AllPackages(g)
    ensures |r| >= |deps| - i
    decreases AllPackages(g) - shown, if exempt && root in deps then 2 else 0, |deps| - i
  {
    if i == |deps| then []
    else
      CompactNode(exempt, g, root, deps[i], prefix, i == |deps| - 1, shown)
        + CompactChildren(exempt, g, root, deps, i + 1, prefix, ShownAfter(exempt, g, root, deps[i], shown))
  }

  /** `generate_compact()`: the header, then the compact tree of the root
      or a note when the root is not a package of the graph. */
  ghost function CompactReport(g: Graph, root: string): seq<string>
    requires root !in Deps(g, root)
  {
    Header(Title(root) + CompactNote)
      + if root in AllPackages(g) then Texts(CompactNode(true, g, root, root, "", true, {}), root) else [NoDependencies]
  }

  /** Every package newly shown while drawing `pkg` is `pkg` or reached
      from it, and all its dependencies are shown too. */
  lemma {:induction false} ShownCloses(exempt: bool, g: Graph, root: string, pkg: string, shown: set<string>)
    requires pkg in AllPackages(g) && CompactDefined(exempt, g, root)
    ensures var s := ShownAfter(exempt, g, root, pkg, shown);
      forall x :: x in s && x !in shown ==> Deps(g, x) <= s && (x == pkg || Reaches(g, pkg, x))
    decreases AllPackages(g) - shown, if exempt && pkg == root then 1 else 0, 0, 0
  {
    if !Repeated(exempt, root, pkg, shown) {
      var deps := SortedDeps(g, pkg);
      ShownCovers(exempt, g, root, deps, 0, shown + {pkg});
      ShownAllClose(exempt, g, root, pkg, deps, 0, shown + {pkg});
    }
  }

  /** Every package of `deps[i..]` is shown once the list has been drawn. */
  lemma {:induction false} ShownCovers(exempt: bool, g: Graph, root: string, deps: seq<string>, i: nat, shown: set<string>)
    requires i <= |deps| && CompactDefined(exempt, g, root)
    requires forall d :: d in deps ==> d in AllPackages(g)
    ensures forall j :: i <= j < |deps| ==> deps[j] in ShownAfterAll(exempt, g, root, deps, i, shown)
    decreases |deps| - i
  {
    if i < |deps| {
      var s1 := ShownAfter(exempt, g, root, deps[i], shown);
      ShownCovers(exempt, g, root, deps, i + 1, s1);
      assert deps[i] in s1 && s1 <= ShownAfterAll(exempt, g, root, deps, i + 1, s1);
    }
  }

  /** Every package newly shown while drawing the dependencies of
      `parent` is reached from `parent`, and its dependencies are shown. */
  lemma {:induction false} ShownAllClose(exempt: bool, g: Graph, root: string, parent: string, deps: seq<string>, i: nat,
                                         shown: set<string>)
    requires deps == SortedDeps(g, parent) && i <= |deps| && CompactDefined(exempt, g, root)
    ensures var s := ShownAfterAll(exempt, g, root, deps, i, shown);
      forall x :: x in s && x !in shown ==> Deps(g, x) <= s && Reaches(g, parent, x)
    decreases AllPackages(g) - shown, if exempt && root in deps then 2 else 0, |deps| - i, 1
  {
    if i < |deps| {
      ShownAllCloseStep(exempt, g, root, parent, deps, i, shown);
    }
  }

  /** The first dependency's share of `ShownAllClose`, then the rest. */
  lemma {:induction false} ShownAllCloseStep(exempt: bool, g: Graph, root: string, parent: string, deps: seq<string>,
                                             i: nat, shown: set<string>)
    requires deps == SortedDeps(g, parent) && i < |deps| && CompactDefined(exempt, g, root)
    ensures var s := ShownAfterAll(exempt, g, root, deps, i, shown);
      forall x :: x in s && x !in shown ==> Deps(g, x) <= s && Reaches(g, parent, x)
    decreases AllPackages(g) - shown, if exempt && root in deps then 2 else 0, |deps| - i, 0
  {
    assert deps[i] in deps;
    ShownCloses(exempt, g, root, deps[i], shown);
    ShownAllClose(exempt, g, root, parent, deps, i + 1, ShownAfter(exempt, g, root, deps[i], shown));
    CloseAt(exempt, g, root, parent, deps, i, shown);
  }

  /** `ShownAllCloseStep` once the first dependency and the rest are closed. */
  lemma CloseAt(exempt: bool, g: Graph, root: string, parent: string, deps: seq<string>, i: nat, shown: set<string>)
    requires deps == SortedDeps(g, parent) && i < |deps| && CompactDefined(exempt, g, root)
    requires var s1 := ShownAfter(exempt, g, root, deps[i], shown);
      forall x :: x in s1 && x !in shown ==> Deps(g, x) <= s1 && (x == deps[i] || Reaches(g, deps[i], x))
    requires var s1 := ShownAfter(exempt, g, root, deps[i], shown);
      var s := ShownAfterAll(exempt, g, root, deps, i + 1, s1);
      forall x :: x in s && x !in s1 ==> Deps(g, x) <= s && Reaches(g, parent, x)
    ensures var s := ShownAfterAll(exempt, g, root, deps, i, shown);
      forall x :: x in s && x !in shown ==> Deps(g, x) <= s && Reaches(g, parent, x)
  {
    var s1 := ShownAfter(exempt, g, root, deps[i], shown);
    var s := ShownAfterAll(exempt, g, root, deps, i + 1, s1);
    assert ShownAfterAll(exempt, g, root, deps, i, shown) == s;
    CloseStep(g, parent, deps[i], shown, s1, s);
  }

  /** One dependency's share of `ShownAllClose`. */
  lemma CloseStep(g: Graph, parent: string, d: string, shown: set<string>, s1: set<string>, s: set<string>)
    requires d in Deps(g, parent) && shown <= s1 <= s
    requires forall x :: x in s1 && x !in shown ==> Deps(g, x) <= s1 && (x == d || Reaches(g, d, x))
    requires forall x :: x in s && x !in s1 ==> Deps(g, x) <= s && Reaches(g, parent, x)
    ensures forall x :: x in s && x !in shown ==> Deps(g, x) <= s && Reaches(g, parent, x)
  {
    forall x | x in s1 && x !in shown ensures Reaches(g, parent, x) {
      ReachesPrepend(g, parent, d, x);
    }
  }

  /** How the rows drawn while the shown set went from `shown` to `s`
      expand packages: every expanded row names a package of `s` not shown
      before (an exempt root aside), every package newly shown has an
      expanded row, and no two expanded rows name the same package (an
      exempt root aside). */
  ghost predicate ExpandsOnce(exempt: bool, root: string, rows: seq<Row>, shown: set<string>, s: set<string>) {
    && (forall k :: 0 <= k < |rows| && !rows[k].repeat ==>
          rows[k].name in s && (rows[k].name !in shown || (exempt && rows[k].name == root)))
    && (forall x :: x in s && x !in shown ==> exists k :: 0 <= k < |rows| && !rows[k].repeat && rows[k].name == x)
    && (forall a, b :: 0 <= a < b < |rows| && !rows[a].repeat && !rows[b].repeat && rows[a].name == rows[b].name ==>
          exempt && rows[a].name == root)
  }

  /** Rows drawn one after the other, with the shown set growing from `s0`
      to `s1` and then to `s2`, expand as `ExpandsOnce` says. */
  lemma ExpandsConcat(exempt: bool, root: string, x: seq<Row>, y: seq<Row>, s0: set<string>, s1: set<string>, s2: set<string>)
    requires s0 <= s1 <= s2
    requires ExpandsOnce(exempt, root, x, s0, s1) && ExpandsOnce(exempt, root, y, s1, s2)
    ensures ExpandsOnce(exempt, root, x + y, s0, s2)
  {
    var rows := x + y;
    forall k | 0 <= k < |rows| && !rows[k].repeat
      ensures rows[k].name in s2 && (rows[k].name !in s0 || (exempt && rows[k].name == root))
    {
      if k >= |x| {
        assert rows[k] == y[k - |x|];
      }
    }
    forall n | n in s2 && n !in s0
      ensures exists k :: 0 <= k < |rows| && !rows[k].repeat && rows[k].name == n
    {
      if n in s1 {
        var k :| 0 <= k < |x| && !x[k].repeat && x[k].name == n;
        assert rows[k] == x[k];
      } else {
        var k :| 0 <= k < |y| && !y[k].repeat && y[k].name == n;
        assert rows[|x| + k] == y[k];
      }
    }
    forall a, b | 0 <= a < b < |rows| && !rows[a].repeat && !rows[b].repeat && rows[a].name == rows[b].name
      ensures exempt && rows[a].name == root
    {
      if b < |x| {
        assert rows[a] == x[a] && rows[b] == x[b];
      } else if a >= |x| {
        assert rows[a] == y[a - |x|] && rows[b] == y[b - |x|];
      } else {
        assert rows[a] == x[a] && rows[b] == y[b - |x|];
      }
    }
  }

  /** The rows of one package expand as `ExpandsOnce` says. */
  lemma {:induction false} NodeRows(exempt: bool, g: Graph, root: string, pkg: string, prefix: string, isLast: bool,
                                    shown: set<string>)
    requires pkg in AllPackages(g) && CompactDefined(exempt, g, root)
    ensures ExpandsOnce(exempt, root, CompactNode(exempt, g, root, pkg, prefix, isLast, shown), shown,
                        ShownAfter(exempt, g, root, pkg, shown))
    decreases AllPackages(g) - shown, if exempt && pkg == root then 1 else 0, 0
  {
    if !Repeated(exempt, root, pkg, shown) {
      var deps := SortedDeps(g, pkg);
      var head := [Row(prefix, isLast, pkg, false)];
      var kids := CompactChildren(exempt, g, root, deps, 0, prefix + Indent(isLast), shown + {pkg});
      ChildrenRows(exempt, g, root, deps, 0, prefix + Indent(isLast), shown + {pkg});
      assert ExpandsOnce(exempt, root, head, shown, shown + {pkg}) by {
        assert head[0].name == pkg;
      }
      ExpandsConcat(exempt, root, head, kids, shown, shown + {pkg}, ShownAfter(exempt, g, root, pkg, shown));
    }
  }

  /** The rows of the dependencies `deps[i..]` expand as `ExpandsOnce` says. */
  lemma {:induction false} ChildrenRows(exempt: bool, g: Graph, root: string, deps: seq<string>, i: nat, prefix: string,
                                        shown: set<string>)
    requires i <= |deps| && CompactDefined(exempt, g, root)
    requires forall d :: d in deps ==> d in AllPackages(g)
    ensures ExpandsOnce(exempt, root, CompactChildren(exempt, g, root, deps, i, prefix, shown), shown,
                        ShownAfterAll(exempt, g, root, deps, i, shown))
    decreases AllPackages(g) - shown, if exempt && root in deps then 2 else 0, |deps| - i
  {
    if i < |deps| {
      var s1 := ShownAfter(exempt, g, root, deps[i], shown);
      NodeRows(exempt, g, root, deps[i], prefix, i == |deps| - 1, shown);
      ChildrenRows(exempt, g, root, deps, i + 1, prefix, s1);
      ExpandsConcat(exempt, root, CompactNode(exempt, g, root, deps[i], prefix, i == |deps| - 1, shown),
                    CompactChildren(exempt, g, root, deps, i + 1, prefix, s1),
                    shown, s1, ShownAfterAll(exempt, g, root, deps, i, shown));
    }
  }

  /** Drawing the root shows exactly the root and every package it reaches. */
  lemma ShowsReachable(exempt: bool, g: Graph, root: string)
    requires root in AllPackages(g) && CompactDefined(exempt, g, root)
    ensures ShownAfter(exempt, g, root, root, {}) == {root} + TransitiveDeps(g, root)
  {
    var s := ShownAfter(exempt, g, root, root, {});
    ShownCloses(exempt, g, root, root, {});
    forall b | b in TransitiveDeps(g, root) ensures b in s {
      ClosedHoldsReach(g, s, root, b);
    }
    forall x | x in s && x != root ensures x in TransitiveDeps(g, root) {
      ReachedIsPackage(g, root, x);
    }
  }

  /** The compact tree of the root expands exactly the root and every
      package it reaches, and a package other than the root exactly once
      (the root too when it is not exempt). */
  lemma CompactShowsReachable(exempt: bool, g: Graph, root: string)
    requires root in AllPackages(g) && CompactDefined(exempt, g, root)
    ensures var rows := CompactNode(exempt, g, root, root, "", true, {});
      forall x :: (x == root || x in TransitiveDeps(g, root)) <==>
        exists k :: 0 <= k < |rows| && !rows[k].repeat && rows[k].name == x
    ensures var rows := CompactNode(exempt, g, root, root, "", true, {});
      forall a, b :: 0 <= a < b < |rows| && !rows[a].repeat && !rows[b].repeat && rows[a].name == rows[b].name ==>
        exempt && rows[a].name == root
  {
    var rows := CompactNode(exempt, g, root, root, "", true, {});
    var s := ShownAfter(exempt, g, root, root, {});
    ShowsReachable(exempt, g, root);
    NodeRows(exempt, g, root, root, "", true, {});
    ExpandsFromScratch(exempt, root, rows, s);
    forall x ensures (x == root || x in TransitiveDeps(g, root)) <==>
      exists k :: 0 <= k < |rows| && !rows[k].repeat && rows[k].name == x
    {
      assert (x == root || x in TransitiveDeps(g, root)) <==> x in s;
    }
    assert rows == CompactNode(exempt, g, root, root, "", true, {});
  }

  /** Rows drawn from an empty shown set expand exactly the packages
      shown at the end. */
  lemma ExpandsFromScratch(exempt: bool, root: string, rows: seq<Row>, s: set<string>)
    requires ExpandsOnce(exempt, root, rows, {}, s)
    ensures forall x :: x in s <==> exists k :: 0 <= k < |rows| && !rows[k].repeat && rows[k].name == x
  {
    forall x | x in s ensures exists k :: 0 <= k < |rows| && !rows[k].repeat && rows[k].name == x {
      assert x !in {};
    }
  }

  /** Without the root exemption the compact tree is defined on every
      graph, a root that lists itself included, and it expands each package
      it reaches, the root among them, exactly once. */
  lemma CorrectedExpandsOnce(g: Graph, root: string)
    requires root in AllPackages(g)
    ensures var rows := CompactNode(false, g, root, root, "", true, {});
      forall x :: (x == root || x in TransitiveDeps(g, root)) <==>
        exists k :: 0 <= k < |rows| && !rows[k].repeat && rows[k].name == x
    ensures var rows := CompactNode(false, g, root, root, "", true, {});
      forall a, b :: 0 <= a < b < |rows| && !rows[a].repeat && !rows[b].repeat ==> rows[a].name != rows[b].name
  {
    CompactShowsReachable(false, g, root);
  }

  // ---------------------------------------------------------------------
  // The compact tree on a root that lists itself

  /** `_build_tree_compact` on any graph, the root exempt from the shown
      check, with a bound `fuel` on the nesting depth: `None` when the
      bound is exhausted. */
  ghost function CompactNodeAsWritten(fuel: nat, g: Graph, root: string, pkg: string, prefix: string, isLast: bool, shown: set<string>)
    : (r: Option<(seq<string>, set<string>)>)
    ensures fuel == 0 ==> r.None?
    ensures r.Some? ==> shown <= r.value.1 && |r.value.0| >= 1
    decreases fuel, 0, 0
  {
    if fuel == 0 then None
    else if pkg != root && pkg in shown then Some(([prefix + Branch(isLast) + pkg + ShownMark], shown))
    else
      match CompactChildrenAsWritten(fuel - 1, g, root, SortedDeps(g, pkg), 0, prefix + Indent(isLast), shown + {pkg})
      case None => None
      case Some((lines, shown')) => Some(([if pkg == root then pkg else prefix + Branch(isLast) + pkg] + lines, shown'))
  }

  ghost function CompactChildrenAsWritten(fuel: nat, g: Graph, root: string, deps: seq<string>, i: nat, prefix: string, shown: set<string>)
    : (r: Option<(seq<string>, set<string>)>)
    requires i <= |deps|
    ensures r.Some? ==> shown <= r.value.1 && |r.value.0| >= |deps| - i
    decreases fuel, 1, |deps| - i
  {
    if i == |deps| then Some(([], shown))
    else
      match CompactNodeAsWritten(fuel, g, root, deps[i], prefix, i == |deps| - 1, shown)
      case None => None
      case Some((first, shown1)) =>
        match CompactChildrenAsWritten(fuel, g, root, deps, i + 1, prefix, shown1)
        case None => None
        case Some((rest, shown2)) => Some((first + rest, shown2))
  }

  /** When the root lists itself, the code as written re-expands the root
      inside its own expansion forever: no nesting bound suffices. */
  lemma {:induction false} SelfLoopNeverEnds(fuel: nat, g: Graph, root: string, prefix: string, isLast: bool, shown: set<string>)
    requires root in Deps(g, root)
    ensures CompactNodeAsWritten(fuel, g, root, root, prefix, isLast, shown) == None
    decreases fuel, 0
  {
    if fuel > 0 {
      var deps := SortedDeps(g, root);
      var k := IndexOf(deps, root);
      SelfLoopChildren(fuel - 1, g, root, deps, 0, k, prefix + Indent(isLast), shown + {root});
    }
  }

  lemma {:induction false} SelfLoopChildren(fuel: nat, g: Graph, root: string, deps: seq<string>, i: nat, k: nat,
                                           prefix: string, shown: set<string>)
    requires root in Deps(g, root)
    requires i <= k < |deps| && deps[k] == root
    ensures CompactChildrenAsWritten(fuel, g, root, deps, i, prefix, shown) == None
    decreases fuel, 1, |deps| - i
  {
    if i == k {
      SelfLoopNeverEnds(fuel, g, root, prefix, i == |deps| - 1, shown);
    } else {
      match CompactNodeAsWritten(fuel, g, root, deps[i], prefix, i == |deps| - 1, shown)
      case None =>
      case Some((first, shown1)) =>
        SelfLoopChildren(fuel, g, root, deps, i + 1, k, prefix, shown1);
    }
  }

  /** On a root that does not list itself, the fuel model is the compact
      tree: with a bound of two levels per package not yet shown it ends,
      and it ends with the texts of `CompactNode(true, …)` and the set
      `ShownAfter`. */
  lemma AsWrittenAgrees(fuel: nat, g: Graph, root: string, pkg: string, prefix: string, isLast: bool, shown: set<string>)
    requires pkg in AllPackages(g) && root !in Deps(g, root)
    requires fuel >= 2 * |AllPackages(g) - shown| + (if pkg == root then 2 else 1)
    ensures CompactNodeAsWritten(fuel, g, root, pkg, prefix, isLast, shown)
            == Some((Texts(CompactNode(true, g, root, pkg, prefix, isLast, shown), root), ShownAfter(true, g, root, pkg, shown)))
  {
    AsWrittenEnds(fuel, g, root, pkg, prefix, isLast, shown);
    AsWrittenSound(fuel, g, root, pkg, prefix, isLast, shown);
  }

  /** The fuel model ends within two levels per package not yet shown:
      a level expands a new package, or the root shown before, whose
      dependencies are all other packages. */
  lemma {:induction false} AsWrittenEnds(fuel: nat, g: Graph, root: string, pkg: string, prefix: string, isLast: bool,
                                        shown: set<string>)
    requires pkg in AllPackages(g) && root !in Deps(g, root)
    requires fuel >= 2 * |AllPackages(g) - shown| + (if pkg == root then 2 else 1)
    ensures CompactNodeAsWritten(fuel, g, root, pkg, prefix, isLast, shown).Some?
    decreases fuel, 0, 0
  {
    if pkg == root || pkg !in shown {
      var deps := SortedDeps(g, pkg);
      if pkg in shown {
        assert shown + {pkg} == shown;
      } else {
        CardDiffShrinks(AllPackages(g), shown, shown + {pkg}, pkg);
      }
      ChildrenEnd(fuel - 1, g, root, deps, 0, prefix + Indent(isLast), shown + {pkg});
    }
  }

  lemma {:induction false} ChildrenEnd(fuel: nat, g: Graph, root: string, deps: seq<string>, i: nat, prefix: string,
                                      shown: set<string>)
    requires i <= |deps| && root !in Deps(g, root)
    requires forall d :: d in deps ==> d in AllPackages(g)
    requires fuel >= 2 * |AllPackages(g) - shown| + (if root in deps then 2 else 1)
    ensures CompactChildrenAsWritten(fuel, g, root, deps, i, prefix, shown).Some?
    decreases fuel, 1, |deps| - i
  {
    if i < |deps| {
      assert deps[i] in deps;
      AsWrittenEnds(fuel, g, root, deps[i], prefix, i == |deps| - 1, shown);
      var shown1 := CompactNodeAsWritten(fuel, g, root, deps[i], prefix, i == |deps| - 1, shown).value.1;
      CardDiffMono(AllPackages(g), shown, shown1);
      ChildrenEnd(fuel, g, root, deps, i + 1, prefix, shown1);
    }
  }

  /** Whenever the fuel model ends on a root that does not list itself,
      it gives the texts of the compact tree and the shown set after it. */
  lemma {:induction false} AsWrittenSound(fuel: nat, g: Graph, root: string, pkg: string, prefix: string, isLast: bool,
                                         shown: set<string>)
    requires pkg in AllPackages(g) && root !in Deps(g, root)
    requires CompactNodeAsWritten(fuel, g, root, pkg, prefix, isLast, shown).Some?
    ensures CompactNodeAsWritten(fuel, g, root, pkg, prefix, isLast, shown)
            == Some((Texts(CompactNode(true, g, root, pkg, prefix, isLast, shown), root), ShownAfter(true, g, root, pkg, shown)))
    decreases fuel, 0, 0
  {
    if Repeated(true, root, pkg, shown) {
      RepeatSound(fuel, g, root, pkg, prefix, isLast, shown);
    } else {
      ChildrenSound(fuel - 1, g, root, SortedDeps(g, pkg), 0, prefix + Indent(isLast), shown + {pkg});
      ExpandSound(fuel, g, root, pkg, prefix, isLast, shown);
    }
  }

  /** `AsWrittenSound` for a package shown before: one marked line. */
  lemma RepeatSound(fuel: nat, g: Graph, root: string, pkg: string, prefix: string, isLast: bool, shown: set<string>)
    requires pkg in AllPackages(g) && root !in Deps(g, root) && fuel > 0 && Repeated(true, root, pkg, shown)
    ensures CompactNodeAsWritten(fuel, g, root, pkg, prefix, isLast, shown)
            == Some((Texts(CompactNode(true, g, root, pkg, prefix, isLast, shown), root), ShownAfter(true, g, root, pkg, shown)))
  {
    var row := Row(prefix, isLast, pkg, true);
    assert CompactNode(true, g, root, pkg, prefix, isLast, shown) == [row];
    assert [row][1..] == [];
    assert Texts([row], root) == [RowText(row, root)];
  }

  /** `AsWrittenSound` for a package drawn with its dependencies, once
      the dependencies agree. */
  lemma ExpandSound(fuel: nat, g: Graph, root: string, pkg: string, prefix: string, isLast: bool, shown: set<string>)
    requires pkg in AllPackages(g) && root !in Deps(g, root) && fuel > 0 && !Repeated(true, root, pkg, shown)
    requires var deps := SortedDeps(g, pkg);
      CompactChildrenAsWritten(fuel - 1, g, root, deps, 0, prefix + Indent(isLast), shown + {pkg})
      == Some((Texts(CompactChildren(true, g, root, deps, 0, prefix + Indent(isLast), shown + {pkg}), root),
               ShownAfterAll(true, g, root, deps, 0, shown + {pkg})))
    ensures CompactNodeAsWritten(fuel, g, root, pkg, prefix, isLast, shown)
            == Some((Texts(CompactNode(true, g, root, pkg, prefix, isLast, shown), root), ShownAfter(true, g, root, pkg, shown)))
  {
    var deps := SortedDeps(g, pkg);
    var kids := CompactChildren(true, g, root, deps, 0, prefix + Indent(isLast), shown + {pkg});
    TextsCons(Row(prefix, isLast, pkg, false), kids, root);
  }

  lemma {:induction false} ChildrenSound(fuel: nat, g: Graph, root: string, deps: seq<string>, i: nat, prefix: string,
                                        shown: set<string>)
    requires i <= |deps| && root !in Deps(g, root)
    requires forall d :: d in deps ==> d in AllPackages(g)
    requires CompactChildrenAsWritten(fuel, g, root, deps, i, prefix, shown).Some?
    ensures CompactChildrenAsWritten(fuel, g, root, deps, i, prefix, shown)
            == Some((Texts(CompactChildren(true, g, root, deps, i, prefix, shown), root),
                     ShownAfterAll(true, g, root, deps, i, shown)))
    decreases fuel, 1, |deps| - i
  {
    if i < |deps| {
      assert deps[i] in deps;
      var first := CompactNode(true, g, root, deps[i], prefix, i == |deps| - 1, shown);
      var shown1 := ShownAfter(true, g, root, deps[i], shown);
      AsWrittenSound(fuel, g, root, deps[i], prefix, i == |deps| - 1, shown);
      ChildrenSound(fuel, g, root, deps, i + 1, prefix, shown1);
      TextsAppend(first, CompactChildren(true, g, root, deps, i + 1, prefix, shown1), root);
    }
  }

  /** The texts of a row followed by more rows. */
  lemma TextsCons(r: Row, rows: seq<Row>, root: string)
    ensures Texts([r] + rows, root) == [RowText(r, root)] + Texts(rows, root)
  {
    assert ([r] + rows)[1..] == rows;
  }

  // ---------------------------------------------------------------------
  // The reports as text

  /** No line of a tree holds a line break when no package name does. */
  lemma {:induction false} TreeUnbroken(g: Graph, root: string, pkg: string, prefix: string, isLast: bool, path: set<string>)
    requires pkg in AllPackages(g)
    requires forall p :: p in AllPackages(g) ==> '\n' !in p
    requires '\n' !in prefix
    ensures forall l :: l in TreeNode(g, root, pkg, prefix, isLast, path) ==> '\n' !in l
    decreases AllPackages(g) - path, 0, 0
  {
    PiecesUnbroken();
    assert '\n' !in Branch(isLast) + CycleMark;
    if pkg !in path {
      ChildrenUnbroken(g, root, SortedDeps(g, pkg), 0, prefix + Indent(isLast), path + {pkg});
    }
  }

  lemma {:induction false} ChildrenUnbroken(g: Graph, root: string, deps: seq<string>, i: nat, prefix: string, path: set<string>)
    requires i <= |deps|
    requires forall d :: d in deps ==> d in AllPackages(g)
    requires forall p :: p in AllPackages(g) ==> '\n' !in p
    requires '\n' !in prefix
    ensures forall l :: l in TreeChildren(g, root, deps, i, prefix, path) ==> '\n' !in l
    decreases AllPackages(g) - path, 1, |deps| - i
  {
    if i < |deps| {
      TreeUnbroken(g, root, deps[i], prefix, i == |deps| - 1, path);
      ChildrenUnbroken(g, root, deps, i + 1, prefix, path);
    }
  }

  /** The header holds no line break when the title holds none. */
  lemma HeaderUnbroken(title: string)
    requires '\n' !in title
    ensures forall k :: 0 <= k < |Header(title)| ==> '\n' !in Header(title)[k]
  {
    assert '\n' !in Repeat('=', 60);
  }

  /** The text of `generate()` splits at line breaks back into exactly its
      lines, when no name holds a line break. */
  lemma ReportSplits(g: Graph, root: string)
    requires '\n' !in root
    requires forall p :: p in AllPackages(g) ==> '\n' !in p
    ensures Split(Join("\n", TreeReport(g, root)), '\n') == TreeReport(g, root)
  {
    var report := TreeReport(g, root);
    var header := Header(Title(root));
    var body := if root in AllPackages(g) then TreeNode(g, root, root, "", true, {}) else [NoDependencies];
    assert report == header + body;
    PiecesUnbroken();
    assert '\n' !in TitlePrefix + root;
    HeaderUnbroken(Title(root));
    if root in AllPackages(g) {
      TreeUnbroken(g, root, root, "", true, {});
    }
    assert forall l :: l in body ==> '\n' !in l;
    forall k | 0 <= k < |report| ensures '\n' !in report[k] {
      if k >= |header| {
        assert report[k] == body[k - |header|] && body[k - |header|] in body;
      }
    }
    SplitJoin(report, '\n');
  }

  // ---------------------------------------------------------------------
  // One step of the printers' loops

  lemma TreeChildrenStep(g: Graph, root: string, deps: seq<string>, i: nat, prefix: string, path: set<string>,
                         before: seq<string>, out: seq<string>, whole: seq<string>)
    requires i < |deps|
    requires forall d :: d in deps ==> d in AllPackages(g)
    requires before + TreeChildren(g, root, deps, i, prefix, path) == whole
    requires out == before + TreeNode(g, root, deps[i], prefix, i == |deps| - 1, path)
    ensures out + TreeChildren(g, root, deps, i + 1, prefix, path) == whole
  {
  }

  /** A name not on the path: its own line, then its subtrees. */
  lemma TreeNodeUnfold(g: Graph, root: string, pkg: string, prefix: string, isLast: bool, path: set<string>, lines: seq<string>)
    requires pkg in AllPackages(g) && pkg !in path
    ensures lines + TreeNode(g, root, pkg, prefix, isLast, path)
      == lines + [if pkg == root then pkg else prefix + Branch(isLast) + pkg]
         + TreeChildren(g, root, SortedDeps(g, pkg), 0, prefix + Indent(isLast), path + {pkg})
  {
  }

  /** The text of rows drawn one after the other. */
  lemma {:induction false} TextsAppend(x: seq<Row>, y: seq<Row>, root: string)
    ensures Texts(x + y, root) == Texts(x, root) + Texts(y, root)
    decreases |x|
  {
    if x == [] {
      assert x + y == y;
    } else {
      assert (x + y)[0] == x[0] && (x + y)[1..] == x[1..] + y;
      TextsAppend(x[1..], y, root);
      Regroup([RowText(x[0], root)], Texts(x[1..], root), Texts(y, root), Texts(x + y, root));
    }
  }

  lemma CompactChildrenStep(exempt: bool, g: Graph, root: string, deps: seq<string>, i: nat, prefix: string,
                            shownBefore: set<string>, before: seq<string>, shownAfter: set<string>, out: seq<string>,
                            whole: seq<string>, wholeShown: set<string>)
    requires i < |deps| && CompactDefined(exempt, g, root)
    requires forall d :: d in deps ==> d in AllPackages(g)
    requires before + Texts(CompactChildren(exempt, g, root, deps, i, prefix, shownBefore), root) == whole
    requires ShownAfterAll(exempt, g, root, deps, i, shownBefore) == wholeShown
    requires out == before + Texts(CompactNode(exempt, g, root, deps[i], prefix, i == |deps| - 1, shownBefore), root)
    requires shownAfter == ShownAfter(exempt, g, root, deps[i], shownBefore)
    ensures out + Texts(CompactChildren(exempt, g, root, deps, i + 1, prefix, shownAfter), root) == whole
    ensures ShownAfterAll(exempt, g, root, deps, i + 1, shownAfter) == wholeShown
  {
    var node := CompactNode(exempt, g, root, deps[i], prefix, i == |deps| - 1, shownBefore);
    var rest := CompactChildren(exempt, g, root, deps, i + 1, prefix, shownAfter);
    assert CompactChildren(exempt, g, root, deps, i, prefix, shownBefore) == node + rest;
    TextsAppend(node, rest, root);
    Regroup(before, Texts(node, root), Texts(rest, root), whole);
  }

  /** A package that is not a repeat: its own line, then its subtrees. */
  lemma CompactNodeUnfold(exempt: bool, g: Graph, root: string, pkg: string, prefix: string, isLast: bool,
                          shown: set<string>, lines: seq<string>)
    requires pkg in AllPackages(g) && CompactDefined(exempt, g, root) && !Repeated(exempt, root, pkg, shown)
    ensures lines + Texts(CompactNode(exempt, g, root, pkg, prefix, isLast, shown), root)
      == lines + [if pkg == root then pkg else prefix + Branch(isLast) + pkg]
         + Texts(CompactChildren(exempt, g, root, SortedDeps(g, pkg), 0, prefix + Indent(isLast), shown + {pkg}), root)
    ensures ShownAfter(exempt, g, root, pkg, shown)
      == ShownAfterAll(exempt, g, root, SortedDeps(g, pkg), 0, shown + {pkg})
  {
    var line := if pkg == root then pkg else prefix + Branch(isLast) + pkg;
    var kids := CompactChildren(exempt, g, root, SortedDeps(g, pkg), 0, prefix + Indent(isLast), shown + {pkg});
    var rows := [Row(prefix, isLast, pkg, false)] + kids;
    assert CompactNode(exempt, g, root, pkg, prefix, isLast, shown) == rows;
    assert rows[0] == Row(prefix, isLast, pkg, false) && rows[1..] == kids;
    assert Texts(rows, root) == [line] + Texts(kids, root);
    Regroup(lines, [line], Texts(kids, root), lines + Texts(rows, root));
  }

  // ---------------------------------------------------------------------
  // The generator object

  class AsciiTreeGenerator {
    const graph: DependencyGraph
    const rootPackage: string
    /** The packages the compact printer has shown. */
    var visited: set<string>

    constructor(graph: DependencyGraph, rootPackage: string)
      ensures this.graph == graph && this.rootPackage == rootPackage && visited == {}
    {
      this.graph := graph;
      this.rootPackage := rootPackage;
      visited := {};
    }

    /** `generate()`: the full report, joined with line breaks. */
    method Generate() returns (r: string)
      modifies this`visited
      ensures r == Join("\n", TreeReport(graph.graph, rootPackage))
      ensures visited == if rootPackage in AllPackages(graph.graph) then {} else old(visited)
    {
      var lines := Header(Title(rootPackage));
      var all := graph.GetAllPackages();
      if rootPackage !in all {
        lines := lines + [NoDependencies];
        return Join("\n", lines);
      }
      visited := {};
      lines := BuildTree(rootPackage, "", true, lines, {});
      r := Join("\n", lines);
    }

    /** `_build_tree`: appends the lines of the subtree of `package`. */
    method BuildTree(package: string, prefix: string, isLast: bool, lines: seq<string>, path: set<string>)
      returns (out: seq<string>)
      requires package in AllPackages(graph.graph)
      ensures out == lines + TreeNode(graph.graph, rootPackage, package, prefix, isLast, path)
      decreases AllPackages(graph.graph) - path
    {
      ghost var g := graph.graph;
      if package in path {
        return lines + [prefix + Branch(isLast) + package + CycleMark];
      }
      var path' := path + {package};
      var depSet := graph.GetDirectDependencies(package);
      assert depSet == Deps(g, package);
      var deps := SortNames(depSet);
      out := lines + [if package == rootPackage then package else prefix + Branch(isLast) + package];
      var newPrefix := prefix + Indent(isLast);
      TreeNodeUnfold(g, rootPackage, package, prefix, isLast, path, lines);
      ghost var whole := out + TreeChildren(g, rootPackage, deps, 0, newPrefix, path');
      if |deps| > 0 {
        var i := 0;
        while i < |deps|
          invariant 0 <= i <= |deps|
          invariant out + TreeChildren(g, rootPackage, deps, i, newPrefix, path') == whole
        {
          ghost var before := out;
          out := BuildTree(deps[i], newPrefix, i == |deps| - 1, out, path');
          TreeChildrenStep(g, rootPackage, deps, i, newPrefix, path', before, out, whole);
          i := i + 1;
        }
      }
    }

    /** `generate_compact()`: the compact report, joined with line breaks;
        the shown set is cleared before the tree is drawn, and afterwards
        holds exactly the root and the packages it reaches. */
    method GenerateCompact() returns (r: string)
      requires rootPackage !in Deps(graph.graph, rootPackage)
      modifies this`visited
      ensures r == Join("\n", CompactReport(graph.graph, rootPackage))
      ensures visited == if rootPackage in AllPackages(graph.graph)
        then {rootPackage} + TransitiveDeps(graph.graph, rootPackage) else old(visited)
    {
      var lines := Header(Title(rootPackage) + CompactNote);
      var all := graph.GetAllPackages();
      if rootPackage !in all {
        lines := lines + [NoDependencies];
        return Join("\n", lines);
      }
      visited := {};
      lines := BuildTreeCompact(rootPackage, "", true, lines);
      ShowsReachable(true, graph.graph, rootPackage);
      r := Join("\n", lines);
    }

    /** `_build_tree_compact`: appends the lines of the compact subtree of
        `package` and records what it shows.  The root is exempt from the
        shown check, so it must not list itself. */
    method BuildTreeCompact(package: string, prefix: string, isLast: bool, lines: seq<string>)
      returns (out: seq<string>)
      requires package in AllPackages(graph.graph) && rootPackage !in Deps(graph.graph, rootPackage)
      modifies this`visited
      ensures out == lines + Texts(CompactNode(true, graph.graph, rootPackage, package, prefix, isLast, old(visited)), rootPackage)
      ensures visited == ShownAfter(true, graph.graph, rootPackage, package, old(visited))
      decreases AllPackages(graph.graph) - visited, if package == rootPackage then 1 else 0, 0
    {
      ghost var g := graph.graph;
      if package != rootPackage && package in visited {
        ghost var leaf := CompactNode(true, g, rootPackage, package, prefix, isLast, visited);
        assert leaf == [leaf[0]] && Texts(leaf[1..], rootPackage) == [];
        return lines + [prefix + Branch(isLast) + package + ShownMark];
      }
      visited := visited + {package};
      var depSet := graph.GetDirectDependencies(package);
      assert depSet == Deps(g, package);
      var deps := SortNames(depSet);
      out := lines + [if package == rootPackage then package else prefix + Branch(isLast) + package];
      CompactNodeUnfold(true, g, rootPackage, package, prefix, isLast, old(visited), lines);
      out := BuildDepsCompact(deps, prefix + Indent(isLast), out);
    }

    /** The loop of `_build_tree_compact` over the sorted dependencies:
        each is drawn in turn, one level deeper, the last one as such. */
    method BuildDepsCompact(deps: seq<string>, newPrefix: string, lines: seq<string>) returns (out: seq<string>)
      requires forall d :: d in deps ==> d in AllPackages(graph.graph)
      requires rootPackage !in Deps(graph.graph, rootPackage)
      modifies this`visited
      ensures out == lines + Texts(CompactChildren(true, graph.graph, rootPackage, deps, 0, newPrefix, old(visited)), rootPackage)
      ensures visited == ShownAfterAll(true, graph.graph, rootPackage, deps, 0, old(visited))
      decreases AllPackages(graph.graph) - visited, if rootPackage in deps then 2 else 0, 1
    {
      ghost var g := graph.graph;
      ghost var whole := lines + Texts(CompactChildren(true, g, rootPackage, deps, 0, newPrefix, visited), rootPackage);
      ghost var wholeShown := ShownAfterAll(true, g, rootPackage, deps, 0, visited);
      out := lines;
      var i := 0;
      while i < |deps|
        invariant 0 <= i <= |deps| && old(visited) <= visited && g == graph.graph
        invariant out + Texts(CompactChildren(true, g, rootPackage, deps, i, newPrefix, visited), rootPackage) == whole
        invariant ShownAfterAll(true, g, rootPackage, deps, i, visited) == wholeShown
      {
        ghost var before, shown := out, visited;
        out := BuildTreeCompact(deps[i], newPrefix, i == |deps| - 1, out);
        CompactChildrenStep(true, g, rootPackage, deps, i, newPrefix, shown, before, visited, out, whole, wholeShown);
        i := i + 1;
      }
    }
  }
}
