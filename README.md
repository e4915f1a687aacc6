# Dependency analyser core in Dafny

This project models the core of a package dependency analyser and proves
properties of the model. The analyser does four things:

- It builds a dependency graph of a package by a depth-first walk over a
  dependency source. The walk skips names that contain a filter substring,
  ignoring case, and records every cycle it meets on the current path.
- It answers questions about the graph: direct and transitive dependencies,
  all packages, and the recorded cycles.
- It reads a test repository written as text lines
  `PACKAGE: DEP1, DEP2@VERSION, ...`. The loaded repository serves as a
  dependency source.
- It renders the graph two ways:
  - as an ASCII tree, either full or compact (each package expanded once);
  - as a D2 diagram with a declaration per package, an edge per dependency
    and red highlights for the edges on cycles.

It also validates the configuration that drives all of this.

The modules follow the source files:

| module | file | models |
|---|---|---|
| `Text` | `text.dfy` | the string built-ins the analyser relies on (`lower`, `strip`, `split`, `join`, `index`, `sorted` on names) |
| `GraphModel` | `graph_model.dfy` | the graph, the filter, reachability, and the depth-first build as pure functions, with their invariants |
| `DependencyGraphs` | `dependency_graph.dfy` | the `DependencyGraph` object: an adjacency map updated in place, proved against `GraphModel` |
| `RepositoryLoader` | `repository_loader.dfy` | the text format parser, its loop, a round trip for well-formed files, and the loader object |
| `AsciiTree` | `ascii_tree.dfy` | the full and compact tree printers |
| `D2Diagram` | `d2_generator.dfy` | the D2 generator |
| `ConfigParsing` | `config_parser.dfy` | the configuration check and normalisation |
| `Wrappers` | `wrappers.dfy` | `Option` |

Code that works by mutation is modelled as classes whose methods have
loops and invariants. Each method is proved equal to a specification
function, and the lemmas state what the source promises about those
functions:

- the build keeps the graph closed and free of filtered names;
- every recorded cycle is a closed walk of the graph;
- each package is fetched at most once;
- every edge comes from the source, and every fetched package is fully
  expanded;
- the transitive dependencies are exactly the reachable set;
- a written test repository parses back to itself, and a later line for
  the same package wins;
- the compact tree expands exactly the reachable packages, each package
  other than the root once;
- the D2 edge section lists every edge exactly once, in order;
- validation reports the missing parameters in order, and it is
  idempotent.

## Model

| member | source | states |
|---|---|---|
| Text.Lower | dependency_graph.py:41 | `lower()` keeps the length and lower-cases each ASCII letter, leaving everything else alone |
| Text.Strip | test_repository_loader.py:63 | `strip()` has no whitespace at either end, is no longer than its argument, and is empty exactly when the argument is all whitespace |
| Text.StripIsInfix | test_repository_loader.py:63 | the stripped text occurs in the original |
| Text.StripIdempotent | test_repository_loader.py:36 | stripping twice is stripping once (the file content is stripped before each line is) |
| Text.StripLeadingSpace | test_repository_loader.py:77 | leading whitespace in front of an unpadded string is all that strip removes |
| Text.IndexOf | dependency_graph.py:87 | `path.index(p)` is the first position holding `p` |
| Text.Contains | dependency_graph.py:41 | substring test: true exactly when the needle occurs at some position |
| Text.Split | test_repository_loader.py:60 | `split(c)` gives at least one piece, and no piece holds the separator |
| Text.JoinSplit | test_repository_loader.py:60 | joining the pieces of a split with the separator restores the text |
| Text.SplitJoin | test_repository_loader.py:76 | splitting undoes joining when no part holds the separator |
| Text.SplitOnce | test_repository_loader.py:69 | `split(c, 1)`: the part before the first separator has none, and the text is the two parts around the separator |
| Text.SplitOnceAt | test_repository_loader.py:81 | the split at the first separator depends only on where that separator is |
| Text.JoinAvoids | ascii_tree.py:42 | a character in neither the separator nor any part is not in the join |
| Text.Repeat | ascii_tree.py:99 | `"=" * 60` is 60 copies of the character |
| Text.LessTransitive | ascii_tree.py:71 | the code-point order that `sorted` uses is transitive |
| Text.LessTotal | ascii_tree.py:71 | and total on distinct strings |
| Text.SortedSeq | d2_generator.py:38 | `sorted(set)` lists exactly the members of the set, each once |
| Text.SortedSeqSorted | d2_generator.py:38 | that list is strictly increasing |
| Text.SortedUnique | d2_generator.py:55 | two strictly increasing lists with the same members are equal, so `sorted` has one possible result |
| Text.SortNames | d2_generator.py:53 | the selection loop computes exactly `sorted` of the set |
| GraphModel.FilterMatchesIgnoringCase | dependency_graph.py:29-41 | for the filter as given (stored lower-cased), an empty filter filters nothing; otherwise `Filtered` holds exactly when the filter occurs in the name at some position with ASCII case ignored, so the name's case does not matter |
| GraphModel.AddEdge | dependency_graph.py:43-58 | with a filtered endpoint the graph is unchanged; otherwise `d` joins the dependencies of `p`, `d` becomes a key if it was not one, and every other entry is kept |
| GraphModel.AllPackages | dependency_graph.py:177-187 | the packages are the keys together with every dependency, and nothing else |
| GraphModel.ClosedPackagesAreKeys | dependency_graph.py:56-58 | when every dependency is a key, the packages are exactly the keys |
| GraphModel.AddEdgeGrows | dependency_graph.py:55 | adding an edge never removes one |
| GraphModel.AddEdgeKeepsShape | dependency_graph.py:51-58 | adding an edge keeps the graph closed (every dependency is a key) and free of filtered names |
| GraphModel.WalkGrows | dependency_graph.py:55 | a walk of a graph stays a walk as edges are added |
| GraphModel.ReachedIsPackage | dependency_graph.py:119-145 | everything reachable is a package of the graph |
| GraphModel.ClosedHoldsReach | dependency_graph.py:135-142 | a set holding `a` and closed under successors holds everything reachable from `a` |
| GraphModel.NonKeyCollectsNothing | dependency_graph.py:129-130 | a package that is not a key has no transitive dependencies |
| GraphModel.ClosedSetCollects | dependency_graph.py:135-142 | once the visited set is closed under unfiltered steps, every name reachable through unfiltered names has been collected |
| GraphModel.CollectedIsTransitive | dependency_graph.py:119-145 | in a closed graph without filtered names, what `get_all_dependencies` collects is exactly the set reachable by one or more edges |
| GraphModel.Fetch | test_repository_loader.py:113-114 | a call to the source fails exactly for the failing names; otherwise it answers the stored list of a known package and the empty list for an unknown one |
| GraphModel.DfsNode | dependency_graph.py:60-117 | `build_graph_dfs` as a function of the state: skip a filtered name, record a cycle for a name on the path, skip a visited name, otherwise visit, fetch and recurse; its contract says only that the visited set grows (the rest is in the lemmas below) |
| GraphModel.NodeGrows | dependency_graph.py:60-117 | a build only adds edges, only appends cycles, and only appends newly visited packages to the call log, each fetched once |
| GraphModel.ListGrows | dependency_graph.py:105-108 | the same for the loop over the fetched dependencies |
| GraphModel.ClosingCycle | dependency_graph.py:86-89 | the cycle recorded when a package is met again on the path (`path[path.index(p):] + [p]`) is a closed walk of the graph |
| GraphModel.PathStep | dependency_graph.py:98 | the path extended by the current package is a walk |
| GraphModel.NodeKeepsValid | dependency_graph.py:60-117 | a build keeps the graph closed and unfiltered and every recorded cycle a closed walk |
| GraphModel.ListKeepsValid | dependency_graph.py:105-108 | the same for the dependency loop |
| GraphModel.NodeEdges | dependency_graph.py:60-117 | every edge a build adds is reported by the source, and every package it visits for the first time and fetches successfully gets an edge to each unfiltered dependency |
| GraphModel.ListEdges | dependency_graph.py:105-108 | the loop adds exactly the unfiltered edges it is given, and each of them is present afterwards |
| GraphModel.NodeVisits | dependency_graph.py:81-108 | a build visits its package unless it is filtered, and every package it newly visits with a successful fetch has each unfiltered reported name visited too |
| GraphModel.ListVisits | dependency_graph.py:105-108 | after the loop every unfiltered name it was given is visited, and what it newly visits is closed in the same way |
| GraphModel.EdgeThenBuild | dependency_graph.py:107-108 | adding a source edge and then building from its target keeps both properties |
| GraphModel.BuildGuarantees | dependency_graph.py:60-117 | a top-level build keeps the invariant, fetches each package at most once and exactly the visited ones, adds only source edges, expands every visited package the source knows, visits the root unless it is filtered, and visits every unfiltered name reported for a visited package |
| DependencyGraphs.DependencyGraph.constructor | dependency_graph.py:16-27 | the filter is stored lower-cased; graph, auxiliary sets and cycles start empty |
| DependencyGraphs.DependencyGraph.AddDependency | dependency_graph.py:43-58 | the new graph is `AddEdge` of the old one, and the object invariant is kept |
| DependencyGraphs.DependencyGraph.BuildGraphDfs | dependency_graph.py:60-117 | graph, cycles, visited set and call log after the recursive walk are those of `DfsNode`; when the path is a walk of the graph leading to the package, the invariant is kept |
| DependencyGraphs.DependencyGraph.BuildGraph | dependency_graph.py:76-80 | the top-level call starts with an empty visited set and path and ends in the `DfsNode` state |
| DependencyGraphs.DependencyGraph.CollectDeps | dependency_graph.py:135-142 | the nested `collect_deps` only grows its sets, marks the package visited unless filtered, leaves each newly visited name closed under unfiltered steps, and collects only names reachable through unfiltered names |
| DependencyGraphs.DependencyGraph.GetAllDependencies | dependency_graph.py:119-145 | the result is every name reachable through unfiltered names, and under the invariant exactly the transitive dependencies |
| DependencyGraphs.DependencyGraph.GetDirectDependencies | dependency_graph.py:147-157 | `d` is in the result exactly when `d` is stored for the package; empty for an unknown package |
| DependencyGraphs.DependencyGraph.GetCycles | dependency_graph.py:159-166 | the recorded cycles; under the invariant each is a closed walk of at least two names |
| DependencyGraphs.DependencyGraph.HasCycles | dependency_graph.py:168-175 | true exactly when a cycle was recorded, and then some package reaches itself |
| DependencyGraphs.DependencyGraph.GetAllPackages | dependency_graph.py:177-187 | the keys united with every dependency set; under the invariant exactly the keys |
| DependencyGraphs.DependencyGraph.Clear | dependency_graph.py:189-194 | graph, both auxiliary sets and cycles are empty, and the invariant holds |
| RepositoryLoader.Insert | test_repository_loader.py:82 | `d[k] = v` keeps the dictionary well formed and maps `k` to `v` |
| RepositoryLoader.ParsePieces | test_repository_loader.py:76-84 | the pieces build a well-formed dictionary; which names it holds and with which versions is stated by `NamedPiecesPresent`, `LastPieceWins` and `FirstPositionKept` |
| RepositoryLoader.ParseDeps | test_repository_loader.py:74-84 | the dependency list builds a well-formed dictionary; `LastDepWins` states its contents: a repeated name keeps its last version |
| RepositoryLoader.LastNaming | test_repository_loader.py:76-84 | the index of the last comma piece that names a dependency, and no later piece names it |
| RepositoryLoader.LastPieceWins | test_repository_loader.py:76-84 | a dependency named by piece `j` and by no later piece is stored with the version of piece `j`: a repeated name keeps its last version |
| RepositoryLoader.NamedPiecesPresent | test_repository_loader.py:76-84 | a dependency is stored exactly when some piece names it |
| RepositoryLoader.FirstPositionKept | test_repository_loader.py:82-84 | later pieces never reorder the names already stored, so a repeated name keeps the position of its first piece |
| RepositoryLoader.LastDepWins | test_repository_loader.py:74-84 | within one line, a dependency is present exactly when some comma piece names it, with the version of the last such piece |
| RepositoryLoader.ParseLines | test_repository_loader.py:62-86 | the lines build a well-formed repository whose every value is well formed |
| RepositoryLoader.ParseTextFormat | test_repository_loader.py:48-88 | the loop over the lines computes exactly `ParseText` |
| RepositoryLoader.ParseDependencyList | test_repository_loader.py:75-84 | the loop over the comma-separated pieces computes exactly `ParseDeps` |
| RepositoryLoader.LastDefinition | test_repository_loader.py:86 | the index of the last line that defines a package, and no later line defines it |
| RepositoryLoader.LastLineWins | test_repository_loader.py:62-86 | a package is in the repository exactly when some line defines it, and its dependencies are those of the last such line |
| RepositoryLoader.EntryRoundTrip | test_repository_loader.py:77-82 | an entry `NAME@VERSION` strips to itself and splits back into its name and version |
| RepositoryLoader.PiecesRoundTrip | test_repository_loader.py:76-84 | pieces that strip to the entries of a dictionary rebuild it, in order |
| RepositoryLoader.DepsRoundTrip | test_repository_loader.py:71-84 | a written dependency list parses back to the dictionary it was written from |
| RepositoryLoader.LineRoundTrip | test_repository_loader.py:63-86 | a written line parses back to its package and dependencies |
| RepositoryLoader.LinesRoundTrip | test_repository_loader.py:62-86 | the written lines parse back to the first `i` packages, in order |
| RepositoryLoader.RenderUnpadded | test_repository_loader.py:36 | a written file has no whitespace at either end, so stripping it changes nothing |
| RepositoryLoader.EmptyText | test_repository_loader.py:59-88 | an empty file loads as an empty repository |
| RepositoryLoader.RoundTrip | test_repository_loader.py:36-88 | loading a file written in the documented format gives back the repository it was written from |
| RepositoryLoader.TestRepositoryLoader.constructor | test_repository_loader.py:18-43 | the repository is the text parse of the stripped file content |
| RepositoryLoader.TestRepositoryLoader.GetDependencies | test_repository_loader.py:90-104 | an empty dictionary for an unknown package, otherwise the stored one; the version is ignored |
| RepositoryLoader.TestRepositoryLoader.CreateDependencyGetter | test_repository_loader.py:106-116 | the source never fails and answers every package with the names of its stored dependencies, in file order |
| AsciiTree.SortedDeps | ascii_tree.py:71 | the sorted direct dependencies: exactly the stored ones, each a package of the graph |
| AsciiTree.TreeNode | ascii_tree.py:44-88 | a subtree is at least one line |
| AsciiTree.TreeCycleMark | ascii_tree.py:63-65 | a package already on the path is drawn as one line with the cycle mark and nothing under it; a package not on the path gets no mark |
| AsciiTree.TreePrefixed | ascii_tree.py:62-85 | every line of a subtree below the root starts with the subtree's prefix |
| AsciiTree.TreeIndented | ascii_tree.py:80-85 | every line after a package's own line starts with the prefix extended by one indentation step |
| AsciiTree.ReportSplits | ascii_tree.py:23-42 | when no name holds a line break, the report text splits at line breaks into exactly its lines |
| AsciiTree.ShownAfter | ascii_tree.py:128-132 | drawing a package adds it to the shown set and removes nothing |
| AsciiTree.ShownCloses | ascii_tree.py:128-149 | every package newly shown while drawing a package is that package or reachable from it, and its dependencies are shown too |
| AsciiTree.ShownCovers | ascii_tree.py:147-149 | every dependency in the loop is shown once the loop ends |
| AsciiTree.CompactNode | ascii_tree.py:127-139 | the first line drawn for a package names it, and it is a lone leaf exactly when the shown check finds the package shown before, the root being exempt as written |
| AsciiTree.ShowsReachable | ascii_tree.py:106-107 | drawing the root shows exactly the root and every package it reaches |
| AsciiTree.NodeRows | ascii_tree.py:127-149 | the lines drawn for one package expand exactly the packages it newly shows, and no package twice, an exempt root aside |
| AsciiTree.ChildrenRows | ascii_tree.py:145-149 | the same for the loop over the sorted dependencies |
| AsciiTree.CompactShowsReachable | ascii_tree.py:106-149 | the compact tree of the root has an expanded line for exactly the root and every package it reaches; a package other than the root is expanded once, and the root too when it is not exempt |
| AsciiTree.SelfLoopNeverEnds | ascii_tree.py:128 | with the root exempt from the shown check, a root that lists itself is expanded inside its own expansion with no bound on the depth |
| AsciiTree.AsWrittenAgrees | ascii_tree.py:127-149 | on a root that does not list itself, the fuel model of `_build_tree_compact` with two levels per package not yet shown ends, with exactly the texts of `CompactNode(true, …)` and the shown set `ShownAfter` |
| AsciiTree.AsWrittenEnds | ascii_tree.py:127-149 | on a root that does not list itself, the fuel model ends within two nesting levels per package not yet shown |
| AsciiTree.AsWrittenSound | ascii_tree.py:127-149 | whenever the fuel model ends on a root that does not list itself, its lines and shown set are those of `CompactNode(true, …)` and `ShownAfter` |
| AsciiTree.CorrectedExpandsOnce | ascii_tree.py:128 | without the exemption the compact tree is defined on every graph, and it expands each package it reaches, the root included, exactly once |
| AsciiTree.AsciiTreeGenerator.constructor | ascii_tree.py:11-21 | stores the graph and the root; nothing is shown yet |
| AsciiTree.AsciiTreeGenerator.Generate | ascii_tree.py:23-42 | the report is the header and the full tree of the root (or the no-dependencies note) joined with line breaks |
| AsciiTree.AsciiTreeGenerator.BuildTree | ascii_tree.py:44-88 | the lines appended are exactly `TreeNode`: a cycle mark for a package on the path, otherwise its line and its sorted subtrees |
| AsciiTree.AsciiTreeGenerator.GenerateCompact | ascii_tree.py:90-109 | the compact report is the header and the compact tree of the root joined with line breaks, and the shown set is then exactly the root and the packages it reaches |
| AsciiTree.AsciiTreeGenerator.BuildTreeCompact | ascii_tree.py:111-149 | the lines appended are exactly those of `CompactNode` with the root exempt from the shown check, and the shown set grows exactly as `ShownAfter` says |
| AsciiTree.AsciiTreeGenerator.BuildDepsCompact | ascii_tree.py:143-149 | the dependency loop appends exactly the compact subtrees of the sorted dependencies, each drawn with the packages shown before it |
| D2Diagram.CycleSection | d2_generator.py:69-86 | the cycle section is present exactly when a cycle was recorded |
| D2Diagram.EdgesFromFacts | d2_generator.py:55-65 | the edges out of one package pair it with its sorted dependencies, in order |
| D2Diagram.EdgeListFacts | d2_generator.py:53-66 | the edge list holds exactly the graph's edges out of the remaining packages, sorted by package and then by dependency |
| D2Diagram.EdgeListExact | d2_generator.py:52-66 | every edge of the graph appears exactly once in the edge section, in order, and nothing else does |
| D2Diagram.NodesSize | d2_generator.py:38-47 | one declaration line per package, and four more for the root's style block when the root is a package |
| D2Diagram.WalkAllRed | d2_generator.py:76-86 | along a walk of the graph every consecutive pair is an edge, so each gets a five-line red block |
| D2Diagram.CyclesAllRed | d2_generator.py:73-86 | under the graph's invariant every pair of every recorded cycle is highlighted |
| D2Diagram.NoEdgeNoRed | d2_generator.py:74-86 | the highlights of a cycle are one red block per consecutive pair that is an edge of the diagram, in order, and a pair gets a block exactly when it is an edge |
| D2Diagram.D2Generator.constructor | d2_generator.py:11-20 | stores the graph and the root |
| D2Diagram.D2Generator.Generate | d2_generator.py:22-88 | the text is the preamble, the declarations, an empty line, the edges and, when cycles were recorded, the cycle heading and the red blocks, joined with line breaks |
| D2Diagram.D2Generator.EmitNodes | d2_generator.py:38-47 | the declaration loop appends exactly the declarations of the sorted packages |
| D2Diagram.D2Generator.EmitEdges | d2_generator.py:52-66 | the edge loop appends exactly the edge lines, and the set of seen edges is then exactly the edges of the graph |
| D2Diagram.D2Generator.EmitPackageEdges | d2_generator.py:54-66 | one package's edges: the lines of its edges in dependency order, each edge new to the seen set |
| D2Diagram.D2Generator.EmitCycles | d2_generator.py:73-86 | the cycle loop appends exactly the red blocks of every cycle |
| D2Diagram.D2Generator.EmitCycle | d2_generator.py:76-86 | one cycle: a red block for each consecutive pair that is an edge of the diagram |
| ConfigParsing.MissingEmpty | config_parser.py:77-82 | nothing is missing exactly when every required parameter is present |
| ConfigParsing.MissingInOrder | config_parser.py:77-80 | the missing parameters are listed in the order of `REQUIRED_PARAMS`, and every absent one is listed |
| ConfigParsing.MissingRequired | config_parser.py:76-85 | a parameter is reported missing exactly when it is absent, none twice, and validation fails with that list exactly when it is not empty |
| ConfigParsing.NormalisedShape | config_parser.py:129-133 | normalising strips the name, URL and version, strips the filter or makes it empty, and changes nothing else |
| ConfigParsing.ValidShape | config_parser.py:69-133 | on success every required parameter is present with its type, the three names are non-empty once stripped, the test path is valid in test mode, and the stored configuration is the normalised one |
| ConfigParsing.PathOnlyInTestMode | config_parser.py:103-110 | outside test mode neither the test path nor the file system affects the outcome |
| ConfigParsing.PathInTestMode | config_parser.py:103-110 | in test mode a non-string path fails, a missing file fails, and an absent or empty path passes this check |
| ConfigParsing.NormalisedIdempotent | config_parser.py:130-133 | normalising twice is normalising once |
| ConfigParsing.ValidateIdempotent | config_parser.py:69-133 | a validated configuration validates again to itself |
| ConfigParsing.ConfigParser.constructor | config_parser.py:27-35 | stores the path; the configuration starts empty |
| ConfigParsing.ConfigParser.ValidateConfig | config_parser.py:69-133 | the error returned is the one `Validate` finds, and the configuration is unchanged on error; on success it is the normalised one |
| ConfigParsing.ConfigParser.GetConfig | config_parser.py:135-142 | returns the stored configuration |

## Left out

- The npm registry fetcher (`npm_fetcher.py`) and the command line (`main.py`) are not part of this model. Network access, argument handling and output are outside the core. Any dependency source is modelled as a finite `Source`: a map from names to dependency lists, plus the set of names whose fetch fails.
- `load_config` (reading and parsing YAML) is left out. The configuration reaches `ConfigParser` already decoded, as a map to `Value`. YAML values other than strings and booleans are all `Other`. The key order of Python's dict is not modelled, since nothing in the validator depends on it.
- `os.path.exists` becomes the parameter `existing`, the set of paths that exist.
- `_load_repository`: reading the file, the error for a missing file, and the JSON branch (content that parses as JSON) are left out. The loader's constructor takes the file content and always uses the text format.
- `Text.Lower` and `Text.Strip`: case folding and whitespace are modelled on ASCII only. Python consults the Unicode tables for both.
- `Text.Less`: `sorted` on names is modelled as lexicographic order on code points, which is what Python does for `str`.
- `DependencyGraphs.DependencyGraph.BuildGraphDfs`: a dependency source that raises is modelled as a fetch that fails. Python's `RecursionError` on very deep graphs, and exceptions other than from the fetch, are not modelled.
- The object's `visited` and `recursion_stack` fields are used by no traversal. They are kept as fields and only emptied by the constructor and `clear`. The traversal's own visited set is threaded through `BuildGraphDfs`.
- The `path` argument of `build_graph_dfs` and `_build_tree` is a value in the model. Every recursive call passes a copy, so the in-place append, pop and discard are never observed by a caller.
- There is no reverse-dependency query: the graph answers only forward questions. The root becomes a package of the graph only through `add_dependency`, so a root with no unfiltered dependencies is absent from it.
- `D2Diagram.D2Generator.Generate` is split into helper methods (`EmitNodes`, `EmitEdges`, `EmitPackageEdges`, `EmitCycles`, `EmitCycle`). Each helper keeps one loop of the original method, and `Generate` calls them in the original order.
- `D2Diagram.D2Generator.EmitEdges`: the check `edge not in visited_edges` never skips an edge. The packages are a set and each dependency set is iterated once, so the check only adds the edge to the set. `EmitPackageEdges` proves that every edge is new when it is reached.
- `RepositoryLoader.TestRepositoryLoader.GetDependencies` returns a copy in the source. Dictionaries are values here, so aliasing is not modelled.
- `AsciiTree.AsciiTreeGenerator.BuildTreeCompact` and `GenerateCompact` require that the root does not list itself. On such a graph the code recurses until Python's recursion limit; see Findings. That case is modelled by the function `AsciiTree.CompactNodeAsWritten`, which carries a `fuel` bound on the nesting depth, with `None` for running out of it; `AsciiTree.AsWrittenAgrees` proves that it agrees with `CompactNode(true, …)` wherever the root does not list itself.
- `AsciiTree.AsciiTreeGenerator.BuildDepsCompact` is the loop of `_build_tree_compact` over the sorted dependencies, kept as a method of its own.

## Findings

| source | as written | input that shows it | evidently intended | confidence | as-written member | corrected member |
|---|---|---|---|---|---|---|
| ascii_tree.py:128 | `if package != self.root_package and package in self.visited`: the root is exempt from the already-shown check | a graph where the root lists itself (the builder records the edge `root -> root` and the cycle `[root, root]`); `generate_compact()` expands the root inside its own expansion, again and again, until Python's recursion limit | the comment above the check says the root exemption is deliberate, but the drawing must end; without the exemption (`if package in self.visited`) it ends on every graph and expands each reachable package, the root included, exactly once | not executed; high for the self-loop, low on which repair the authors would choose | AsciiTree.SelfLoopNeverEnds | AsciiTree.CorrectedExpandsOnce |
