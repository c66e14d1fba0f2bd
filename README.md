# Dependency graph engine of the package visualizer, in Dafny

This project models the dependency-graph engine of the Alpine-style package visualizer
(`gitmanagerdemo5stage.py`). It covers four pieces and proves what they promise.

- **Local repository loader** (`LocalRepository`, with the string helpers in `Text`).
  - One loop reads lines of the form `PACKAGE: DEP1, DEP2`.
  - A line is stripped with Python's notion of white space.
  - Blank lines, `#` lines and lines without a colon are skipped.
  - The line is cut at its first colon. The dependency list is cut at every comma, and each piece is stripped; empty pieces are dropped.
  - A later line for the same package replaces an earlier one.
  - The loader is a pure function from the file's lines to the repository map.
- **Breadth-first closure** (`DependencyBfs.BuildDependencyGraph`). It is imperative, as in the source.
  - A FIFO queue, a visited set, the node set, the edge list and the back-edge report are updated step by step. The outer `while` loop is `DrainQueue`. The inner `for` loop is `ExpandPackage`, and one pass of it is `VisitDependency`.
  - A dependency whose name contains the (non-empty) filter substring is skipped.
  - A start package that is itself filtered gives an empty graph and a single report line.
  - Dependency strings are used as they are: the code strips no version qualifiers.
- **Kahn's topological sort** (`LoadingOrder.GetLoadingOrder`), also imperative. It calls:
  - `Tables`, which fills the in-degree table and the adjacency lists;
  - `Seed`, which builds the zero-in-degree seed queue, with the requested package forced in;
  - `Drain`, the `while` loop, which runs `Emit` once per pass: `Emit` dequeues a package, appends it to the order and calls `Relax`;
  - `Relax`, which decrements the in-degree of each neighbour of a dequeued package.
  - `has_cycle` is `len(order) != len(nodes)`.
- **Final order** (`FinalOrder`). Every occurrence of the requested package is removed from the loading order. If the package was there, it is put back once at the end. `Show` gives the three outcomes of the printout.

`Pipeline.LoadingPlan` chains these pieces the way `run_visualizer` does:
- the lookup of the requested package;
- the traversal;
- the early stop on an empty graph;
- the sort;
- the reshaping.

The traversal's state is modelled by recursive specification functions over the recorded edge list:
- `Discovery` is the order in which packages are first seen, which gives the visited set and the queue;
- `BackEdges` is the report;
- `Expansion` is the edges produced by expanding packages in a given order.

The sort's loop is specified by the predicates `Draining` and `Orderly`:
- `Draining` holds on every graph. It keeps the table equal to the in-degree minus the decrements so far, and keeps a size budget that gives termination.
- `Orderly` holds when forcing the requested package into the seed is harmless. It gives no repeats and a topological order.

Python `set` iteration order is not specified. The model therefore lets `Seed` take the zero-in-degree nodes in any order (a `:|` choice), and every property is proved for all such orders.

### What the code does at its edges

- Dependency strings are used verbatim: `build_dependency_graph_bfs` cuts no version qualifier (`>=`, `<`, `~`, `=`) off a dependency (lines 68-76), so `b>=2` and `b` are different packages.
- The requested package is forced into the seed queue (lines 117-118), so in a cyclic graph it can be emitted twice. For `{A: [B], B: [A]}` from `A`, the order is `A, B, A`. `GetLoadingOrder` therefore proves "no repeats" only under `Harmless`: the requested package is not a node, or nothing points at it.
- The cycle test is `len(loading_order) != len(nodes)` (line 139). In the example above the order is longer than the node set, and a second emission of the requested package can make the lengths equal while a node is never emitted, so a cycle can go unreported. The model keeps `!=`, and `CycleFound` is the corrected test. This is the second row under "Findings".
- The comment at line 244 asks that dependencies come before the requested package, and line 245 achieves that. The numbered steps (lines 249-254) are the rest of the loading order as it is, and Kahn's order on these edges puts a package before its dependencies, so a step can install a package before its own dependency when neither is the requested package. This is the first row under "Findings".

## Model

| member | source | states |
|---|---|---|
| Text.Strip | gitmanagerdemo5stage.py:30 | the stripped line neither starts nor ends with a Python white-space character |
| Text.StripIsSlice | gitmanagerdemo5stage.py:30 | strip only removes white space at both ends: the result is a slice `s[i..j]` of the line, with nothing but white space outside it |
| Text.StripEmpty | gitmanagerdemo5stage.py:31 | a stripped text is empty exactly when the text is all white space (the `not line` and `if d.strip()` tests) |
| Text.StripIdempotent | gitmanagerdemo5stage.py:36-37 | stripping an already stripped text changes nothing |
| Text.StripTrimmed | gitmanagerdemo5stage.py:36-37 | a text with no white space at either end is its own strip |
| Text.IndexOf | gitmanagerdemo5stage.py:35 | the index of the first colon: the text before it holds no colon, and it is the length exactly when there is no colon |
| Text.IndexOfAfter | gitmanagerdemo5stage.py:35 | in `head + ":" + tail` with a colon-free head, the first colon sits right after the head |
| Text.Split | gitmanagerdemo5stage.py:37 | `split(',')` gives at least one piece, and no piece holds a comma |
| Text.JoinSplit | gitmanagerdemo5stage.py:37 | joining the comma-split pieces with commas gives back the original text |
| Text.SplitJoin | gitmanagerdemo5stage.py:37 | splitting comma-free pieces joined with commas gives back the pieces |
| Text.Contains | gitmanagerdemo5stage.py:60-71 | Python's `sub in s`: a substring never longer than the text, and the empty string occurs in every text; `ContainsSplit` states that it is exactly the substring test |
| Text.ContainsSplit | gitmanagerdemo5stage.py:71 | `sub in s` holds exactly when `s == a + sub + b` for some `a`, `b` |
| LocalRepository.Dependencies | gitmanagerdemo5stage.py:37 | each dependency is non-empty and stripped, and there is at most one per comma-separated piece |
| LocalRepository.DependenciesAppend | gitmanagerdemo5stage.py:37 | each piece contributes on its own and in order: the list for `a + b` is the list for `a` followed by the list for `b` |
| LocalRepository.DependenciesOne | gitmanagerdemo5stage.py:37 | a piece contributes its stripped text exactly when it is not all white space |
| LocalRepository.DependenciesNoComma | gitmanagerdemo5stage.py:37 | no dependency contains a comma |
| LocalRepository.ParseLine | gitmanagerdemo5stage.py:30-38 | a line is skipped exactly when its stripped text is empty, starts with `#` or has no colon; otherwise the package is stripped and colon-free, and the dependencies are comma-free |
| LocalRepository.ParseRecordLine | gitmanagerdemo5stage.py:34-37 | a stripped line `head: tail` with a colon-free head gives the package `strip(head)` and the dependencies of `tail` split at commas |
| LocalRepository.Store | gitmanagerdemo5stage.py:38 | `repo[package] = deps` for each record in turn: every stored package comes from some record line; `StoreLastRecordWins` states membership in both directions and that the last record wins |
| LocalRepository.StoreMember | gitmanagerdemo5stage.py:38 | a package is in the repository exactly when some record line names it |
| LocalRepository.StoreValue | gitmanagerdemo5stage.py:38 | the last record line naming a package gives its dependency list |
| LocalRepository.StoreLastRecordWins | gitmanagerdemo5stage.py:38 | both of the above for a sequence of records |
| LocalRepository.Parse | gitmanagerdemo5stage.py:29-38 | a package is loaded exactly when some line is a record for it, and it maps to the dependencies of the last such line, so a later line for the same package overwrites an earlier one |
| Graph.SuccMember | gitmanagerdemo5stage.py:99-100 | every entry of `adj[u]` is the target of an edge from `u` |
| Graph.SuccCount | gitmanagerdemo5stage.py:99-100 | `v` occurs in `adj[u]` as often as the edge `(u, v)` occurs in the edge list |
| Graph.InDegreeZero | gitmanagerdemo5stage.py:111 | a package has in-degree 0 exactly when no edge points at it |
| Graph.CountFromAll | gitmanagerdemo5stage.py:134 | the edges into `v` from a set of sources are at most its in-degree, and are all of it exactly when every source of an edge into `v` is in the set |
| Graph.RootHasNoPredecessor | gitmanagerdemo5stage.py:114-118 | in an acyclic graph whose nodes are all reachable from the start and whose edges all leave nodes, nothing points at the start, so forcing it into the seed queue is harmless |
| Graph.PredecessorsInsideMeanCycle | gitmanagerdemo5stage.py:138-139 | if every package of a non-empty set has a predecessor inside the set, the graph has a cycle |
| Graph.RankedAcyclic | gitmanagerdemo5stage.py:138-139 | a graph whose edges all go up a ranking has no cycle |
| Graph.TopologicalForward | gitmanagerdemo5stage.py:128-139 | a topological loading order puts the source of every edge, the dependent package, before its target |
| Graph.ForwardAcyclic | gitmanagerdemo5stage.py:138-139 | a repeat-free order that holds both ends of every edge and puts every source before its target proves the graph has no cycle |
| DependencyBfs.Excluded | gitmanagerdemo5stage.py:60-71 | `filter_substring and filter_substring in name`: an empty filter excludes nothing, and an excluding filter is no longer than the name |
| DependencyBfs.Deps | gitmanagerdemo5stage.py:68 | `repository_data.get(p, [])`: an unknown package has no dependencies, and every dependency returned is one the repository lists |
| DependencyBfs.Kept | gitmanagerdemo5stage.py:70-73 | the dependencies that pass the filter, in order and never more than were listed; `KeptMembers` states that a dependency is kept exactly when it is listed and not excluded |
| DependencyBfs.KeptMembers | gitmanagerdemo5stage.py:70-73 | a dependency survives the filter exactly when it is listed and does not contain the non-empty filter substring |
| DependencyBfs.Discovery | gitmanagerdemo5stage.py:56-84 | the discovery order starts with the start package, never repeats a package, and holds exactly the start and the edge targets |
| DependencyBfs.BackEdgeCount | gitmanagerdemo5stage.py:78-81 | back-edge reports plus discovered packages equal the recorded edges plus one, so `len(cycles) <= len(edges)` |
| DependencyBfs.BackEdgesAreEdges | gitmanagerdemo5stage.py:78-81 | every back-edge report names a recorded edge |
| DependencyBfs.ExpansionSucc | gitmanagerdemo5stage.py:68-75 | when packages are expanded once each, a package's outgoing edges are its kept dependencies in repository order, and a package never expanded has none |
| DependencyBfs.SourcedReachable | gitmanagerdemo5stage.py:75-84 | when every edge leaves an already discovered package, every discovered package is reachable from the start |
| DependencyBfs.BackEdgeStep | gitmanagerdemo5stage.py:78-81 | recording an edge to a visited package adds one report and keeps the traversal state consistent |
| DependencyBfs.TreeEdgeStep | gitmanagerdemo5stage.py:75-84 | recording an edge to a new package visits it, enqueues it and keeps the traversal state consistent |
| DependencyBfs.PopStep | gitmanagerdemo5stage.py:67 | the package taken off the queue is a visited node, and the traversal state stays consistent |
| DependencyBfs.VisitDependency | gitmanagerdemo5stage.py:71-84 | one dependency: a filtered one records nothing; otherwise exactly the edge `(current, dep)` is recorded; visited and queue grow together |
| DependencyBfs.ExpandPackage | gitmanagerdemo5stage.py:68-84 | the edges recorded for one dequeued package are its kept dependencies, in repository order (none for a package missing from the repository); the traversal state stays consistent |
| DependencyBfs.DrainQueue | gitmanagerdemo5stage.py:66-84 | the queue loop ends (the visited set can only grow inside a finite universe); every discovered package has been expanded exactly once, in discovery order |
| DependencyBfs.Closure | gitmanagerdemo5stage.py:66-86 | with an empty queue, the node set is the discovered set, both ends of every edge are nodes, and each node's edges are its kept dependencies |
| DependencyBfs.BuildDependencyGraph | gitmanagerdemo5stage.py:48-86 | a filtered start gives no nodes, no edges and one report; otherwise the start is a node, nodes equal the visited set, no node is filtered, both ends of every edge are nodes, each node's edges are its kept dependencies in order, every node is reachable from the start, and the report lists exactly the edges to already seen packages |
| LoadingOrder.CountedStep | gitmanagerdemo5stage.py:96-98 | loading one more edge bumps its target's count when the target is a node, and keeps the table equal to the in-degrees |
| LoadingOrder.ListedStep | gitmanagerdemo5stage.py:96-100 | loading one more edge appends its target to its source's list when the source is a node, and keeps every list equal to the node's successors |
| LoadingOrder.Tables | gitmanagerdemo5stage.py:92-100 | the table has exactly the nodes as keys; each entry is the number of edges into the node, and each list is the node's edge targets in edge order |
| LoadingOrder.Seed | gitmanagerdemo5stage.py:107-118 | the seed queue holds each zero-in-degree node once, plus the requested package; the requested package comes last when it had to be forced in |
| LoadingOrder.SeedBudget | gitmanagerdemo5stage.py:107-118 | seed length plus still-positive entries equals the node count, plus one when the requested package was forced in |
| LoadingOrder.Relax | gitmanagerdemo5stage.py:133-136 | each neighbour's entry drops by the number of times it is listed; the queue only grows at its end, and it gains, without repeats, exactly the nodes whose entry went from positive to at most zero |
| LoadingOrder.PosStep | gitmanagerdemo5stage.py:133-136 | the newly queued nodes leave the set of positive entries, and only they do |
| LoadingOrder.RelaxedDistinct | gitmanagerdemo5stage.py:133-134 | without repeats in the order, the decrements a node has had are the edges into it from emitted nodes |
| LoadingOrder.Released | gitmanagerdemo5stage.py:135-136 | a node whose entry has reached zero has had every predecessor emitted |
| LoadingOrder.LeftOver | gitmanagerdemo5stage.py:138-139 | a node whose entry is still positive has a predecessor that was never emitted |
| LoadingOrder.Emit | gitmanagerdemo5stage.py:129-136 | one pass: the head of the queue is appended to the order, the rest of the queue is kept in front, and its listed neighbours are relaxed, with exactly those dropping from positive to at most zero enqueued |
| LoadingOrder.InitialState | gitmanagerdemo5stage.py:120-125 | the seeded queue satisfies the loop invariant, and the harmless-seed invariant when the seed is harmless |
| LoadingOrder.DrainingStep | gitmanagerdemo5stage.py:128-136 | one pass of the drain loop keeps the table, the size budget and the queued-node bookkeeping |
| LoadingOrder.EmitTopological | gitmanagerdemo5stage.py:129-130 | emitting a package whose predecessors are all emitted keeps the order topological |
| LoadingOrder.OrderlyStep | gitmanagerdemo5stage.py:128-136 | with a harmless seed, one pass keeps the order free of repeats and topological, and keeps every queued node's predecessors emitted |
| LoadingOrder.Complete | gitmanagerdemo5stage.py:128-141 | in an acyclic graph whose start is a node, an order without repeats that leaves no zero entry unemitted holds every node exactly once |
| LoadingOrder.Blocked | gitmanagerdemo5stage.py:128-139 | `Settled`: when the queue runs dry with no package emitted twice, a node is emitted exactly when all its predecessors are, and every node left out has a predecessor that was left out too, so it is on or behind a cycle |
| LoadingOrder.Drained | gitmanagerdemo5stage.py:128-141 | when the queue is empty, everything promised by `GetLoadingOrder` holds |
| LoadingOrder.Drain | gitmanagerdemo5stage.py:128-136 | the `while` loop ends with an empty queue, keeping the table, the size budget and, with a harmless seed, no repeats and a topological order |
| LoadingOrder.CycleFoundSound | gitmanagerdemo5stage.py:138-139 | the corrected cycle test: when every edge's ends are nodes, a graph with a cycle always has `CycleFound` true |
| LoadingOrder.FullOrder | gitmanagerdemo5stage.py:138-139 | a repeat-free topological order as long as the node set, holding only nodes, makes `CycleFound` false |
| LoadingOrder.GetLoadingOrder | gitmanagerdemo5stage.py:88-141 | the loop ends; `has_cycle` is `len(order) != len(nodes)`; the requested package and every zero-in-degree node are emitted; only nodes and the requested package are emitted; at most one more entry than nodes; with a harmless seed, no repeats and every edge's source comes before its target, and, when every edge leaves a node, a node is emitted exactly when all its predecessors are, and every node left out has a left-out predecessor; when the start is a node of in-degree 0 and every edge leaves a node, `has_cycle` is true exactly when the graph has a cycle, and with no cycle the order is a permutation of the nodes and `CycleFound` is false |
| FinalOrder.Without | gitmanagerdemo5stage.py:236 | the requested package is gone, and nothing is added |
| FinalOrder.WithoutMember | gitmanagerdemo5stage.py:236 | a package remains exactly when it was in the order and is not the requested one |
| FinalOrder.WithoutCount | gitmanagerdemo5stage.py:236 | every other package keeps its number of occurrences |
| FinalOrder.WithoutKeepsOrder | gitmanagerdemo5stage.py:236 | any two remaining entries keep their relative order |
| FinalOrder.WithoutAppend | gitmanagerdemo5stage.py:236 | the filter works entry by entry: filtering `a + b` is filtering `a` then `b` |
| FinalOrder.WithoutNothingLeft | gitmanagerdemo5stage.py:239 | the filtered order is empty exactly when every entry is the requested package |
| FinalOrder.Reshape | gitmanagerdemo5stage.py:236-247 | the final order lists the same packages as the loading order, and ends with the requested package when it was loaded; `ReshapeShape` states that it then occurs exactly once, and that every other package keeps its count |
| FinalOrder.ReshapeShape | gitmanagerdemo5stage.py:236-247 | the final order holds the requested package exactly when the loading order did, then only once and last; every other package keeps its count |
| FinalOrder.ReshapeIdempotent | gitmanagerdemo5stage.py:236-247 | reshaping a final order again changes nothing |
| FinalOrder.Show | gitmanagerdemo5stage.py:239-254 | the "only the requested package" message appears exactly when the order holds nothing else, and it names the requested package; the numbered steps are the reshaped order; nothing is printed exactly when the order is empty |
| FinalOrder.WithoutBackward | gitmanagerdemo5stage.py:236 | removing a package keeps a dependencies-first order dependencies-first |
| FinalOrder.InstallOrderPermutes | gitmanagerdemo5stage.py:243-247 | the installation order is a rearrangement of a repeat-free loading order that holds the requested package |
| FinalOrder.InstallOrderSound | gitmanagerdemo5stage.py:243-247 | from a complete topological loading order, the installation order lists every node once, ends with the requested package and puts every dependency before the packages that need it |
| Pipeline.LoadingPlan | gitmanagerdemo5stage.py:199-247 | a package missing from the repository or filtered out gives no nodes, no edges and nothing shown; otherwise the graph is the traversal's (the start is a node, the nodes are its discovery order, the edges are the expansion of the discovery order, the report lists the back edges, every node is reachable from the start and each node's edges are its kept dependencies); the order holds only nodes, every zero-in-degree node, and at most one more entry than there are nodes; when nothing points at the requested package, `has_cycle` is true exactly when the graph has a cycle, the order has no repeats and is topological, a node is in it exactly when all its predecessors are, and every node left out has a left-out predecessor; `has_cycle` is `len(order) != len(nodes)`, the requested package is in the order, the shown steps are `Show(order, start)` and not empty, the installation order is `InstallOrder(order, start)`, and `CycleFound` is true exactly when the graph has a cycle; for an acyclic graph the order is a permutation of the nodes with dependents first, and the installation order covers the nodes, ends with the requested package and puts dependencies first |
| Pipeline.ExampleOrder | gitmanagerdemo5stage.py:128-139 | the only repeat-free topological order of `{A: [B, C], B: [], C: [B]}` is A, C, B |
| Pipeline.ExampleGraph | gitmanagerdemo5stage.py:107-118 | that graph has no cycle and nothing depends on A |
| Pipeline.ExampleFinal | gitmanagerdemo5stage.py:236-249 | the report turns A, C, B into the steps C, B, A; the installation order is B, C, A |
| Pipeline.ExampleDirections | gitmanagerdemo5stage.py:244-245 | C, B, A installs C before its dependency B; B, C, A respects every dependency |
| Pipeline.ExampleOne | gitmanagerdemo5stage.py:223-249 | sorting that graph as written shows C, B, A, which is not dependencies-first; the corrected installation order is B, C, A |
| Pipeline.CycleThroughStartTables | gitmanagerdemo5stage.py:92-100 | for `{A: [B], B: [A, X], X: [X]}` the in-degrees are A 1, B 1, X 2, and the successor lists are A: B; B: A, X; X: X |
| Pipeline.CycleThroughStartSetup | gitmanagerdemo5stage.py:92-118 | the tables of that graph, and a seed queue holding only the forced requested package A |
| Pipeline.CycleThroughStartFirstPass | gitmanagerdemo5stage.py:128-136 | emitting A drops B to 0 and queues it |
| Pipeline.CycleThroughStartSecondPass | gitmanagerdemo5stage.py:128-136 | emitting B drops A to 0 and X to 1, and queues A again |
| Pipeline.CycleThroughStartSort | gitmanagerdemo5stage.py:107-139 | as written, the sort of that graph from A emits A, B, A and reports no cycle |
| Pipeline.CycleThroughStartReport | gitmanagerdemo5stage.py:138-254 | that graph has a cycle; the order A, B, A is as long as the node set yet misses X; the steps shown are B, A; the corrected test `CycleFound` reports the cycle |

## Findings

| source | as written | input that shows it | evidently intended | confidence | as-written member | corrected member |
|---|---|---|---|---|---|---|
| gitmanagerdemo5stage.py:236-254 | edges run from a package to its dependency (lines 75, 96-100), so Kahn's order puts each package before its dependencies; the final order moves the requested package to the end, which puts its dependencies before it as the comment at line 244 asks, and prints the other packages as installation steps in loading order | repository `{A: [B, C], B: [], C: [B]}`, start `A`, no filter: the loading order is A, C, B, and the steps shown are C, B, A, so C is installed before its dependency B | every step after its own dependencies: B, C, A (the reversed loading order, with the requested package last) | not executed | Pipeline.ExampleOne | FinalOrder.InstallOrderSound |
| gitmanagerdemo5stage.py:107-139 | the requested package is forced into the seed queue; once a cycle through it releases it, it is emitted a second time, and `len(loading_order) != len(nodes)` then compares a length that counts it twice | repository `{A: [B], B: [A, X], X: [X]}`, start `A`: the order is A, B, A, as long as the three nodes, so `has_cycle` is False; X is never emitted; the steps shown are B, A | report the cycle: `has_cycle` true whenever the graph has one | not executed | Pipeline.CycleThroughStartSort | LoadingOrder.CycleFoundSound |

`FinalOrder.InstallOrder` is the corrected order. It reverses the loading order, then reshapes it. `LoadingOrder.CycleFound` is the corrected cycle test: the order is not a repeat-free, edge-respecting arrangement of exactly the nodes. `Pipeline.LoadingPlan` returns the corrected order next to the order the code shows, and proves that `CycleFound` holds exactly when the graph has a cycle.

## Left out

- Reading the file (lines 27-28) and the two error handlers (lines 39-44) are not modelled. `LocalRepository.Parse` takes the file's lines. A line's trailing newline is white space, which strip removes.
- Printing is not modelled:
  - the configuration banner (lines 182-188);
  - the debug output (lines 102-104, 122-123, 210-214, 226-229);
  - the `[FILTERED]` trace (line 72);
  - the unknown-package message (line 200);
  - the empty-graph message (line 217);
  - the "building order" line (line 220);
  - the cycle notice (lines 232-234);
  - the section header of the loading order (line 238);
  - the comparison text (lines 257-264).
- `Show` models which printout branch is taken, and the packages it lists.
- The back-edge report lines are `Report` values (`StartFiltered`, `BackEdge`) instead of formatted text.
- The repository mode choice (lines 191-197) is not modelled. `LoadingPlan` takes the repository as a parameter. The early return on an empty local repository (line 197) is covered by the missing-package check (lines 199-201): an empty repository holds no package.
- `MOCK_REPOSITORY` (lines 12-21) is constant data. The worked example uses its own graph.
- `visualize_graph` (lines 143-175) and its graphviz calls, the call to it (lines 266-271), `main` with its command-line parsing (lines 274-304), and `gitmanager.py` (argument parsing and printing only) are not part of this model.
- LoadingOrder.GetLoadingOrder: requires that every edge leaving a node ends at a node. Python raises `KeyError` at line 134 only when such a node is actually dequeued; the model asks it of every node. The traversal's output always satisfies it.
- Pipeline.ExampleOne: starts from the nodes and edges the traversal builds for the example repository. It does not compute them through `BuildDependencyGraph`.
- Pipeline.CycleThroughStartSort: starts from the nodes and edges the traversal builds for `{A: [B], B: [A, X], X: [X]}`, not through `BuildDependencyGraph`. It replays the sort's steps (`Tables`, `Seed`, then `Emit` once per pass) instead of calling `GetLoadingOrder`, whose contract leaves the order open when the requested package has an incoming edge.
- Python integers are unbounded, like Dafny's `int`, so no wrap-around arises.
