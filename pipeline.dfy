/**
 * The graph-and-order part of the visualizer run: build the closure of the
 * requested package, sort it, and reshape the order for display. The
 * printed report itself is not modelled; the values it prints are.
 */
module Pipeline {
  import opened Graph
  import opened DependencyBfs
  import opened LoadingOrder
  import opened FinalOrder

  /**
   * The run from the repository lookup to the final order. A requested
   * package missing from the repository stops before the traversal, and an
   * empty graph (the requested package filtered out) stops before sorting;
   * the model then reports an empty order. Otherwise the graph is the
   * traversal's and the order is its sort. `shown` is what the report
   * prints; `install` is the dependencies-first installation order, and
   * `CycleFound` is the cycle test that agrees with the graph.
   */
  method LoadingPlan(start: Package, repo: Repository, filter: string)
    returns (nodes: set<Package>, edges: seq<Edge>, cycles: seq<Report>,
             order: seq<Package>, hasCycle: bool, shown: Shown, install: seq<Package>)
    ensures start !in repo ==> nodes == {} && edges == [] && cycles == [] && order == [] && shown == NothingShown
    ensures start in repo && Excluded(filter, start) ==>
              nodes == {} && edges == [] && cycles == [StartFiltered(start)] && order == [] && shown == NothingShown
    ensures start in repo && !Excluded(filter, start) ==>
              && start in nodes && nodes == Elements(Discovery(start, edges))
              && edges == Expansion(repo, filter, Discovery(start, edges))
              && cycles == BackEdges(start, edges)
              && (forall n :: n in nodes ==> Reachable(edges, start, n))
              && (forall p :: p in nodes ==> Succ(edges, p) == Kept(Deps(repo, p), filter))
    ensures start in repo && !Excluded(filter, start) ==>
              && (forall x :: x in order ==> x in nodes)
              && (forall n :: n in nodes && InDegree(edges, n) == 0 ==> n in order)
              && |order| <= |nodes| + 1
              && (InDegree(edges, start) == 0 ==> (hasCycle <==> !Acyclic(edges)))
    ensures start in repo && !Excluded(filter, start) && InDegree(edges, start) == 0 ==>
              && Distinct(order) && Topological(nodes, edges, order)
              && Settled(nodes, edges, order)
    ensures start in repo && !Excluded(filter, start) ==>
              && hasCycle == (|order| != |nodes|) && start in order
              && shown == Show(order, start) && !shown.NothingShown?
              && install == InstallOrder(order, start)
              && (CycleFound(nodes, edges, order) <==> !Acyclic(edges))
    ensures start in repo && !Excluded(filter, start) && Acyclic(edges) ==>
              && !hasCycle && Distinct(order) && Elements(order) == nodes
              && Forward(edges, order)
              && Backward(edges, install) && Elements(install) == nodes && |install| == |nodes|
              && install[|install| - 1] == start
  {
    if start !in repo {
      return {}, [], [], [], false, NothingShown, [];
    }
    nodes, edges, cycles := BuildDependencyGraph(start, repo, filter);
    if nodes == {} {
      return nodes, edges, cycles, [], false, NothingShown, [];
    }
    order, hasCycle := GetLoadingOrder(nodes, edges, start);
    shown := Show(order, start);
    install := InstallOrder(order, start);
    CycleFoundSound(nodes, edges, order);
    if Acyclic(edges) {
      RootHasNoPredecessor(edges, nodes, start);
      TopologicalForward(nodes, edges, order);
      InstallOrderSound(nodes, edges, order, start);
    }
  }

  /** Example 1: `{A: [B, C], B: [], C: [B]}` from `A` yields these nodes and edges. */
  function ExampleNodes(): set<Package> {
    {"A", "B", "C"}
  }

  function ExampleEdges(): seq<Edge> {
    [("A", "B"), ("A", "C"), ("C", "B")]
  }

  /** The only topological order of Example 1's graph is A, C, B. */
  lemma ExampleOrder(order: seq<Package>)
    requires Distinct(order) && Elements(order) == ExampleNodes()
    requires Topological(ExampleNodes(), ExampleEdges(), order)
    ensures order == ["A", "C", "B"]
  {
    var edges := ExampleEdges();
    DistinctCard(order);
    assert "A" in Elements(order) && "B" in Elements(order) && "C" in Elements(order);
    var a :| 0 <= a < |order| && order[a] == "A";
    var b :| 0 <= b < |order| && order[b] == "B";
    var c :| 0 <= c < |order| && order[c] == "C";
    assert edges[2].1 == order[b] && edges[0].1 == order[b] && edges[1].1 == order[c];
    assert "C" in order[..b] && "A" in order[..b] && "A" in order[..c];
    var c' :| 0 <= c' < b && order[c'] == "C";
    var a' :| 0 <= a' < c && order[a'] == "A";
    assert c' == c && a' == a;
    assert order == [order[0], order[1], order[2]];
  }

  /** Example 1's graph has no cycle and nothing depends on A. */
  lemma ExampleGraph()
    ensures Acyclic(ExampleEdges()) && InDegree(ExampleEdges(), "A") == 0
  {
    var edges := ExampleEdges();
    RankedAcyclic(edges, map["A" := 0, "C" := 1, "B" := 2]);
    assert forall k :: 0 <= k < |edges| ==> edges[k].1 != "A";
    InDegreeZero(edges, "A");
  }

  /** The final order as the report builds it, and the installation order, for Example 1's loading order. */
  lemma ExampleFinal()
    ensures Show(["A", "C", "B"], "A") == Steps(["C", "B", "A"])
    ensures InstallOrder(["A", "C", "B"], "A") == ["B", "C", "A"]
  {
    Three("A", "B", "C");
  }

  /** Reshaping `[a, c, b]` and its reverse when `a` is the requested package. */
  lemma Three(a: Package, b: Package, c: Package)
    requires a != b && a != c
    ensures Without([a, c, b], a) == [c, b]
    ensures Reverse([a, c, b]) == [b, c, a]
    ensures Without([b, c, a], a) == [b, c]
  {
    DropFirst(a, c, b);
    KeepFirst(b, c, a);
    assert [a, c, b][..2] == [a, c] && [a, c][..1] == [a];
  }

  lemma DropFirst(a: Package, c: Package, b: Package)
    requires a != b && a != c
    ensures Without([a, c, b], a) == [c, b]
  {
    WithoutSnoc([], a, a);
    assert [] + [a] == [a];
    WithoutSnoc([a], c, a);
    assert [a] + [c] == [a, c];
    WithoutSnoc([a, c], b, a);
    assert [a, c] + [b] == [a, c, b];
  }

  lemma KeepFirst(b: Package, c: Package, a: Package)
    requires a != b && a != c
    ensures Without([b, c, a], a) == [b, c]
  {
    WithoutSnoc([], b, a);
    assert [] + [b] == [b];
    WithoutSnoc([b], c, a);
    assert [b] + [c] == [b, c];
    WithoutSnoc([b, c], a, a);
    assert [b, c] + [a] == [b, c, a];
  }

  /** Showing C before B installs C before its dependency B; B, C, A respects every dependency. */
  lemma ExampleDirections()
    ensures !Backward(ExampleEdges(), ["C", "B", "A"])
    ensures Backward(ExampleEdges(), ["B", "C", "A"])
  {
    var shown: seq<Package> := ["C", "B", "A"];
    assert (shown[0], shown[1]) in ExampleEdges();
  }

  /**
   * Sorting Example 1 as written: the report shows C, B, A, installing C
   * before its dependency B; the installation order is B, C, A.
   */
  method ExampleOne() returns (shown: Shown, install: seq<Package>)
    ensures shown == Steps(["C", "B", "A"]) && !Backward(ExampleEdges(), shown.packages)
    ensures install == ["B", "C", "A"] && Backward(ExampleEdges(), install)
  {
    ExampleGraph();
    var order, hasCycle := GetLoadingOrder(ExampleNodes(), ExampleEdges(), "A");
    ExampleOrder(order);
    shown := Show(order, "A");
    install := InstallOrder(order, "A");
    ExampleFinal();
    ExampleDirections();
  }

  /** Example 2: `{A: [B], B: [A, X], X: [X]}` from `A` yields these nodes and edges. */
  function CycleThroughStartNodes(): set<Package> {
    {"A", "B", "X"}
  }

  function CycleThroughStartEdges(): seq<Edge> {
    [("A", "B"), ("B", "A"), ("B", "X"), ("X", "X")]
  }

  /** Example 2's graph has three distinct nodes. */
  lemma CycleThroughStartNodeCount()
    ensures |CycleThroughStartNodes()| == 3
  {
    assert "A" != "B" && "A" != "X" && "B" != "X" by {
      assert "A"[0] != "B"[0] && "A"[0] != "X"[0] && "B"[0] != "X"[0];
    }
    assert CycleThroughStartNodes() == {"A", "B"} + {"X"};
  }

  /** The in-degrees and adjacency lists of Example 2's graph. */
  lemma CycleThroughStartTables()
    ensures InDegree(CycleThroughStartEdges(), "A") == 1 && InDegree(CycleThroughStartEdges(), "B") == 1 && InDegree(CycleThroughStartEdges(), "X") == 2
    ensures Succ(CycleThroughStartEdges(), "A") == ["B"] && Succ(CycleThroughStartEdges(), "B") == ["A", "X"] && Succ(CycleThroughStartEdges(), "X") == ["X"]
  {
    var e := CycleThroughStartEdges();
    assert "A" != "B" && "A" != "X" && "B" != "X" by {
      assert "A"[0] != "B"[0] && "A"[0] != "X"[0] && "B"[0] != "X"[0];
    }
    assert e[..3] == [("A", "B"), ("B", "A"), ("B", "X")];
    assert e[..3][..2] == [("A", "B"), ("B", "A")];
    assert e[..3][..2][..1] == [("A", "B")];
    assert e[..3][..2][..1][..0] == [];
    var p1, p2, p3 := e[..3][..2][..1], e[..3][..2], e[..3];
    assert InDegree(p1, "A") == 0 && InDegree(p1, "B") == 1 && InDegree(p1, "X") == 0;
    assert InDegree(p2, "A") == 1 && InDegree(p2, "B") == 1 && InDegree(p2, "X") == 0;
    assert InDegree(p3, "A") == 1 && InDegree(p3, "B") == 1 && InDegree(p3, "X") == 1;
    assert Succ(p1, "A") == ["B"] && Succ(p1, "B") == [] && Succ(p1, "X") == [];
    assert Succ(p2, "A") == ["B"] && Succ(p2, "B") == ["A"] && Succ(p2, "X") == [];
    assert Succ(p3, "A") == ["B"] && Succ(p3, "B") == ["A", "X"] && Succ(p3, "X") == [];
  }

  /** A repeat-free sequence holding exactly one package is that package alone. */
  lemma SingleSeed(s: seq<Package>, x: Package)
    requires Distinct(s) && Elements(s) == {x}
    ensures s == [x]
  {
    DistinctCard(s);
    assert s[0] in Elements(s);
  }

  /** Steps 1 and 2 of the sort on Example 2: the tables, and the seed queue holding only the forced `A`. */
  method CycleThroughStartSetup() returns (adj: map<Package, seq<Package>>, indeg: map<Package, int>, seed: seq<Package>)
    ensures adj == map["A" := ["B"], "B" := ["A", "X"], "X" := ["X"]]
    ensures indeg == map["A" := 1, "B" := 1, "X" := 2]
    ensures seed == ["A"]
  {
    var nodes, edges := CycleThroughStartNodes(), CycleThroughStartEdges();
    CycleThroughStartTables();
    indeg, adj := Tables(nodes, edges);
    assert indeg == map["A" := 1, "B" := 1, "X" := 2];
    seed := Seed(nodes, indeg, "A");
    assert Zeros(nodes, indeg) == {};
    SingleSeed(seed, "A");
  }

  /** The first pass of the drain loop on Example 2: emitting `A` releases `B`. */
  method CycleThroughStartFirstPass() returns (adj: map<Package, seq<Package>>, indeg: map<Package, int>,
                                    queue: seq<Package>, order: seq<Package>)
    ensures adj == map["A" := ["B"], "B" := ["A", "X"], "X" := ["X"]]
    ensures indeg == map["A" := 1, "B" := 0, "X" := 2]
    ensures queue == ["B"] && order == ["A"]
  {
    adj, indeg, queue := CycleThroughStartSetup();
    ghost var table := indeg;
    indeg, queue, order := Emit(adj, indeg, queue, []);
    AReleasesB(table, indeg, queue[0..]);
  }

  /** The second pass on Example 2: emitting `B` releases `A` again. */
  method CycleThroughStartSecondPass() returns (adj: map<Package, seq<Package>>, indeg: map<Package, int>,
                                     queue: seq<Package>, order: seq<Package>)
    ensures adj == map["A" := ["B"], "B" := ["A", "X"], "X" := ["X"]]
    ensures indeg == map["A" := 0, "B" := 0, "X" := 1]
    ensures queue == ["A"] && order == ["A", "B"]
  {
    adj, indeg, queue, order := CycleThroughStartFirstPass();
    ghost var table := indeg;
    indeg, queue, order := Emit(adj, indeg, queue, order);
    BReleasesA(table, indeg, queue[0..]);
  }

  /**
   * `get_loading_order` on Example 2, pass by pass. Nothing has in-degree 0,
   * so the seed is the forced `A`; `B` is released by `A`, `A` again by `B`,
   * and `X`, held by its own loop, never. The third pass emits `A` again and
   * releases nothing, so the loop stops with the order `A, B, A`, as long as
   * the node set: no cycle is reported (`CycleThroughStartReport` shows the graph has
   * one).
   */
  method CycleThroughStartSort() returns (order: seq<Package>, hasCycle: bool)
    ensures order == ["A", "B", "A"] && !hasCycle
  {
    var adj, indeg, queue;
    adj, indeg, queue, order := CycleThroughStartSecondPass();
    ghost var table := indeg;
    indeg, queue, order := Emit(adj, indeg, queue, order);
    AReleasesNothing(table, indeg, queue[0..]);
    assert queue == [];
    CycleThroughStartNodeCount();
    hasCycle := |order| != |CycleThroughStartNodes()|;
  }

  /** Emitting `A` releases `B`. */
  lemma AReleasesB(indeg: map<Package, int>, indeg': map<Package, int>, released: seq<Package>)
    requires indeg == map["A" := 1, "B" := 1, "X" := 2]
    requires Relaxation(["B"], indeg, indeg', released)
    ensures indeg' == map["A" := 1, "B" := 0, "X" := 2] && released == ["B"]
  {
    assert multiset(["B"])["B"] == 1 && multiset(["B"])["A"] == 0 && multiset(["B"])["X"] == 0;
    assert Elements(released) == {"B"};
    SingleSeed(released, "B");
  }

  /** Emitting `B` releases `A` again; `X` keeps one incoming edge, its own. */
  lemma BReleasesA(indeg: map<Package, int>, indeg': map<Package, int>, released: seq<Package>)
    requires indeg == map["A" := 1, "B" := 0, "X" := 2]
    requires Relaxation(["A", "X"], indeg, indeg', released)
    ensures indeg' == map["A" := 0, "B" := 0, "X" := 1] && released == ["A"]
  {
    assert multiset(["A", "X"])["A"] == 1 && multiset(["A", "X"])["B"] == 0 && multiset(["A", "X"])["X"] == 1;
    assert Elements(released) == {"A"};
    SingleSeed(released, "A");
  }

  /** Emitting `A` the second time releases nothing: `B` drops below zero. */
  lemma AReleasesNothing(indeg: map<Package, int>, indeg': map<Package, int>, released: seq<Package>)
    requires indeg == map["A" := 0, "B" := 0, "X" := 1]
    requires Relaxation(["B"], indeg, indeg', released)
    ensures released == []
  {
    assert Elements(released) == {};
    DistinctCard(released);
  }

  /**
   * Example 2 has a cycle, yet its order `A, B, A` is as long as the node
   * set; the report shows the steps `B, A`, leaving `X` out, while the
   * corrected test reports the cycle.
   */
  lemma CycleThroughStartReport()
    ensures !Acyclic(CycleThroughStartEdges()) && |["A", "B", "A"]| == |CycleThroughStartNodes()| && "X" in CycleThroughStartNodes()
    ensures Show(["A", "B", "A"], "A") == Steps(["B", "A"])
    ensures CycleFound(CycleThroughStartNodes(), CycleThroughStartEdges(), ["A", "B", "A"])
  {
    var order: seq<Package> := ["A", "B", "A"];
    CycleThroughStartNodeCount();
    assert IsPath(CycleThroughStartEdges(), ["X", "X"]) by {
      assert CycleThroughStartEdges()[3] == ("X", "X");
    }
    assert Without(order, "A") == ["B"] by {
      assert order == ["A", "B"] + ["A"];
      WithoutSnoc(["A", "B"], "A", "A");
      assert ["A", "B"] == ["A"] + ["B"];
      WithoutSnoc(["A"], "B", "A");
      WithoutSnoc([], "A", "A");
    }
    assert order[1] != "A";
    assert order[0] == order[2];
  }
}
