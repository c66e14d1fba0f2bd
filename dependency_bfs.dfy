/**
 * Breadth-first construction of the dependency closure of a start package
 * (`build_dependency_graph_bfs`): a FIFO work queue, a visited set, an
 * exclusion substring applied to every dependency, and a report of the
 * edges that lead back to an already visited package.
 */
module DependencyBfs {
  import opened Text
  import opened Graph

  /** The traversal's report lines. */
  datatype Report =
    | StartFiltered(package: Package)        // the start package itself was filtered out
    | BackEdge(from: Package, to: Package)   // an edge whose target was already visited

  /**
   * `filter_substring and filter_substring in name`. An empty filter excludes
   * nothing, and a filter longer than the name cannot occur in it.
   */
  predicate Excluded(filter: string, name: Package)
    ensures Excluded(filter, name) ==> 0 < |filter| <= |name|
  {
    filter != [] && Contains(name, filter)
  }

  /**
   * `repository_data.get(p, [])`: an unknown package has no dependencies, and
   * every dependency returned is one the repository lists.
   */
  function Deps(repo: Repository, p: Package): (r: seq<Package>)
    ensures p !in repo ==> r == []
    ensures forall k :: 0 <= k < |r| ==> r[k] in AllDeps(repo)
  {
    if p in repo then
      assert forall k :: 0 <= k < |repo[p]| ==> repo[p][k] in repo[p];
      repo[p]
    else []
  }

  /** Every package that occurs in some dependency list. */
  function AllDeps(repo: Repository): set<Package> {
    set p, d | p in repo && d in repo[p] :: d
  }

  /** The dependencies that pass the filter, in their original order. */
  function Kept(deps: seq<Package>, filter: string): (r: seq<Package>)
    ensures |r| <= |deps|
  {
    if deps == [] then []
    else
      var d := deps[|deps| - 1];
      Kept(deps[..|deps| - 1], filter) + (if Excluded(filter, d) then [] else [d])
  }

  /** The kept dependencies are dependencies, none of them excluded; every dependency not excluded is kept. */
  lemma {:induction false} KeptMembers(deps: seq<Package>, filter: string, d: Package)
    ensures d in Kept(deps, filter) <==> d in deps && !Excluded(filter, d)
  {
    if deps != [] {
      var init := deps[..|deps| - 1];
      KeptMembers(init, filter, d);
      assert deps == init + [deps[|deps| - 1]];
    }
  }

  /** The edges `(u, d)` for each `d` of `ds`, in order. */
  function Pairs(u: Package, ds: seq<Package>): (r: seq<Edge>)
    ensures |r| == |ds|
  {
    if ds == [] then [] else Pairs(u, ds[..|ds| - 1]) + [(u, ds[|ds| - 1])]
  }

  /** The edges recorded when the packages of `order` are expanded one after the other. */
  function Expansion(repo: Repository, filter: string, order: seq<Package>): seq<Edge> {
    if order == [] then []
    else
      var p := order[|order| - 1];
      Expansion(repo, filter, order[..|order| - 1]) + Pairs(p, Kept(Deps(repo, p), filter))
  }

  function Targets(edges: seq<Edge>): set<Package> {
    set e | e in edges :: e.1
  }

  /** The packages in the order they are first seen: the start, then each new edge target. */
  function Discovery(start: Package, edges: seq<Edge>): (r: seq<Package>)
    ensures |r| >= 1 && Distinct(r) && r[0] == start
    ensures Elements(r) == {start} + Targets(edges)
  {
    if edges == [] then [start]
    else
      var init := edges[..|edges| - 1];
      var e := edges[|edges| - 1];
      var before := Discovery(start, init);
      assert Targets(edges) == Targets(init) + {e.1} by {
        assert edges == init + [e];
      }
      if e.1 in Elements(before) then before
      else
        assert Elements(before + [e.1]) == Elements(before) + {e.1};
        before + [e.1]
  }

  /** One report line for each edge whose target had already been seen. */
  function BackEdges(start: Package, edges: seq<Edge>): seq<Report> {
    if edges == [] then []
    else
      var init := edges[..|edges| - 1];
      var e := edges[|edges| - 1];
      BackEdges(start, init) + (if e.1 in Elements(Discovery(start, init)) then [BackEdge(e.0, e.1)] else [])
  }

  /**
   * Every recorded edge either discovers a new package or is reported as a
   * back edge: back edges plus newly discovered packages make up all edges.
   */
  lemma {:induction false} BackEdgeCount(start: Package, edges: seq<Edge>)
    ensures |BackEdges(start, edges)| + |Elements(Discovery(start, edges))| == |edges| + 1
    ensures |BackEdges(start, edges)| <= |edges|
  {
    if edges != [] {
      var init := edges[..|edges| - 1];
      BackEdgeCount(start, init);
      var e := edges[|edges| - 1];
      var before := Discovery(start, init);
      var back: seq<Report> := if e.1 in Elements(before) then [BackEdge(e.0, e.1)] else [];
      assert BackEdges(start, edges) == BackEdges(start, init) + back;
      if e.1 in Elements(before) {
        assert Discovery(start, edges) == before;
      } else {
        assert Discovery(start, edges) == before + [e.1];
        assert Elements(before + [e.1]) == Elements(before) + {e.1};
      }
    }
  }

  /** Each back-edge report names a recorded edge. */
  lemma {:induction false} BackEdgesAreEdges(start: Package, edges: seq<Edge>)
    ensures forall k :: 0 <= k < |BackEdges(start, edges)| ==>
              BackEdges(start, edges)[k].BackEdge? && (BackEdges(start, edges)[k].from, BackEdges(start, edges)[k].to) in edges
  {
    if edges != [] {
      var init := edges[..|edges| - 1];
      BackEdgesAreEdges(start, init);
      assert forall e :: e in init ==> e in edges;
    }
  }

  /** `u`'s successors among the edges for `ds` are `ds` itself; other packages have none. */
  lemma {:induction false} SuccPairs(u: Package, ds: seq<Package>, p: Package)
    ensures Succ(Pairs(u, ds), p) == if p == u then ds else []
  {
    if ds != [] {
      var init := ds[..|ds| - 1];
      SuccPairs(u, init, p);
      assert Pairs(u, ds)[..|ds| - 1] == Pairs(u, init);
    }
  }

  lemma {:induction false} SuccAppend(a: seq<Edge>, b: seq<Edge>, p: Package)
    ensures Succ(a + b, p) == Succ(a, p) + Succ(b, p)
  {
    if b != [] {
      var init := b[..|b| - 1];
      SuccAppend(a, init, p);
      assert (a + b)[..|a + b| - 1] == a + init;
    } else {
      assert a + b == a;
    }
  }

  /**
   * When each package is expanded once, the edges leaving a package are
   * exactly its kept dependencies, in repository order; a package that was
   * never expanded has no outgoing edge.
   */
  lemma {:induction false} ExpansionSucc(repo: Repository, filter: string, order: seq<Package>, p: Package)
    requires Distinct(order)
    ensures Succ(Expansion(repo, filter, order), p) == if p in order then Kept(Deps(repo, p), filter) else []
  {
    if order != [] {
      var init := order[..|order| - 1];
      var q := order[|order| - 1];
      DistinctInit(order);
      ExpansionSucc(repo, filter, init, p);
      assert order == init + [q];
      ExpansionSuccStep(repo, filter, init, q, p);
      var earlier := Succ(Expansion(repo, filter, init), p);
      if p == q {
        assert earlier == [];
        assert [] + Kept(Deps(repo, q), filter) == Kept(Deps(repo, q), filter);
      } else {
        assert p in order <==> p in init;
        assert earlier + [] == earlier;
      }
    }
  }

  lemma DistinctInit(order: seq<Package>)
    requires Distinct(order) && order != []
    ensures Distinct(order[..|order| - 1]) && order[|order| - 1] !in order[..|order| - 1]
  {
  }

  /** Expanding `q` adds `q`'s kept dependencies to its successors and nothing to any other package's. */
  lemma ExpansionSuccStep(repo: Repository, filter: string, order: seq<Package>, q: Package, p: Package)
    ensures Succ(Expansion(repo, filter, order + [q]), p)
            == Succ(Expansion(repo, filter, order), p) + (if p == q then Kept(Deps(repo, q), filter) else [])
  {
    var ks := Kept(Deps(repo, q), filter);
    var before := Expansion(repo, filter, order);
    ExpansionStep(repo, filter, order, q);
    SuccAppend(before, Pairs(q, ks), p);
    SuccPairs(q, ks, p);
  }

  lemma PathGrow(edges: seq<Edge>, e: Edge, p: seq<Package>)
    requires IsPath(edges, p)
    ensures IsPath(edges + [e], p)
  {
    assert forall x :: x in edges ==> x in edges + [e];
  }

  /** Adding an edge from a reachable package keeps everything reachable and reaches its target. */
  lemma ReachableGrow(edges: seq<Edge>, e: Edge, start: Package, reached: set<Package>)
    requires e.0 in reached
    requires forall n :: n in reached ==> Reachable(edges, start, n)
    ensures forall n :: n in reached + {e.1} ==> Reachable(edges + [e], start, n)
  {
    forall n | n in reached ensures Reachable(edges + [e], start, n) {
      var p :| IsPath(edges, p) && p[0] == start && p[|p| - 1] == n;
      PathGrow(edges, e, p);
    }
    var p :| IsPath(edges, p) && p[0] == start && p[|p| - 1] == e.0;
    PathGrow(edges, e, p);
    var q := p + [e.1];
    forall i | 0 <= i < |q| - 1 ensures (q[i], q[i + 1]) in edges + [e] {
      if i < |p| - 1 {
        assert q[i] == p[i] && q[i + 1] == p[i + 1];
      }
    }
    assert IsPath(edges + [e], q);
  }

  lemma DiscoveryStep(start: Package, edges: seq<Edge>, e: Edge)
    ensures Discovery(start, edges + [e])
            == Discovery(start, edges) + (if e.1 in Elements(Discovery(start, edges)) then [] else [e.1])
    ensures BackEdges(start, edges + [e])
            == BackEdges(start, edges) + (if e.1 in Elements(Discovery(start, edges)) then [BackEdge(e.0, e.1)] else [])
  {
    assert (edges + [e])[..|edges|] == edges;
  }

  lemma KeptStep(deps: seq<Package>, i: nat, filter: string)
    requires i < |deps|
    ensures Kept(deps[..i + 1], filter) == Kept(deps[..i], filter) + (if Excluded(filter, deps[i]) then [] else [deps[i]])
  {
    assert deps[..i + 1][..i] == deps[..i];
  }

  lemma PairsAppend(u: Package, ds: seq<Package>, d: Package)
    ensures Pairs(u, ds + [d]) == Pairs(u, ds) + [(u, d)]
  {
    assert (ds + [d])[..|ds|] == ds;
  }

  /** Recording the edge for dependency `i`, unless it is excluded, extends the edges recorded for the first `i`. */
  lemma EdgesStep(recorded: seq<Edge>, edges: seq<Edge>, u: Package, deps: seq<Package>, i: nat, filter: string)
    requires i < |deps|
    requires recorded == edges + Pairs(u, Kept(deps[..i], filter))
    ensures Excluded(filter, deps[i]) ==> recorded == edges + Pairs(u, Kept(deps[..i + 1], filter))
    ensures !Excluded(filter, deps[i]) ==> recorded + [(u, deps[i])] == edges + Pairs(u, Kept(deps[..i + 1], filter))
  {
    KeptStep(deps, i, filter);
    var ks := Kept(deps[..i], filter);
    var x := deps[i];
    if Excluded(filter, x) {
      assert Kept(deps[..i + 1], filter) == ks;
    } else {
      assert Kept(deps[..i + 1], filter) == ks + [x];
      PairsAppend(u, ks, x);
      assert edges + (Pairs(u, ks) + [(u, x)]) == edges + Pairs(u, ks) + [(u, x)];
    }
  }

  lemma ExpansionStep(repo: Repository, filter: string, order: seq<Package>, p: Package)
    ensures Expansion(repo, filter, order + [p]) == Expansion(repo, filter, order) + Pairs(p, Kept(Deps(repo, p), filter))
  {
    assert (order + [p])[..|order|] == order;
  }

  /** Every edge leaves a package discovered before the edge was recorded. */
  ghost predicate Sourced(start: Package, edges: seq<Edge>) {
    edges == [] ||
    (var init := edges[..|edges| - 1];
     Sourced(start, init) && edges[|edges| - 1].0 in Elements(Discovery(start, init)))
  }

  lemma SourcedStep(start: Package, edges: seq<Edge>, e: Edge)
    requires Sourced(start, edges) && e.0 in Elements(Discovery(start, edges))
    ensures Sourced(start, edges + [e])
  {
    assert (edges + [e])[..|edges|] == edges;
  }

  /** Edges recorded only from discovered packages make every discovered package reachable from the start. */
  lemma {:induction false} SourcedReachable(start: Package, edges: seq<Edge>)
    requires Sourced(start, edges)
    ensures forall n :: n in Elements(Discovery(start, edges)) ==> Reachable(edges, start, n)
  {
    if edges == [] {
      assert IsPath(edges, [start]);
    } else {
      var init := edges[..|edges| - 1];
      var e := edges[|edges| - 1];
      SourcedReachable(start, init);
      assert edges == init + [e];
      DiscoveryStep(start, init, e);
      ReachableGrow(init, e, start, Elements(Discovery(start, init)));
    }
  }

  /**
   * The traversal's working state at a loop head: `seen` are the packages
   * taken off the queue so far; together with the queue they are the
   * packages discovered so far, which are the visited set and the nodes.
   */
  ghost predicate Traversal(start: Package, filter: string, universe: set<Package>, seen: seq<Package>,
                            queue: seq<Package>, visited: set<Package>, nodes: set<Package>,
                            edges: seq<Edge>, cycles: seq<Report>)
  {
    && seen + queue == Discovery(start, edges)
    && Explored(start, filter, universe, visited, nodes, edges, cycles)
  }

  /** The part of the working state that does not depend on the queue: visited packages, edges and reports. */
  ghost predicate Explored(start: Package, filter: string, universe: set<Package>, visited: set<Package>,
                           nodes: set<Package>, edges: seq<Edge>, cycles: seq<Report>)
  {
    && visited == nodes == Elements(Discovery(start, edges))
    && cycles == BackEdges(start, edges)
    && (forall n :: n in nodes ==> !Excluded(filter, n))
    && (forall e :: e in edges ==> e.0 in nodes)
    && nodes <= universe
    && Sourced(start, edges)
  }

  /** Recording an edge to an already visited package reports it and keeps the traversal state consistent. */
  lemma BackEdgeStep(start: Package, filter: string, universe: set<Package>,
                     seen: seq<Package>, queue: seq<Package>, visited: set<Package>, nodes: set<Package>,
                     edges: seq<Edge>, cycles: seq<Report>, current: Package, dep: Package)
    requires Traversal(start, filter, universe, seen, queue, visited, nodes, edges, cycles)
    requires current in nodes && dep in visited
    ensures Traversal(start, filter, universe, seen, queue, visited, nodes + {dep},
                      edges + [(current, dep)], cycles + [BackEdge(current, dep)])
  {
    DiscoveryStep(start, edges, (current, dep));
    SourcedStep(start, edges, (current, dep));
    assert nodes + {dep} == nodes;
  }

  /** Recording an edge to a new kept package visits and enqueues it and keeps the traversal state consistent. */
  lemma TreeEdgeStep(start: Package, filter: string, universe: set<Package>,
                     seen: seq<Package>, queue: seq<Package>, visited: set<Package>, nodes: set<Package>,
                     edges: seq<Edge>, cycles: seq<Report>, current: Package, dep: Package)
    requires Traversal(start, filter, universe, seen, queue, visited, nodes, edges, cycles)
    requires current in nodes && dep !in visited && !Excluded(filter, dep) && dep in universe
    ensures Traversal(start, filter, universe, seen, queue + [dep], visited + {dep}, nodes + {dep},
                      edges + [(current, dep)], cycles)
  {
    DiscoveryStep(start, edges, (current, dep));
    SourcedStep(start, edges, (current, dep));
    Enqueue(seen, queue, dep);
  }

  /** Appending to the queue appends to the discovery order and adds one element. */
  lemma Enqueue(seen: seq<Package>, queue: seq<Package>, dep: Package)
    ensures seen + (queue + [dep]) == seen + queue + [dep]
    ensures Elements(seen + queue + [dep]) == Elements(seen + queue) + {dep}
  {
  }

  lemma NoEdgesYet(edges: seq<Edge>, u: Package, deps: seq<Package>, filter: string)
    ensures edges == edges + Pairs(u, Kept(deps[..0], filter))
  {
    assert deps[..0] == [];
  }

  /**
   * One pass of the inner loop: a dependency matching the filter is skipped;
   * otherwise the edge is recorded, and the target is either reported as a
   * back edge (already visited) or marked visited and enqueued.
   */
  method VisitDependency(start: Package, filter: string, ghost universe: set<Package>,
                         ghost seen: seq<Package>, current: Package, deps: seq<Package>, i: nat,
                         ghost before: seq<Edge>,
                         visited: set<Package>, queue: seq<Package>, nodes: set<Package>,
                         edges: seq<Edge>, cycles: seq<Report>)
    returns (visited': set<Package>, queue': seq<Package>, nodes': set<Package>,
             edges': seq<Edge>, cycles': seq<Report>)
    requires i < |deps| && current in nodes && deps[i] in universe
    requires Traversal(start, filter, universe, seen, queue, visited, nodes, edges, cycles)
    requires edges == before + Pairs(current, Kept(deps[..i], filter))
    ensures Traversal(start, filter, universe, seen, queue', visited', nodes', edges', cycles')
    ensures edges' == before + Pairs(current, Kept(deps[..i + 1], filter))
    ensures visited <= visited' && current in nodes'
    ensures |visited'| - |visited| == |queue'| - |queue|
  {
    EdgesStep(edges, before, current, deps, i, filter);
    var dep := deps[i];
    visited', queue', nodes', edges', cycles' := visited, queue, nodes, edges, cycles;
    if !Excluded(filter, dep) {
      if dep in visited {
        BackEdgeStep(start, filter, universe, seen, queue, visited, nodes, edges, cycles, current, dep);
        edges' := edges + [(current, dep)];
        nodes' := nodes + {dep};
        if dep in nodes' {
          cycles' := cycles + [BackEdge(current, dep)];
        }
      } else {
        TreeEdgeStep(start, filter, universe, seen, queue, visited, nodes, edges, cycles, current, dep);
        edges' := edges + [(current, dep)];
        nodes' := nodes + {dep};
        visited' := visited + {dep};
        queue' := queue + [dep];
      }
    }
  }

  /**
   * The `for dep in direct_deps` loop for one dequeued package: record an
   * edge to every dependency that passes the filter, report the ones
   * already visited and enqueue the others.
   */
  method ExpandPackage(start: Package, repo: Repository, filter: string, ghost universe: set<Package>,
                       ghost seen: seq<Package>, current: Package,
                       visited: set<Package>, queue: seq<Package>, nodes: set<Package>,
                       edges: seq<Edge>, cycles: seq<Report>)
    returns (visited': set<Package>, queue': seq<Package>, nodes': set<Package>,
             edges': seq<Edge>, cycles': seq<Report>)
    requires forall k :: 0 <= k < |Deps(repo, current)| ==> Deps(repo, current)[k] in universe
    requires current in nodes
    requires Traversal(start, filter, universe, seen + [current], queue, visited, nodes, edges, cycles)
    ensures Traversal(start, filter, universe, seen + [current], queue', visited', nodes', edges', cycles')
    ensures edges' == edges + Pairs(current, Kept(Deps(repo, current), filter))
    ensures visited <= visited'
    ensures |visited'| - |visited| == |queue'| - |queue|
  {
    visited', queue', nodes', edges', cycles' := visited, queue, nodes, edges, cycles;
    var deps := Deps(repo, current);
    var i := 0;
    NoEdgesYet(edges, current, deps, filter);
    while i < |deps|
      invariant 0 <= i <= |deps|
      invariant Traversal(start, filter, universe, seen + [current], queue', visited', nodes', edges', cycles')
      invariant edges' == edges + Pairs(current, Kept(deps[..i], filter))
      invariant visited <= visited'
      invariant |visited'| - |visited| == |queue'| - |queue|
      invariant current in nodes'
    {
      visited', queue', nodes', edges', cycles' :=
        VisitDependency(start, filter, universe, seen + [current], current, deps, i, edges,
                        visited', queue', nodes', edges', cycles');
      i := i + 1;
    }
    assert deps[..|deps|] == deps;
  }

  /** Taking the head off the queue moves it to the expanded packages; it is a visited node. */
  lemma PopStep(start: Package, filter: string, universe: set<Package>, seen: seq<Package>,
                queue: seq<Package>, visited: set<Package>, nodes: set<Package>,
                edges: seq<Edge>, cycles: seq<Report>)
    requires queue != []
    requires Traversal(start, filter, universe, seen, queue, visited, nodes, edges, cycles)
    ensures Traversal(start, filter, universe, seen + [queue[0]], queue[1..], visited, nodes, edges, cycles)
    ensures queue[0] in nodes
  {
    ShiftHead(seen, queue);
    assert queue[0] in Elements(Discovery(start, edges));
  }

  lemma ShiftHead(seen: seq<Package>, queue: seq<Package>)
    requires queue != []
    ensures seen + [queue[0]] + queue[1..] == seen + queue
    ensures queue[0] in seen + queue
  {
    assert queue[0] == (seen + queue)[|seen|];
  }

  /** Visiting a new package of a finite universe leaves fewer packages to visit. */
  lemma FewerLeft(universe: set<Package>, before: set<Package>, after: set<Package>)
    requires before <= after <= universe && before != after
    ensures universe - after < universe - before
  {
    assert !(after <= before);
    var x :| x in after && x !in before;
    assert x in universe - before && x !in universe - after;
  }

  /**
   * Once the queue is empty, every discovered package has been expanded
   * exactly once, in discovery order: the graph is closed.
   */
  lemma Closure(start: Package, repo: Repository, filter: string, universe: set<Package>, done: seq<Package>,
                visited: set<Package>, nodes: set<Package>, edges: seq<Edge>, cycles: seq<Report>)
    requires Traversal(start, filter, universe, done, [], visited, nodes, edges, cycles)
    requires edges == Expansion(repo, filter, done)
    ensures start in nodes && nodes == Elements(Discovery(start, edges))
    ensures edges == Expansion(repo, filter, Discovery(start, edges))
    ensures cycles == BackEdges(start, edges)
    ensures forall e :: e in edges ==> e.0 in nodes && e.1 in nodes
    ensures forall p :: p in nodes ==> Succ(edges, p) == Kept(Deps(repo, p), filter)
    ensures forall n :: n in nodes ==> Reachable(edges, start, n)
  {
    assert done == Discovery(start, edges);
    assert start in nodes by {
      assert start == Discovery(start, edges)[0];
    }
    forall p | p in nodes ensures Succ(edges, p) == Kept(Deps(repo, p), filter) {
      ExpansionSucc(repo, filter, done, p);
    }
    forall e | e in edges ensures e.1 in nodes {
      assert e.1 in Targets(edges);
    }
    SourcedReachable(start, edges);
  }

  /**
   * The `while queue` loop: take the next package off the queue and expand
   * it, until the queue is empty. Every package taken off the queue is
   * expanded exactly once, in the order the traversal discovered it.
   */
  method DrainQueue(start: Package, repo: Repository, filter: string, ghost universe: set<Package>,
                    ghost done: seq<Package>, queue: seq<Package>, visited: set<Package>, nodes: set<Package>,
                    edges: seq<Edge>, cycles: seq<Report>)
    returns (visited': set<Package>, nodes': set<Package>, edges': seq<Edge>, cycles': seq<Report>,
             ghost done': seq<Package>)
    requires universe == {start} + AllDeps(repo)
    requires Traversal(start, filter, universe, done, queue, visited, nodes, edges, cycles)
    requires edges == Expansion(repo, filter, done)
    ensures Traversal(start, filter, universe, done', [], visited', nodes', edges', cycles')
    ensures edges' == Expansion(repo, filter, done')
  {
    var queue' := queue;
    visited', nodes', edges', cycles', done' := visited, nodes, edges, cycles, done;
    while queue' != []
      invariant Traversal(start, filter, universe, done', queue', visited', nodes', edges', cycles')
      invariant edges' == Expansion(repo, filter, done')
      decreases universe - visited', |queue'|
    {
      PopStep(start, filter, universe, done', queue', visited', nodes', edges', cycles');
      var current := queue'[0];
      queue' := queue'[1..];
      ghost var visited0 := visited';
      visited', queue', nodes', edges', cycles' :=
        ExpandPackage(start, repo, filter, universe, done', current, visited', queue', nodes', edges', cycles');
      ExpansionStep(repo, filter, done', current);
      done' := done' + [current];
      if visited' != visited0 {
        FewerLeft(universe, visited0, visited');
      }
    }
  }

  /**
   * `build_dependency_graph_bfs`. Unless the start package is itself
   * filtered out, the result is the closure of the start package: the
   * packages in the order the traversal first sees them, each expanded
   * exactly once, in that order, into its kept dependencies; the report
   * lists every edge to an already seen package.
   */
  method BuildDependencyGraph(start: Package, repo: Repository, filter: string)
    returns (nodes: set<Package>, edges: seq<Edge>, cycles: seq<Report>)
    ensures Excluded(filter, start) ==> nodes == {} && edges == [] && cycles == [StartFiltered(start)]
    ensures !Excluded(filter, start) ==> start in nodes && nodes == Elements(Discovery(start, edges))
    ensures !Excluded(filter, start) ==> edges == Expansion(repo, filter, Discovery(start, edges))
    ensures !Excluded(filter, start) ==> cycles == BackEdges(start, edges)
    ensures forall n :: n in nodes ==> !Excluded(filter, n)
    ensures forall e :: e in edges ==> e.0 in nodes && e.1 in nodes
    ensures forall p :: p in nodes ==> Succ(edges, p) == Kept(Deps(repo, p), filter)
    ensures forall n :: n in nodes ==> Reachable(edges, start, n)
  {
    nodes, edges, cycles := {}, [], [];
    var queue := [start];
    var visited: set<Package> := {};
    if Excluded(filter, start) {
      return {}, [], [StartFiltered(start)];
    }
    visited := visited + {start};
    nodes := nodes + {start};
    ghost var universe := {start} + AllDeps(repo);
    ghost var done;
    visited, nodes, edges, cycles, done := DrainQueue(start, repo, filter, universe, [], queue, visited, nodes, edges, cycles);
    Closure(start, repo, filter, universe, done, visited, nodes, edges, cycles);
  }
}
