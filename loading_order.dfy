/**
 * Kahn's algorithm as `get_loading_order` runs it: in-degree and adjacency
 * tables built from the edge list, a seed queue of the zero-in-degree nodes
 * with the requested package forced in, then the decrement-and-enqueue loop.
 * Edges point from a package to its dependency.
 */
module LoadingOrder {
  import opened Graph

  /** The nodes with a positive entry in the in-degree table. */
  function Pos(indeg: map<Package, int>): set<Package> {
    set n | n in indeg && indeg[n] > 0
  }

  /** The nodes with a zero entry in the in-degree table. */
  function Zeros(nodes: set<Package>, indeg: map<Package, int>): set<Package>
    requires nodes <= indeg.Keys
  {
    set n | n in nodes && indeg[n] == 0
  }

  /**
   * How much `n`'s in-degree entry has been decremented once the packages of
   * `order` have been taken off the queue: each emitted node `u` decrements
   * it once per edge `(u, n)`, every time `u` is emitted.
   */
  function Relaxed(edges: seq<Edge>, nodes: set<Package>, order: seq<Package>, n: Package): nat {
    if order == [] then 0
    else
      var u := order[|order| - 1];
      Relaxed(edges, nodes, order[..|order| - 1], n) + (if u in nodes then CountFrom(edges, {u}, n) else 0)
  }

  /** When no package is emitted twice, the decrements are the edges into `n` from emitted nodes. */
  lemma {:induction false} RelaxedDistinct(edges: seq<Edge>, nodes: set<Package>, order: seq<Package>, n: Package)
    requires Distinct(order)
    ensures Relaxed(edges, nodes, order, n) == CountFrom(edges, Elements(order) * nodes, n)
  {
    if order != [] {
      var init := order[..|order| - 1];
      var u := order[|order| - 1];
      assert Distinct(init);
      assert u !in Elements(init);
      RelaxedDistinct(edges, nodes, init, n);
      assert order == init + [u];
      if u in nodes {
        assert Elements(order) * nodes == Elements(init) * nodes + {u};
        CountFromAdd(edges, Elements(init) * nodes, u, n);
      } else {
        assert Elements(order) * nodes == Elements(init) * nodes;
      }
    } else {
      assert Elements(order) * nodes == {};
      CountFromNone(edges, n);
    }
  }

  /** Emitting one more package adds its edges into `n` when it is a node. */
  lemma RelaxedStep(edges: seq<Edge>, nodes: set<Package>, order: seq<Package>, u: Package, n: Package)
    ensures Relaxed(edges, nodes, order + [u], n)
            == Relaxed(edges, nodes, order, n) + (if u in nodes then CountFrom(edges, {u}, n) else 0)
  {
    assert (order + [u])[..|order|] == order;
  }

  /** `indeg` counts, for every node, the edges of `edges` into it. */
  predicate Counted(indeg: map<Package, int>, nodes: set<Package>, edges: seq<Edge>) {
    indeg.Keys == nodes && forall n :: n in nodes ==> indeg[n] == InDegree(edges, n)
  }

  /** `adj` lists, for every node, the targets of its edges in `edges`, in order. */
  predicate Listed(adj: map<Package, seq<Package>>, nodes: set<Package>, edges: seq<Edge>) {
    adj.Keys == nodes && forall n :: n in nodes ==> adj[n] == Succ(edges, n)
  }

  /** Loading one more edge bumps its target's count when the target is a node. */
  lemma CountedStep(indeg: map<Package, int>, nodes: set<Package>, edges: seq<Edge>, e: Edge)
    requires Counted(indeg, nodes, edges)
    ensures Counted(if e.1 in indeg then indeg[e.1 := indeg[e.1] + 1] else indeg, nodes, edges + [e])
  {
    assert (edges + [e])[..|edges|] == edges;
  }

  /** Loading one more edge appends its target to its source's list when the source is a node. */
  lemma ListedStep(adj: map<Package, seq<Package>>, nodes: set<Package>, edges: seq<Edge>, e: Edge)
    requires Listed(adj, nodes, edges)
    ensures Listed(if e.0 in adj then adj[e.0 := adj[e.0] + [e.1]] else adj, nodes, edges + [e])
  {
    assert (edges + [e])[..|edges|] == edges;
  }

  /**
   * Step 1: `in_degree[v]` counts the edges into `v` and `adj[u]` lists
   * the targets of `u`'s edges in edge order, for every node; edges into
   * or out of packages that are not nodes are ignored.
   */
  method Tables(nodes: set<Package>, edges: seq<Edge>) returns (indeg: map<Package, int>, adj: map<Package, seq<Package>>)
    ensures indeg.Keys == nodes && adj.Keys == nodes
    ensures forall n :: n in nodes ==> indeg[n] == InDegree(edges, n) && adj[n] == Succ(edges, n)
  {
    indeg := map n | n in nodes :: 0;
    adj := map n | n in nodes :: [];
    for i := 0 to |edges|
      invariant Counted(indeg, nodes, edges[..i])
      invariant Listed(adj, nodes, edges[..i])
    {
      var e := edges[i];
      assert edges[..i + 1] == edges[..i] + [e];
      CountedStep(indeg, nodes, edges[..i], e);
      ListedStep(adj, nodes, edges[..i], e);
      var (u, v) := e;
      if v in indeg {
        indeg := indeg[v := indeg[v] + 1];
      }
      if u in adj {
        adj := adj[u := adj[u] + [v]];
      }
    }
    assert edges[..|edges|] == edges;
  }

  /**
   * Step 2: the zero-in-degree nodes, in whatever order the set yields
   * them, then the requested package if it is not among them.
   */
  method Seed(nodes: set<Package>, indeg: map<Package, int>, start: Package) returns (seed: seq<Package>)
    requires nodes <= indeg.Keys
    ensures Distinct(seed)
    ensures Elements(seed) == Zeros(nodes, indeg) + {start}
    ensures start !in Zeros(nodes, indeg) ==> seed[|seed| - 1] == start
  {
    seed := [];
    var rest := nodes;
    while rest != {}
      invariant rest <= nodes
      invariant Distinct(seed)
      invariant Elements(seed) == Zeros(nodes - rest, indeg)
      decreases rest
    {
      var n :| n in rest;
      assert Zeros(nodes - (rest - {n}), indeg)
             == Zeros(nodes - rest, indeg) + (if indeg[n] == 0 then {n} else {});
      if indeg[n] == 0 {
        assert n !in Elements(seed);
        assert Elements(seed + [n]) == Elements(seed) + {n};
        seed := seed + [n];
      }
      rest := rest - {n};
    }
    assert nodes - rest == nodes;
    if start !in seed {
      assert Elements(seed + [start]) == Elements(seed) + {start};
      seed := seed + [start];
    }
  }

  /**
   * Step 3, inner loop: decrement the entry of every listed dependency of
   * the emitted package, and enqueue each one whose entry drops to exactly
   * zero. The enqueued packages are exactly those whose entry went from
   * positive to non-positive, each once.
   */
  method Relax(next: seq<Package>, indeg: map<Package, int>, queue: seq<Package>)
    returns (indeg': map<Package, int>, queue': seq<Package>)
    requires forall k :: 0 <= k < |next| ==> next[k] in indeg
    ensures indeg'.Keys == indeg.Keys
    ensures forall n :: n in indeg ==> indeg'[n] == indeg[n] - multiset(next)[n]
    ensures |queue| <= |queue'| && queue'[..|queue|] == queue
    ensures Distinct(queue'[|queue|..])
    ensures forall n :: n in queue'[|queue|..] <==> n in indeg && indeg[n] > 0 && indeg'[n] <= 0
  {
    indeg', queue' := indeg, queue;
    ghost var released: seq<Package> := [];
    for i := 0 to |next|
      invariant indeg'.Keys == indeg.Keys
      invariant forall n :: n in indeg ==> indeg'[n] == indeg[n] - multiset(next[..i])[n]
      invariant queue' == queue + released
      invariant Distinct(released)
      invariant forall n :: n in released <==> n in indeg && indeg[n] > 0 && indeg'[n] <= 0
    {
      var v := next[i];
      assert next[..i + 1] == next[..i] + [v];
      indeg' := indeg'[v := indeg'[v] - 1];
      if indeg'[v] == 0 {
        queue' := queue' + [v];
        released := released + [v];
      }
    }
    assert next[..|next|] == next;
    assert queue'[|queue|..] == released;
  }

  /** What one run of `Relax` does to the table, with `released` the packages it enqueues. */
  ghost predicate Relaxation(next: seq<Package>, indeg: map<Package, int>, indeg': map<Package, int>, released: seq<Package>) {
    && indeg'.Keys == indeg.Keys
    && (forall n :: n in indeg ==> indeg'[n] == indeg[n] - multiset(next)[n])
    && Distinct(released)
    && (forall n :: n in released <==> n in indeg && indeg[n] > 0 && indeg'[n] <= 0)
  }

  /**
   * One pass of the drain loop: take the head of the queue, emit it, and
   * relax the entries of its listed neighbours. A neighbour missing from the
   * table is Python's `KeyError`, so the caller must rule it out.
   */
  method Emit(adj: map<Package, seq<Package>>, indeg: map<Package, int>, queue: seq<Package>, order: seq<Package>)
    returns (indeg': map<Package, int>, queue': seq<Package>, order': seq<Package>)
    requires queue != []
    requires queue[0] in adj ==> forall k :: 0 <= k < |adj[queue[0]]| ==> adj[queue[0]][k] in indeg
    ensures order' == order + [queue[0]]
    ensures |queue| - 1 <= |queue'| && queue'[..|queue| - 1] == queue[1..]
    ensures Relaxation(if queue[0] in adj then adj[queue[0]] else [], indeg, indeg', queue'[|queue| - 1..])
  {
    var u := queue[0];
    order' := order + [u];
    var next := if u in adj then adj[u] else [];
    indeg', queue' := Relax(next, indeg, queue[1..]);
  }

  /** Forcing the requested package into the seed does no harm: it is not a node, or no edge points at it. */
  predicate Harmless(nodes: set<Package>, edges: seq<Edge>, start: Package) {
    start !in nodes || InDegree(edges, start) == 0
  }

  /** Every edge into an emitted node starts at a package emitted before it. */
  predicate Topological(nodes: set<Package>, edges: seq<Edge>, order: seq<Package>) {
    forall j, k :: 0 <= j < |order| && 0 <= k < |edges| && edges[k].1 == order[j] && order[j] in nodes
                   ==> edges[k].0 in order[..j]
  }

  /**
   * The bookkeeping of the drain loop, whatever the graph: each node's
   * entry is its in-degree less the decrements so far; emitted, queued and
   * still-positive nodes add up to a fixed budget; only nodes and the
   * requested package are ever queued; the seed is a prefix of everything
   * queued; every node whose entry is not positive has been queued.
   */
  ghost predicate Draining(nodes: set<Package>, edges: seq<Edge>, start: Package, seed: seq<Package>, budget: int,
                           order: seq<Package>, queue: seq<Package>, indeg: map<Package, int>)
  {
    && indeg.Keys == nodes
    && (forall n :: n in nodes ==> indeg[n] == InDegree(edges, n) - Relaxed(edges, nodes, order, n))
    && |order| + |queue| + |Pos(indeg)| == budget
    && (forall x :: x in order ==> x in nodes || x == start)
    && (forall x :: x in queue ==> x in nodes || x == start)
    && seed <= order + queue
    && (forall n :: n in nodes && indeg[n] <= 0 ==> n in order || n in queue)
  }

  /**
   * The extra invariant when the seed is harmless: nothing is queued twice,
   * queued nodes have a non-positive entry, the emitted prefix is in
   * topological order, and every edge into a queued node starts at an
   * emitted package.
   */
  ghost predicate Orderly(nodes: set<Package>, edges: seq<Edge>, order: seq<Package>, queue: seq<Package>,
                          indeg: map<Package, int>)
  {
    && Distinct(order + queue)
    && (forall x :: x in nodes && (x in order || x in queue) ==> x in indeg && indeg[x] <= 0)
    && Topological(nodes, edges, order)
    && (forall x, k :: x in queue && x in nodes && 0 <= k < |edges| && edges[k].1 == x ==> edges[k].0 in order)
  }

  lemma SplitAt(s: seq<Package>, n: nat)
    requires n <= |s|
    ensures s == s[..n] + s[n..]
  {
  }

  lemma DistinctAppend(a: seq<Package>, b: seq<Package>)
    requires Distinct(a) && Distinct(b)
    requires forall x :: x in a ==> x !in b
    ensures Distinct(a + b)
  {
    forall i, j | 0 <= i < j < |a + b| ensures (a + b)[i] != (a + b)[j] {
      if j >= |a| && i < |a| {
        assert (a + b)[i] in a && (a + b)[j] in b;
      }
    }
  }

  lemma DistinctPrefix(a: seq<Package>, b: seq<Package>)
    requires Distinct(a + b)
    ensures Distinct(a)
  {
    forall i, j | 0 <= i < j < |a| ensures a[i] != a[j] {
      assert a[i] == (a + b)[i] && a[j] == (a + b)[j];
    }
  }

  /** A node's dependencies are nodes when every edge from a node ends at a node. */
  lemma SuccInNodes(nodes: set<Package>, edges: seq<Edge>, u: Package)
    requires forall e :: e in edges && e.0 in nodes ==> e.1 in nodes
    requires u in nodes
    ensures forall k :: 0 <= k < |Succ(edges, u)| ==> Succ(edges, u)[k] in nodes
  {
    forall k | 0 <= k < |Succ(edges, u)| ensures Succ(edges, u)[k] in nodes {
      SuccMember(edges, u, Succ(edges, u)[k]);
    }
  }

  /** Relaxing takes exactly the enqueued packages out of the positive set. */
  lemma PosStep(next: seq<Package>, indeg: map<Package, int>, indeg': map<Package, int>, released: seq<Package>)
    requires Relaxation(next, indeg, indeg', released)
    ensures Elements(released) <= Pos(indeg)
    ensures Pos(indeg') == Pos(indeg) - Elements(released)
    ensures |Pos(indeg')| == |Pos(indeg)| - |released|
  {
    assert Elements(released) <= Pos(indeg);
    assert Pos(indeg') == Pos(indeg) - Elements(released);
    DistinctCard(released);
    assert Pos(indeg) == Pos(indeg') + Elements(released);
    assert Pos(indeg') * Elements(released) == {};
  }

  /** Emitting `u` and relaxing its edges keeps every entry equal to in-degree less decrements. */
  lemma CountStep(nodes: set<Package>, edges: seq<Edge>, order: seq<Package>, u: Package, next: seq<Package>,
                  indeg: map<Package, int>, indeg': map<Package, int>)
    requires indeg.Keys == nodes && indeg'.Keys == nodes
    requires forall n :: n in nodes ==> indeg[n] == InDegree(edges, n) - Relaxed(edges, nodes, order, n)
    requires forall n :: n in nodes ==> indeg'[n] == indeg[n] - multiset(next)[n]
    requires next == if u in nodes then Succ(edges, u) else []
    ensures forall n :: n in nodes ==> indeg'[n] == InDegree(edges, n) - Relaxed(edges, nodes, order + [u], n)
  {
    forall n | n in nodes ensures indeg'[n] == InDegree(edges, n) - Relaxed(edges, nodes, order + [u], n) {
      RelaxedStep(edges, nodes, order, u, n);
      if u in nodes {
        SuccCount(edges, u, n);
      }
    }
  }

  /** Moving the queue's head to the order and appending to the queue keeps everything queued so far as a prefix. */
  lemma PopKeepsPrefix(seed: seq<Package>, order: seq<Package>, queue: seq<Package>, released: seq<Package>)
    requires queue != [] && seed <= order + queue
    ensures seed <= order + [queue[0]] + (queue[1..] + released)
  {
    assert order + [queue[0]] + (queue[1..] + released) == order + queue + released;
  }

  lemma PopMembers(queue: seq<Package>)
    requires queue != []
    ensures forall x :: x in queue <==> x == queue[0] || x in queue[1..]
  {
    assert queue == [queue[0]] + queue[1..];
  }

  /** One pass of the drain loop keeps the bookkeeping. */
  lemma DrainingStep(nodes: set<Package>, edges: seq<Edge>, start: Package, seed: seq<Package>, budget: int,
                     order: seq<Package>, queue: seq<Package>, indeg: map<Package, int>,
                     next: seq<Package>, indeg': map<Package, int>, released: seq<Package>)
    requires queue != []
    requires Draining(nodes, edges, start, seed, budget, order, queue, indeg)
    requires next == if queue[0] in nodes then Succ(edges, queue[0]) else []
    requires Relaxation(next, indeg, indeg', released)
    ensures Draining(nodes, edges, start, seed, budget, order + [queue[0]], queue[1..] + released, indeg')
  {
    var u := queue[0];
    CountStep(nodes, edges, order, u, next, indeg, indeg');
    PosStep(next, indeg, indeg', released);
    PopKeepsPrefix(seed, order, queue, released);
    PopMembers(queue);
    forall n | n in nodes && indeg'[n] <= 0 ensures n in order + [u] || n in queue[1..] + released {
      if indeg[n] <= 0 {
        assert n in order || n in queue;
      }
    }
  }

  /** A node whose entry reached zero, with no package emitted twice, has all its predecessors emitted. */
  lemma Released(nodes: set<Package>, edges: seq<Edge>, order: seq<Package>, x: Package)
    requires Distinct(order)
    requires InDegree(edges, x) - Relaxed(edges, nodes, order, x) <= 0
    ensures forall k :: 0 <= k < |edges| && edges[k].1 == x ==> edges[k].0 in order
  {
    RelaxedDistinct(edges, nodes, order, x);
    CountFromAll(edges, Elements(order) * nodes, x);
  }

  /** One pass of the drain loop keeps the harmless-seed invariant. */
  lemma OrderlyStep(nodes: set<Package>, edges: seq<Edge>, start: Package, seed: seq<Package>, budget: int,
                    order: seq<Package>, queue: seq<Package>, indeg: map<Package, int>,
                    next: seq<Package>, indeg': map<Package, int>, released: seq<Package>)
    requires queue != []
    requires Draining(nodes, edges, start, seed, budget, order, queue, indeg)
    requires Orderly(nodes, edges, order, queue, indeg)
    requires next == if queue[0] in nodes then Succ(edges, queue[0]) else []
    requires Relaxation(next, indeg, indeg', released)
    requires Draining(nodes, edges, start, seed, budget, order + [queue[0]], queue[1..] + released, indeg')
    ensures Orderly(nodes, edges, order + [queue[0]], queue[1..] + released, indeg')
  {
    var u := queue[0];
    var order', queue' := order + [u], queue[1..] + released;
    forall x | x in released ensures x in nodes && indeg[x] > 0 {
    }
    forall x | x in order + queue ensures x !in released {
      if x in nodes {
        assert indeg[x] <= 0;
      }
    }
    EmitDistinct(order, queue, released);
    EmitTopological(nodes, edges, order, u);
    forall x, k | x in queue' && x in nodes && 0 <= k < |edges| && edges[k].1 == x ensures edges[k].0 in order' {
      if x in released {
        Released(nodes, edges, order', x);
      } else {
        assert x in queue;
      }
    }
  }

  /** Moving the head of the queue to the order and queueing new packages keeps everything distinct. */
  lemma EmitDistinct(order: seq<Package>, queue: seq<Package>, released: seq<Package>)
    requires queue != []
    requires Distinct(order + queue) && Distinct(released)
    requires forall x :: x in order + queue ==> x !in released
    ensures Distinct(order + [queue[0]]) && Distinct(order + [queue[0]] + (queue[1..] + released))
  {
    var order', queue' := order + [queue[0]], queue[1..] + released;
    assert order' + queue' == (order + queue) + released;
    DistinctAppend(order + queue, released);
    DistinctPrefix(order', queue');
  }

  /** Emitting a package whose every predecessor is already emitted keeps the order topological. */
  lemma EmitTopological(nodes: set<Package>, edges: seq<Edge>, order: seq<Package>, u: Package)
    requires Topological(nodes, edges, order)
    requires u in nodes ==> forall k :: 0 <= k < |edges| && edges[k].1 == u ==> edges[k].0 in order
    ensures Topological(nodes, edges, order + [u])
  {
    var order' := order + [u];
    forall j, k | 0 <= j < |order'| && 0 <= k < |edges| && edges[k].1 == order'[j] && order'[j] in nodes
      ensures edges[k].0 in order'[..j]
    {
      if j < |order| {
        assert order'[..j] == order[..j];
      } else {
        assert order'[..j] == order;
      }
    }
  }

  /** The seed and the positive entries together cover the nodes once, plus the requested package when it was forced in. */
  lemma SeedBudget(nodes: set<Package>, edges: seq<Edge>, start: Package, indeg: map<Package, int>, seed: seq<Package>)
    requires Counted(indeg, nodes, edges)
    requires Distinct(seed) && Elements(seed) == Zeros(nodes, indeg) + {start}
    ensures |seed| + |Pos(indeg)| == |nodes| + (if start in nodes && InDegree(edges, start) == 0 then 0 else 1)
  {
    DistinctCard(seed);
    assert nodes == Zeros(nodes, indeg) + Pos(indeg);
    assert Zeros(nodes, indeg) * Pos(indeg) == {};
    if start in nodes && InDegree(edges, start) == 0 {
      assert Zeros(nodes, indeg) + {start} == Zeros(nodes, indeg);
    } else {
      assert start !in Zeros(nodes, indeg);
    }
  }

  /** The state before the drain loop satisfies its invariants. */
  lemma InitialState(nodes: set<Package>, edges: seq<Edge>, start: Package, indeg: map<Package, int>, seed: seq<Package>)
    requires Counted(indeg, nodes, edges)
    requires Distinct(seed) && Elements(seed) == Zeros(nodes, indeg) + {start}
    ensures Draining(nodes, edges, start, seed, |seed| + |Pos(indeg)|, [], seed, indeg)
    ensures Harmless(nodes, edges, start) ==> Orderly(nodes, edges, [], seed, indeg)
  {
    assert [] + seed == seed;
    forall n | n in nodes && indeg[n] <= 0 ensures n in seed {
      assert n in Zeros(nodes, indeg);
    }
    forall x | x in seed ensures x in nodes || x == start {
      assert x in Elements(seed);
    }
    if Harmless(nodes, edges, start) {
      forall x | x in seed && x in nodes ensures indeg[x] == 0 {
        assert x in Elements(seed);
      }
      forall x | x in seed && x in nodes ensures forall k :: 0 <= k < |edges| ==> edges[k].1 != x {
        InDegreeZero(edges, x);
      }
    }
  }

  /** A node still short of decrements has an incoming edge from a node that was not emitted. */
  lemma LeftOver(nodes: set<Package>, edges: seq<Edge>, order: seq<Package>, r: Package)
    requires Distinct(order) && forall e :: e in edges ==> e.0 in nodes
    requires InDegree(edges, r) - Relaxed(edges, nodes, order, r) > 0
    ensures HasPredecessorIn(edges, nodes - Elements(order), r)
  {
    RelaxedDistinct(edges, nodes, order, r);
    CountFromAll(edges, Elements(order) * nodes, r);
    var k :| 0 <= k < |edges| && edges[k].1 == r && edges[k].0 !in Elements(order) * nodes;
    assert edges[k] in edges;
  }

  /**
   * When the queue runs dry on an acyclic graph whose edges all start at
   * nodes, with no package emitted twice, every node has been emitted: a
   * node left over would have a positive entry, hence an edge from another
   * left-over node, and left-over nodes would then close a cycle.
   */
  lemma Complete(nodes: set<Package>, edges: seq<Edge>, start: Package, order: seq<Package>, indeg: map<Package, int>)
    requires indeg.Keys == nodes
    requires forall n :: n in nodes ==> indeg[n] == InDegree(edges, n) - Relaxed(edges, nodes, order, n)
    requires forall n :: n in nodes && indeg[n] <= 0 ==> n in order
    requires forall x :: x in order ==> x in nodes || x == start
    requires Distinct(order) && start in nodes
    requires Acyclic(edges) && forall e :: e in edges ==> e.0 in nodes
    ensures Elements(order) == nodes && |order| == |nodes|
  {
    var left := nodes - Elements(order);
    if left != {} {
      forall r | r in left ensures HasPredecessorIn(edges, left, r) {
        LeftOver(nodes, edges, order, r);
      }
      PredecessorsInsideMeanCycle(edges, left);
    }
    forall x | x in nodes ensures x in Elements(order) {
      assert x !in left;
    }
    forall x | x in Elements(order) ensures x in nodes {
      assert x in order;
    }
    DistinctCard(order);
  }

  /**
   * The order a drained queue leaves: a node is emitted exactly when all its
   * predecessors are, and every node left out has a predecessor that was
   * left out too, so it sits on a cycle or behind one.
   */
  ghost predicate Settled(nodes: set<Package>, edges: seq<Edge>, order: seq<Package>) {
    && (forall n :: n in nodes ==>
          (n in order <==> forall k :: 0 <= k < |edges| && edges[k].1 == n ==> edges[k].0 in order))
    && (forall n :: n in nodes && n !in order ==> HasPredecessorIn(edges, nodes - Elements(order), n))
  }

  /**
   * When the queue runs dry with no package emitted twice and every edge
   * starting at a node, a node is emitted exactly when all its predecessors
   * are, and every node left out has a predecessor that was left out too:
   * it sits on a cycle or behind one.
   */
  lemma Blocked(nodes: set<Package>, edges: seq<Edge>, order: seq<Package>, indeg: map<Package, int>)
    requires indeg.Keys == nodes
    requires forall n :: n in nodes ==> indeg[n] == InDegree(edges, n) - Relaxed(edges, nodes, order, n)
    requires forall n :: n in nodes && indeg[n] <= 0 ==> n in order
    requires Distinct(order) && Topological(nodes, edges, order)
    requires forall e :: e in edges ==> e.0 in nodes
    ensures Settled(nodes, edges, order)
  {
    forall n | n in nodes && n !in order ensures HasPredecessorIn(edges, nodes - Elements(order), n) {
      LeftOver(nodes, edges, order, n);
    }
    forall n | n in nodes
      ensures n in order <==> forall k :: 0 <= k < |edges| && edges[k].1 == n ==> edges[k].0 in order
    {
      if n in order {
        var j :| 0 <= j < |order| && order[j] == n;
        forall k | 0 <= k < |edges| && edges[k].1 == n ensures edges[k].0 in order {
          assert edges[k].0 in order[..j];
        }
      } else {
        var x :| x in nodes - Elements(order) && (x, n) in edges;
        var k :| 0 <= k < |edges| && edges[k] == (x, n);
        assert edges[k].0 !in order;
      }
    }
  }

  /** What the drain loop leaves behind, read off its invariants once the queue is empty. */
  lemma Drained(nodes: set<Package>, edges: seq<Edge>, start: Package, seed: seq<Package>, budget: int,
                order: seq<Package>, indeg: map<Package, int>, table: map<Package, int>)
    requires Draining(nodes, edges, start, seed, budget, order, [], indeg)
    requires Harmless(nodes, edges, start) ==> Orderly(nodes, edges, order, [], indeg)
    requires Counted(table, nodes, edges)
    requires Elements(seed) == Zeros(nodes, table) + {start}
    requires budget == |nodes| + (if start in nodes && InDegree(edges, start) == 0 then 0 else 1)
    ensures start in order
    ensures forall n :: n in nodes && InDegree(edges, n) == 0 ==> n in order
    ensures forall x :: x in order ==> x in nodes || x == start
    ensures |order| <= budget
    ensures Harmless(nodes, edges, start) ==> Distinct(order) && Topological(nodes, edges, order)
    ensures Harmless(nodes, edges, start) && (forall e :: e in edges ==> e.0 in nodes) ==> Settled(nodes, edges, order)
    ensures start in nodes && InDegree(edges, start) == 0 && Acyclic(edges) && (forall e :: e in edges ==> e.0 in nodes)
            ==> Elements(order) == nodes && |order| == |nodes|
  {
    assert order + [] == order;
    assert start in Elements(seed);
    forall n | n in nodes && InDegree(edges, n) == 0 ensures n in order {
      assert n in Zeros(nodes, table);
      assert n in Elements(seed);
    }
    if Harmless(nodes, edges, start) {
      DistinctPrefix(order, []);
      if forall e :: e in edges ==> e.0 in nodes {
        Blocked(nodes, edges, order, indeg);
      }
      if start in nodes && Acyclic(edges) && (forall e :: e in edges ==> e.0 in nodes) {
        Complete(nodes, edges, start, order, indeg);
      }
    }
  }

  /**
   * The cycle test the report evidently intends: the order does not list
   * every node exactly once with each edge pointing forward. Unlike the
   * length comparison, it cannot miss a cycle.
   */
  predicate CycleFound(nodes: set<Package>, edges: seq<Edge>, order: seq<Package>) {
    !(Distinct(order) && Elements(order) == nodes && Forward(edges, order))
  }

  /** When every edge joins two nodes, a graph with a cycle always makes `CycleFound` true. */
  lemma CycleFoundSound(nodes: set<Package>, edges: seq<Edge>, order: seq<Package>)
    requires forall e :: e in edges ==> e.0 in nodes && e.1 in nodes
    ensures !Acyclic(edges) ==> CycleFound(nodes, edges, order)
  {
    if !CycleFound(nodes, edges, order) {
      forall e | e in edges ensures e.0 in order && e.1 in order {
        assert e.0 in Elements(order) && e.1 in Elements(order);
      }
      ForwardAcyclic(edges, order);
    }
  }

  /**
   * A repeat-free topological order of nodes and the requested node that is
   * as long as the node set lists every node once, each edge pointing forward.
   */
  lemma FullOrder(nodes: set<Package>, edges: seq<Edge>, start: Package, order: seq<Package>)
    requires Distinct(order) && Topological(nodes, edges, order)
    requires forall x :: x in order ==> x in nodes || x == start
    requires start in nodes && |order| == |nodes|
    ensures !CycleFound(nodes, edges, order)
  {
    assert Elements(order) <= nodes;
    DistinctCard(order);
    if Elements(order) != nodes {
      var x :| x in nodes && x !in Elements(order);
      SubsetCard(Elements(order), nodes - {x});
    }
    TopologicalForward(nodes, edges, order);
  }

  /**
   * Step 3: drain the queue, one `Emit` per pass, keeping the bookkeeping
   * invariant and, when the forced seed is harmless, the ordering one. The
   * loop ends because every pass shrinks the queue or the set of positive
   * entries.
   */
  method Drain(nodes: set<Package>, edges: seq<Edge>, start: Package, adj: map<Package, seq<Package>>,
               ghost seed: seq<Package>, ghost budget: int, indeg: map<Package, int>, queue: seq<Package>)
    returns (order: seq<Package>, indeg': map<Package, int>)
    requires forall e :: e in edges && e.0 in nodes ==> e.1 in nodes
    requires Listed(adj, nodes, edges)
    requires Draining(nodes, edges, start, seed, budget, [], queue, indeg)
    requires Harmless(nodes, edges, start) ==> Orderly(nodes, edges, [], queue, indeg)
    ensures Draining(nodes, edges, start, seed, budget, order, [], indeg')
    ensures Harmless(nodes, edges, start) ==> Orderly(nodes, edges, order, [], indeg')
  {
    var queue' := queue;
    indeg' := indeg;
    order := [];
    while queue' != []
      invariant Draining(nodes, edges, start, seed, budget, order, queue', indeg')
      invariant Harmless(nodes, edges, start) ==> Orderly(nodes, edges, order, queue', indeg')
      decreases |queue'| + |Pos(indeg')|
    {
      ghost var order0, queue0, indeg0 := order, queue', indeg';
      ghost var next := if queue'[0] in nodes then Succ(edges, queue'[0]) else [];
      if queue'[0] in nodes {
        SuccInNodes(nodes, edges, queue'[0]);
      }
      indeg', queue', order := Emit(adj, indeg', queue', order);
      ghost var released := queue'[|queue0| - 1..];
      SplitAt(queue', |queue0| - 1);
      DrainingStep(nodes, edges, start, seed, budget, order0, queue0, indeg0, next, indeg', released);
      if Harmless(nodes, edges, start) {
        OrderlyStep(nodes, edges, start, seed, budget, order0, queue0, indeg0, next, indeg', released);
      }
    }
  }

  /**
   * `get_loading_order`. Whatever the graph: `has_cycle` says whether the
   * order's length differs from the node count; the requested package and every node
   * without incoming edges are emitted; only nodes and the requested
   * package are emitted; the order is at most one longer than the node set,
   * and no longer at all when the requested package is a node without
   * incoming edges. When the forced seed is harmless, nothing is emitted
   * twice and every edge into an emitted node starts at a package emitted
   * earlier. When the requested package is a node without incoming edges
   * and every edge starts at a node, `has_cycle` is true exactly when the
   * graph has a cycle, and on an acyclic graph the order is a topological
   * order of all the nodes. When the requested package has an incoming
   * edge, a cycle can go unreported (see `CycleFound`).
   */
  method GetLoadingOrder(nodes: set<Package>, edges: seq<Edge>, start: Package)
    returns (order: seq<Package>, hasCycle: bool)
    requires forall e :: e in edges && e.0 in nodes ==> e.1 in nodes
    ensures hasCycle == (|order| != |nodes|)
    ensures start in order
    ensures forall n :: n in nodes && InDegree(edges, n) == 0 ==> n in order
    ensures forall x :: x in order ==> x in nodes || x == start
    ensures |order| <= |nodes| + (if start in nodes && InDegree(edges, start) == 0 then 0 else 1)
    ensures Harmless(nodes, edges, start) ==> Distinct(order) && Topological(nodes, edges, order)
    ensures Harmless(nodes, edges, start) && (forall e :: e in edges ==> e.0 in nodes) ==> Settled(nodes, edges, order)
    ensures start in nodes && InDegree(edges, start) == 0 && Acyclic(edges) && (forall e :: e in edges ==> e.0 in nodes)
            ==> Elements(order) == nodes && !hasCycle && !CycleFound(nodes, edges, order)
    ensures start in nodes && InDegree(edges, start) == 0 && !Acyclic(edges) && (forall e :: e in edges ==> e.0 in nodes)
            ==> hasCycle
  {
    var indeg, adj := Tables(nodes, edges);
    var seed := Seed(nodes, indeg, start);
    ghost var table := indeg;
    ghost var budget := |seed| + |Pos(indeg)|;
    SeedBudget(nodes, edges, start, indeg, seed);
    InitialState(nodes, edges, start, indeg, seed);
    var drained;
    order, drained := Drain(nodes, edges, start, adj, seed, budget, indeg, seed);
    hasCycle := |order| != |nodes|;
    Drained(nodes, edges, start, seed, budget, order, drained, table);
    if start in nodes && InDegree(edges, start) == 0 && (forall e :: e in edges ==> e.0 in nodes) && !hasCycle {
      FullOrder(nodes, edges, start, order);
      CycleFoundSound(nodes, edges, order);
    }
  }
}
