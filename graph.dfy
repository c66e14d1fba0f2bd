/**
 * Dependency graphs: packages as nodes and an ordered list of
 * (package, dependency) edges, duplicates allowed.
 */
module Graph {

  type Package = string

  /** `(u, v)`: package `u` depends on package `v`. */
  type Edge = (Package, Package)

  /** Package name to the ordered list of its direct dependencies. */
  type Repository = map<Package, seq<Package>>

  /** No element occurs twice. */
  predicate Distinct(s: seq<Package>) {
    forall i, j :: 0 <= i < j < |s| ==> s[i] != s[j]
  }

  function Elements(s: seq<Package>): set<Package> {
    set x | x in s
  }

  /** The targets of `u`'s edges, in edge order: `adj[u]` after the edges are loaded. */
  function Succ(edges: seq<Edge>, u: Package): (r: seq<Package>)
    ensures |r| <= |edges|
  {
    if edges == [] then []
    else
      var e := edges[|edges| - 1];
      Succ(edges[..|edges| - 1], u) + (if e.0 == u then [e.1] else [])
  }

  /** Every successor of `u` is the target of an edge from `u`. */
  lemma {:induction false} SuccMember(edges: seq<Edge>, u: Package, x: Package)
    ensures x in Succ(edges, u) ==> (u, x) in edges
  {
    if edges != [] {
      var init := edges[..|edges| - 1];
      SuccMember(init, u, x);
      assert edges == init + [edges[|edges| - 1]];
    }
  }

  /** The number of edges into `v`. */
  function InDegree(edges: seq<Edge>, v: Package): nat {
    if edges == [] then 0
    else
      var e := edges[|edges| - 1];
      InDegree(edges[..|edges| - 1], v) + (if e.1 == v then 1 else 0)
  }

  /** The number of edges into `v` whose source is in `from`. */
  function CountFrom(edges: seq<Edge>, from: set<Package>, v: Package): nat {
    if edges == [] then 0
    else
      var e := edges[|edges| - 1];
      CountFrom(edges[..|edges| - 1], from, v) + (if e.0 in from && e.1 == v then 1 else 0)
  }

  /** A node has in-degree zero exactly when no edge points at it. */
  lemma {:induction false} InDegreeZero(edges: seq<Edge>, v: Package)
    ensures InDegree(edges, v) == 0 <==> forall k :: 0 <= k < |edges| ==> edges[k].1 != v
  {
    if edges != [] {
      var init := edges[..|edges| - 1];
      InDegreeZero(init, v);
      assert forall k :: 0 <= k < |init| ==> init[k] == edges[k];
    }
  }

  /** Each occurrence of `v` in `u`'s successor list is one edge `(u, v)`. */
  lemma {:induction false} SuccCount(edges: seq<Edge>, u: Package, v: Package)
    ensures multiset(Succ(edges, u))[v] == CountFrom(edges, {u}, v)
  {
    if edges != [] {
      SuccCount(edges[..|edges| - 1], u, v);
    }
  }

  /** No source, no edges counted. */
  lemma {:induction false} CountFromNone(edges: seq<Edge>, v: Package)
    ensures CountFrom(edges, {}, v) == 0
  {
    if edges != [] {
      CountFromNone(edges[..|edges| - 1], v);
    }
  }

  /** Counting edges from a disjoint union of sources adds up. */
  lemma {:induction false} CountFromAdd(edges: seq<Edge>, from: set<Package>, u: Package, v: Package)
    requires u !in from
    ensures CountFrom(edges, from + {u}, v) == CountFrom(edges, from, v) + CountFrom(edges, {u}, v)
  {
    if edges != [] {
      CountFromAdd(edges[..|edges| - 1], from, u, v);
    }
  }

  /**
   * The edges into `v` from `from` are at most all edges into `v`, and all
   * of them exactly when every edge into `v` starts in `from`.
   */
  lemma {:induction false} CountFromAll(edges: seq<Edge>, from: set<Package>, v: Package)
    ensures CountFrom(edges, from, v) <= InDegree(edges, v)
    ensures CountFrom(edges, from, v) == InDegree(edges, v)
            <==> forall k :: 0 <= k < |edges| && edges[k].1 == v ==> edges[k].0 in from
  {
    if edges != [] {
      var init := edges[..|edges| - 1];
      CountFromAll(init, from, v);
      assert forall k :: 0 <= k < |init| ==> init[k] == edges[k];
    }
  }

  /** `p` walks along edges: each step from `p[i]` to `p[i + 1]` is an edge. */
  ghost predicate IsPath(edges: seq<Edge>, p: seq<Package>) {
    |p| >= 1 && forall i :: 0 <= i < |p| - 1 ==> (p[i], p[i + 1]) in edges
  }

  /** No walk of one or more edges returns to where it started. */
  ghost predicate Acyclic(edges: seq<Edge>) {
    forall p :: IsPath(edges, p) && |p| >= 2 ==> p[0] != p[|p| - 1]
  }

  /** `b` can be reached from `a` along edges. */
  ghost predicate Reachable(edges: seq<Edge>, a: Package, b: Package) {
    exists p :: IsPath(edges, p) && p[0] == a && p[|p| - 1] == b
  }

  lemma {:induction false} SubsetCard(a: set<Package>, b: set<Package>)
    requires a <= b
    ensures |a| <= |b|
    decreases a
  {
    if a != {} {
      var x :| x in a;
      SubsetCard(a - {x}, b - {x});
    }
  }

  lemma {:induction false} DistinctCard(s: seq<Package>)
    requires Distinct(s)
    ensures |Elements(s)| == |s|
  {
    if s != [] {
      var init := s[..|s| - 1];
      DistinctCard(init);
      assert Elements(s) == Elements(init) + {s[|s| - 1]};
      assert s[|s| - 1] !in Elements(init);
    }
  }

  /** A sequence longer than the set it draws from repeats an element. */
  lemma Pigeonhole(s: seq<Package>, pool: set<Package>) returns (i: nat, j: nat)
    requires forall k :: 0 <= k < |s| ==> s[k] in pool
    requires |s| > |pool|
    ensures i < j < |s| && s[i] == s[j]
  {
    if Distinct(s) {
      DistinctCard(s);
      SubsetCard(Elements(s), pool);
      assert false;
    }
    i, j :| 0 <= i < j < |s| && s[i] == s[j];
  }

  lemma PathPrepend(edges: seq<Edge>, x: Package, w: seq<Package>)
    requires IsPath(edges, w) && (x, w[0]) in edges
    ensures IsPath(edges, [x] + w)
  {
    var p := [x] + w;
    forall i | 0 <= i < |p| - 1 ensures (p[i], p[i + 1]) in edges {
      if i > 0 {
        assert p[i] == w[i - 1] && p[i + 1] == w[i];
      }
    }
  }

  lemma PathSlice(edges: seq<Edge>, w: seq<Package>, i: nat, j: nat)
    requires IsPath(edges, w) && i <= j < |w|
    ensures IsPath(edges, w[i..j + 1])
  {
    var p := w[i..j + 1];
    forall k | 0 <= k < |p| - 1 ensures (p[k], p[k + 1]) in edges {
      assert p[k] == w[i + k] && p[k + 1] == w[i + k + 1];
    }
  }

  lemma PathAppend(edges: seq<Edge>, p: seq<Package>, y: Package)
    requires IsPath(edges, p) && (p[|p| - 1], y) in edges
    ensures IsPath(edges, p + [y])
  {
    var q := p + [y];
    forall i | 0 <= i < |q| - 1 ensures (q[i], q[i + 1]) in edges {
      if i < |p| - 1 {
        assert q[i] == p[i] && q[i + 1] == p[i + 1];
      }
    }
  }

  /** Along a path of one or more edges whose every edge climbs in rank, the rank climbs. */
  lemma {:induction false} PathRises(edges: seq<Edge>, rank: map<Package, int>, p: seq<Package>)
    requires forall e :: e in edges ==> e.0 in rank && e.1 in rank && rank[e.0] < rank[e.1]
    requires IsPath(edges, p) && |p| >= 2
    ensures p[0] in rank && p[|p| - 1] in rank && rank[p[0]] < rank[p[|p| - 1]]
  {
    var n := |p| - 1;
    assert (p[n - 1], p[n]) in edges;
    if n > 1 {
      PathSlice(edges, p, 0, n - 1);
      PathRises(edges, rank, p[..n]);
    }
  }

  /** A graph whose edges all climb in some ranking has no cycle. */
  lemma RankedAcyclic(edges: seq<Edge>, rank: map<Package, int>)
    requires forall e :: e in edges ==> e.0 in rank && e.1 in rank && rank[e.0] < rank[e.1]
    ensures Acyclic(edges)
  {
    forall p | IsPath(edges, p) && |p| >= 2 ensures p[0] != p[|p| - 1] {
      PathRises(edges, rank, p);
    }
  }

  /**
   * In an acyclic graph whose nodes are all reachable from `root` and whose
   * edges all start at nodes, no edge points back at the root.
   */
  lemma RootHasNoPredecessor(edges: seq<Edge>, nodes: set<Package>, root: Package)
    requires Acyclic(edges)
    requires forall n :: n in nodes ==> Reachable(edges, root, n)
    requires forall e :: e in edges ==> e.0 in nodes
    ensures InDegree(edges, root) == 0
  {
    if InDegree(edges, root) != 0 {
      InDegreeZero(edges, root);
      var k :| 0 <= k < |edges| && edges[k].1 == root;
      var x := edges[k].0;
      assert edges[k] in edges;
      var p :| IsPath(edges, p) && p[0] == root && p[|p| - 1] == x;
      PathAppend(edges, p, root);
    }
  }

  /** Some edge into `r` starts inside `inside`. */
  ghost predicate HasPredecessorIn(edges: seq<Edge>, inside: set<Package>, r: Package) {
    exists x :: x in inside && (x, r) in edges
  }

  /**
   * When every package of a non-empty set has a predecessor inside the set,
   * walking backwards must repeat a package: the graph has a cycle.
   */
  lemma PredecessorsInsideMeanCycle(edges: seq<Edge>, inside: set<Package>)
    requires inside != {}
    requires forall r {:trigger HasPredecessorIn(edges, inside, r)} :: r in inside ==> HasPredecessorIn(edges, inside, r)
    ensures !Acyclic(edges)
  {
    var r :| r in inside;
    var w := [r];
    while |w| <= |inside|
      invariant IsPath(edges, w)
      invariant forall k :: 0 <= k < |w| ==> w[k] in inside
      decreases |inside| + 1 - |w|
    {
      assert HasPredecessorIn(edges, inside, w[0]);
      var x :| x in inside && (x, w[0]) in edges;
      PathPrepend(edges, x, w);
      w := [x] + w;
    }
    var i, j := Pigeonhole(w, inside);
    PathSlice(edges, w, i, j);
    var p := w[i..j + 1];
    assert p[0] == p[|p| - 1];
  }

  /** For every edge `(s[i], s[j])` between entries, the source comes first: dependents before dependencies. */
  predicate Forward(edges: seq<Edge>, s: seq<Package>) {
    forall i, j :: 0 <= i < |s| && 0 <= j < |s| && (s[i], s[j]) in edges ==> i < j
  }

  /** For every edge `(s[i], s[j])` between entries, the target comes first: dependencies before dependents. */
  ghost predicate Backward(edges: seq<Edge>, s: seq<Package>) {
    forall i, j :: 0 <= i < |s| && 0 <= j < |s| && (s[i], s[j]) in edges ==> j < i
  }

  /** A topological loading order in which nothing repeats has every edge pointing forward. */
  lemma TopologicalForward(nodes: set<Package>, edges: seq<Edge>, order: seq<Package>)
    requires Distinct(order)
    requires forall x :: x in order ==> x in nodes
    requires forall j, k :: 0 <= j < |order| && 0 <= k < |edges| && edges[k].1 == order[j] && order[j] in nodes
                            ==> edges[k].0 in order[..j]
    ensures Forward(edges, order)
  {
    forall i, j | 0 <= i < |order| && 0 <= j < |order| && (order[i], order[j]) in edges ensures i < j {
      var k :| 0 <= k < |edges| && edges[k] == (order[i], order[j]);
      assert order[i] in order[..j];
      var p :| 0 <= p < j && order[p] == order[i];
    }
  }

  /** A repeat-free order of the graph's packages in which every edge points forward rules out a cycle. */
  lemma ForwardAcyclic(edges: seq<Edge>, order: seq<Package>)
    requires Distinct(order) && Forward(edges, order)
    requires forall e :: e in edges ==> e.0 in order && e.1 in order
    ensures Acyclic(edges)
  {
    var rank := map j | 0 <= j < |order| :: order[j] := j;
    forall e | e in edges ensures e.0 in rank && e.1 in rank && rank[e.0] < rank[e.1] {
      var i :| 0 <= i < |order| && order[i] == e.0;
      var j :| 0 <= j < |order| && order[j] == e.1;
      assert rank[order[i]] == i && rank[order[j]] == j;
      assert (order[i], order[j]) in edges;
    }
    RankedAcyclic(edges, rank);
  }
}
