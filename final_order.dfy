/**
 * The order shown to the user after sorting: every occurrence of the
 * requested package is taken out of the loading order and, if it was
 * there, put back once at the very end.
 */
module FinalOrder {
  import opened Graph

  /** `[pkg for pkg in order if pkg != x]`. */
  function Without(s: seq<Package>, x: Package): (r: seq<Package>)
    ensures |r| <= |s|
    ensures x !in r
  {
    if s == [] then []
    else
      var last := s[|s| - 1];
      Without(s[..|s| - 1], x) + (if last == x then [] else [last])
  }

  /**
   * The final order: the loading order without the requested package, then
   * the package itself if it was loaded. It lists the same packages, and the
   * requested one last.
   */
  function Reshape(order: seq<Package>, start: Package): (r: seq<Package>)
    ensures forall y :: y in r <==> y in order
    ensures start in order ==> r[|r| - 1] == start
  {
    assert forall y :: y in Without(order, start) <==> y in order && y != start by {
      forall y { WithoutMember(order, start, y); }
    }
    Without(order, start) + (if start in order then [start] else [])
  }

  /** What the report shows after sorting (the three branches of the final-order printout). */
  datatype Shown =
    | OnlyRequested(package: Package)     // nothing but the requested package was loaded
    | Steps(packages: seq<Package>)       // the numbered installation steps
    | NothingShown                        // an empty order: neither branch prints

  function Show(order: seq<Package>, start: Package): (r: Shown)
    ensures r.OnlyRequested? <==> start in order && forall k :: 0 <= k < |order| ==> order[k] == start
    ensures r.OnlyRequested? ==> r.package == start
    ensures r.Steps? ==> r.packages == Reshape(order, start) && |r.packages| >= 1
    ensures r.NothingShown? <==> order == []
  {
    var rest := Without(order, start);
    WithoutNothingLeft(order, start);
    if rest == [] && start in order then OnlyRequested(start)
    else if rest != [] then Steps(Reshape(order, start))
    else NothingShown
  }

  lemma WithoutSnoc(s: seq<Package>, y: Package, x: Package)
    ensures Without(s + [y], x) == Without(s, x) + (if y == x then [] else [y])
  {
    assert (s + [y])[..|s|] == s;
  }

  /** Filtering leaves nothing exactly when every element is the removed package. */
  lemma {:induction false} WithoutNothingLeft(s: seq<Package>, x: Package)
    ensures Without(s, x) == [] <==> forall k :: 0 <= k < |s| ==> s[k] == x
  {
    if s != [] {
      var init := s[..|s| - 1];
      WithoutNothingLeft(init, x);
      assert forall k :: 0 <= k < |init| ==> init[k] == s[k];
    }
  }

  /** Filtering distributes over concatenation: the kept entries keep their relative order. */
  lemma {:induction false} WithoutAppend(a: seq<Package>, b: seq<Package>, x: Package)
    ensures Without(a + b, x) == Without(a, x) + Without(b, x)
  {
    if b == [] {
      assert a + b == a;
    } else {
      var init := b[..|b| - 1];
      assert (a + b)[..|a + b| - 1] == a + init;
      WithoutAppend(a, init, x);
    }
  }

  /** Filtering drops every copy of the removed package and keeps every copy of every other. */
  lemma {:induction false} WithoutCount(s: seq<Package>, x: Package, y: Package)
    ensures multiset(Without(s, x))[y] == if y == x then 0 else multiset(s)[y]
  {
    if s != [] {
      var init := s[..|s| - 1];
      WithoutCount(init, x, y);
      assert s == init + [s[|s| - 1]];
    }
  }

  /** Every kept entry was in the loading order. */
  lemma {:induction false} WithoutMember(s: seq<Package>, x: Package, y: Package)
    ensures y in Without(s, x) <==> y in s && y != x
  {
    if s != [] {
      var init := s[..|s| - 1];
      WithoutMember(init, x, y);
      assert s == init + [s[|s| - 1]];
    }
  }

  /** Dropping the requested package keeps every other pair of entries in their relative order. */
  lemma WithoutKeepsOrder(s: seq<Package>, x: Package, i: nat, j: nat)
    requires i < j < |s| && s[i] != x && s[j] != x
    ensures exists p, q :: 0 <= p < q < |Without(s, x)| && Without(s, x)[p] == s[i] && Without(s, x)[q] == s[j]
  {
    var a, b := s[..j], s[j..];
    assert s == a + b;
    WithoutAppend(a, b, x);
    WithoutHead(b, x);
    assert s[i] in a;
    WithoutMember(a, x, s[i]);
    var wa := Without(a, x);
    var p :| 0 <= p < |wa| && wa[p] == s[i];
    assert Without(s, x)[p] == s[i];
    assert Without(s, x)[|wa|] == s[j];
  }

  /** A first entry other than the dropped package stays first. */
  lemma WithoutHead(b: seq<Package>, x: Package)
    requires b != [] && b[0] != x
    ensures Without(b, x) != [] && Without(b, x)[0] == b[0]
  {
    assert b == [b[0]] + b[1..];
    WithoutAppend([b[0]], b[1..], x);
    WithoutSnoc([], b[0], x);
    assert [] + [b[0]] == [b[0]];
  }

  /**
   * The requested package occurs in the final order exactly once, as its
   * last element, when it was loaded, and not at all otherwise; every other
   * package occurs as often as in the loading order.
   */
  lemma ReshapeShape(order: seq<Package>, start: Package, y: Package)
    ensures var r := Reshape(order, start);
            && (start in r <==> start in order)
            && (start in order ==> r[|r| - 1] == start && start !in r[..|r| - 1])
            && multiset(r)[y] == if y == start then (if start in order then 1 else 0) else multiset(order)[y]
  {
    var r := Reshape(order, start);
    var w := Without(order, start);
    WithoutCount(order, start, y);
    WithoutMember(order, start, start);
    if start in order {
      assert r[..|r| - 1] == w;
    }
  }

  /** Reshaping twice changes nothing more. */
  lemma ReshapeIdempotent(order: seq<Package>, start: Package)
    ensures Reshape(Reshape(order, start), start) == Reshape(order, start)
  {
    var w := Without(order, start);
    var tail: seq<Package> := if start in order then [start] else [];
    WithoutAppend(w, tail, start);
    WithoutIdle(w, start);
    WithoutAllOf(tail, start);
    WithoutMember(order, start, start);
    assert w + tail == Reshape(order, start);
    assert Without(w + tail, start) == w;
    assert start in w + tail <==> start in order;
  }

  /** A sequence without the removed package is left as it is. */
  lemma {:induction false} WithoutIdle(s: seq<Package>, x: Package)
    requires x !in s
    ensures Without(s, x) == s
  {
    if s != [] {
      var init := s[..|s| - 1];
      WithoutIdle(init, x);
      assert s == init + [s[|s| - 1]];
    }
  }

  lemma WithoutAllOf(s: seq<Package>, x: Package)
    requires forall k :: 0 <= k < |s| ==> s[k] == x
    ensures Without(s, x) == []
  {
    WithoutNothingLeft(s, x);
  }

  function Reverse(s: seq<Package>): (r: seq<Package>)
    ensures |r| == |s|
    ensures forall i :: 0 <= i < |s| ==> r[i] == s[|s| - 1 - i]
  {
    if s == [] then [] else [s[|s| - 1]] + Reverse(s[..|s| - 1])
  }

  /** Reversing an order turns every edge around. */
  lemma ReverseBackward(edges: seq<Edge>, s: seq<Package>)
    requires Forward(edges, s)
    ensures Backward(edges, Reverse(s))
  {
    var r := Reverse(s);
    forall i, j | 0 <= i < |r| && 0 <= j < |r| && (r[i], r[j]) in edges ensures j < i {
      assert (s[|s| - 1 - i], s[|s| - 1 - j]) in edges;
    }
  }

  /** Leaving entries out keeps the dependencies of the rest in front of them. */
  lemma {:induction false} WithoutBackward(edges: seq<Edge>, s: seq<Package>, x: Package)
    requires Backward(edges, s)
    ensures Backward(edges, Without(s, x))
  {
    if s != [] {
      var n := |s| - 1;
      var init := s[..n];
      var last := s[n];
      assert Backward(edges, init) by {
        forall i, j | 0 <= i < |init| && 0 <= j < |init| && (init[i], init[j]) in edges ensures j < i {
          assert init[i] == s[i] && init[j] == s[j];
        }
      }
      WithoutBackward(edges, init, x);
      var w := Without(init, x);
      if last != x {
        var r := w + [last];
        forall i | 0 <= i < |w| ensures (w[i], last) !in edges {
          WithoutMember(init, x, w[i]);
          var p :| 0 <= p < |init| && init[p] == w[i];
          assert s[p] == w[i];
        }
        assert (last, last) !in edges by {
          assert (s[n], s[n]) == (last, last);
        }
        forall i, j | 0 <= i < |r| && 0 <= j < |r| && (r[i], r[j]) in edges ensures j < i {
          if i < |w| && j < |w| {
            assert r[i] == w[i] && r[j] == w[j];
          }
        }
      }
    }
  }

  /** Appending a package that nothing depends on keeps every dependency in front of its dependent. */
  lemma AppendBackward(edges: seq<Edge>, w: seq<Package>, start: Package)
    requires Backward(edges, w)
    requires forall k :: 0 <= k < |edges| ==> edges[k].1 != start
    ensures Backward(edges, w + [start])
  {
    var r := w + [start];
    forall i, j | 0 <= i < |r| && 0 <= j < |r| && (r[i], r[j]) in edges ensures j < i {
      if j < |w| && i < |w| {
        assert r[i] == w[i] && r[j] == w[j];
      } else {
        var k :| 0 <= k < |edges| && edges[k] == (r[i], r[j]);
      }
    }
  }

  /**
   * The installation order the final printout evidently intends: the
   * loading order reversed, so that every package comes after its
   * dependencies, with the requested package moved to the end.
   */
  function InstallOrder(order: seq<Package>, start: Package): seq<Package> {
    Reshape(Reverse(order), start)
  }

  /**
   * From a complete topological loading order whose requested package has
   * no incoming edge, the installation order lists every node once, ends
   * with the requested package, and puts every dependency before its
   * dependents.
   */
  lemma InstallOrderSound(nodes: set<Package>, edges: seq<Edge>, order: seq<Package>, start: Package)
    requires Distinct(order) && Elements(order) == nodes && start in nodes
    requires forall j, k :: 0 <= j < |order| && 0 <= k < |edges| && edges[k].1 == order[j] && order[j] in nodes
                            ==> edges[k].0 in order[..j]
    requires InDegree(edges, start) == 0
    ensures var r := InstallOrder(order, start);
            && Backward(edges, r)
            && |r| == |nodes| && Elements(r) == nodes
            && r[|r| - 1] == start
  {
    TopologicalForward(nodes, edges, order);
    var rev := Reverse(order);
    ReverseBackward(edges, order);
    WithoutBackward(edges, rev, start);
    InDegreeZero(edges, start);
    AppendBackward(edges, Without(rev, start), start);
    InstallOrderPermutes(order, start);
    SameMultiset(InstallOrder(order, start), order);
    DistinctCard(order);
    ReshapeShape(rev, start, start);
  }

  /** When the requested package occurs once, the installation order rearranges the loading order. */
  lemma InstallOrderPermutes(order: seq<Package>, start: Package)
    requires Distinct(order) && start in order
    ensures multiset(InstallOrder(order, start)) == multiset(order)
  {
    var rev := Reverse(order);
    var p :| 0 <= p < |order| && order[p] == start;
    assert rev[|order| - 1 - p] == start;
    DistinctCount(order, p);
    var r := InstallOrder(order, start);
    forall y ensures multiset(r)[y] == multiset(order)[y] {
      ReshapeShape(rev, start, y);
      ReverseCount(order, y);
    }
  }

  /** Two rearrangements of each other have the same length and the same elements. */
  lemma SameMultiset(a: seq<Package>, b: seq<Package>)
    requires multiset(a) == multiset(b)
    ensures |a| == |b| && Elements(a) == Elements(b)
  {
    assert |a| == |multiset(a)| == |multiset(b)| == |b|;
    forall y ensures y in a <==> y in b {
      assert y in a <==> multiset(a)[y] > 0;
      assert y in b <==> multiset(b)[y] > 0;
    }
  }

  /** In a sequence without repeats, each element occurs once. */
  lemma {:induction false} DistinctCount(s: seq<Package>, p: nat)
    requires Distinct(s) && p < |s|
    ensures multiset(s)[s[p]] == 1
  {
    var init := s[..|s| - 1];
    var last := s[|s| - 1];
    assert s == init + [last];
    assert Distinct(init);
    if p == |s| - 1 {
      assert last !in init;
    } else {
      DistinctCount(init, p);
      assert init[p] == s[p] != last;
    }
  }

  lemma {:induction false} ReverseCount(s: seq<Package>, y: Package)
    ensures multiset(Reverse(s))[y] == multiset(s)[y]
  {
    if s != [] {
      var init := s[..|s| - 1];
      ReverseCount(init, y);
      assert s == init + [s[|s| - 1]];
    }
  }
}
