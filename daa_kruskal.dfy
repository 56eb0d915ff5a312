/**
 * music/DAA/all.c, section "kruskal.c": the edges are sorted by weight with `qsort` and
 * `cmpEdge`, then scanned in that order; an edge is accepted when `find` gives its ends
 * different roots, and `uni` then merges the two sets. The scan stops after V-1 accepted
 * edges or at the end of the list.
 */
module Kruskal {

  import opened UnionFind
  import opened Sorting

  datatype Edge = Edge(u: int, v: int, w: int)

  /** `cmpEdge`: negative, zero or positive as a is lighter, as heavy or heavier than b. */
  function CmpEdge(a: Edge, b: Edge): (r: int)
    ensures r < 0 <==> a.w < b.w
    ensures r == 0 <==> a.w == b.w
    ensures r > 0 <==> a.w > b.w
  {
    a.w - b.w
  }

  /** The order `qsort` establishes: a must come after b. */
  predicate Heavier(a: Edge, b: Edge) {
    CmpEdge(a, b) > 0
  }

  lemma HeavierIsStrict()
    ensures StrictOrder(Heavier)
  {
  }

  /** Sorted by `cmpEdge`: weights never decrease along the sequence. */
  lemma SortedWeights(s: seq<Edge>, i: nat, j: nat)
    requires SortedBy(s, Heavier) && i <= j < |s|
    ensures s[i].w <= s[j].w
  {
    if i < j {
      assert !Heavier(s[i], s[j]);
    }
  }

  predicate Joins(e: Edge, a: int, b: int) {
    (e.u == a && e.v == b) || (e.u == b && e.v == a)
  }

  ghost predicate Step(es: seq<Edge>, a: int, b: int) {
    exists k :: 0 <= k < |es| && Joins(es[k], a, b)
  }

  /** A walk: consecutive vertices are the two ends of one of the edges. */
  ghost predicate Walk(es: seq<Edge>, p: seq<int>) {
    |p| > 0 && forall i :: 0 <= i < |p| - 1 ==> Hop(es, p, i)
  }

  /** Step i of the walk p is along an edge. */
  ghost predicate Hop(es: seq<Edge>, p: seq<int>, i: nat)
    requires i < |p| - 1
  {
    Step(es, p[i], p[i + 1])
  }

  ghost predicate Connected(es: seq<Edge>, a: int, b: int) {
    exists p :: Walk(es, p) && p[0] == a && p[|p| - 1] == b
  }

  lemma ConnectedSelf(es: seq<Edge>, a: int)
    ensures Connected(es, a, a)
  {
    assert Walk(es, [a]);
  }

  lemma ConnectedSymmetric(es: seq<Edge>, a: int, b: int)
    requires Connected(es, a, b)
    ensures Connected(es, b, a)
  {
    var p :| Walk(es, p) && p[0] == a && p[|p| - 1] == b;
    var q := seq(|p|, i requires 0 <= i < |p| => p[|p| - 1 - i]);
    forall i | 0 <= i < |q| - 1 ensures Hop(es, q, i) {
      var j := |p| - 2 - i;
      assert Hop(es, p, j);
      var k :| 0 <= k < |es| && Joins(es[k], p[j], p[j + 1]);
      assert Joins(es[k], q[i], q[i + 1]);
    }
    assert Walk(es, q);
  }

  lemma ConnectedTrans(es: seq<Edge>, a: int, b: int, c: int)
    requires Connected(es, a, b) && Connected(es, b, c)
    ensures Connected(es, a, c)
  {
    var p :| Walk(es, p) && p[0] == a && p[|p| - 1] == b;
    var q :| Walk(es, q) && q[0] == b && q[|q| - 1] == c;
    var r := p + q[1..];
    forall i | 0 <= i < |r| - 1 ensures Hop(es, r, i) {
      if i < |p| - 1 {
        assert Hop(es, p, i) && r[i] == p[i] && r[i + 1] == p[i + 1];
      } else {
        var j := i - |p| + 1;
        assert Hop(es, q, j) && r[i] == q[j] && r[i + 1] == q[j + 1];
      }
    }
    assert Walk(es, r);
  }

  /** More edges keep every connection, and the new edge connects its own ends. */
  lemma ConnectedGrow(es: seq<Edge>, e: Edge, a: int, b: int)
    requires Connected(es, a, b)
    ensures Connected(es + [e], a, b)
  {
    var p :| Walk(es, p) && p[0] == a && p[|p| - 1] == b;
    forall i | 0 <= i < |p| - 1 ensures Hop(es + [e], p, i) {
      assert Hop(es, p, i);
      var k :| 0 <= k < |es| && Joins(es[k], p[i], p[i + 1]);
      assert (es + [e])[k] == es[k];
    }
    assert Walk(es + [e], p);
  }

  lemma ConnectedEdge(es: seq<Edge>, e: Edge, a: int, b: int)
    requires e.u == a && e.v == b
    ensures Connected(es + [e], a, b)
  {
    assert Joins((es + [e])[|es|], a, b);
    assert Walk(es + [e], [a, b]);
  }

  /** Every edge inside one set of the union-find. */
  ghost predicate Inside(parent: seq<int>, rank: seq<int>, es: seq<Edge>)
    requires Forest(parent, rank)
  {
    forall k :: 0 <= k < |es| ==> 0 <= es[k].u < |parent| && 0 <= es[k].v < |parent| && Same(parent, rank, es[k].u, es[k].v)
  }

  /** With every edge inside one set, the two ends of a walk lie in the same set. */
  lemma {:induction false} WalkSame(parent: seq<int>, rank: seq<int>, es: seq<Edge>, p: seq<int>)
    requires Forest(parent, rank) && Inside(parent, rank, es) && Walk(es, p) && 0 <= p[0] < |parent|
    ensures 0 <= p[|p| - 1] < |parent| && Same(parent, rank, p[0], p[|p| - 1])
    decreases |p|
  {
    if |p| > 1 {
      var q := p[..|p| - 1];
      assert Walk(es, q) by {
        forall i | 0 <= i < |q| - 1 ensures Hop(es, q, i) {
          assert Hop(es, p, i);
        }
      }
      WalkSame(parent, rank, es, q);
      assert Hop(es, p, |p| - 2);
      var k :| 0 <= k < |es| && Joins(es[k], p[|p| - 2], p[|p| - 1]);
    }
  }

  /** Vertices in different sets are not connected by the edges inside the sets. */
  lemma Apart(parent: seq<int>, rank: seq<int>, es: seq<Edge>, a: nat, b: nat)
    requires Forest(parent, rank) && Inside(parent, rank, es) && a < |parent| && b < |parent|
    requires !Same(parent, rank, a, b)
    ensures !Connected(es, a, b)
  {
    if Connected(es, a, b) {
      var p :| Walk(es, p) && p[0] == a && p[|p| - 1] == b;
      WalkSame(parent, rank, es, p);
    }
  }

  /** Every edge has both ends among the V vertices. */
  ghost predicate Ends(es: seq<Edge>, V: int) {
    forall k :: 0 <= k < |es| ==> 0 <= es[k].u < V && 0 <= es[k].v < V
  }

  /** `acc` is the subsequence of `sorted[..i]` at the increasing positions `taken`. */
  ghost predicate Picks(sorted: seq<Edge>, i: nat, acc: seq<Edge>, taken: seq<nat>) {
    i <= |sorted| && |taken| == |acc| &&
    (forall k :: 0 <= k < |taken| ==> Pick(sorted, acc, taken, k)) &&
    (forall k, m :: 0 <= k < m < |taken| ==> Before(taken, k, m)) &&
    (|taken| > 0 ==> taken[|taken| - 1] < i)
  }

  /** Entry k of `acc` is the edge at position taken[k] of `sorted`. */
  ghost predicate Pick(sorted: seq<Edge>, acc: seq<Edge>, taken: seq<nat>, k: nat)
    requires k < |taken| == |acc|
  {
    taken[k] < |sorted| && acc[k] == sorted[taken[k]]
  }

  /** Every position in `taken` is below i. */
  lemma PicksBelow(sorted: seq<Edge>, i: nat, acc: seq<Edge>, taken: seq<nat>, k: nat)
    requires Picks(sorted, i, acc, taken) && k < |taken|
    ensures taken[k] < i
  {
    if k < |taken| - 1 {
      assert Before(taken, k, |taken| - 1);
    }
  }

  /** Position k of `taken` comes before position m in the sorted list. */
  ghost predicate Before(taken: seq<nat>, k: nat, m: nat)
    requires k < m < |taken|
  {
    taken[k] < taken[m]
  }

  /** A forest: no accepted edge joins two vertices the earlier accepted edges already connect. */
  ghost predicate Acyclic(acc: seq<Edge>) {
    forall k :: 0 <= k < |acc| ==> Fresh(acc, k)
  }

  /** Edge k of `acc` joins two vertices that edges 0..k-1 do not connect. */
  ghost predicate Fresh(acc: seq<Edge>, k: nat)
    requires k < |acc|
  {
    !Connected(acc[..k], acc[k].u, acc[k].v)
  }

  /** Every examined edge that was not accepted joins two vertices the accepted edges connect. */
  ghost predicate Rejected(sorted: seq<Edge>, i: nat, acc: seq<Edge>, taken: seq<nat>)
    requires i <= |sorted|
  {
    forall j :: 0 <= j < i && j !in taken ==> Spanned(sorted, j, acc)
  }

  /** The ends of edge j of `sorted` are connected by `acc`. */
  ghost predicate Spanned(sorted: seq<Edge>, j: nat, acc: seq<Edge>)
    requires j < |sorted|
  {
    Connected(acc, sorted[j].u, sorted[j].v)
  }

  /** Two vertices in one set of the union-find are connected by the accepted edges. */
  ghost predicate Spans(parent: seq<int>, rank: seq<int>, acc: seq<Edge>)
    requires Forest(parent, rank)
  {
    forall a: nat, b: nat :: a < |parent| && b < |parent| && Same(parent, rank, a, b) ==> Connected(acc, a, b)
  }

  /** The state of the scan after examining `sorted[..i]`. */
  ghost predicate Progress(sorted: seq<Edge>, i: nat, acc: seq<Edge>, taken: seq<nat>, parent: seq<int>, rank: seq<int>) {
    Forest(parent, rank) && Ends(sorted, |parent|) &&
    (forall z :: 0 <= z < |rank| ==> rank[z] <= |acc|) &&
    Picks(sorted, i, acc, taken) && Inside(parent, rank, acc) && Spans(parent, rank, acc) &&
    Acyclic(acc) && Rejected(sorted, i, acc, taken)
  }

  lemma Start(sorted: seq<Edge>, parent: seq<int>, rank: seq<int>)
    requires Ends(sorted, |parent|) && |rank| == |parent|
    requires forall z :: 0 <= z < |parent| ==> parent[z] == z && rank[z] == 0
    ensures Progress(sorted, 0, [], [], parent, rank)
  {
    assert Forest(parent, rank);
    forall a: nat, b: nat | a < |parent| && b < |parent| && Same(parent, rank, a, b)
      ensures Connected([], a, b)
    {
      ConnectedSelf([], a);
    }
  }

  /** Path compression by `find` changes no root, so the state of the scan is kept. */
  lemma Compressed(sorted: seq<Edge>, i: nat, acc: seq<Edge>, taken: seq<nat>, p0: seq<int>, p1: seq<int>, rank: seq<int>)
    requires Progress(sorted, i, acc, taken, p0, rank) && Forest(p1, rank) && |p1| == |p0|
    requires forall z :: 0 <= z < |p1| ==> Root(p1, rank, z) == Root(p0, rank, z)
    ensures Progress(sorted, i, acc, taken, p1, rank)
  {
  }

  /** An edge whose ends `find` puts in one set is skipped. */
  lemma Reject(sorted: seq<Edge>, i: nat, acc: seq<Edge>, taken: seq<nat>, parent: seq<int>, rank: seq<int>)
    requires Progress(sorted, i, acc, taken, parent, rank) && i < |sorted|
    requires Root(parent, rank, sorted[i].u) == Root(parent, rank, sorted[i].v)
    ensures Progress(sorted, i + 1, acc, taken, parent, rank)
  {
    assert Spanned(sorted, i, acc);
  }

  /** After the merge, two vertices in one set are connected by the accepted edges and the new one. */
  lemma AcceptSpans(acc: seq<Edge>, e: Edge, p0: seq<int>, r0: seq<int>, p2: seq<int>, r2: seq<int>, x: nat, y: nat)
    requires Forest(p0, r0) && Forest(p2, r2) && |p2| == |p0| && Spans(p0, r0, acc)
    requires 0 <= e.u < |p0| && 0 <= e.v < |p0| && x == Root(p0, r0, e.u) && y == Root(p0, r0, e.v)
    requires Merged(p0, r0, p2, r2, x, y)
    ensures Spans(p2, r2, acc + [e])
  {
    var acc2 := acc + [e];
    assert Root(p0, r0, x) == x && Root(p0, r0, y) == y;
    ConnectedEdge(acc, e, e.u, e.v);
    forall a: nat, b: nat | a < |p2| && b < |p2| && Same(p2, r2, a, b) ensures Connected(acc2, a, b) {
      UnionSets(p0, r0, p2, r2, x, y, a, b);
      if Same(p0, r0, a, b) {
        ConnectedGrow(acc, e, a, b);
      } else if Same(p0, r0, a, x) && Same(p0, r0, b, y) {
        assert Same(p0, r0, a, e.u) && Same(p0, r0, b, e.v);
        ConnectedGrow(acc, e, a, e.u);
        ConnectedGrow(acc, e, b, e.v);
        ConnectedSymmetric(acc2, b, e.v);
        ConnectedTrans(acc2, a, e.u, e.v);
        ConnectedTrans(acc2, a, e.v, b);
      } else {
        assert Same(p0, r0, a, e.v) && Same(p0, r0, b, e.u);
        ConnectedGrow(acc, e, a, e.v);
        ConnectedGrow(acc, e, b, e.u);
        ConnectedSymmetric(acc2, e.u, e.v);
        ConnectedSymmetric(acc2, b, e.u);
        ConnectedTrans(acc2, a, e.v, e.u);
        ConnectedTrans(acc2, a, e.u, b);
      }
    }
  }

  /** After the merge every accepted edge, the new one included, lies inside one set. */
  lemma AcceptInside(acc: seq<Edge>, e: Edge, p0: seq<int>, r0: seq<int>, p2: seq<int>, r2: seq<int>, x: nat, y: nat)
    requires Forest(p0, r0) && Forest(p2, r2) && |p2| == |p0| && Inside(p0, r0, acc)
    requires 0 <= e.u < |p0| && 0 <= e.v < |p0| && x == Root(p0, r0, e.u) && y == Root(p0, r0, e.v)
    requires Merged(p0, r0, p2, r2, x, y)
    ensures Inside(p2, r2, acc + [e])
  {
    assert Root(p0, r0, x) == x && Root(p0, r0, y) == y;
    forall k | 0 <= k < |acc + [e]|
      ensures Same(p2, r2, (acc + [e])[k].u, (acc + [e])[k].v)
    {
      var d := (acc + [e])[k];
      UnionSets(p0, r0, p2, r2, x, y, d.u, d.v);
      if k == |acc| {
        assert Same(p0, r0, d.u, x) && Same(p0, r0, d.v, y);
      } else {
        assert d == acc[k];
      }
    }
  }

  lemma GrowAcyclic(acc: seq<Edge>, e: Edge)
    requires Acyclic(acc) && !Connected(acc, e.u, e.v)
    ensures Acyclic(acc + [e])
  {
    var acc2 := acc + [e];
    forall k | 0 <= k < |acc2| ensures Fresh(acc2, k) {
      if k < |acc| {
        assert Fresh(acc, k) && acc2[..k] == acc[..k] && acc2[k] == acc[k];
      } else {
        assert acc2[..k] == acc;
      }
    }
  }

  lemma GrowRejected(sorted: seq<Edge>, i: nat, acc: seq<Edge>, taken: seq<nat>, e: Edge)
    requires i < |sorted| && Rejected(sorted, i, acc, taken)
    ensures Rejected(sorted, i + 1, acc + [e], taken + [i])
  {
    forall j | 0 <= j < i + 1 && j !in taken + [i] ensures Spanned(sorted, j, acc + [e]) {
      assert j < i && j !in taken && Spanned(sorted, j, acc);
      ConnectedGrow(acc, e, sorted[j].u, sorted[j].v);
    }
  }

  lemma GrowPicks(sorted: seq<Edge>, i: nat, acc: seq<Edge>, taken: seq<nat>)
    requires i < |sorted| && Picks(sorted, i, acc, taken)
    ensures Picks(sorted, i + 1, acc + [sorted[i]], taken + [i])
  {
    var t := taken + [i];
    forall k | 0 <= k < |t| ensures Pick(sorted, acc + [sorted[i]], t, k) {
      if k < |taken| {
        assert Pick(sorted, acc, taken, k);
      }
    }
    forall k, m | 0 <= k < m < |t| ensures Before(t, k, m) {
      if m < |taken| {
        assert Before(taken, k, m);
      } else {
        PicksBelow(sorted, i, acc, taken, k);
      }
    }
  }

  /** An edge whose ends lie in different sets is accepted, and the sets are merged. */
  lemma Accept(sorted: seq<Edge>, i: nat, acc: seq<Edge>, taken: seq<nat>,
               p0: seq<int>, r0: seq<int>, p2: seq<int>, r2: seq<int>, x: nat, y: nat)
    requires Progress(sorted, i, acc, taken, p0, r0) && i < |sorted|
    requires x == Root(p0, r0, sorted[i].u) && y == Root(p0, r0, sorted[i].v) && x != y
    requires Forest(p2, r2) && |p2| == |p0| && |r2| == |r0| && Merged(p0, r0, p2, r2, x, y)
    requires forall z :: 0 <= z < |r0| ==> r2[z] <= r0[z] + 1
    ensures Progress(sorted, i + 1, acc + [sorted[i]], taken + [i], p2, r2)
  {
    var e := sorted[i];
    AcceptInside(acc, e, p0, r0, p2, r2, x, y);
    AcceptSpans(acc, e, p0, r0, p2, r2, x, y);
    Apart(p0, r0, acc, e.u, e.v);
    GrowAcyclic(acc, e);
    GrowRejected(sorted, i, acc, taken, e);
    GrowPicks(sorted, i, acc, taken);
  }

  /** Every examined edge, accepted or not, joins two vertices the accepted edges connect. */
  lemma EveryEdgeSpanned(sorted: seq<Edge>, i: nat, acc: seq<Edge>, taken: seq<nat>, j: nat)
    requires Picks(sorted, i, acc, taken) && Rejected(sorted, i, acc, taken) && j < i
    ensures Connected(acc, sorted[j].u, sorted[j].v)
  {
    if j in taken {
      var k :| 0 <= k < |taken| && taken[k] == j;
      assert Pick(sorted, acc, taken, k);
      assert Joins(acc[k], sorted[j].u, sorted[j].v);
      assert Walk(acc, [sorted[j].u, sorted[j].v]);
    } else {
      assert Spanned(sorted, j, acc);
    }
  }

  function Weight(es: seq<Edge>): int {
    if |es| == 0 then 0 else Weight(es[..|es| - 1]) + es[|es| - 1].w
  }

  /** `find` of both ends of edge i: the roots of its two sets, with the state of the scan kept. */
  method Locate(next: Edge, parent: array<int>, ghost rank: seq<int>,
                ghost sorted: seq<Edge>, ghost i: nat, ghost acc: seq<Edge>, ghost taken: seq<nat>)
      returns (x: nat, y: nat)
    requires i < |sorted| && next == sorted[i] && |rank| == parent.Length
    requires Progress(sorted, i, acc, taken, parent[..], rank)
    modifies parent
    ensures Progress(sorted, i, acc, taken, parent[..], rank)
    ensures x == Root(parent[..], rank, next.u) && y == Root(parent[..], rank, next.v)
  {
    ghost var p0 := parent[..];
    x := Find(parent, next.u, rank);
    ghost var p1 := parent[..];
    y := Find(parent, next.v, rank);
    assert x == Root(p1, rank, next.u);
    Compressed(sorted, i, acc, taken, p0, parent[..], rank);
  }

  /** The accepting branch: `result[e++] = next` and `uni` of the two roots. */
  method Take(next: Edge, parent: array<int>, rank: array<int>, res: array<Edge>, e: nat, x: nat, y: nat,
              ghost sorted: seq<Edge>, ghost i: nat, ghost taken: seq<nat>)
    requires parent != rank && parent.Length == rank.Length == res.Length + 1 && e < res.Length
    requires i < |sorted| && next == sorted[i]
    requires Progress(sorted, i, res[..e], taken, parent[..], rank[..])
    requires x == Root(parent[..], rank[..], next.u) && y == Root(parent[..], rank[..], next.v) && x != y
    modifies parent, rank, res
    ensures Progress(sorted, i + 1, res[..e + 1], taken + [i], parent[..], rank[..])
  {
    ghost var p1, r1, acc := parent[..], rank[..], res[..e];
    assert forall z :: 0 <= z < rank.Length ==> rank[z] + 1 < rank.Length;
    res[e] := next;
    assert res[..e + 1] == acc + [next];
    Union(parent, rank, x, y);
    Accept(sorted, i, acc, taken, p1, r1, parent[..], rank[..], x, y);
  }

  /** One turn of the loop: `find` both ends of edge i; accept it and `uni` the roots when they differ. */
  method Examine(next: Edge, parent: array<int>, rank: array<int>, res: array<Edge>, e: nat,
                 ghost sorted: seq<Edge>, ghost i: nat, ghost taken: seq<nat>)
      returns (e2: nat, ghost taken2: seq<nat>)
    requires parent != rank && parent.Length == rank.Length == res.Length + 1 && e < res.Length
    requires i < |sorted| && next == sorted[i]
    requires Progress(sorted, i, res[..e], taken, parent[..], rank[..])
    modifies parent, rank, res
    ensures e2 == e || e2 == e + 1
    ensures Progress(sorted, i + 1, res[..e2], taken2, parent[..], rank[..])
  {
    var x, y := Locate(next, parent, rank[..], sorted, i, res[..e], taken);
    if x != y {
      Take(next, parent, rank, res, e, x, y, sorted, i, taken);
      e2, taken2 := e + 1, taken + [i];
    } else {
      Reject(sorted, i, res[..e], taken, parent[..], rank[..]);
      e2, taken2 := e, taken;
    }
  }

  /** `parent[v] = v` for every vertex, `rank` zeroed by `calloc`, and room for V-1 result edges. */
  method Init(n: nat, ghost sorted: seq<Edge>) returns (parent: array<int>, rank: array<int>, res: array<Edge>)
    requires Ends(sorted, n)
    ensures fresh(parent) && fresh(rank) && fresh(res) && parent != rank
    ensures parent.Length == rank.Length == n && res.Length == if n >= 1 then n - 1 else 0
    ensures Progress(sorted, 0, res[..0], [], parent[..], rank[..])
  {
    parent := new int[n](z => z);
    rank := new int[n](z => 0);
    res := new Edge[if n >= 1 then n - 1 else 0](_ => Edge(0, 0, 0));
    assert res[..0] == [];
    Start(sorted, parent[..], rank[..]);
  }

  lemma Finish(sorted: seq<Edge>, i: nat, acc: seq<Edge>, taken: seq<nat>, parent: seq<int>, rank: seq<int>)
    requires Progress(sorted, i, acc, taken, parent, rank)
    ensures Picks(sorted, i, acc, taken) && Acyclic(acc) && Rejected(sorted, i, acc, taken)
  {
  }

  /** `while (e < V-1 && i < E)`: examine the edges in sorted order. */
  method Loop(edges: array<Edge>, V: int, parent: array<int>, rank: array<int>, res: array<Edge>, ghost sorted: seq<Edge>)
      returns (e: nat, i: nat, ghost taken: seq<nat>)
    requires parent != rank && res != edges && edges[..] == sorted && (V >= 1 || edges.Length == 0)
    requires parent.Length == rank.Length == (if V < 0 then 0 else V) && res.Length == (if V >= 1 then V - 1 else 0)
    requires Progress(sorted, 0, res[..0], [], parent[..], rank[..])
    modifies parent, rank, res
    ensures e <= res.Length && i <= edges.Length && (e == V - 1 || i == edges.Length)
    ensures Progress(sorted, i, res[..e], taken, parent[..], rank[..])
  {
    e, i := 0, 0;
    taken := [];
    while e < V - 1 && i < edges.Length
      invariant e <= res.Length && i <= edges.Length && edges[..] == sorted
      invariant Progress(sorted, i, res[..e], taken, parent[..], rank[..])
      decreases edges.Length - i
    {
      e, taken := Examine(edges[i], parent, rank, res, e, sorted, i, taken);
      i := i + 1;
    }
  }

  /**
   * The loop of `kruskal` over the sorted edges: `parent` starts as the identity and `rank`
   * at zero; the scan stops after V-1 accepted edges or when the edges run out.
   */
  method Scan(edges: array<Edge>, V: int) returns (result: seq<Edge>, ghost examined: nat, ghost taken: seq<nat>)
    requires Ends(edges[..], V)
    ensures examined <= edges.Length
    ensures V >= 1 ==> |result| <= V - 1
    ensures V < 1 ==> result == []
    ensures examined == edges.Length || |result| == V - 1
    ensures Picks(edges[..], examined, result, taken)
    ensures Acyclic(result)
    ensures Rejected(edges[..], examined, result, taken)
  {
    ghost var sorted := edges[..];
    var n := if V < 0 then 0 else V;
    var parent, rank, res := Init(n, sorted);
    assert V >= 1 || edges.Length == 0 by {
      if edges.Length > 0 {
        assert 0 <= sorted[0].u < V;
      }
    }
    var e, i;
    e, i, taken := Loop(edges, V, parent, rank, res, sorted);
    examined := i;
    result := res[..e];
    Finish(sorted, i, result, taken, parent[..], rank[..]);
  }

  /**
   * `kruskal(edges, E, V)`: the edges are sorted in place by weight, the scan picks a forest
   * from them greedily, and the total is the sum of the picked weights.
   */
  method Mst(edges: array<Edge>, V: int) returns (result: seq<Edge>, total: int, ghost examined: nat, ghost taken: seq<nat>)
    requires Ends(edges[..], V)
    modifies edges
    ensures SortedBy(edges[..], Heavier) && multiset(edges[..]) == multiset(old(edges[..]))
    ensures examined <= edges.Length && (examined == edges.Length || |result| == V - 1)
    ensures V >= 1 ==> |result| <= V - 1
    ensures Picks(edges[..], examined, result, taken) && Acyclic(result)
    ensures forall j :: 0 <= j < examined ==> Connected(result, edges[j].u, edges[j].v)
    ensures total == Weight(result)
  {
    HeavierIsStrict();
    ghost var before := multiset(edges[..]);
    ExchangeSort(edges, Heavier);
    assert forall k :: 0 <= k < edges.Length ==> edges[k] in multiset(edges[..]);
    result, examined, taken := Scan(edges, V);
    forall j | 0 <= j < examined ensures Connected(result, edges[j].u, edges[j].v) {
      EveryEdgeSpanned(edges[..], examined, result, taken, j);
    }
    total := 0;
    for k := 0 to |result|
      invariant total == Weight(result[..k])
    {
      assert result[..k + 1][..k] == result[..k];
      total := total + result[k].w;
    }
    assert result[..|result|] == result;
  }
}
