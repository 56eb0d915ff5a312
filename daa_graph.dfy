/**
 * music/DAA/all.c, sections "bfs" and "dfs.c": the adjacency-list graph both sections
 * build with `createGraph` and `addEdge`. Each list is kept head first, so the linked
 * `Node` chain of vertex u becomes the sequence adj[u]; `addEdge` prepends.
 */
module Adjacency {

  import opened Counting

  /** Every neighbour is a vertex of the graph. */
  ghost predicate InRange(adj: seq<seq<nat>>) {
    forall x, w :: 0 <= x < |adj| && w in adj[x] ==> w < |adj|
  }

  /** w is on x's list. */
  predicate Listed(adj: seq<seq<nat>>, x: nat, w: nat) {
    x < |adj| && w in adj[x]
  }

  /** Every edge is listed at both of its ends. */
  ghost predicate Undirected(adj: seq<seq<nat>>) {
    forall x: nat, w: nat :: Listed(adj, x, w) ==> Listed(adj, w, x)
  }

  /** `addEdge(g, u, v)`: v is pushed on u's list, then u on v's list. */
  function WithEdge(adj: seq<seq<nat>>, u: nat, v: nat): (r: seq<seq<nat>>)
    requires u < |adj| && v < |adj|
    ensures |r| == |adj|
  {
    var a1 := adj[u := [v] + adj[u]];
    a1[v := [u] + a1[v]]
  }

  /**
   * The new edge is listed at both ends, in front; no other list changes, and the
   * edges already there stay.
   */
  lemma WithEdgeLists(adj: seq<seq<nat>>, u: nat, v: nat)
    requires u < |adj| && v < |adj|
    ensures WithEdge(adj, u, v)[v][0] == u && WithEdge(adj, u, v)[u][0] == (if u == v then u else v)
    ensures u != v ==> WithEdge(adj, u, v)[u] == [v] + adj[u] && WithEdge(adj, u, v)[v] == [u] + adj[v]
    ensures u == v ==> WithEdge(adj, u, v)[u] == [u, u] + adj[u]
    ensures forall x :: 0 <= x < |adj| && x != u && x != v ==> WithEdge(adj, u, v)[x] == adj[x]
  {
  }

  /** The lists gain exactly the new edge: v at u and u at v. */
  lemma WithEdgeEntries(adj: seq<seq<nat>>, u: nat, v: nat, x: nat, w: nat)
    requires u < |adj| && v < |adj| && x < |adj|
    ensures w in WithEdge(adj, u, v)[x] <==> w in adj[x] || (x == u && w == v) || (x == v && w == u)
  {
    WithEdgeLists(adj, u, v);
  }

  /** Adding an edge keeps the graph undirected. */
  lemma WithEdgeUndirected(adj: seq<seq<nat>>, u: nat, v: nat)
    requires u < |adj| && v < |adj| && Undirected(adj)
    ensures Undirected(WithEdge(adj, u, v))
  {
    var r := WithEdge(adj, u, v);
    forall x: nat, w: nat | Listed(r, x, w) ensures Listed(r, w, x) {
      WithEdgeEntries(adj, u, v, x, w);
      if w in adj[x] {
        assert Listed(adj, x, w);
      }
      WithEdgeEntries(adj, u, v, w, x);
    }
  }

  /** `createGraph(V)` followed by `addEdge` calls, as a graph object updated in place. */
  class Graph {
    const V: nat
    const adj: array<seq<nat>>

    /** `createGraph(V)`: V empty lists. */
    constructor (n: nat)
      ensures V == n && adj.Length == n && fresh(adj)
      ensures adj[..] == seq(n, _ => [])
    {
      V := n;
      adj := new seq<nat>[n](_ => []);
    }

    /** `addEdge(g, u, v)`. */
    method AddEdge(u: nat, v: nat)
      requires adj.Length == V && u < V && v < V
      modifies adj
      ensures adj[..] == WithEdge(old(adj[..]), u, v)
    {
      adj[u] := [v] + adj[u];
      adj[v] := [u] + adj[v];
    }
  }

  /** `p` walks along listed edges. */
  ghost predicate IsPath(adj: seq<seq<nat>>, p: seq<nat>) {
    forall i :: 0 <= i < |p| - 1 ==> p[i] < |adj| && p[i + 1] in adj[p[i]]
  }

  /** x can be reached from s by following listed edges. */
  ghost predicate Reachable(adj: seq<seq<nat>>, s: nat, x: nat) {
    exists p :: |p| > 0 && p[0] == s && p[|p| - 1] == x && IsPath(adj, p)
  }

  lemma ReachSelf(adj: seq<seq<nat>>, s: nat)
    ensures Reachable(adj, s, s)
  {
    assert IsPath(adj, [s]);
  }

  /** A listed edge extends a walk at its end. */
  lemma ReachExtend(adj: seq<seq<nat>>, s: nat, y: nat, w: nat)
    requires Reachable(adj, s, y) && y < |adj| && w in adj[y]
    ensures Reachable(adj, s, w)
  {
    var p :| |p| > 0 && p[0] == s && p[|p| - 1] == y && IsPath(adj, p);
    var p2 := p + [w];
    assert IsPath(adj, p2) by {
      forall i | 0 <= i < |p2| - 1 ensures p2[i] < |adj| && p2[i + 1] in adj[p2[i]] {
        if i < |p| - 1 { assert p2[i] == p[i] && p2[i + 1] == p[i + 1]; }
      }
    }
  }

  /** A listed edge extends a walk at its start. */
  lemma ReachPrepend(adj: seq<seq<nat>>, u: nat, v: nat, x: nat)
    requires u < |adj| && v in adj[u] && Reachable(adj, v, x)
    ensures Reachable(adj, u, x)
  {
    var p :| |p| > 0 && p[0] == v && p[|p| - 1] == x && IsPath(adj, p);
    var p2 := [u] + p;
    assert IsPath(adj, p2) by {
      forall i | 0 <= i < |p2| - 1 ensures p2[i] < |adj| && p2[i + 1] in adj[p2[i]] {
        if i > 0 { assert p2[i] == p[i - 1] && p2[i + 1] == p[i]; }
      }
    }
  }

  /** A vertex set that holds s and every neighbour of its members holds everything reachable from s. */
  lemma ClosedHoldsReachable(adj: seq<seq<nat>>, S: set<nat>, s: nat, x: nat)
    requires s in S
    requires forall y, w :: y in S && y < |adj| && w in adj[y] ==> w in S
    requires Reachable(adj, s, x)
    ensures x in S
  {
    var p :| |p| > 0 && p[0] == s && p[|p| - 1] == x && IsPath(adj, p);
    WalkInside(adj, S, p, |p| - 1);
  }

  lemma {:induction false} WalkInside(adj: seq<seq<nat>>, S: set<nat>, p: seq<nat>, i: nat)
    requires |p| > 0 && p[0] in S && IsPath(adj, p) && i < |p|
    requires forall y, w :: y in S && y < |adj| && w in adj[y] ==> w in S
    ensures p[i] in S
  {
    if i > 0 {
      WalkInside(adj, S, p, i - 1);
      assert p[i - 1] < |adj| && p[i] in adj[p[i - 1]];
    }
  }
}
