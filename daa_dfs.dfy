/**
 * music/DAA/all.c, section "dfs": recursive depth-first search. `dfsUtil` marks and
 * prints `u`, then recurses into every neighbour on `u`'s list that is still unvisited.
 * The printed vertices are returned as a sequence.
 */
module Dfs {

  import opened Adjacency
  import opened Counting

  /** The number of unvisited entries: it drops with every call, so the recursion ends. */
  function Zeros(v: seq<int>): nat {
    if |v| == 0 then 0 else Zeros(v[..|v| - 1]) + (if v[|v| - 1] == 0 then 1 else 0)
  }

  /** Marking never unmarks, so there are no more zeros after it; one new mark means strictly fewer. */
  lemma {:induction false} ZerosShrink(a: seq<int>, b: seq<int>, u: nat)
    requires |a| == |b| && forall i :: 0 <= i < |b| && b[i] == 0 ==> a[i] == 0
    ensures Zeros(b) <= Zeros(a)
    ensures u < |a| && a[u] == 0 && b[u] != 0 ==> Zeros(b) < Zeros(a)
  {
    if |a| > 0 {
      var m := |a| - 1;
      ZerosShrink(a[..m], b[..m], u);
    }
  }

  /**
   * Between `v0` and `v1` exactly the vertices of `out` were newly marked: each was
   * unmarked in `v0`, is listed once, and now holds 1; every other entry is unchanged.
   */
  ghost predicate Marked(v0: seq<int>, v1: seq<int>, out: seq<nat>) {
    |v0| == |v1| && Distinct(out) &&
    (forall i :: 0 <= i < |out| ==> out[i] < |v0| && v0[out[i]] == 0) &&
    (forall x :: 0 <= x < |v1| ==> v1[x] == if x in out then 1 else v0[x])
  }

  /** Every neighbour of a vertex of `xs` is marked in `v`. */
  ghost predicate Covered(adj: seq<seq<nat>>, v: seq<int>, xs: seq<nat>) {
    forall i, w: nat {:trigger Listed(adj, xs[i], w)} :: 0 <= i < |xs| && Listed(adj, xs[i], w) ==> w < |v| && v[w] != 0
  }

  /** Every vertex of `ws` is marked in `v`. */
  ghost predicate Seen(v: seq<int>, ws: seq<nat>) {
    forall j :: 0 <= j < |ws| ==> ws[j] < |v| && v[ws[j]] != 0
  }

  /** Everything reachable from the vertices of `xs`, starting at `u`, is reachable from `u`. */
  ghost predicate AllReachable(adj: seq<seq<nat>>, u: nat, xs: seq<nat>) {
    forall i :: 0 <= i < |xs| ==> Reachable(adj, u, xs[i])
  }

  lemma MarkedJoin(v0: seq<int>, v1: seq<int>, v2: seq<int>, o1: seq<nat>, o2: seq<nat>)
    requires Marked(v0, v1, o1) && Marked(v1, v2, o2)
    ensures Marked(v0, v2, o1 + o2)
  {
    var o := o1 + o2;
    forall i | 0 <= i < |o2| ensures o2[i] !in o1 && v0[o2[i]] == 0 {
      assert o2[i] < |v1| && v1[o2[i]] == 0;
    }
    forall i, j | 0 <= i < j < |o| ensures o[i] != o[j] {
      if j >= |o1| && i < |o1| {
        assert o2[j - |o1|] !in o1;
      }
    }
    forall i | 0 <= i < |o| ensures o[i] < |v0| && v0[o[i]] == 0 {
      if i >= |o1| {
        assert o[i] == o2[i - |o1|];
      }
    }
  }

  lemma SeenGrow(v1: seq<int>, v2: seq<int>, ws: seq<nat>, b: seq<nat>)
    requires Seen(v1, ws) && Marked(v1, v2, b)
    ensures Seen(v2, ws)
  {
    forall j | 0 <= j < |ws| ensures ws[j] < |v2| && v2[ws[j]] != 0 {
      assert ws[j] < |v1| && v1[ws[j]] != 0;
    }
  }

  lemma CoveredJoin(adj: seq<seq<nat>>, v1: seq<int>, v2: seq<int>, a: seq<nat>, b: seq<nat>)
    requires Covered(adj, v1, a) && Covered(adj, v2, b) && Marked(v1, v2, b)
    ensures Covered(adj, v2, a + b)
  {
    forall i, w: nat | 0 <= i < |a + b| && Listed(adj, (a + b)[i], w) ensures w < |v2| && v2[w] != 0 {
      if i < |a| {
        assert Listed(adj, a[i], w);
        assert w < |v1| && v1[w] != 0;
      } else {
        assert Listed(adj, b[i - |a|], w);
      }
    }
  }

  /** The loop step after the recursive call on the unvisited neighbour `w` of `u`. */
  lemma Joined(adj: seq<seq<nat>>, u: nat, w: nat, v0: seq<int>, v1: seq<int>, v2: seq<int>,
               out: seq<nat>, more: seq<nat>, done: seq<nat>)
    requires u < |adj| && w in adj[u] && |out| > 0 && out[0] == u && |more| > 0 && more[0] == w
    requires Marked(v0, v1, out) && Covered(adj, v1, out[1..]) && Seen(v1, done) && AllReachable(adj, u, out)
    requires Marked(v1, v2, more) && Covered(adj, v2, more) && AllReachable(adj, w, more)
    ensures Marked(v0, v2, out + more) && Covered(adj, v2, (out + more)[1..])
    ensures Seen(v2, done + [w]) && AllReachable(adj, u, out + more)
  {
    MarkedJoin(v0, v1, v2, out, more);
    CoveredJoin(adj, v1, v2, out[1..], more);
    assert (out + more)[1..] == out[1..] + more;
    SeenGrow(v1, v2, done, more);
    assert w < |v2| && v2[w] == 1;
    forall i | 0 <= i < |out + more| ensures Reachable(adj, u, (out + more)[i]) {
      if i >= |out| {
        ReachPrepend(adj, u, w, more[i - |out|]);
      }
    }
  }

  /**
   * `dfsUtil(g, u, visited)` on an unvisited `u`: the printed vertices start with `u`, are
   * reachable from it and are exactly the ones it newly marks; afterwards every neighbour
   * of a printed vertex is marked.
   */
  method Visit(g: Graph, u: nat, visited: array<int>, ghost adj: seq<seq<nat>>) returns (out: seq<nat>)
    requires adj == g.adj[..] && InRange(adj) && visited.Length == |adj| && u < |adj| && visited[u] == 0
    modifies visited
    ensures |out| > 0 && out[0] == u
    ensures Marked(old(visited[..]), visited[..], out)
    ensures Covered(adj, visited[..], out)
    ensures AllReachable(adj, u, out)
    decreases Zeros(visited[..])
  {
    ghost var v0 := visited[..];
    visited[u] := 1;
    out := [u];
    ReachSelf(adj, u);
    var nbrs := g.adj[u];
    for k := 0 to |nbrs|
      invariant |out| > 0 && out[0] == u && visited[u] == 1
      invariant Marked(v0, visited[..], out) && Covered(adj, visited[..], out[1..])
      invariant Seen(visited[..], nbrs[..k]) && AllReachable(adj, u, out)
    {
      var w := nbrs[k];
      assert w in adj[u];
      assert nbrs[..k + 1] == nbrs[..k] + [w];
      if visited[w] == 0 {
        ghost var v1 := visited[..];
        ZerosShrink(v0, v1, u);
        var more := Visit(g, w, visited, adj);
        Joined(adj, u, w, v0, v1, visited[..], out, more, nbrs[..k]);
        out := out + more;
      }
    }
    assert nbrs[..|nbrs|] == nbrs;
    Finish(adj, visited[..], out, nbrs);
  }

  lemma Finish(adj: seq<seq<nat>>, v: seq<int>, out: seq<nat>, nbrs: seq<nat>)
    requires |out| > 0 && out[0] < |adj| && nbrs == adj[out[0]]
    requires Covered(adj, v, out[1..]) && Seen(v, nbrs)
    ensures Covered(adj, v, out)
  {
    forall i, w: nat | 0 <= i < |out| && Listed(adj, out[i], w) ensures w < |v| && v[w] != 0 {
      if i > 0 {
        assert out[1..][i - 1] == out[i];
        assert Listed(adj, out[1..][i - 1], w);
      } else {
        var j :| 0 <= j < |nbrs| && nbrs[j] == w;
      }
    }
  }

  /**
   * `dfs(g, s)`: starting from a zeroed `visited`, the printed order starts at `s`, lists
   * no vertex twice and holds exactly the vertices reachable from `s`.
   */
  method Search(g: Graph, s: nat) returns (order: seq<nat>)
    requires g.adj.Length == g.V && s < g.V && InRange(g.adj[..])
    ensures |order| > 0 && order[0] == s
    ensures Distinct(order) && |order| <= g.V
    ensures forall x :: x in order <==> Reachable(g.adj[..], s, x)
  {
    ghost var adj := g.adj[..];
    var visited := new int[g.V](_ => 0);
    ghost var v0 := visited[..];
    order := Visit(g, s, visited, adj);
    Reached(adj, v0, visited[..], order, s);
  }

  lemma Reached(adj: seq<seq<nat>>, v0: seq<int>, v1: seq<int>, order: seq<nat>, s: nat)
    requires |order| > 0 && order[0] == s && Marked(v0, v1, order) && Covered(adj, v1, order)
    requires forall x :: 0 <= x < |v0| ==> v0[x] == 0
    requires AllReachable(adj, s, order)
    ensures |order| <= |v0|
    ensures forall x :: x in order <==> Reachable(adj, s, x)
  {
    Counting.DistinctBound(order, |v0|);
    var seen := set y | y in order;
    forall y, w | y in seen && y < |adj| && w in adj[y] ensures w in seen {
      var i :| 0 <= i < |order| && order[i] == y;
      assert Listed(adj, order[i], w);
    }
    forall x ensures x in order <==> Reachable(adj, s, x) {
      if Reachable(adj, s, x) {
        ClosedHoldsReachable(adj, seen, s, x);
      }
    }
  }
}
