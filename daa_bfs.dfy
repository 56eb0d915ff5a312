/**
 * music/DAA/all.c, section "bfs": breadth-first search with a `visited` array and an
 * array queue of capacity V read at `head` and written at `tail`. A vertex is marked
 * visited when it is enqueued, so it enters the queue at most once.
 */
module Bfs {

  import opened Adjacency
  import opened Counting

  /** `visited[x]` is set exactly for the vertices already enqueued. */
  ghost predicate Marks(visited: seq<int>, queued: seq<nat>) {
    forall x :: 0 <= x < |visited| ==> (visited[x] != 0 <==> x in queued)
  }

  /** Every neighbour of the first `head` queued vertices is queued. */
  ghost predicate Expanded(adj: seq<seq<nat>>, queued: seq<nat>, head: nat) {
    head <= |queued| &&
    forall i, w :: 0 <= i < head && queued[i] < |adj| && w in adj[queued[i]] ==> w in queued
  }

  /** Each queued vertex after the first was found on the list of an earlier one. */
  ghost predicate Tree(adj: seq<seq<nat>>, queued: seq<nat>, par: seq<nat>) {
    |par| == |queued| &&
    forall i :: 0 < i < |queued| ==> par[i] < i && queued[par[i]] < |adj| && queued[i] in adj[queued[par[i]]]
  }

  ghost predicate Vertices(queued: seq<nat>, n: nat) {
    forall i :: 0 <= i < |queued| ==> queued[i] < n
  }

  lemma {:induction false} TreeReach(adj: seq<seq<nat>>, queued: seq<nat>, par: seq<nat>, i: nat)
    requires Tree(adj, queued, par) && i < |queued|
    ensures Reachable(adj, queued[0], queued[i])
    decreases i
  {
    if i == 0 {
      ReachSelf(adj, queued[0]);
    } else {
      TreeReach(adj, queued, par, par[i]);
      ReachExtend(adj, queued[0], queued[par[i]], queued[i]);
    }
  }

  /** Enqueueing an unvisited neighbour w of the vertex at position h keeps every queue fact. */
  lemma Enqueue(adj: seq<seq<nat>>, queued: seq<nat>, par: seq<nat>, visited: seq<int>, h: nat, w: nat,
                queued2: seq<nat>, par2: seq<nat>, visited2: seq<int>)
    requires Tree(adj, queued, par) && Distinct(queued) && Marks(visited, queued) && Vertices(queued, |visited|)
    requires h < |queued| && queued[h] < |adj| && w in adj[queued[h]] && w < |visited| && visited[w] == 0
    requires queued2 == queued + [w] && par2 == par + [h] && visited2 == visited[w := 1]
    ensures Tree(adj, queued2, par2) && Distinct(queued2) && Marks(visited2, queued2) && Vertices(queued2, |visited|)
    ensures |queued2| <= |visited|
    ensures forall x :: x in queued ==> x in queued2
  {
    assert w !in queued;
    forall i | 0 < i < |queued2| ensures par2[i] < i && queued2[par2[i]] < |adj| && queued2[i] in adj[queued2[par2[i]]] {
      if i < |queued| {
        assert queued2[i] == queued[i] && queued2[par[i]] == queued[par[i]];
      }
    }
    Counting.DistinctBound(queued2, |visited|);
  }

  /** The queue state between steps: distinct vertices, marked exactly, each found from an earlier one. */
  ghost predicate Queue(adj: seq<seq<nat>>, visited: seq<int>, queued: seq<nat>, par: seq<nat>) {
    Distinct(queued) && Vertices(queued, |visited|) && Marks(visited, queued) && Tree(adj, queued, par)
  }

  /** Once the neighbours of the vertex at `head - 1` are queued, the first `head` vertices are expanded. */
  lemma ExpandedGrow(adj: seq<seq<nat>>, queued: seq<nat>, queued2: seq<nat>, head: nat)
    requires 0 < head <= |queued| <= |queued2| && forall i :: 0 <= i < |queued| ==> queued2[i] == queued[i]
    requires Expanded(adj, queued, head - 1) && queued[head - 1] < |adj|
    requires forall w :: w in adj[queued[head - 1]] ==> w in queued2
    ensures Expanded(adj, queued2, head)
  {
    forall i, w | 0 <= i < head && queued2[i] < |adj| && w in adj[queued2[i]] ensures w in queued2 {
      assert queued2[i] == queued[i];
      if i < head - 1 {
        assert queued[i] < |adj| && w in adj[queued[i]];
        assert w in queued;
        var k :| 0 <= k < |queued| && queued[k] == w;
        assert queued2[k] == w;
      }
    }
  }

  /** One enqueue: mark `w` visited and store it at `tail`. */
  method Push(visited: array<int>, q: array<nat>, tail: nat, w: nat)
    requires tail < q.Length && w < visited.Length
    modifies visited, q
    ensures visited[..] == old(visited[..])[w := 1]
    ensures q[..tail + 1] == old(q[..tail]) + [w]
  {
    visited[w] := 1;
    q[tail] := w;
  }

  /** The inner loop of `bfs`: enqueue and mark every unvisited vertex on the list `nbrs` of the vertex at `h`. */
  method Expand(nbrs: seq<nat>, visited: array<int>, q: array<nat>, tail0: nat, h: nat,
                ghost adj: seq<seq<nat>>, ghost par0: seq<nat>) returns (tail: nat, ghost par: seq<nat>)
    requires visited.Length == q.Length && h < tail0 <= q.Length
    requires q[h] < |adj| && nbrs == adj[q[h]] && forall w :: w in nbrs ==> w < visited.Length
    requires Queue(adj, visited[..], q[..tail0], par0)
    modifies visited, q
    ensures tail0 <= tail <= q.Length
    ensures forall i :: 0 <= i < tail0 ==> q[i] == old(q[i])
    ensures Queue(adj, visited[..], q[..tail], par)
    ensures forall w :: w in nbrs ==> w in q[..tail]
  {
    tail, par := tail0, par0;
    ghost var queued := q[..tail];
    ghost var queued0 := queued;
    for k := 0 to |nbrs|
      invariant tail0 <= tail <= q.Length && queued == q[..tail] && |queued| == tail
      invariant forall i :: 0 <= i < tail0 ==> queued[i] == queued0[i]
      invariant Queue(adj, visited[..], queued, par)
      invariant forall j :: 0 <= j < k ==> nbrs[j] in queued
    {
      var w := nbrs[k];
      assert w in nbrs;
      if visited[w] == 0 {
        Enqueue(adj, queued, par, visited[..], h, w, queued + [w], par + [h], visited[..][w := 1]);
        Push(visited, q, tail, w);
        tail := tail + 1;
        par := par + [h];
        queued := queued + [w];
      }
    }
  }

  /** The queue as `bfs` sets it up: only s enqueued and marked, nothing expanded yet. */
  lemma Start(adj: seq<seq<nat>>, visited: seq<int>, queued: seq<nat>, par: seq<nat>, s: nat)
    requires s < |visited| && forall x :: 0 <= x < |visited| ==> (visited[x] != 0 <==> x == s)
    requires queued == [s] && par == [0]
    ensures Queue(adj, visited, queued, par) && Expanded(adj, queued, 0)
  {
  }

  /** When the queue is exhausted, the dequeued vertices are exactly those reachable from the first. */
  lemma Exhausted(adj: seq<seq<nat>>, visited: seq<int>, order: seq<nat>, par: seq<nat>, s: nat)
    requires |order| > 0 && order[0] == s
    requires Queue(adj, visited, order, par) && Expanded(adj, order, |order|)
    ensures |order| <= |visited|
    ensures forall x :: x in order <==> Reachable(adj, s, x)
  {
    Counting.DistinctBound(order, |visited|);
    forall x ensures x in order <==> Reachable(adj, s, x) {
      if x in order {
        var i :| 0 <= i < |order| && order[i] == x;
        TreeReach(adj, order, par, i);
      }
      if Reachable(adj, s, x) {
        var seen := set y | y in order;
        ClosedHoldsReachable(adj, seen, s, x);
      }
    }
  }

  /**
   * `bfs(g, s)`: the printed order starts at s, lists no vertex twice (so the queue never
   * holds more than V entries) and holds exactly the vertices reachable from s.
   */
  method Search(g: Graph, s: nat) returns (order: seq<nat>)
    requires g.adj.Length == g.V && s < g.V && InRange(g.adj[..])
    ensures |order| > 0 && order[0] == s
    ensures Distinct(order) && |order| <= g.V
    ensures forall x :: x in order <==> Reachable(g.adj[..], s, x)
  {
    var V := g.V;
    ghost var adj := g.adj[..];
    var visited := new int[V](_ => 0);
    var q := new nat[V](_ => 0);
    var head, tail := 0, 0;
    visited[s] := 1;
    q[tail] := s;
    tail := tail + 1;
    order := [];
    ghost var par: seq<nat> := [0];
    assert q[..tail] == [s];
    Start(adj, visited[..], q[..tail], par, s);
    while head < tail
      invariant 0 <= head <= tail <= V && q[0] == s
      invariant Queue(adj, visited[..], q[..tail], par) && Expanded(adj, q[..tail], head)
      invariant order == q[..head]
      decreases V - head
    {
      var u := q[head];
      head := head + 1;
      order := order + [u];
      ghost var before := q[..tail];
      assert u in before;
      tail, par := Expand(g.adj[u], visited, q, tail, head - 1, adj, par);
      ExpandedGrow(adj, before, q[..tail], head);
      assert q[..head] == before[..head];
    }
    assert order == q[..tail];
    Exhausted(adj, visited[..], order, par, s);
  }
}
