/**
 * music/DAA/all.c, section "prim.c": Prim's algorithm on an adjacency matrix, where a
 * zero entry means "no edge". `minKey` picks the first unfinished vertex of least key
 * below INT_MAX; `primMST` grows the tree from vertex 0, relaxing keys along the edges
 * of each vertex it adds, then sums the weights graph[i][parent[i]] of the tree edges.
 */
module Prim {

  import opened Counting

  const INT_MAX := 2147483647

  /** The first V rows and columns of the matrix exist. */
  ghost predicate Square(graph: seq<seq<int>>, V: nat) {
    |graph| >= V && forall i :: 0 <= i < V ==> |graph[i]| >= V
  }

  ghost predicate Vertices(s: seq<nat>, V: nat) {
    forall i :: 0 <= i < |s| ==> s[i] < V
  }

  /**
   * The edge p-v is a lightest edge leaving `tree`: p is a tree vertex, the edge exists,
   * and no existing edge from the tree to a vertex outside it weighs less.
   */
  ghost predicate Light(graph: seq<seq<int>>, V: nat, tree: seq<nat>, p: int, v: nat)
    requires Square(graph, V) && v < V
  {
    0 <= p < V && p in tree && graph[p][v] != 0 &&
    forall x: nat, w: nat :: x in tree && x < V && w < V && w !in tree ==> graph[x][w] == 0 || graph[p][v] <= graph[x][w]
  }

  /** No edge lighter than INT_MAX leaves `tree`: the keys cannot pick another vertex. */
  ghost predicate Cut(graph: seq<seq<int>>, V: nat, tree: seq<nat>)
    requires Square(graph, V)
  {
    forall x: nat, w: nat :: x in tree && x < V && w < V && w !in tree ==> graph[x][w] == 0 || graph[x][w] >= INT_MAX
  }

  /**
   * An unfinished vertex w: a key below INT_MAX is the weight of the edge from its tree
   * parent, an INT_MAX key means no parent yet, and the key is at most every edge from the tree.
   */
  ghost predicate Fringe(graph: seq<seq<int>>, V: nat, key: seq<int>, parent: seq<int>, tree: seq<nat>, w: nat)
    requires Square(graph, V) && w < V && |key| == |parent| == V
  {
    key[w] <= INT_MAX &&
    (key[w] < INT_MAX ==> 0 <= parent[w] < V && parent[w] in tree && graph[parent[w]][w] != 0 && key[w] == graph[parent[w]][w]) &&
    (key[w] == INT_MAX ==> parent[w] == -1) &&
    forall x: nat :: x in tree && x < V ==> graph[x][w] == 0 || key[w] <= graph[x][w]
  }

  /** The arrays of `primMST` after the vertices of `tree` were added in that order. */
  ghost predicate State(graph: seq<seq<int>>, V: nat, key: seq<int>, parent: seq<int>, mstSet: seq<int>, tree: seq<nat>)
  {
    Square(graph, V) && |key| == |parent| == |mstSet| == V && V > 0 &&
    Distinct(tree) && Vertices(tree, V) &&
    (forall v :: 0 <= v < V ==> (mstSet[v] != 0 <==> v in tree) && -1 <= parent[v] < V) &&
    (|tree| == 0 ==> forall v :: 0 <= v < V ==> key[v] == (if v == 0 then 0 else INT_MAX) && parent[v] == -1) &&
    (|tree| > 0 ==> tree[0] == 0 && parent[0] == -1) &&
    (forall j :: 1 <= j < |tree| ==> Light(graph, V, tree[..j], parent[tree[j]], tree[j])) &&
    (|tree| > 0 ==> forall w: nat :: w < V && mstSet[w] == 0 ==> Fringe(graph, V, key, parent, tree, w))
  }

  /**
   * What `primMST` builds: `order` lists every vertex once, starting at 0 (whose parent
   * is -1), and each later vertex hangs from an earlier one by a lightest edge leaving
   * the vertices before it.
   */
  ghost predicate Spanning(graph: seq<seq<int>>, V: nat, order: seq<nat>, parent: seq<int>)
    requires Square(graph, V)
  {
    |order| == V && |parent| == V && Distinct(order) && Vertices(order, V) &&
    (V > 0 ==> order[0] == 0 && parent[0] == -1) &&
    forall k :: 1 <= k < V ==> Light(graph, V, order[..k], parent[order[k]], order[k])
  }

  /** The printed total: the sum of graph[i][parent[i]] for i = 1 .. n-1. */
  function Total(graph: seq<seq<int>>, parent: seq<int>, n: nat): int
    requires |parent| >= n && |graph| >= n
    requires forall i :: 1 <= i < n ==> 0 <= parent[i] < |graph[i]|
  {
    if n <= 1 then 0 else Total(graph, parent, n - 1) + graph[n - 1][parent[n - 1]]
  }

  /** `minKey`: the first unfinished vertex of least key, among keys below INT_MAX; -1 when there is none. */
  method MinKey(key: array<int>, mstSet: array<int>, V: nat) returns (minIndex: int)
    requires V <= key.Length && V <= mstSet.Length
    ensures -1 <= minIndex < V
    ensures minIndex == -1 <==> forall v :: 0 <= v < V && mstSet[v] == 0 ==> key[v] >= INT_MAX
    ensures minIndex >= 0 ==> mstSet[minIndex] == 0 && key[minIndex] < INT_MAX
    ensures minIndex >= 0 ==> forall v :: 0 <= v < V && mstSet[v] == 0 ==> key[minIndex] <= key[v]
    ensures minIndex >= 0 ==> forall v :: 0 <= v < minIndex && mstSet[v] == 0 ==> key[minIndex] < key[v]
  {
    var min := INT_MAX;
    minIndex := -1;
    for v := 0 to V
      invariant -1 <= minIndex < v
      invariant minIndex == -1 ==> min == INT_MAX
      invariant minIndex >= 0 ==> min == key[minIndex] < INT_MAX && mstSet[minIndex] == 0
      invariant forall j :: 0 <= j < v && mstSet[j] == 0 ==> min <= key[j]
      invariant minIndex >= 0 ==> forall j :: 0 <= j < minIndex && mstSet[j] == 0 ==> min < key[j]
    {
      if mstSet[v] == 0 && key[v] < min {
        min := key[v];
        minIndex := v;
      }
    }
  }

  /** The relaxation the inner loop of `primMST` performs along the edges of the new tree vertex u. */
  ghost predicate Relaxed(graph: seq<seq<int>>, V: nat, u: nat, key: seq<int>, parent: seq<int>, mstSet: seq<int>,
                          key2: seq<int>, parent2: seq<int>)
    requires Square(graph, V) && u < V && |key| == |parent| == |mstSet| == V
  {
    |key2| == |parent2| == V &&
    forall v :: 0 <= v < V ==>
      if graph[u][v] != 0 && mstSet[v] == 0 && graph[u][v] < key[v]
      then key2[v] == graph[u][v] && parent2[v] == u
      else key2[v] == key[v] && parent2[v] == parent[v]
  }

  method Relax(graph: seq<seq<int>>, V: nat, u: nat, key: array<int>, parent: array<int>, mstSet: array<int>)
    requires Square(graph, V) && u < V && key.Length == parent.Length == mstSet.Length == V
    requires key != parent && mstSet != key && mstSet != parent
    modifies key, parent
    ensures Relaxed(graph, V, u, old(key[..]), old(parent[..]), mstSet[..], key[..], parent[..])
  {
    for v := 0 to V
      invariant forall j :: v <= j < V ==> key[j] == old(key[j]) && parent[j] == old(parent[j])
      invariant forall j :: 0 <= j < v ==>
        if graph[u][j] != 0 && mstSet[j] == 0 && graph[u][j] < old(key[j])
        then key[j] == graph[u][j] && parent[j] == u
        else key[j] == old(key[j]) && parent[j] == old(parent[j])
    {
      if graph[u][v] != 0 && mstSet[v] == 0 && graph[u][v] < key[v] {
        parent[v] := u;
        key[v] := graph[u][v];
      }
    }
  }

  /** Adding the vertex `minKey` chose keeps the tree facts, and the new edge is a lightest one leaving the tree. */
  lemma AddTree(graph: seq<seq<int>>, V: nat, key: seq<int>, parent: seq<int>, mstSet: seq<int>, tree: seq<nat>,
                u: nat, mstSet2: seq<int>, key2: seq<int>, parent2: seq<int>)
    requires State(graph, V, key, parent, mstSet, tree) && u < V && mstSet[u] == 0 && key[u] < INT_MAX
    requires forall v :: 0 <= v < V && mstSet[v] == 0 ==> key[u] <= key[v]
    requires mstSet2 == mstSet[u := 1] && Relaxed(graph, V, u, key, parent, mstSet2, key2, parent2)
    ensures Distinct(tree + [u]) && Vertices(tree + [u], V)
    ensures forall v :: 0 <= v < V ==> (mstSet2[v] != 0 <==> v in tree + [u])
    ensures (tree + [u])[0] == 0 && parent2[0] == -1
    ensures forall j :: 1 <= j < |tree + [u]| ==> Light(graph, V, (tree + [u])[..j], parent2[(tree + [u])[j]], (tree + [u])[j])
  {
    var t := tree + [u];
    assert u !in tree;
    if |tree| == 0 {
      assert u == 0;
    }
    forall j | 1 <= j < |t| ensures Light(graph, V, t[..j], parent2[t[j]], t[j]) {
      assert t[j] in t && mstSet2[t[j]] != 0;
      if j < |tree| {
        assert t[..j] == tree[..j] && t[j] == tree[j];
      } else {
        assert t[..j] == tree && t[j] == u;
        NewLight(graph, V, key, parent, mstSet, tree, u);
      }
    }
  }

  /** The vertex `minKey` chose hangs from the tree by a lightest edge leaving it. */
  lemma NewLight(graph: seq<seq<int>>, V: nat, key: seq<int>, parent: seq<int>, mstSet: seq<int>, tree: seq<nat>, u: nat)
    requires State(graph, V, key, parent, mstSet, tree) && |tree| > 0 && u < V && mstSet[u] == 0 && key[u] < INT_MAX
    requires forall v :: 0 <= v < V && mstSet[v] == 0 ==> key[u] <= key[v]
    ensures Light(graph, V, tree, parent[u], u)
  {
    assert Fringe(graph, V, key, parent, tree, u);
    forall x: nat, w: nat | x in tree && x < V && w < V && w !in tree
      ensures graph[x][w] == 0 || graph[parent[u]][u] <= graph[x][w]
    {
      assert mstSet[w] == 0;
      assert Fringe(graph, V, key, parent, tree, w);
    }
  }

  /** After relaxing along u's edges every unfinished vertex again satisfies the fringe facts. */
  lemma AddFringe(graph: seq<seq<int>>, V: nat, key: seq<int>, parent: seq<int>, mstSet: seq<int>, tree: seq<nat>,
                  u: nat, mstSet2: seq<int>, key2: seq<int>, parent2: seq<int>, w: nat)
    requires State(graph, V, key, parent, mstSet, tree) && u < V && mstSet[u] == 0 && key[u] < INT_MAX
    requires mstSet2 == mstSet[u := 1] && Relaxed(graph, V, u, key, parent, mstSet2, key2, parent2)
    requires w < V && mstSet2[w] == 0
    ensures Fringe(graph, V, key2, parent2, tree + [u], w)
  {
    var t := tree + [u];
    if |tree| == 0 {
      assert u == 0 && w != 0;
    } else {
      assert Fringe(graph, V, key, parent, tree, w);
    }
    forall x: nat | x in t && x < V ensures graph[x][w] == 0 || key2[w] <= graph[x][w] {
      if x != u {
        assert x in tree;
      }
    }
  }

  /** When `minKey` finds nothing, no usable edge leaves the tree. */
  lemma Stuck(graph: seq<seq<int>>, V: nat, key: seq<int>, parent: seq<int>, mstSet: seq<int>, tree: seq<nat>)
    requires State(graph, V, key, parent, mstSet, tree) && |tree| > 0
    requires forall v :: 0 <= v < V && mstSet[v] == 0 ==> key[v] >= INT_MAX
    ensures Cut(graph, V, tree)
  {
    forall x: nat, w: nat | x in tree && x < V && w < V && w !in tree ensures graph[x][w] == 0 || graph[x][w] >= INT_MAX {
      assert Fringe(graph, V, key, parent, tree, w);
    }
  }

  /** With V-1 vertices in the tree, the last one hangs from it by its key's edge: the whole order spans. */
  lemma Close(graph: seq<seq<int>>, V: nat, key: seq<int>, parent: seq<int>, mstSet: seq<int>, tree: seq<nat>, r: nat)
    requires State(graph, V, key, parent, mstSet, tree) && |tree| == V - 1 && r < V && r !in tree
    requires V == 1 || parent[r] >= 0
    ensures Spanning(graph, V, tree + [r], parent)
  {
    var order := tree + [r];
    assert Distinct(order) && Vertices(order, V);
    if V > 1 {
      assert order[..V - 1] == tree;
      LastLight(graph, V, key, parent, mstSet, tree, r);
      forall k | 1 <= k < V ensures Light(graph, V, order[..k], parent[order[k]], order[k]) {
        if k < V - 1 {
          assert order[..k] == tree[..k] && order[k] == tree[k];
        }
      }
    }
  }

  lemma LastLight(graph: seq<seq<int>>, V: nat, key: seq<int>, parent: seq<int>, mstSet: seq<int>, tree: seq<nat>, r: nat)
    requires State(graph, V, key, parent, mstSet, tree) && |tree| == V - 1 && r < V && r !in tree
    requires V > 1 && parent[r] >= 0
    ensures Light(graph, V, tree, parent[r], r)
  {
    assert Fringe(graph, V, key, parent, tree, r);
    forall x: nat, w: nat | x in tree && x < V && w < V && w !in tree
      ensures graph[x][w] == 0 || graph[parent[r]][r] <= graph[x][w]
    {
      DistinctCovers(tree + [r], V, w);
    }
  }

  /** A vertex other than 0 without a parent was never added to the tree. */
  lemma ParentlessOutside(graph: seq<seq<int>>, V: nat, key: seq<int>, parent: seq<int>, mstSet: seq<int>,
                          tree: seq<nat>, i: nat)
    requires State(graph, V, key, parent, mstSet, tree)
    requires 1 <= i < V && parent[i] < 0
    ensures i !in tree
  {
    forall j | 0 <= j < |tree| ensures tree[j] != i {
      if j > 0 {
        assert Light(graph, V, tree[..j], parent[tree[j]], tree[j]);
      }
    }
  }

  /** When the one vertex left outside the tree has no parent, no usable edge leaves the tree. */
  lemma LastCut(graph: seq<seq<int>>, V: nat, key: seq<int>, parent: seq<int>, mstSet: seq<int>, tree: seq<nat>,
                r: nat)
    requires State(graph, V, key, parent, mstSet, tree) && |tree| == V - 1 && |tree| > 0
    requires r < V && r !in tree && parent[r] < 0
    ensures Cut(graph, V, tree)
  {
    assert Fringe(graph, V, key, parent, tree, r);
    forall x: nat, w: nat | x in tree && x < V && w < V && w !in tree ensures graph[x][w] == 0 || graph[x][w] >= INT_MAX {
      DistinctCovers(tree + [r], V, w);
    }
  }

  /** A missing parent at the end means the last vertex has no usable edge from the tree. */
  lemma Unreached(graph: seq<seq<int>>, V: nat, key: seq<int>, parent: seq<int>, mstSet: seq<int>, tree: seq<nat>,
                  r: nat, i: nat)
    requires State(graph, V, key, parent, mstSet, tree) && |tree| == V - 1 && r < V && r !in tree
    requires 1 <= i < V && parent[i] < 0
    ensures |tree| > 0 && Cut(graph, V, tree)
  {
    ParentlessOutside(graph, V, key, parent, mstSet, tree, i);
    DistinctCovers(tree + [r], V, i);
    assert i == r;
    LastCut(graph, V, key, parent, mstSet, tree, r);
  }

  /** In a spanning result every vertex occurs in the order and every vertex but 0 has a parent. */
  lemma SpanningParents(graph: seq<seq<int>>, V: nat, order: seq<nat>, parent: seq<int>, v: nat)
    requires Square(graph, V) && Spanning(graph, V, order, parent) && v < V
    ensures v in order
    ensures v != 0 ==> 0 <= parent[v] < V && graph[parent[v]][v] != 0
  {
    DistinctCovers(order, V, v);
    var k :| 0 <= k < V && order[k] == v;
    if v != 0 {
      assert k != 0 && Light(graph, V, order[..k], parent[order[k]], order[k]);
    }
  }

  /** The arrays as `primMST` sets them up: key 0 for vertex 0 and INT_MAX elsewhere, no parents, none finished. */
  lemma Initial(graph: seq<seq<int>>, V: nat, key: seq<int>, parent: seq<int>, mstSet: seq<int>)
    requires Square(graph, V) && V > 0 && |key| == |parent| == |mstSet| == V
    requires forall v :: 0 <= v < V ==> key[v] == (if v == 0 then 0 else INT_MAX) && parent[v] == -1 && mstSet[v] == 0
    ensures State(graph, V, key, parent, mstSet, [])
  {
  }

  /** One round of the outer loop of `primMST`: finish u, then relax the keys along its edges. */
  method Grow(graph: seq<seq<int>>, V: nat, key: array<int>, parent: array<int>, mstSet: array<int>,
              ghost tree: seq<nat>, u: nat)
    requires key != parent && mstSet != key && mstSet != parent
    requires State(graph, V, key[..], parent[..], mstSet[..], tree)
    requires u < V && mstSet[u] == 0 && key[u] < INT_MAX
    requires forall v :: 0 <= v < V && mstSet[v] == 0 ==> key[u] <= key[v]
    modifies key, parent, mstSet
    ensures State(graph, V, key[..], parent[..], mstSet[..], tree + [u])
  {
    ghost var k0, p0, m0 := key[..], parent[..], mstSet[..];
    mstSet[u] := 1;
    assert mstSet[..] == m0[u := 1];
    Relax(graph, V, u, key, parent, mstSet);
    AddTree(graph, V, k0, p0, m0, tree, u, mstSet[..], key[..], parent[..]);
    forall w: nat | w < V && mstSet[w] == 0 ensures Fringe(graph, V, key[..], parent[..], tree + [u], w) {
      AddFringe(graph, V, k0, p0, m0, tree, u, mstSet[..], key[..], parent[..], w);
    }
  }

  /**
   * The printing loop of `primMST`: the sum of graph[i][parent[i]] over i = 1 .. V-1, or the
   * first i whose parent was never set (where the source would index column -1).
   */
  method Sum(graph: seq<seq<int>>, V: nat, parent: seq<int>) returns (missing: int, total: int)
    requires Square(graph, V) && |parent| == V && forall v :: 0 <= v < V ==> -1 <= parent[v] < V
    ensures missing == -1 ==> (forall i :: 1 <= i < V ==> 0 <= parent[i]) && total == Total(graph, parent, V)
    ensures missing != -1 ==> 1 <= missing < V && parent[missing] < 0
  {
    total, missing := 0, -1;
    var i := 1;
    while i < V
      invariant 1 <= i && (V > 0 ==> i <= V)
      invariant forall j :: 1 <= j < i && j < V ==> 0 <= parent[j] < V
      invariant V > 0 ==> total == Total(graph, parent, i)
      invariant V == 0 ==> total == 0
    {
      if parent[i] < 0 {
        return i, 0;
      }
      total := total + graph[i][parent[i]];
      i := i + 1;
    }
  }

  /** Where the outer loop of `primMST` leaves off after V-1 rounds: the one vertex r still outside the tree. */
  lemma Outcome(graph: seq<seq<int>>, V: nat, key: seq<int>, parent: seq<int>, mstSet: seq<int>, tree: seq<nat>)
      returns (r: nat)
    requires State(graph, V, key, parent, mstSet, tree) && |tree| == V - 1
    ensures r < V && r !in tree && Distinct(tree) && Vertices(tree, V) && (|tree| > 0 ==> tree[0] == 0)
    ensures (V == 1 || parent[r] >= 0) ==> Spanning(graph, V, tree + [r], parent)
    ensures forall i :: 1 <= i < V && parent[i] < 0 ==> |tree| > 0 && Cut(graph, V, tree)
  {
    r := Missing(tree, V);
    if V == 1 || parent[r] >= 0 {
      Close(graph, V, key, parent, mstSet, tree, r);
    }
    forall i | 1 <= i < V && parent[i] < 0 ensures |tree| > 0 && Cut(graph, V, tree) {
      Unreached(graph, V, key, parent, mstSet, tree, r, i);
    }
  }

  /**
   * `primMST(graph, V)`: on success the parents form a spanning tree grown from vertex 0 by
   * lightest crossing edges, and `total` is the printed sum. The source reads `mstSet[-1]`
   * when `minKey` finds nothing, or an unset parent at the end; the model reports failure
   * there, and then no usable edge (nonzero, below INT_MAX) leaves the tree built so far.
   */
  method Mst(graph: seq<seq<int>>, V: nat) returns (ok: bool, parent: seq<int>, total: int, ghost order: seq<nat>)
    requires V <= 9 && Square(graph, V)
    ensures |parent| == V
    ensures ok ==> Spanning(graph, V, order, parent)
    ensures ok ==> (forall i :: 1 <= i < V ==> 0 <= parent[i] < V) && total == Total(graph, parent, V)
    ensures !ok ==> V >= 2 && 0 < |order| < V && order[0] == 0 && Distinct(order) && Vertices(order, V)
    ensures !ok ==> Cut(graph, V, order)
  {
    if V == 0 {
      return true, [], 0, [];
    }
    var grown;
    ghost var tree, r;
    grown, parent, tree, r := Build(graph, V);
    if !grown {
      return false, parent, 0, tree;
    }
    var missing;
    missing, total := Sum(graph, V, parent);
    if missing != -1 {
      return false, parent, 0, tree;
    }
    ok := true;
    order := tree + [r];
  }

  /**
   * The initialisation and the outer loop of `primMST`: V-1 rounds of `minKey` and `Grow`,
   * or a stop (`grown` false) at the round where `minKey` finds no vertex.
   */
  method Build(graph: seq<seq<int>>, V: nat) returns (grown: bool, parent: seq<int>, ghost tree: seq<nat>, ghost r: nat)
    requires 1 <= V <= 9 && Square(graph, V)
    ensures |parent| == V && (forall v :: 0 <= v < V ==> -1 <= parent[v] < V)
    ensures Distinct(tree) && Vertices(tree, V) && (|tree| > 0 ==> tree[0] == 0)
    ensures !grown ==> 0 < |tree| < V - 1 && Cut(graph, V, tree)
    ensures grown ==> |tree| == V - 1 && r < V && r !in tree
    ensures grown && (V == 1 || parent[r] >= 0) ==> Spanning(graph, V, tree + [r], parent)
    ensures grown ==> forall i :: 1 <= i < V && parent[i] < 0 ==> |tree| > 0 && Cut(graph, V, tree)
  {
    var key := new int[V](_ => INT_MAX);
    var par := new int[V](_ => -1);
    var mstSet := new int[V](_ => 0);
    key[0] := 0;
    par[0] := -1;
    tree := [];
    Initial(graph, V, key[..], par[..], mstSet[..]);
    var count := 0;
    while count < V - 1
      invariant 0 <= count <= V - 1 && |tree| == count
      invariant State(graph, V, key[..], par[..], mstSet[..], tree)
    {
      var u := MinKey(key, mstSet, V);
      if u == -1 {
        assert key[0] >= INT_MAX || mstSet[0] != 0;
        Stuck(graph, V, key[..], par[..], mstSet[..], tree);
        return false, par[..], tree, 0;
      }
      Grow(graph, V, key, par, mstSet, tree, u);
      tree := tree + [u];
      count := count + 1;
    }
    grown, parent := true, par[..];
    r := Outcome(graph, V, key[..], parent, mstSet[..], tree);
  }
}
