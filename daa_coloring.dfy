/**
 * music/DAA/all.c, section "graph_coloring.c": `greedyColoring` gives vertex 0 colour 0
 * and then each vertex u in turn the least colour that none of its already coloured
 * neighbours (row u of the matrix, vertices 0..u-1) has. `available` marks those colours
 * and is cleared again after each vertex.
 */
module GreedyColoring {

  import opened Counting

  /** A V×V adjacency matrix; an entry other than 0 is an edge. */
  ghost predicate Square(graph: seq<seq<int>>, V: int) {
    |graph| == V && forall u :: 0 <= u < V ==> |graph[u]| == V
  }

  /** Some w in lo..hi-1 is a neighbour in `row` with colour c. */
  ghost predicate AmongFrom(row: seq<int>, colours: seq<int>, lo: nat, hi: nat, c: int)
    requires hi <= |row| && hi <= |colours|
  {
    exists w :: lo <= w < hi && row[w] != 0 && colours[w] == c
  }

  /** Colour c is used by one of the first n vertices that `row` marks as neighbours. */
  ghost predicate Among(row: seq<int>, colours: seq<int>, n: nat, c: int)
    requires n <= |row| && n <= |colours|
  {
    AmongFrom(row, colours, 0, n, c)
  }

  /** Colour u of `colours` is the least colour no earlier neighbour of u has. */
  ghost predicate Least(graph: seq<seq<int>>, colours: seq<int>, u: nat)
    requires u < |graph| && u < |colours| && u <= |graph[u]|
  {
    colours[u] >= 0 && !Among(graph[u], colours, u, colours[u]) &&
    forall c :: 0 <= c < colours[u] ==> Among(graph[u], colours, u, c)
  }

  /** The greedy colouring: every vertex has the least colour its earlier neighbours leave free. */
  ghost predicate Greedy(graph: seq<seq<int>>, V: int, colours: seq<int>) {
    Square(graph, V) && |colours| == V && forall u :: 0 <= u < V ==> Least(graph, colours, u)
  }

  ghost predicate Symmetric(graph: seq<seq<int>>, V: int)
    requires Square(graph, V)
  {
    forall u, v :: 0 <= u < V && 0 <= v < V ==> (graph[u][v] != 0 <==> graph[v][u] != 0)
  }

  /** The number of neighbours among the first n vertices of `row`. */
  function Degree(row: seq<int>, n: nat): nat
    requires n <= |row|
  {
    if n == 0 then 0 else Degree(row, n - 1) + (if row[n - 1] != 0 then 1 else 0)
  }

  /** The colours of the neighbours among the first n vertices, one entry per neighbour. */
  ghost function EarlierColours(row: seq<int>, colours: seq<int>, n: nat): (r: seq<nat>)
    requires n <= |row| && n <= |colours| && forall w :: 0 <= w < n ==> colours[w] >= 0
    ensures |r| == Degree(row, n)
    ensures forall c: nat :: c in r <==> Among(row, colours, n, c)
  {
    if n == 0 then []
    else
      var r0 := EarlierColours(row, colours, n - 1);
      var r := if row[n - 1] != 0 then r0 + [colours[n - 1] as nat] else r0;
      assert forall c: nat :: Among(row, colours, n, c) <==>
               Among(row, colours, n - 1, c) || (row[n - 1] != 0 && colours[n - 1] == c);
      r
  }

  /** Membership in `Among` reads only the colours of the first n vertices. */
  lemma AmongSame(row: seq<int>, s: seq<int>, t: seq<int>, n: nat, c: int)
    requires n <= |row| && n <= |s| && n <= |t| && s[..n] == t[..n]
    ensures Among(row, s, n, c) <==> Among(row, t, n, c)
  {
    if Among(row, s, n, c) {
      var w :| 0 <= w < n && row[w] != 0 && s[w] == c;
      assert s[..n][w] == t[..n][w];
    }
    if Among(row, t, n, c) {
      var w :| 0 <= w < n && row[w] != 0 && t[w] == c;
      assert s[..n][w] == t[..n][w];
    }
  }

  lemma LeastSame(graph: seq<seq<int>>, s: seq<int>, t: seq<int>, u: nat)
    requires u < |graph| && u < |s| && u < |t| && u <= |graph[u]| && s[..u + 1] == t[..u + 1]
    requires Least(graph, s, u)
    ensures Least(graph, t, u)
  {
    assert s[..u] == t[..u] && s[u] == t[u] by {
      assert s[..u] == s[..u + 1][..u] && t[..u] == t[..u + 1][..u];
      assert s[u] == s[..u + 1][u] && t[u] == t[..u + 1][u];
    }
    AmongSame(graph[u], s, t, u, s[u]);
    forall c | 0 <= c < t[u] ensures Among(graph[u], t, u, c) {
      AmongSame(graph[u], s, t, u, c);
    }
  }

  function Min(a: nat, b: nat): nat {
    if a < b then a else b
  }

  /** The first loop over v: mark the colours of u's coloured neighbours. */
  method Mark(graph: seq<seq<int>>, V: int, u: nat, result: array<int>, available: array<int>)
    requires Square(graph, V) && u < V && result.Length == V && available.Length == V && result != available
    requires forall w :: 0 <= w < V ==> (if w < u then 0 <= result[w] < V else result[w] == -1)
    requires forall c :: 0 <= c < V ==> available[c] == 0
    modifies available
    ensures forall c :: 0 <= c < V ==> (available[c] != 0 <==> Among(graph[u], result[..], u, c))
  {
    for v := 0 to V
      invariant forall c :: 0 <= c < V ==> (available[c] != 0 <==> Among(graph[u], result[..], Min(v, u), c))
    {
      if graph[u][v] != 0 && result[v] != -1 {
        available[result[v]] := 1;
      }
      forall c | 0 <= c < V
        ensures Among(graph[u], result[..], Min(v + 1, u), c) <==>
                Among(graph[u], result[..], Min(v, u), c) || (v < u && graph[u][v] != 0 && result[v] == c)
      {
        if v < u && Among(graph[u], result[..], v + 1, c) {
          var w :| 0 <= w < v + 1 && graph[u][w] != 0 && result[..][w] == c;
          if w < v {
            assert Among(graph[u], result[..], v, c);
          }
        }
      }
    }
  }

  /** `for (cr=0; cr<V; cr++) if (!available[cr]) break;` */
  method FirstFree(available: array<int>, V: int) returns (cr: int)
    requires available.Length == V
    ensures 0 <= cr && (cr <= V || V < 0)
    ensures cr < V ==> available[cr] == 0
    ensures forall c :: 0 <= c < cr && c < V ==> available[c] != 0
  {
    cr := 0;
    while cr < V && available[cr] != 0
      invariant 0 <= cr && (cr <= V || V < 0)
      invariant forall c :: 0 <= c < cr && c < V ==> available[c] != 0
      decreases V - cr
    {
      cr := cr + 1;
    }
  }

  /** The last loop over v: clear the colours the first loop marked. */
  method Unmark(graph: seq<seq<int>>, V: int, u: nat, result: array<int>, available: array<int>)
    requires Square(graph, V) && u < V && result.Length == V && available.Length == V && result != available
    requires forall w :: 0 <= w < V ==> (if w <= u then 0 <= result[w] < V else result[w] == -1)
    requires forall c :: 0 <= c < V && available[c] != 0 ==> AmongFrom(graph[u], result[..], 0, V, c)
    modifies available
    ensures forall c :: 0 <= c < V ==> available[c] == 0
  {
    for v := 0 to V
      invariant forall c :: 0 <= c < V && available[c] != 0 ==> AmongFrom(graph[u], result[..], v, V, c)
    {
      if graph[u][v] != 0 && result[v] != -1 {
        available[result[v]] := 0;
      }
      forall c | 0 <= c < V && available[c] != 0 ensures AmongFrom(graph[u], result[..], v + 1, V, c) {
        var w :| v <= w < V && graph[u][w] != 0 && result[..][w] == c;
        assert w != v;
      }
    }
  }

  /** The colour the search finds is at most the number of earlier neighbours, so below V. */
  lemma FreeColour(graph: seq<seq<int>>, V: int, u: nat, colours: seq<int>) returns (r: nat)
    requires Square(graph, V) && u < V && |colours| == V
    requires forall w :: 0 <= w < u ==> colours[w] >= 0
    ensures r <= Degree(graph[u], u) <= u && !Among(graph[u], colours, u, r)
  {
    var cs := EarlierColours(graph[u], colours, u);
    DegreeBound(graph[u], u);
    r := Missing(cs, Degree(graph[u], u) + 1);
  }

  lemma {:induction false} DegreeBound(row: seq<int>, n: nat)
    requires n <= |row|
    ensures Degree(row, n) <= n
  {
    if n > 0 {
      DegreeBound(row, n - 1);
    }
  }

  /** Vertices 0..u-1 have their greedy colour, at most their number of earlier neighbours. */
  ghost predicate ColouredUpTo(graph: seq<seq<int>>, V: int, colours: seq<int>, u: nat)
    requires Square(graph, V) && |colours| == V && u <= V
  {
    forall w :: 0 <= w < u ==> Least(graph, colours, w) && colours[w] <= Degree(graph[w], w)
  }

  /** Colouring vertex u leaves the colours of 0..u-1, and so their greedy property, alone. */
  lemma ColouredExtend(graph: seq<seq<int>>, V: int, before: seq<int>, after: seq<int>, u: nat)
    requires Square(graph, V) && |before| == V && |after| == V && u < V
    requires ColouredUpTo(graph, V, before, u) && after[..u] == before[..u]
    requires Least(graph, after, u) && after[u] <= Degree(graph[u], u)
    ensures ColouredUpTo(graph, V, after, u + 1)
  {
    forall w | 0 <= w < u ensures Least(graph, after, w) && after[w] <= Degree(graph[w], w) {
      assert before[..w + 1] == after[..w + 1] by {
        assert before[..w + 1] == before[..u][..w + 1] && after[..w + 1] == after[..u][..w + 1];
      }
      assert after[w] == after[..w + 1][w];
      LeastSame(graph, before, after, w);
    }
  }

  /** One turn of the outer loop: colour vertex u. */
  method ColourVertex(graph: seq<seq<int>>, V: int, u: nat, result: array<int>, available: array<int>)
    requires Square(graph, V) && 0 < u < V && result.Length == V && available.Length == V && result != available
    requires forall w :: 0 <= w < V ==> (if w < u then 0 <= result[w] < V else result[w] == -1)
    requires forall c :: 0 <= c < V ==> available[c] == 0
    requires ColouredUpTo(graph, V, result[..], u)
    modifies result, available
    ensures forall w :: 0 <= w < V ==> (if w <= u then 0 <= result[w] < V else result[w] == -1)
    ensures forall c :: 0 <= c < V ==> available[c] == 0
    ensures ColouredUpTo(graph, V, result[..], u + 1)
  {
    Mark(graph, V, u, result, available);
    var cr := FirstFree(available, V);
    ghost var before := result[..];
    var r := FreeColour(graph, V, u, before);
    assert r < V && available[r] == 0;
    assert cr <= r;
    result[u] := cr;
    assert result[..][..u] == before[..u];
    forall c | 0 <= c < cr ensures Among(graph[u], result[..], u, c) {
      AmongSame(graph[u], before, result[..], u, c);
    }
    AmongSame(graph[u], before, result[..], u, cr);
    forall c | 0 <= c < V && available[c] != 0 ensures AmongFrom(graph[u], result[..], 0, V, c) {
      var w :| 0 <= w < u && graph[u][w] != 0 && result[..][w] == c;
    }
    ColouredExtend(graph, V, before, result[..], u);
    Unmark(graph, V, u, result, available);
  }

  /** `result[0] = 0`, the other vertices -1, and every colour unmarked. */
  method Start(graph: seq<seq<int>>, V: int) returns (result: array<int>, available: array<int>)
    requires 1 <= V && Square(graph, V)
    ensures fresh(result) && fresh(available) && result != available
    ensures result.Length == V && available.Length == V
    ensures forall w :: 0 <= w < V ==> (if w < 1 then 0 <= result[w] < V else result[w] == -1)
    ensures forall c :: 0 <= c < V ==> available[c] == 0
    ensures ColouredUpTo(graph, V, result[..], 1)
  {
    result := new int[V];
    result[0] := 0;
    for i := 1 to V
      invariant result[0] == 0 && forall w :: 1 <= w < i ==> result[w] == -1
    {
      result[i] := -1;
    }
    available := new int[V];
    for i := 0 to V
      invariant forall c :: 0 <= c < i ==> available[c] == 0
      invariant result[0] == 0 && forall w :: 1 <= w < V ==> result[w] == -1
    {
      available[i] := 0;
    }
    assert result[..][0] == 0;
    assert Least(graph, result[..], 0);
  }

  /**
   * `greedyColoring(V, graph)`: the colours it prints are the greedy colouring, and no vertex
   * gets a colour above the number of its earlier neighbours.
   */
  method Colour(graph: seq<seq<int>>, V: int) returns (colours: seq<int>)
    requires 1 <= V && Square(graph, V)
    ensures Greedy(graph, V, colours)
    ensures forall u :: 0 <= u < V ==> 0 <= colours[u] <= Degree(graph[u], u)
  {
    var result, available := Start(graph, V);
    for u := 1 to V
      invariant forall w :: 0 <= w < V ==> (if w < u then 0 <= result[w] < V else result[w] == -1)
      invariant forall c :: 0 <= c < V ==> available[c] == 0
      invariant ColouredUpTo(graph, V, result[..], u)
    {
      ColourVertex(graph, V, u, result, available);
    }
    colours := result[..];
  }

  /** Greedy colourings are unique: the rule fixes every colour from the earlier ones. */
  lemma {:induction false} GreedyUnique(graph: seq<seq<int>>, V: int, a: seq<int>, b: seq<int>, n: nat)
    requires Greedy(graph, V, a) && Greedy(graph, V, b) && n <= V
    ensures a[..n] == b[..n]
  {
    if n > 0 {
      GreedyUnique(graph, V, a, b, n - 1);
      var u := n - 1;
      assert Least(graph, a, u) && Least(graph, b, u);
      AmongSame(graph[u], a, b, u, a[u]);
      AmongSame(graph[u], a, b, u, b[u]);
      assert a[..n] == a[..u] + [a[u]] && b[..n] == b[..u] + [b[u]];
    }
  }

  /** On an undirected graph the greedy colouring is proper: neighbours get different colours. */
  lemma Proper(graph: seq<seq<int>>, V: int, colours: seq<int>, u: nat, v: nat)
    requires Greedy(graph, V, colours) && Symmetric(graph, V)
    requires u < V && v < V && u != v && graph[u][v] != 0
    ensures colours[u] != colours[v]
  {
    if v < u {
      assert Least(graph, colours, u);
      assert Among(graph[u], colours, u, colours[v]);
    } else {
      assert Least(graph, colours, v);
      assert Among(graph[v], colours, v, colours[u]);
    }
  }
}
