/**
 * music/DAA/all.c, section "floyd_warshall.c": all-pairs shortest paths by relaxing every
 * pair (i, j) through every k, in place on the distance matrix, with INF = 1000000 standing
 * for "no edge" and printed as "INF" (any entry at or above INF).
 *
 * `Dist(m, k, i, j)` is the textbook recurrence: the matrix after the passes for k' < k.
 * The in-place loop computes exactly it, and it is the least weight of a walk from i to j
 * (of at least one edge) whose intermediate vertices are all below k.
 */
module FloydWarshall {

  const INF := 1000000
  const INT_MAX := 2147483647

  ghost predicate Square(m: seq<seq<int>>) {
    forall i :: 0 <= i < |m| ==> |m[i]| == |m|
  }

  /** Edge weights are non-negative; INF is one of them. */
  ghost predicate NonNegative(m: seq<seq<int>>)
    requires Square(m)
  {
    forall i, j :: 0 <= i < |m| && 0 <= j < |m| ==> m[i][j] >= 0
  }

  /** The matrix after the passes for k' = 0..k-1: `if (d[i][k] + d[k][j] < d[i][j]) d[i][j] = ...` */
  ghost function Dist(m: seq<seq<int>>, k: nat, i: nat, j: nat): int
    requires Square(m) && k <= |m| && i < |m| && j < |m|
  {
    if k == 0 then m[i][j]
    else
      var c := k - 1;
      if Dist(m, c, i, c) + Dist(m, c, c, j) < Dist(m, c, i, j) then Dist(m, c, i, c) + Dist(m, c, c, j)
      else Dist(m, c, i, j)
  }

  /** A pass never lengthens an entry, and with non-negative weights no entry drops below 0. */
  lemma {:induction false} DistBounds(m: seq<seq<int>>, k: nat, i: nat, j: nat)
    requires Square(m) && NonNegative(m) && k <= |m| && i < |m| && j < |m|
    ensures 0 <= Dist(m, k, i, j) <= m[i][j]
  {
    if k > 0 {
      DistBounds(m, k - 1, i, j);
      DistBounds(m, k - 1, i, k - 1);
      DistBounds(m, k - 1, k - 1, j);
    }
  }

  /** Pass k leaves row k and column k alone: going through k again cannot help. */
  lemma PivotFixed(m: seq<seq<int>>, c: nat, i: nat)
    requires Square(m) && NonNegative(m) && c < |m| && i < |m|
    ensures Dist(m, c + 1, i, c) == Dist(m, c, i, c)
    ensures Dist(m, c + 1, c, i) == Dist(m, c, c, i)
  {
    DistBounds(m, c, c, c);
  }

  /** Entries bounded by INF stay bounded by INF, so every sum the loop forms fits in an `int`. */
  lemma NoOverflow(m: seq<seq<int>>, k: nat, i: nat, j: nat)
    requires Square(m) && NonNegative(m) && k < |m| && i < |m| && j < |m|
    requires forall a, b :: 0 <= a < |m| && 0 <= b < |m| ==> m[a][b] <= INF
    ensures 0 <= Dist(m, k, i, k) + Dist(m, k, k, j) <= 2 * INF < INT_MAX
  {
    DistBounds(m, k, i, k);
    DistBounds(m, k, k, j);
  }

  // ---------------------------------------------------------------- walks

  /** The weight of the walk p: the sum of its edges. */
  ghost function Weight(m: seq<seq<int>>, p: seq<nat>): int
    requires Square(m) && forall t :: 0 <= t < |p| ==> p[t] < |m|
  {
    if |p| < 2 then 0 else m[p[0]][p[1]] + Weight(m, p[1..])
  }

  /** p walks from i to j along at least one edge, through intermediate vertices below k only. */
  ghost predicate Walk(m: seq<seq<int>>, p: seq<nat>, i: nat, j: nat, k: nat) {
    |p| >= 2 && p[0] == i && p[|p| - 1] == j &&
    (forall t :: 0 <= t < |p| ==> p[t] < |m|) &&
    (forall t :: 0 < t < |p| - 1 ==> p[t] < k)
  }

  /** Cutting a walk at position a splits its weight. */
  lemma {:induction false} WeightSplit(m: seq<seq<int>>, p: seq<nat>, a: nat)
    requires Square(m) && (forall t :: 0 <= t < |p| ==> p[t] < |m|) && a < |p|
    ensures Weight(m, p) == Weight(m, p[..a + 1]) + Weight(m, p[a..])
  {
    if a > 0 {
      WeightSplit(m, p[1..], a - 1);
      assert p[1..][..a] == p[..a + 1][1..];
      assert p[1..][a - 1..] == p[a..];
    }
  }

  /** Joining a walk that ends at c to one that starts at c adds their weights. */
  lemma Join(m: seq<seq<int>>, p: seq<nat>, q: seq<nat>, i: nat, c: nat, j: nat, k: nat)
    requires Square(m) && Walk(m, p, i, c, k) && Walk(m, q, c, j, k) && c < k
    ensures Walk(m, p + q[1..], i, j, k)
    ensures Weight(m, p + q[1..]) == Weight(m, p) + Weight(m, q)
  {
    var r := p + q[1..];
    assert r[..|p|] == p;
    assert r[|p| - 1..] == q;
    WeightSplit(m, r, |p| - 1);
  }

  /** Every entry of the recurrence is the weight of some walk through vertices below k. */
  lemma {:induction false} Achieved(m: seq<seq<int>>, k: nat, i: nat, j: nat) returns (p: seq<nat>)
    requires Square(m) && k <= |m| && i < |m| && j < |m|
    ensures Walk(m, p, i, j, k) && Weight(m, p) == Dist(m, k, i, j)
  {
    if k == 0 {
      p := [i, j];
    } else {
      var c := k - 1;
      if Dist(m, c, i, c) + Dist(m, c, c, j) < Dist(m, c, i, j) {
        var p1 := Achieved(m, c, i, c);
        var p2 := Achieved(m, c, c, j);
        Join(m, p1, p2, i, c, j, k);
        p := p1 + p2[1..];
      } else {
        p := Achieved(m, c, i, j);
      }
    }
  }

  /** No walk through vertices below k is lighter than the recurrence's entry. */
  lemma {:induction false} Lightest(m: seq<seq<int>>, k: nat, p: seq<nat>, i: nat, j: nat)
    requires Square(m) && NonNegative(m) && k <= |m| && i < |m| && j < |m|
    requires Walk(m, p, i, j, k)
    ensures Dist(m, k, i, j) <= Weight(m, p)
    decreases k, |p|
  {
    if k == 0 {
      assert |p| == 2;
      assert p[1..] == [j];
    } else {
      var c := k - 1;
      if a :| 0 < a < |p| - 1 && p[a] == c && forall t :: 0 < t < a ==> p[t] != c {
        var head, tail := p[..a + 1], p[a..];
        WeightSplit(m, p, a);
        assert Walk(m, head, i, c, c);
        assert Walk(m, tail, c, j, k);
        Lightest(m, c, head, i, c);
        Lightest(m, k, tail, c, j);
        PivotFixed(m, c, j);
      } else {
        FirstVisit(p, c);
        assert Walk(m, p, i, j, c);
        Lightest(m, c, p, i, j);
      }
    }
  }

  /** Either c occurs among the inner vertices of p, at a first position, or it does not occur. */
  lemma FirstVisit(p: seq<nat>, c: nat)
    requires |p| >= 2
    ensures (exists a :: 0 < a < |p| - 1 && p[a] == c && forall t :: 0 < t < a ==> p[t] != c) ||
            (forall t :: 0 < t < |p| - 1 ==> p[t] != c)
  {
    var a := 1;
    while a < |p| - 1 && p[a] != c
      invariant 1 <= a <= |p| - 1 || |p| - 1 < 1
      invariant forall t :: 0 < t < a ==> p[t] != c
      decreases |p| - a
    {
      a := a + 1;
    }
  }

  /**
   * After all V passes each entry is the shortest distance: the weight of a walk from i to j,
   * and no walk from i to j weighs less.
   */
  lemma Shortest(m: seq<seq<int>>, i: nat, j: nat) returns (p: seq<nat>)
    requires Square(m) && NonNegative(m) && i < |m| && j < |m|
    ensures Walk(m, p, i, j, |m|) && Weight(m, p) == Dist(m, |m|, i, j)
    ensures forall q :: Walk(m, q, i, j, |m|) ==> Dist(m, |m|, i, j) <= Weight(m, q)
  {
    p := Achieved(m, |m|, i, j);
    forall q | Walk(m, q, i, j, |m|) ensures Dist(m, |m|, i, j) <= Weight(m, q) {
      Lightest(m, |m|, q, i, j);
    }
  }

  /** The final matrix satisfies the triangle inequality. */
  lemma Triangle(m: seq<seq<int>>, i: nat, c: nat, j: nat)
    requires Square(m) && NonNegative(m) && i < |m| && c < |m| && j < |m|
    ensures Dist(m, |m|, i, j) <= Dist(m, |m|, i, c) + Dist(m, |m|, c, j)
  {
    var V := |m|;
    var p := Achieved(m, V, i, c);
    var q := Achieved(m, V, c, j);
    Join(m, p, q, i, c, j, V + 1);
    assert Walk(m, p + q[1..], i, j, V);
    Lightest(m, V, p + q[1..], i, j);
  }

  // ---------------------------------------------------------------- the loops

  /** The state in the middle of pass k: rows before i, and row i before j, are done. */
  ghost predicate Partial(dist: array2<int>, m: seq<seq<int>>, k: nat, i: nat, j: nat)
    requires Square(m) && k < |m| && dist.Length0 == |m| && dist.Length1 == |m|
    reads dist
  {
    forall a, b :: 0 <= a < |m| && 0 <= b < |m| ==>
      dist[a, b] == Dist(m, if a < i || (a == i && b < j) then k + 1 else k, a, b)
  }

  /** One step of the innermost loop: relax (i, j) through k. */
  method RelaxOne(dist: array2<int>, ghost m: seq<seq<int>>, k: nat, i: nat, j: nat)
    requires Square(m) && NonNegative(m) && k < |m| && i < |m| && j < |m|
    requires dist.Length0 == |m| && dist.Length1 == |m|
    requires Partial(dist, m, k, i, j)
    modifies dist
    ensures Partial(dist, m, k, i, j + 1)
  {
    PivotFixed(m, k, i);
    PivotFixed(m, k, j);
    assert dist[i, k] == Dist(m, k, i, k);
    assert dist[k, j] == Dist(m, k, k, j);
    if dist[i, k] + dist[k, j] < dist[i, j] {
      dist[i, j] := dist[i, k] + dist[k, j];
    }
  }

  /** The i and j loops for one k. */
  method Pass(dist: array2<int>, ghost m: seq<seq<int>>, k: nat)
    requires Square(m) && NonNegative(m) && k < |m|
    requires dist.Length0 == |m| && dist.Length1 == |m|
    requires Partial(dist, m, k, 0, 0)
    modifies dist
    ensures Partial(dist, m, k, |m|, 0)
  {
    var V := dist.Length0;
    for i := 0 to V
      invariant Partial(dist, m, k, i, 0)
    {
      for j := 0 to V
        invariant Partial(dist, m, k, i, j)
      {
        RelaxOne(dist, m, k, i, j);
      }
      assert Partial(dist, m, k, i + 1, 0);
    }
  }

  /** The whole triple loop, in place: afterwards every entry is `Dist(m, V, i, j)`. */
  method Relax(dist: array2<int>, ghost m: seq<seq<int>>)
    requires Square(m) && NonNegative(m)
    requires dist.Length0 == |m| && dist.Length1 == |m|
    requires forall a, b :: 0 <= a < |m| && 0 <= b < |m| ==> dist[a, b] == m[a][b]
    modifies dist
    ensures forall a, b :: 0 <= a < |m| && 0 <= b < |m| ==> dist[a, b] == Dist(m, |m|, a, b)
  {
    var V := dist.Length0;
    for k := 0 to V
      invariant forall a, b :: 0 <= a < V && 0 <= b < V ==> dist[a, b] == Dist(m, k, a, b)
    {
      assert Partial(dist, m, k, 0, 0);
      Pass(dist, m, k);
      assert Partial(dist, m, k, V, 0);
    }
  }

  /** A printed entry: "INF" for anything at or above INF, the number otherwise. */
  datatype Cell = Inf | Finite(d: int)

  function Shown(d: int): Cell {
    if d >= INF then Inf else Finite(d)
  }

  /**
   * `main`: copy the matrix, run the triple loop and print it. Every printed entry is the
   * shortest-walk distance, or "INF" when that distance is INF or more.
   */
  method AllPairs(m: seq<seq<int>>) returns (dist: array2<int>, table: seq<seq<Cell>>)
    requires Square(m) && NonNegative(m)
    ensures dist.Length0 == |m| && dist.Length1 == |m|
    ensures forall a, b :: 0 <= a < |m| && 0 <= b < |m| ==> dist[a, b] == Dist(m, |m|, a, b)
    ensures |table| == |m| && forall a :: 0 <= a < |m| ==> |table[a]| == |m|
    ensures forall a, b :: 0 <= a < |m| && 0 <= b < |m| ==> table[a][b] == Shown(Dist(m, |m|, a, b))
  {
    var V := |m|;
    dist := new int[V, V]((a, b) requires 0 <= a < V && 0 <= b < V => m[a][b]);
    Relax(dist, m);
    table := [];
    for a := 0 to V
      invariant |table| == a
      invariant forall x :: 0 <= x < a ==> |table[x]| == V
      invariant forall x, b :: 0 <= x < a && 0 <= b < V ==> table[x][b] == Shown(dist[x, b])
    {
      var row: seq<Cell> := [];
      for b := 0 to V
        invariant |row| == b
        invariant forall y :: 0 <= y < b ==> row[y] == Shown(dist[a, y])
      {
        row := row + [Shown(dist[a, b])];
      }
      table := table + [row];
    }
  }
}
