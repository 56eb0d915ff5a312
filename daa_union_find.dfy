/**
 * music/DAA/all.c, section "kruskal.c": the union-find arrays. `find` follows parent
 * pointers to the root and compresses the path behind it; `uni` links the two roots by
 * rank. The ranks are what make the pointer chains finite: along every parent pointer
 * the rank strictly grows.
 */
module UnionFind {

  /** Parent pointers stay inside the array and climb strictly in rank; ranks stay below the size. */
  ghost predicate Forest(parent: seq<int>, rank: seq<int>) {
    |parent| == |rank| &&
    forall x {:trigger parent[x]} :: 0 <= x < |parent| ==>
      0 <= parent[x] < |parent| && 0 <= rank[x] < |parent| && (parent[x] != x ==> rank[x] < rank[parent[x]])
  }

  /** The root reached from x by parent pointers. */
  ghost function Root(parent: seq<int>, rank: seq<int>, x: nat): (r: nat)
    requires Forest(parent, rank) && x < |parent|
    ensures r < |parent| && parent[r] == r && rank[x] <= rank[r]
    ensures parent[x] != x ==> rank[x] < rank[r]
    decreases |parent| - rank[x]
  {
    if parent[x] == x then x else Root(parent, rank, parent[x])
  }

  /** Two elements are in the same set. */
  ghost predicate Same(parent: seq<int>, rank: seq<int>, a: nat, b: nat)
    requires Forest(parent, rank) && a < |parent| && b < |parent|
  {
    Root(parent, rank, a) == Root(parent, rank, b)
  }

  /** The sets after merging the sets of x and y: a and b were together, or one was with x and the other with y. */
  ghost predicate Joined(parent: seq<int>, rank: seq<int>, x: nat, y: nat, a: nat, b: nat)
    requires Forest(parent, rank) && x < |parent| && y < |parent| && a < |parent| && b < |parent|
  {
    Same(parent, rank, a, b) || (Same(parent, rank, a, x) && Same(parent, rank, b, y)) ||
    (Same(parent, rank, a, y) && Same(parent, rank, b, x))
  }

  /** The ranks only bound the chains; which root is reached does not depend on them. */
  lemma {:induction false} RootRanks(parent: seq<int>, rank1: seq<int>, rank2: seq<int>, x: nat)
    requires Forest(parent, rank1) && Forest(parent, rank2) && x < |parent|
    ensures Root(parent, rank1, x) == Root(parent, rank2, x)
    decreases |parent| - rank1[x]
  {
    if parent[x] != x {
      RootRanks(parent, rank1, rank2, parent[x]);
    }
  }

  /** Pointing i straight at its root leaves every root unchanged. */
  lemma {:induction false} CompressRoot(parent: seq<int>, rank: seq<int>, i: nat, parent2: seq<int>, x: nat)
    requires Forest(parent, rank) && i < |parent| && parent2 == parent[i := Root(parent, rank, i)]
    requires Forest(parent2, rank) && x < |parent|
    ensures Root(parent2, rank, x) == Root(parent, rank, x)
    decreases |parent| - rank[x]
  {
    if x == i {
      var r := Root(parent, rank, i);
      if r != i {
        assert parent2[r] == r;
      }
    } else if parent[x] != x {
      CompressRoot(parent, rank, i, parent2, parent[x]);
    }
  }

  lemma Compress(parent: seq<int>, rank: seq<int>, i: nat, parent2: seq<int>)
    requires Forest(parent, rank) && i < |parent| && parent2 == parent[i := Root(parent, rank, i)]
    ensures Forest(parent2, rank)
    ensures forall x :: 0 <= x < |parent| ==> Root(parent2, rank, x) == Root(parent, rank, x)
  {
    forall x | 0 <= x < |parent2|
      ensures 0 <= parent2[x] < |parent2| && 0 <= rank[x] < |parent2|
      ensures parent2[x] != x ==> rank[x] < rank[parent2[x]]
    {
      if x != i {
        assert parent2[x] == parent[x];
      }
    }
    assert Forest(parent2, rank);
    forall x | 0 <= x < |parent| ensures Root(parent2, rank, x) == Root(parent, rank, x) {
      CompressRoot(parent, rank, i, parent2, x);
    }
  }

  /**
   * `find(parent, i)`: returns the root of i, leaves i pointing at it, and changes no
   * root (only pointers at or above i's rank move).
   */
  method Find(parent: array<int>, i: nat, ghost rank: seq<int>) returns (root: nat)
    requires Forest(parent[..], rank) && i < parent.Length
    modifies parent
    ensures root == Root(old(parent[..]), rank, i) && parent[i] == root && parent[root] == root
    ensures Forest(parent[..], rank)
    ensures forall x :: 0 <= x < parent.Length ==> Root(parent[..], rank, x) == Root(old(parent[..]), rank, x)
    ensures forall x :: 0 <= x < parent.Length && rank[x] < rank[i] ==> parent[x] == old(parent[x])
    decreases parent.Length - rank[i]
  {
    ghost var p0 := parent[..];
    if parent[i] != i {
      var r := Find(parent, parent[i], rank);
      ghost var p1 := parent[..];
      assert p1[i] == p0[i];
      assert r == Root(p1, rank, i);
      parent[i] := r;
      Compress(p1, rank, i, parent[..]);
    }
    root := parent[i];
    assert Root(parent[..], rank, i) == root;
  }

  /** Hanging root a under root b sends every element of a's set to b and leaves the other roots. */
  lemma {:induction false} LinkRoot(parent: seq<int>, rank: seq<int>, parent2: seq<int>, rank2: seq<int>, a: nat, b: nat, z: nat)
    requires Forest(parent, rank) && Forest(parent2, rank2) && a < |parent| && b < |parent| && z < |parent|
    requires parent[a] == a && parent[b] == b && parent2 == parent[a := b]
    ensures Root(parent2, rank2, z) == if Root(parent, rank, z) == a then b else Root(parent, rank, z)
    decreases |parent| - rank[z]
  {
    if parent[z] != z {
      LinkRoot(parent, rank, parent2, rank2, a, b, parent[z]);
    } else if z == a && a != b {
      assert parent2[b] == b;
    }
  }

  /** Case analysis on root values: mapping the roots rx and ry to one of them merges exactly their two sets. */
  lemma Classes(ra: nat, rb: nat, rx: nat, ry: nat, t: nat, ta: nat, tb: nat)
    requires t == rx || t == ry
    requires ta == (if ra == rx || ra == ry then t else ra) && tb == (if rb == rx || rb == ry then t else rb)
    ensures ta == tb <==> ra == rb || (ra == rx && rb == ry) || (ra == ry && rb == rx)
  {
  }

  /**
   * In terms of sets: if every root of x's or y's set becomes one of those two roots and the
   * other roots stay, then a and b end up together exactly when they were, or one was with
   * x and the other with y.
   */
  lemma UnionSets(p0: seq<int>, r0: seq<int>, p2: seq<int>, r2: seq<int>, x0: nat, y0: nat, a: nat, b: nat)
    requires Forest(p0, r0) && Forest(p2, r2) && x0 < |p0| && y0 < |p0| && a < |p0| && b < |p0| && |p2| == |p0|
    requires Merged(p0, r0, p2, r2, x0, y0)
    ensures Same(p2, r2, a, b) <==> Joined(p0, r0, x0, y0, a, b)
  {
    var x, y := Root(p0, r0, x0), Root(p0, r0, y0);
    assert Root(p0, r0, x) == x && Root(p0, r0, y) == y;
    Classes(Root(p0, r0, a), Root(p0, r0, b), x, y, Root(p2, r2, x0), Root(p2, r2, a), Root(p2, r2, b));
  }

  /**
   * The roots after `uni(x0, y0)`: every element of x0's or y0's set has the root now reached
   * from x0, which is one of the two old roots; every other element keeps its root.
   */
  ghost predicate Merged(p0: seq<int>, r0: seq<int>, p2: seq<int>, r2: seq<int>, x0: nat, y0: nat)
    requires Forest(p0, r0) && Forest(p2, r2) && x0 < |p0| && y0 < |p0| && |p2| == |p0|
  {
    (Root(p2, r2, x0) == Root(p0, r0, x0) || Root(p2, r2, x0) == Root(p0, r0, y0)) &&
    forall z :: 0 <= z < |p0| ==>
      Root(p2, r2, z) == if Root(p0, r0, z) == Root(p0, r0, x0) || Root(p0, r0, z) == Root(p0, r0, y0)
                         then Root(p2, r2, x0) else Root(p0, r0, z)
  }

  /**
   * `uni(parent, rank, x, y)`: afterwards two elements are in one set exactly when they were,
   * or one was with x and the other with y; ranks grow by at most one.
   */
  method Union(parent: array<int>, rank: array<int>, x0: nat, y0: nat)
    requires parent != rank && x0 < parent.Length && y0 < parent.Length
    requires Forest(parent[..], rank[..]) && forall z :: 0 <= z < rank.Length ==> rank[z] + 1 < rank.Length
    modifies parent, rank
    ensures Forest(parent[..], rank[..])
    ensures forall z :: 0 <= z < rank.Length ==> old(rank[z]) <= rank[z] <= old(rank[z]) + 1
    ensures Merged(old(parent[..]), old(rank[..]), parent[..], rank[..], x0, y0)
  {
    ghost var p0, r0 := parent[..], rank[..];
    var x := Find(parent, x0, rank[..]);
    var y := Find(parent, y0, rank[..]);
    ghost var p1 := parent[..];
    if rank[x] < rank[y] {
      parent[x] := y;
    } else if rank[x] > rank[y] {
      parent[y] := x;
    } else {
      parent[y] := x;
      rank[x] := rank[x] + 1;
    }
    Linked(p0, r0, p1, parent[..], rank[..], x0, y0, x, y);
  }

  /** The pointer and rank arrays right after the link are again a forest. */
  lemma LinkForest(p1: seq<int>, r0: seq<int>, p2: seq<int>, r2: seq<int>, lo: nat, hi: nat)
    requires Forest(p1, r0) && |p2| == |p1| && |r2| == |r0| && lo < |p1| && hi < |p1|
    requires forall z :: 0 <= z < |r0| ==> r0[z] + 1 < |r0|
    requires p1[lo] == lo && p1[hi] == hi && p2 == p1[lo := hi]
    requires forall z :: 0 <= z < |r0| ==> r0[z] <= r2[z] <= r0[z] + 1
    requires forall z :: 0 <= z < |r0| && z != hi ==> r2[z] == r0[z]
    requires lo != hi ==> r2[lo] < r2[hi]
    ensures Forest(p2, r2)
  {
    forall z | 0 <= z < |p2| ensures 0 <= p2[z] < |p2| && 0 <= r2[z] < |p2| && (p2[z] != z ==> r2[z] < r2[p2[z]]) {
      if p1[z] != z {
        assert r0[z] < r0[p1[z]];
      }
    }
  }

  lemma Linked(p0: seq<int>, r0: seq<int>, p1: seq<int>, p2: seq<int>, r2: seq<int>, x0: nat, y0: nat, x: nat, y: nat)
    requires Forest(p0, r0) && Forest(p1, r0) && |p0| == |p1| == |p2| == |r2| && x0 < |p0| && y0 < |p0|
    requires forall z :: 0 <= z < |r0| ==> r0[z] + 1 < |r0|
    requires x == Root(p0, r0, x0) && y == Root(p0, r0, y0)
    requires forall z :: 0 <= z < |p1| ==> Root(p1, r0, z) == Root(p0, r0, z)
    requires p1[x] == x && p1[y] == y
    requires r0[x] < r0[y] ==> p2 == p1[x := y] && r2 == r0
    requires r0[x] > r0[y] ==> p2 == p1[y := x] && r2 == r0
    requires r0[x] == r0[y] ==> p2 == p1[y := x] && r2 == r0[x := r0[x] + 1]
    ensures Forest(p2, r2)
    ensures forall z :: 0 <= z < |r0| ==> r0[z] <= r2[z] <= r0[z] + 1
    ensures Merged(p0, r0, p2, r2, x0, y0)
  {
    var hi := if r0[x] < r0[y] then y else x;
    var lo := if r0[x] < r0[y] then x else y;
    LinkForest(p1, r0, p2, r2, lo, hi);
    Relinked(p0, r0, p1, p2, r2, x, y, lo, hi);
    assert Root(p2, r2, x0) == Root(p2, r2, x);
  }

  /** After the link every element of x's or y's set has the new common root; the others keep theirs. */
  lemma Relinked(p0: seq<int>, r0: seq<int>, p1: seq<int>, p2: seq<int>, r2: seq<int>, x: nat, y: nat, lo: nat, hi: nat)
    requires Forest(p0, r0) && Forest(p1, r0) && Forest(p2, r2) && |p0| == |p1| == |p2| && x < |p0| && y < |p0|
    requires forall z :: 0 <= z < |p1| ==> Root(p1, r0, z) == Root(p0, r0, z)
    requires (lo == x && hi == y) || (lo == y && hi == x)
    requires p1[x] == x && p1[y] == y && p2 == p1[lo := hi]
    ensures Root(p2, r2, x) == x || Root(p2, r2, x) == y
    ensures forall z :: 0 <= z < |p0| ==>
      Root(p2, r2, z) == if Root(p0, r0, z) == x || Root(p0, r0, z) == y then Root(p2, r2, x) else Root(p0, r0, z)
  {
    LinkRoot(p1, r0, p2, r2, lo, hi, x);
    forall z | 0 <= z < |p0| ensures Root(p2, r2, z) == if Root(p0, r0, z) == x || Root(p0, r0, z) == y then Root(p2, r2, x) else Root(p0, r0, z) {
      LinkRoot(p1, r0, p2, r2, lo, hi, z);
    }
  }
}
