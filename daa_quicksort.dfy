/**
 * music/DAA/all.c, section "quicksort": Lomuto partition around the last element and
 * the recursive quicksort over arr[l..h], both in place.
 */
module QuickSort {

  ghost predicate SortedRange(a: seq<int>, l: int, h: int)
    requires 0 <= l && h < |a|
  {
    forall i, j :: l <= i < j <= h ==> a[i] <= a[j]
  }

  /** `a` is `b` with the entries of [l, h] permuted and every other entry unchanged. */
  ghost predicate Perm(a: seq<int>, b: seq<int>, l: int, h: int) {
    |a| == |b| && 0 <= l <= h + 1 <= |a| &&
    multiset(a[l..h + 1]) == multiset(b[l..h + 1]) &&
    forall k :: 0 <= k < |a| && !(l <= k <= h) ==> a[k] == b[k]
  }

  lemma PermTrans(a: seq<int>, b: seq<int>, c: seq<int>, l: int, h: int)
    requires Perm(a, b, l, h) && Perm(b, c, l, h)
    ensures Perm(a, c, l, h)
  {
  }

  /** Entries l..i are at most the pivot. */
  ghost predicate Low(a: seq<int>, l: int, i: int, pivot: int)
    requires 0 <= l && i < |a|
  {
    forall k :: l <= k <= i ==> a[k] <= pivot
  }

  /** Entries strictly between i and j exceed the pivot. */
  ghost predicate High(a: seq<int>, i: int, j: int, pivot: int)
    requires -1 <= i && j <= |a|
  {
    forall k :: i < k < j ==> a[k] > pivot
  }

  /** `swap(&arr[i], &arr[j])` for two positions inside [l, h]. */
  method Swap(a: array<int>, l: int, h: int, i: int, j: int)
    requires 0 <= l <= i <= h < a.Length && l <= j <= h
    modifies a
    ensures a[..] == old(a[..])[i := old(a[j])][j := old(a[i])]
    ensures Perm(a[..], old(a[..]), l, h)
  {
    a[i], a[j] := a[j], a[i];
    SwapPerm(old(a[..]), a[..], l, h, i, j);
  }

  lemma SwapPerm(s: seq<int>, s2: seq<int>, l: int, h: int, i: int, j: int)
    requires 0 <= l <= i <= h < |s| && l <= j <= h
    requires s2 == s[i := s[j]][j := s[i]]
    ensures Perm(s2, s, l, h)
  {
    var r := s[l..h + 1];
    assert s2[l..h + 1] == r[i - l := r[j - l]][j - l := r[i - l]];
  }

  /** The loop step of `partition` when arr[j] <= pivot: swapping it to position i + 1 extends the low part. */
  lemma SwapKeeps(s: seq<int>, s2: seq<int>, l: int, h: int, i: int, j: int, pivot: int)
    requires 0 <= l <= i + 1 <= j < h < |s| && s[h] == pivot && s[j] <= pivot
    requires Low(s, l, i, pivot) && High(s, i, j, pivot)
    requires s2 == s[i + 1 := s[j]][j := s[i + 1]]
    ensures Low(s2, l, i + 1, pivot) && High(s2, i + 1, j + 1, pivot) && s2[h] == pivot
  {
  }

  /**
   * `partition`: returns p in [l, h] with everything in [l, p) at most arr[p] and
   * everything in (p, h] greater, arr[l..h] permuted and the rest untouched.
   */
  method Partition(a: array<int>, l: int, h: int) returns (p: int)
    requires 0 <= l <= h < a.Length
    modifies a
    ensures l <= p <= h
    ensures Low(a[..], l, p - 1, a[p]) && High(a[..], p, h + 1, a[p])
    ensures Perm(a[..], old(a[..]), l, h)
  {
    ghost var s0 := a[..];
    var pivot := a[h];
    var i := l - 1;
    for j := l to h
      invariant l - 1 <= i < j && a[h] == pivot
      invariant Low(a[..], l, i, pivot) && High(a[..], i, j, pivot)
      invariant Perm(a[..], s0, l, h)
    {
      if a[j] <= pivot {
        ghost var s := a[..];
        Swap(a, l, h, i + 1, j);
        SwapKeeps(s, a[..], l, h, i, j, pivot);
        PermTrans(a[..], s, s0, l, h);
        i := i + 1;
      }
    }
    ghost var s := a[..];
    Swap(a, l, h, i + 1, h);
    PermTrans(a[..], s, s0, l, h);
    p := i + 1;
    assert Low(a[..], l, p - 1, a[p]) by { assert Low(s, l, i, pivot); }
    assert High(a[..], p, h + 1, a[p]) by { assert High(s, i, h, pivot); }
  }

  /** `quicksort(arr, l, h)`: arr[l..h] ends sorted and permuted, the rest untouched (l may be h + 1). */
  method Sort(a: array<int>, l: int, h: int)
    requires 0 <= l <= h + 1 <= a.Length
    modifies a
    ensures SortedRange(a[..], l, h)
    ensures Perm(a[..], old(a[..]), l, h)
    decreases h - l
  {
    if l < h {
      ghost var a0 := a[..];
      var p := Partition(a, l, h);
      ghost var a1 := a[..];
      Sort(a, l, p - 1);
      ghost var a2 := a[..];
      Sort(a, p + 1, h);
      ghost var a3 := a[..];
      Combine(a1, a2, a3, l, p, h);
      PermTrans(a3, a1, a0, l, h);
    }
  }

  /** An entry of a permuted range equals some entry of the original range. */
  lemma PermMember(a: seq<int>, b: seq<int>, l: int, h: int, k: int) returns (t: int)
    requires Perm(a, b, l, h) && l <= k <= h
    ensures l <= t <= h && b[t] == a[k]
  {
    assert a[k] in multiset(a[l..h + 1]);
    assert a[k] in multiset(b[l..h + 1]);
    var u :| 0 <= u < h + 1 - l && b[l..h + 1][u] == a[k];
    t := l + u;
  }

  /** The pivot's bounds survive the recursive sorts, so the whole range ends sorted. */
  lemma Combine(a1: seq<int>, a2: seq<int>, a3: seq<int>, l: int, p: int, h: int)
    requires 0 <= l <= p <= h < |a1|
    requires Low(a1, l, p - 1, a1[p]) && High(a1, p, h + 1, a1[p])
    requires Perm(a2, a1, l, p - 1) && SortedRange(a2, l, p - 1)
    requires Perm(a3, a2, p + 1, h) && SortedRange(a3, p + 1, h)
    ensures SortedRange(a3, l, h)
    ensures Perm(a3, a1, l, h)
  {
    forall k | l <= k < p ensures a3[k] <= a3[p] {
      var t := PermMember(a2, a1, l, p - 1, k);
    }
    forall k | p < k <= h ensures a3[k] > a3[p] {
      var t := PermMember(a3, a2, p + 1, h, k);
    }
    PermSplit(a1, a2, a3, l, p, h);
  }

  lemma PermSplit(a1: seq<int>, a2: seq<int>, a3: seq<int>, l: int, p: int, h: int)
    requires 0 <= l <= p <= h < |a1|
    requires Perm(a2, a1, l, p - 1) && Perm(a3, a2, p + 1, h)
    ensures Perm(a3, a1, l, h)
  {
    assert a1[l..h + 1] == a1[l..p] + [a1[p]] + a1[p + 1..h + 1];
    assert a2[l..h + 1] == a2[l..p] + [a2[p]] + a2[p + 1..h + 1];
    assert a3[l..h + 1] == a3[l..p] + [a3[p]] + a3[p + 1..h + 1];
    assert a2[p + 1..h + 1] == a1[p + 1..h + 1];
    assert a3[l..p] == a2[l..p];
  }

  /**
   * Two sorted sequences with the same elements are equal: the result of `Sort` is
   * determined by its input (the section's `main` prints 1 5 7 8 9 10 for {10,7,8,9,1,5}).
   */
  lemma {:induction false} SortedUnique(s: seq<int>, t: seq<int>)
    requires SortedRange(s, 0, |s| - 1) && SortedRange(t, 0, |t| - 1) && multiset(s) == multiset(t)
    ensures s == t
    decreases |s|
  {
    assert |t| == |multiset(t)| == |multiset(s)| == |s|;
    if |s| > 0 {
      SameHead(s, t);
      SameTail(s, t);
      SortedUnique(s[1..], t[1..]);
      assert s == [s[0]] + s[1..] && t == [t[0]] + t[1..];
    }
  }

  /** Both heads are the least element of the common multiset. */
  lemma SameHead(s: seq<int>, t: seq<int>)
    requires |s| > 0 && |t| > 0
    requires SortedRange(s, 0, |s| - 1) && SortedRange(t, 0, |t| - 1) && multiset(s) == multiset(t)
    ensures s[0] == t[0]
  {
    assert s[0] in multiset(t) && t[0] in multiset(s);
    var x :| 0 <= x < |t| && t[x] == s[0];
    var y :| 0 <= y < |s| && s[y] == t[0];
    assert t[0] <= t[x] && s[0] <= s[y];
  }

  lemma SameTail(s: seq<int>, t: seq<int>)
    requires |s| > 0 && |t| > 0 && s[0] == t[0] && multiset(s) == multiset(t)
    ensures multiset(s[1..]) == multiset(t[1..])
  {
    assert s == [s[0]] + s[1..] && t == [t[0]] + t[1..];
    assert multiset(s) == multiset{s[0]} + multiset(s[1..]);
    assert multiset(t) == multiset{t[0]} + multiset(t[1..]);
    forall x ensures multiset(s[1..])[x] == multiset(t[1..])[x] {
      assert multiset(s)[x] == multiset{s[0]}[x] + multiset(s[1..])[x];
      assert multiset(t)[x] == multiset{t[0]}[x] + multiset(t[1..])[x];
    }
  }
}
