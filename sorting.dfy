/**
 * The exchange sort that the C simulators write out by hand:
 *   for i in 0 .. n-2, for j in i+1 .. n-1, swap a[i] and a[j] when a[i] is "greater" than a[j].
 * `greater` is the swap test; it only has to be a strict order (irreflexive and transitive).
 */
module Sorting {

  ghost predicate StrictOrder<T(!new)>(greater: (T, T) -> bool) {
    (forall x :: !greater(x, x)) &&
    (forall x, y, z :: greater(x, y) && greater(y, z) ==> greater(x, z))
  }

  /** No element is "greater" than an element that comes after it. */
  predicate SortedBy<T>(s: seq<T>, greater: (T, T) -> bool) {
    forall i, j :: 0 <= i < j < |s| ==> !greater(s[i], s[j])
  }

  /** The first i slots are final: none of them is "greater" than anything after it. */
  ghost predicate Settled<T>(s: seq<T>, greater: (T, T) -> bool, i: nat) {
    forall k, l :: 0 <= k < l < |s| && k < i ==> !greater(s[k], s[l])
  }

  method ExchangeSort<T(!new)>(a: array<T>, greater: (T, T) -> bool)
    requires StrictOrder(greater)
    modifies a
    ensures SortedBy(a[..], greater)
    ensures multiset(a[..]) == multiset(old(a[..]))
  {
    var n := a.Length;
    var i := 0;
    while i + 1 < n
      invariant 0 <= i && (n == 0 || i <= n - 1)
      invariant multiset(a[..]) == multiset(old(a[..]))
      invariant Settled(a[..], greater, i)
    {
      Pass(a, i, greater);
      i := i + 1;
    }
    if n > 0 {
      SettledLast(a[..], greater, i);
    }
  }

  /** Once all but the last slot are final, the whole sequence is sorted. */
  lemma SettledLast<T>(s: seq<T>, greater: (T, T) -> bool, i: nat)
    requires i + 1 == |s| && Settled(s, greater, i)
    ensures SortedBy(s, greater)
  {
  }

  /** One pass of the inner loop: afterwards a[i] is not greater than anything after it. */
  method Pass<T(!new)>(a: array<T>, i: nat, greater: (T, T) -> bool)
    requires StrictOrder(greater)
    requires i < a.Length
    requires Settled(a[..], greater, i)
    modifies a
    ensures multiset(a[..]) == multiset(old(a[..]))
    ensures Settled(a[..], greater, i + 1)
  {
    var n := a.Length;
    var j := i + 1;
    while j < n
      invariant i < j <= n
      invariant multiset(a[..]) == multiset(old(a[..]))
      invariant Settled(a[..], greater, i)
      invariant forall l :: i < l < j ==> !greater(a[i], a[l])
    {
      ghost var s := a[..];
      if greater(a[i], a[j]) {
        Swap(a, i, j);
        SwapStep(s, greater, i, j, a[..]);
      }
      j := j + 1;
    }
    PassDone(a[..], greater, i);
  }

  /** Swapping a[i] with a later a[j] that it is greater than keeps the pass's invariant. */
  lemma SwapStep<T(!new)>(s: seq<T>, greater: (T, T) -> bool, i: nat, j: nat, t: seq<T>)
    requires StrictOrder(greater)
    requires i < j < |s| && Settled(s, greater, i)
    requires forall l :: i < l < j ==> !greater(s[i], s[l])
    requires greater(s[i], s[j]) && t == s[i := s[j]][j := s[i]]
    ensures Settled(t, greater, i)
    ensures forall l :: i < l <= j ==> !greater(t[i], t[l])
  {
    forall l | i < l <= j ensures !greater(t[i], t[l]) {
      if l == j {
        Asymmetric(greater, s[i], s[j]);
      } else {
        BelowStaysBelow(greater, s[i], s[j], s[l]);
      }
    }
  }

  lemma Asymmetric<T(!new)>(greater: (T, T) -> bool, x: T, y: T)
    requires StrictOrder(greater) && greater(x, y)
    ensures !greater(y, x)
  {
  }

  /** If x is greater than y but not than z, neither is y. */
  lemma BelowStaysBelow<T(!new)>(greater: (T, T) -> bool, x: T, y: T, z: T)
    requires StrictOrder(greater) && greater(x, y) && !greater(x, z)
    ensures !greater(y, z)
  {
  }

  /** At the end of the pass, slot i is final too. */
  lemma PassDone<T>(s: seq<T>, greater: (T, T) -> bool, i: nat)
    requires i < |s| && Settled(s, greater, i)
    requires forall l :: i < l < |s| ==> !greater(s[i], s[l])
    ensures Settled(s, greater, i + 1)
  {
  }

  method Swap<T>(a: array<T>, i: nat, j: nat)
    requires i < j < a.Length
    modifies a
    ensures a[..] == old(a[..])[i := old(a[j])][j := old(a[i])]
    ensures multiset(a[..]) == multiset(old(a[..]))
  {
    a[i], a[j] := a[j], a[i];
  }

  /** Sorts a copy of `s`; the source sorts a local copy of its table the same way. */
  method SortedCopy<T(!new)>(s: seq<T>, greater: (T, T) -> bool) returns (r: seq<T>)
    requires StrictOrder(greater)
    ensures SortedBy(r, greater)
    ensures multiset(r) == multiset(s)
  {
    var a := new T[|s|](i requires 0 <= i < |s| => s[i]);
    assert a[..] == s;
    ExchangeSort(a, greater);
    r := a[..];
  }
}
