/** Cardinality facts about index sets, used by the schedulers' termination and coverage proofs. */
module Counting {

  /** No entry occurs twice. */
  ghost predicate Distinct(s: seq<nat>) {
    forall i, j :: 0 <= i < j < |s| ==> s[i] != s[j]
  }

  ghost function Elems(s: seq<nat>): set<nat> {
    set x | x in s
  }

  ghost function RangeSet(n: nat): set<nat> {
    if n == 0 then {} else RangeSet(n - 1) + {n - 1}
  }

  lemma {:induction false} RangeSetMember(n: nat, x: nat)
    ensures x in RangeSet(n) <==> x < n
  {
    if n > 0 {
      RangeSetMember(n - 1, x);
    }
  }

  lemma {:induction false} RangeSetCard(n: nat)
    ensures |RangeSet(n)| == n
  {
    if n > 0 {
      RangeSetCard(n - 1);
      RangeSetMember(n - 1, n - 1);
    }
  }

  lemma {:induction false} ElemsCard(s: seq<nat>)
    ensures |Elems(s)| <= |s|
  {
    if s != [] {
      ElemsCard(s[1..]);
      var b := Elems(s[1..]);
      forall x | x in Elems(s) ensures x in b + {s[0]} {
        if x != s[0] {
          var k :| 0 <= k < |s| && s[k] == x;
          assert s[1..][k - 1] == x;
        }
      }
      SubsetCard(Elems(s), b + {s[0]});
      if s[0] in b {
        assert b + {s[0]} == b;
      } else {
        assert |b + {s[0]}| == |b| + 1;
      }
    }
  }

  lemma SubsetCard(a: set<nat>, b: set<nat>)
    requires a <= b
    ensures |a| <= |b|
  {
    if a != {} {
      var x :| x in a;
      SubsetCard(a - {x}, b - {x});
    }
  }

  /** A sequence of distinct indices below n has at most n elements. */
  lemma DistinctBound(s: seq<nat>, n: nat)
    requires forall k :: 0 <= k < |s| ==> s[k] < n
    requires forall a, b :: 0 <= a < b < |s| ==> s[a] != s[b]
    ensures |s| <= n
  {
    DistinctElemsCard(s, |s|);
    assert s[..|s|] == s;
    forall x | x in Elems(s) ensures x in RangeSet(n) {
      RangeSetMember(n, x);
    }
    SubsetCard(Elems(s), RangeSet(n));
    RangeSetCard(n);
  }

  /** A subset of {0..n-1} with n elements is all of it. */
  lemma SubsetFull(a: set<nat>, n: nat, i: nat)
    requires forall x :: x in a ==> x < n
    requires |a| >= n && i < n
    ensures i in a
  {
    if i !in a {
      forall x | x in a ensures x in RangeSet(n) - {i} {
        RangeSetMember(n, x);
      }
      SubsetCard(a, RangeSet(n) - {i});
      RangeSetCard(n);
      RangeSetMember(n, i);
    }
  }

  /** A subset of {0..n-1} that misses some i < n has fewer than n elements. */
  lemma MissingBound(a: set<nat>, n: nat, i: nat)
    requires forall x :: x in a ==> x < n
    requires i < n && i !in a
    ensures |a| < n
  {
    forall x | x in a ensures x in RangeSet(n) - {i} {
      RangeSetMember(n, x);
    }
    SubsetCard(a, RangeSet(n) - {i});
    RangeSetCard(n);
    RangeSetMember(n, i);
  }

  /** Fewer than n entries leave some index below n out. */
  lemma Missing(s: seq<nat>, n: nat) returns (r: nat)
    requires |s| < n
    ensures r < n && r !in s
  {
    ElemsCard(s);
    RangeSetCard(n);
    if RangeSet(n) <= Elems(s) {
      SubsetCard(RangeSet(n), Elems(s));
    }
    var x :| x in RangeSet(n) && x !in Elems(s);
    RangeSetMember(n, x);
    r := x;
  }

  lemma DistinctCovers(s: seq<nat>, n: nat, i: nat)
    requires |s| == n && i < n
    requires forall k :: 0 <= k < |s| ==> s[k] < n
    requires forall a, b :: 0 <= a < b < |s| ==> s[a] != s[b]
    ensures i in s
  {
    if i !in s {
      DistinctElemsCard(s, |s|);
      assert s[..|s|] == s;
      forall x | x in Elems(s) ensures x in RangeSet(n) - {i} {
        RangeSetMember(n, x);
      }
      SubsetCard(Elems(s), RangeSet(n) - {i});
      RangeSetCard(n);
      RangeSetMember(n, i);
      assert false;
    }
  }

  lemma {:induction false} DistinctElemsCard(s: seq<nat>, k: nat)
    requires k <= |s|
    requires forall a, b :: 0 <= a < b < |s| ==> s[a] != s[b]
    ensures |Elems(s[..k])| == k
  {
    if k > 0 {
      DistinctElemsCard(s, k - 1);
      assert Elems(s[..k]) == Elems(s[..k - 1]) + {s[k - 1]} by {
        assert s[..k] == s[..k - 1] + [s[k - 1]];
      }
      assert s[k - 1] !in Elems(s[..k - 1]);
    }
  }

  /** How many times x occurs in s. */
  function Occ(s: seq<nat>, x: nat): nat {
    if |s| == 0 then 0 else Occ(s[..|s| - 1], x) + (if s[|s| - 1] == x then 1 else 0)
  }

  lemma {:induction false} OccAppend(s: seq<nat>, t: seq<nat>, x: nat)
    ensures Occ(s + t, x) == Occ(s, x) + Occ(t, x)
  {
    if |t| == 0 {
      assert s + t == s;
    } else {
      var t0 := t[..|t| - 1];
      OccAppend(s, t0, x);
      assert (s + t)[..|s + t| - 1] == s + t0;
    }
  }

  lemma OccFront(s: seq<nat>, x: nat)
    requires |s| > 0
    ensures Occ(s, x) == (if s[0] == x then 1 else 0) + Occ(s[1..], x)
  {
    assert s == [s[0]] + s[1..];
    OccAppend([s[0]], s[1..], x);
    assert [s[0]][..0] == [];
  }

  /** A sequence in which each element of S occurs at most once, and nothing else occurs, has at most |S| elements. */
  lemma {:induction false} OccBound(s: seq<nat>, S: set<nat>)
    requires forall x: nat :: Occ(s, x) <= (if x in S then 1 else 0)
    ensures |s| <= |S|
  {
    if |s| > 0 {
      var x := s[0];
      OccFront(s, x);
      forall y: nat ensures Occ(s[1..], y) <= (if y in S - {x} then 1 else 0) {
        OccFront(s, y);
      }
      OccBound(s[1..], S - {x});
    }
  }

  /** Each index occurs at most once and only indices below n occur: at most n elements. */
  lemma OccRange(s: seq<nat>, n: nat)
    requires forall x: nat :: Occ(s, x) <= (if x < n then 1 else 0)
    ensures |s| <= n
  {
    forall x: nat ensures Occ(s, x) <= (if x in RangeSet(n) then 1 else 0) {
      RangeSetMember(n, x);
    }
    OccBound(s, RangeSet(n));
    RangeSetCard(n);
  }
}
