/**
 * The placement rules shared by music/os_project/memory_allocation.c and
 * music/memory_allocation.py. Processes are placed one after another, in input order;
 * each takes one free block that is large enough, chosen by the strategy:
 *  - first fit: the free fitting block of lowest index;
 *  - best fit: the free fitting block of least leftover (block - process), lowest index on ties;
 *  - worst fit: the free fitting block of greatest size, lowest index on ties. The scan
 *    starts from a best size of -1 and only takes a strictly larger block, so a block of
 *    negative size is never taken.
 * A process that finds no such block is not allocated (index -1), and a taken block is
 * never offered again.
 */
module FitRules {

  datatype Strategy = FirstFit | BestFit | WorstFit

  /** Block j exists, is free and is at least `size` large. */
  predicate Fits(blocks: seq<int>, used: seq<bool>, size: int, j: int) {
    0 <= j < |blocks| && j < |used| && !used[j] && blocks[j] >= size
  }

  /** Block j may be taken under strategy s. */
  predicate Candidate(s: Strategy, blocks: seq<int>, used: seq<bool>, size: int, j: int) {
    Fits(blocks, used, size, j) && (s == WorstFit ==> blocks[j] > -1)
  }

  /**
   * Block r (of size br) is at least as good as block j (of size bj). Best fit compares
   * leftovers `b - size` for one process, which order blocks as their sizes do.
   */
  predicate Prefer(s: Strategy, r: int, br: int, j: int, bj: int) {
    match s
    case FirstFit => r <= j
    case BestFit => br < bj || (br == bj && r <= j)
    case WorstFit => br > bj || (br == bj && r <= j)
  }

  /** `r` is the block a process of `size` receives when `used` marks the taken blocks (-1: none). */
  ghost predicate Chosen(s: Strategy, blocks: seq<int>, used: seq<bool>, size: int, r: int) {
    if r == -1 then forall j :: 0 <= j < |blocks| ==> !Candidate(s, blocks, used, size, j)
    else Candidate(s, blocks, used, size, r)
         && forall j :: 0 <= j < |blocks| && Candidate(s, blocks, used, size, j) ==> Prefer(s, r, blocks[r], j, blocks[j])
  }

  /** Each strategy's rule picks at most one block. */
  lemma ChosenUnique(s: Strategy, blocks: seq<int>, used: seq<bool>, size: int, r1: int, r2: int)
    requires Chosen(s, blocks, used, size, r1) && Chosen(s, blocks, used, size, r2)
    ensures r1 == r2
  {
    if r1 != -1 && r2 != -1 {
      assert Prefer(s, r1, blocks[r1], r2, blocks[r2]) && Prefer(s, r2, blocks[r2], r1, blocks[r1]);
    }
  }

  /** A process is left unallocated exactly when no block may be taken for it. */
  lemma UnallocatedIff(s: Strategy, blocks: seq<int>, used: seq<bool>, size: int, r: int)
    requires Chosen(s, blocks, used, size, r)
    ensures r == -1 <==> forall j :: 0 <= j < |blocks| ==> !Candidate(s, blocks, used, size, j)
    ensures r != -1 ==> 0 <= r < |blocks| && !used[r] && blocks[r] >= size
  {
    if r != -1 {
      assert Candidate(s, blocks, used, size, r);
    }
  }

  // ---------------------------------------------------------------------------
  // The scans of the three strategies, as both programs run them

  /** First fit: the first free block that is large enough. */
  method FirstFitScan(blocks: seq<int>, used: seq<bool>, size: int) returns (r: int)
    requires |used| == |blocks|
    ensures Chosen(FirstFit, blocks, used, size, r)
  {
    var j := 0;
    while j < |blocks|
      invariant 0 <= j <= |blocks|
      invariant forall l :: 0 <= l < j ==> !Fits(blocks, used, size, l)
    {
      if !used[j] && blocks[j] >= size {
        return j;
      }
      j := j + 1;
    }
    r := -1;
  }

  /** Best fit: keep the fitting block of strictly smaller leftover. */
  method BestFitScan(blocks: seq<int>, used: seq<bool>, size: int) returns (r: int)
    requires |used| == |blocks|
    ensures Chosen(BestFit, blocks, used, size, r)
  {
    r := -1;
    var bestDiff := -1;
    for j := 0 to |blocks|
      invariant r == -1 ==> forall l :: 0 <= l < j ==> !Fits(blocks, used, size, l)
      invariant r != -1 ==> 0 <= r < j && Fits(blocks, used, size, r) && bestDiff == blocks[r] - size
      invariant r != -1 ==> forall l :: 0 <= l < j && Fits(blocks, used, size, l) ==>
                               Prefer(BestFit, r, blocks[r], l, blocks[l])
    {
      if !used[j] && blocks[j] >= size {
        var diff := blocks[j] - size;
        if r == -1 || diff < bestDiff {
          bestDiff := diff;
          r := j;
        }
      }
    }
  }

  /** Worst fit: keep the fitting block of strictly larger size, starting from size -1. */
  method WorstFitScan(blocks: seq<int>, used: seq<bool>, size: int) returns (r: int)
    requires |used| == |blocks|
    ensures Chosen(WorstFit, blocks, used, size, r)
  {
    r := -1;
    var worstSize := -1;
    for j := 0 to |blocks|
      invariant r == -1 ==> worstSize == -1 && forall l :: 0 <= l < j ==> !Candidate(WorstFit, blocks, used, size, l)
      invariant r != -1 ==> 0 <= r < j && Candidate(WorstFit, blocks, used, size, r) && worstSize == blocks[r]
      invariant r != -1 ==> forall l :: 0 <= l < j && Candidate(WorstFit, blocks, used, size, l) ==>
                               Prefer(WorstFit, r, blocks[r], l, blocks[l])
    {
      if !used[j] && blocks[j] >= size {
        if blocks[j] > worstSize {
          worstSize := blocks[j];
          r := j;
        }
      }
    }
  }

  /** The scan of strategy s. */
  method Scan(s: Strategy, blocks: seq<int>, used: seq<bool>, size: int) returns (r: int)
    requires |used| == |blocks|
    ensures Chosen(s, blocks, used, size, r)
  {
    match s
    case FirstFit => r := FirstFitScan(blocks, used, size);
    case BestFit => r := BestFitScan(blocks, used, size);
    case WorstFit => r := WorstFitScan(blocks, used, size);
  }

  // ---------------------------------------------------------------------------
  // Whole allocations

  /** The `block_allocated` flags once the processes of `alloc` have been placed. */
  function UsedBy(alloc: seq<int>, n: nat): (u: seq<bool>)
    ensures |u| == n
    ensures forall j :: 0 <= j < n ==> (u[j] <==> j in alloc)
  {
    seq(n, j => j in alloc)
  }

  lemma UsedStep(alloc: seq<int>, r: int, n: nat, a2: seq<int>)
    requires a2 == alloc + [r] && (r == -1 || 0 <= r < n)
    ensures UsedBy(a2, n) == if r == -1 then UsedBy(alloc, n) else UsedBy(alloc, n)[r := true]
  {
  }

  /** Process k of `alloc` received the block its turn called for. */
  ghost predicate ChosenAt(s: Strategy, blocks: seq<int>, procs: seq<int>, alloc: seq<int>, k: nat) {
    k < |alloc| && k < |procs| && Chosen(s, blocks, UsedBy(alloc[..k], |blocks|), procs[k], alloc[k])
  }

  /** The first |alloc| processes are placed as strategy s places them. */
  ghost predicate AllocatedPrefix(s: Strategy, blocks: seq<int>, procs: seq<int>, alloc: seq<int>) {
    |alloc| <= |procs| && forall k: nat :: k < |alloc| ==> ChosenAt(s, blocks, procs, alloc, k)
  }

  /** `alloc` is the allocation strategy s makes for `procs` in `blocks`. */
  ghost predicate Allocation(s: Strategy, blocks: seq<int>, procs: seq<int>, alloc: seq<int>) {
    |alloc| == |procs| && AllocatedPrefix(s, blocks, procs, alloc)
  }

  lemma AllocExtend(s: Strategy, blocks: seq<int>, procs: seq<int>, alloc: seq<int>, r: int, a2: seq<int>)
    requires AllocatedPrefix(s, blocks, procs, alloc) && |alloc| < |procs|
    requires Chosen(s, blocks, UsedBy(alloc, |blocks|), procs[|alloc|], r) && a2 == alloc + [r]
    ensures AllocatedPrefix(s, blocks, procs, a2)
  {
    forall k: nat | k < |a2| ensures ChosenAt(s, blocks, procs, a2, k) {
      if k < |alloc| {
        assert ChosenAt(s, blocks, procs, alloc, k);
        assert a2[..k] == alloc[..k];
      } else {
        assert a2[..k] == alloc;
      }
    }
  }

  /** Every entry is -1 or a block index, and no block is given to two processes. */
  lemma AllocationValid(s: Strategy, blocks: seq<int>, procs: seq<int>, alloc: seq<int>)
    requires Allocation(s, blocks, procs, alloc)
    ensures forall k :: 0 <= k < |alloc| ==> alloc[k] == -1 || 0 <= alloc[k] < |blocks|
    ensures forall k, l :: 0 <= k < l < |alloc| && alloc[k] != -1 ==> alloc[k] != alloc[l]
    ensures forall k :: 0 <= k < |alloc| && alloc[k] != -1 ==> blocks[alloc[k]] >= procs[k]
  {
    forall k | 0 <= k < |alloc| ensures alloc[k] == -1 || (0 <= alloc[k] < |blocks| && blocks[alloc[k]] >= procs[k]) {
      assert ChosenAt(s, blocks, procs, alloc, k);
      UnallocatedIff(s, blocks, UsedBy(alloc[..k], |blocks|), procs[k], alloc[k]);
    }
    forall k, l | 0 <= k < l < |alloc| && alloc[k] != -1 ensures alloc[k] != alloc[l] {
      assert ChosenAt(s, blocks, procs, alloc, l);
      assert alloc[k] in alloc[..l];
      if alloc[l] != -1 {
        UnallocatedIff(s, blocks, UsedBy(alloc[..l], |blocks|), procs[l], alloc[l]);
      }
    }
  }

  /** The placement is a function of the blocks and processes. */
  lemma {:induction false} AllocationUnique(s: Strategy, blocks: seq<int>, procs: seq<int>, a1: seq<int>, a2: seq<int>)
    requires AllocatedPrefix(s, blocks, procs, a1) && AllocatedPrefix(s, blocks, procs, a2) && |a1| == |a2|
    ensures a1 == a2
  {
    if |a1| > 0 {
      var m := |a1| - 1;
      assert AllocatedPrefix(s, blocks, procs, a1[..m]) by {
        forall k: nat | k < m ensures ChosenAt(s, blocks, procs, a1[..m], k) {
          assert ChosenAt(s, blocks, procs, a1, k);
          assert a1[..m][..k] == a1[..k];
        }
      }
      assert AllocatedPrefix(s, blocks, procs, a2[..m]) by {
        forall k: nat | k < m ensures ChosenAt(s, blocks, procs, a2[..m], k) {
          assert ChosenAt(s, blocks, procs, a2, k);
          assert a2[..m][..k] == a2[..k];
        }
      }
      AllocationUnique(s, blocks, procs, a1[..m], a2[..m]);
      assert ChosenAt(s, blocks, procs, a1, m) && ChosenAt(s, blocks, procs, a2, m);
      ChosenUnique(s, blocks, UsedBy(a1[..m], |blocks|), procs[m], a1[m], a2[m]);
      assert a1 == a1[..m] + [a1[m]] && a2 == a2[..m] + [a2[m]];
    }
  }

  // ---------------------------------------------------------------------------
  // The report

  /** Total internal fragmentation: block size minus process size over the allocated processes. */
  function Frag(blocks: seq<int>, procs: seq<int>, alloc: seq<int>): int
    requires |alloc| <= |procs|
  {
    if |alloc| == 0 then 0
    else
      var k := |alloc| - 1;
      Frag(blocks, procs, alloc[..k]) + (if 0 <= alloc[k] < |blocks| then blocks[alloc[k]] - procs[k] else 0)
  }

  /** Every allocated process fits its block, so the total fragmentation is never negative. */
  lemma {:induction false} FragNonNegative(s: Strategy, blocks: seq<int>, procs: seq<int>, alloc: seq<int>)
    requires |alloc| <= |procs|
    requires forall k :: 0 <= k < |alloc| && 0 <= alloc[k] < |blocks| ==> blocks[alloc[k]] >= procs[k]
    ensures Frag(blocks, procs, alloc) >= 0
  {
    if |alloc| > 0 {
      FragNonNegative(s, blocks, procs, alloc[..|alloc| - 1]);
    }
  }

  /** The indices below n that no process received, in increasing order. */
  function Unallocated(n: nat, alloc: seq<int>): seq<nat> {
    if n == 0 then [] else Unallocated(n - 1, alloc) + (if n - 1 in alloc then [] else [n - 1])
  }

  /** The free blocks are exactly the blocks no process received, listed once each in index order. */
  lemma {:induction false} UnallocatedSpec(n: nat, alloc: seq<int>)
    ensures forall i :: i in Unallocated(n, alloc) <==> 0 <= i < n && i !in alloc
    ensures forall k, l :: 0 <= k < l < |Unallocated(n, alloc)| ==> Unallocated(n, alloc)[k] < Unallocated(n, alloc)[l]
  {
    if n > 0 {
      UnallocatedSpec(n - 1, alloc);
      var u := Unallocated(n - 1, alloc);
      assert forall k :: 0 <= k < |u| ==> u[k] in u;
    }
  }
}
