/**
 * music/memory_allocation.py: the same three strategies over Python lists. Each
 * `allocate_*` builds `allocation = [-1] * len(processes)` and a `block_allocated` list
 * and assigns by index; `print_allocation` adds up the internal fragmentation and
 * computes the unallocated blocks with a set and a comprehension.
 */
module MemoryAllocationPy {

  import opened FitRules

  /** `allocate_first_fit`, `allocate_best_fit`, `allocate_worst_fit`. */
  method Allocate(s: Strategy, blocks: seq<int>, processes: seq<int>) returns (allocation: seq<int>)
    ensures Allocation(s, blocks, processes, allocation)
  {
    allocation := seq(|processes|, _ => -1);
    var blockAllocated := seq(|blocks|, _ => false);
    ghost var alloc: seq<int> := [];
    for pi := 0 to |processes|
      invariant |allocation| == |processes| && |alloc| == pi
      invariant AllocatedPrefix(s, blocks, processes, alloc)
      invariant blockAllocated == UsedBy(alloc, |blocks|)
      invariant forall k :: 0 <= k < |processes| ==> allocation[k] == if k < pi then alloc[k] else -1
    {
      var idx := Scan(s, blocks, blockAllocated, processes[pi]);
      if idx != -1 {
        UnallocatedIff(s, blocks, blockAllocated, processes[pi], idx);
        allocation := allocation[pi := idx];
        blockAllocated := blockAllocated[idx := true];
      }
      UsedStep(alloc, idx, |blocks|, alloc + [idx]);
      AllocExtend(s, blocks, processes, alloc, idx, alloc + [idx]);
      alloc := alloc + [idx];
    }
    assert allocation == alloc;
  }

  /** `print_allocation`, without the printing: the total internal fragmentation and the free blocks. */
  method PrintAllocation(blocks: seq<int>, processes: seq<int>, allocation: seq<int>)
      returns (totalFrag: int, free: seq<nat>)
    requires |allocation| == |processes|
    requires forall i :: 0 <= i < |allocation| ==> allocation[i] == -1 || 0 <= allocation[i] < |blocks|
    ensures totalFrag == Frag(blocks, processes, allocation)
    ensures free == Unallocated(|blocks|, allocation)
  {
    totalFrag := 0;
    for i := 0 to |processes|
      invariant totalFrag == Frag(blocks, processes, allocation[..i])
    {
      assert allocation[..i + 1][..i] == allocation[..i];
      var bidx := allocation[i];
      if bidx != -1 {
        totalFrag := totalFrag + (blocks[bidx] - processes[i]);
      }
    }
    assert allocation[..|processes|] == allocation;
    free := Unallocated(|blocks|, allocation);
  }

  /** `run_example`: the three allocations of the example blocks and processes. */
  method RunExample() returns (firstFit: seq<int>, bestFit: seq<int>, worstFit: seq<int>)
    ensures firstFit == [1, 4, 2, -1]
    ensures bestFit == [3, 1, 2, 4]
    ensures worstFit == [4, 1, 3, -1]
  {
    var blocks := [100, 500, 200, 300, 600];
    var processes := [212, 417, 112, 426];
    firstFit := Allocate(FirstFit, blocks, processes);
    bestFit := Allocate(BestFit, blocks, processes);
    worstFit := Allocate(WorstFit, blocks, processes);
    ExampleAllocations(blocks, processes);
    AllocationUnique(FirstFit, blocks, processes, firstFit, [1, 4, 2, -1]);
    AllocationUnique(BestFit, blocks, processes, bestFit, [3, 1, 2, 4]);
    AllocationUnique(WorstFit, blocks, processes, worstFit, [4, 1, 3, -1]);
  }

  lemma ExampleAllocations(blocks: seq<int>, processes: seq<int>)
    requires blocks == [100, 500, 200, 300, 600] && processes == [212, 417, 112, 426]
    ensures Allocation(FirstFit, blocks, processes, [1, 4, 2, -1])
    ensures Allocation(BestFit, blocks, processes, [3, 1, 2, 4])
    ensures Allocation(WorstFit, blocks, processes, [4, 1, 3, -1])
  {
    ExampleFirstFit(blocks, processes);
    ExampleBestFit(blocks, processes);
    ExampleWorstFit(blocks, processes);
  }

  lemma ExampleFirstFit(blocks: seq<int>, processes: seq<int>)
    requires blocks == [100, 500, 200, 300, 600] && processes == [212, 417, 112, 426]
    ensures Allocation(FirstFit, blocks, processes, [1, 4, 2, -1])
  {
    var none := [false, false, false, false, false];
    ExampleStep(FirstFit, blocks, processes, [], none, 1, [1]);
    ExampleStep(FirstFit, blocks, processes, [1], none[1 := true], 4, [1, 4]);
    ExampleStep(FirstFit, blocks, processes, [1, 4], none[1 := true][4 := true], 2, [1, 4, 2]);
    ExampleStep(FirstFit, blocks, processes, [1, 4, 2], none[1 := true][4 := true][2 := true], -1, [1, 4, 2, -1]);
  }

  lemma ExampleBestFit(blocks: seq<int>, processes: seq<int>)
    requires blocks == [100, 500, 200, 300, 600] && processes == [212, 417, 112, 426]
    ensures Allocation(BestFit, blocks, processes, [3, 1, 2, 4])
  {
    var none := [false, false, false, false, false];
    ExampleStep(BestFit, blocks, processes, [], none, 3, [3]);
    ExampleStep(BestFit, blocks, processes, [3], none[3 := true], 1, [3, 1]);
    ExampleStep(BestFit, blocks, processes, [3, 1], none[3 := true][1 := true], 2, [3, 1, 2]);
    ExampleStep(BestFit, blocks, processes, [3, 1, 2], none[3 := true][1 := true][2 := true], 4, [3, 1, 2, 4]);
  }

  lemma ExampleWorstFit(blocks: seq<int>, processes: seq<int>)
    requires blocks == [100, 500, 200, 300, 600] && processes == [212, 417, 112, 426]
    ensures Allocation(WorstFit, blocks, processes, [4, 1, 3, -1])
  {
    var none := [false, false, false, false, false];
    ExampleStep(WorstFit, blocks, processes, [], none, 4, [4]);
    ExampleStep(WorstFit, blocks, processes, [4], none[4 := true], 1, [4, 1]);
    ExampleStep(WorstFit, blocks, processes, [4, 1], none[4 := true][1 := true], 3, [4, 1, 3]);
    ExampleStep(WorstFit, blocks, processes, [4, 1, 3], none[4 := true][1 := true][3 := true], -1, [4, 1, 3, -1]);
  }

  /** One placement of the example, checked block by block. */
  lemma ExampleStep(s: Strategy, blocks: seq<int>, processes: seq<int>, alloc: seq<int>, used: seq<bool>, r: int,
                    alloc2: seq<int>)
    requires blocks == [100, 500, 200, 300, 600] && processes == [212, 417, 112, 426]
    requires |alloc| < 4 && AllocatedPrefix(s, blocks, processes, alloc)
    requires |used| == 5 && forall j :: 0 <= j < 5 ==> (used[j] <==> j in alloc)
    requires Chosen(s, blocks, used, processes[|alloc|], r) && alloc2 == alloc + [r]
    ensures AllocatedPrefix(s, blocks, processes, alloc2)
  {
    assert used == UsedBy(alloc, 5);
    AllocExtend(s, blocks, processes, alloc, r, alloc2);
  }
}
