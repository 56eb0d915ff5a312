/**
 * music/os_project/memory_allocation.c, the allocators: `allocate_first_fit`,
 * `allocate_best_fit` and `allocate_worst_fit` fill the caller's `allocation` array in
 * place, keeping a zeroed `block_allocated` flag array; `print_allocation` adds up the
 * internal fragmentation and lists the blocks no process received. The placement rules
 * are those of `FitRules`; printing is not modelled, only the figures printed.
 */
module MemoryAllocation {

  import opened FitRules

  /**
   * The three allocators (one outer loop each in the source, identical but for the
   * scan): process i receives the block its strategy's scan selects, or -1.
   */
  method Allocate(s: Strategy, blocks: array<int>, processes: array<int>, allocation: array<int>)
    requires allocation.Length == processes.Length
    requires allocation != blocks && allocation != processes
    modifies allocation
    ensures Allocation(s, blocks[..], processes[..], allocation[..])
  {
    var used := new bool[blocks.Length](_ => false);
    ghost var alloc: seq<int> := [];
    assert used[..] == UsedBy(alloc, blocks.Length);
    for i := 0 to processes.Length
      invariant |alloc| == i && AllocatedPrefix(s, blocks[..], processes[..], alloc)
      invariant used[..] == UsedBy(alloc, blocks.Length)
      invariant forall k :: 0 <= k < i ==> allocation[k] == alloc[k]
    {
      allocation[i] := -1;
      var r := Scan(s, blocks[..], used[..], processes[i]);
      if r != -1 {
        UnallocatedIff(s, blocks[..], used[..], processes[i], r);
        allocation[i] := r;
        used[r] := true;
      }
      UsedStep(alloc, r, blocks.Length, alloc + [r]);
      AllocExtend(s, blocks[..], processes[..], alloc, r, alloc + [r]);
      alloc := alloc + [r];
    }
    assert allocation[..] == alloc;
  }

  /**
   * `print_allocation`, without the printing: the total internal fragmentation and the
   * indices of the blocks not in `allocation`, in index order ("none" when empty).
   */
  method PrintAllocation(blocks: array<int>, processes: array<int>, allocation: array<int>)
      returns (totalFrag: int, free: seq<nat>)
    requires allocation.Length == processes.Length
    requires forall i :: 0 <= i < allocation.Length ==> allocation[i] == -1 || 0 <= allocation[i] < blocks.Length
    ensures totalFrag == Frag(blocks[..], processes[..], allocation[..])
    ensures free == Unallocated(blocks.Length, allocation[..])
  {
    totalFrag := 0;
    for i := 0 to allocation.Length
      invariant totalFrag == Frag(blocks[..], processes[..], allocation[..i])
    {
      assert allocation[..i + 1][..i] == allocation[..i];
      var bidx := allocation[i];
      if bidx != -1 {
        totalFrag := totalFrag + (blocks[bidx] - processes[i]);
      }
    }
    assert allocation[..allocation.Length] == allocation[..];
    var used := new bool[blocks.Length](_ => false);
    for i := 0 to allocation.Length
      invariant forall j :: 0 <= j < blocks.Length ==> (used[j] <==> j in allocation[..i])
    {
      assert allocation[..i + 1] == allocation[..i] + [allocation[i]];
      if allocation[i] != -1 {
        used[allocation[i]] := true;
      }
    }
    free := [];
    for i := 0 to blocks.Length
      invariant free == Unallocated(i, allocation[..])
    {
      if !used[i] {
        free := free + [i];
      }
    }
  }
}
