/**
 * music/os_project/memory_allocation.c, the page replacement simulator:
 * `simulate_fifo`, `simulate_lru` and `simulate_optimal` work on `malloc`ed arrays
 * of frames (and of last-use times for LRU) and return the number of faults. Each
 * is proved to compute `PageRules.Faults` for its policy; the per-step rows printed
 * by `print_row` are the `Outcome`s of `PageRules.Step`.
 */
module PageReplacement {

  import opened PageRules

  /** The scans that stop at the first frame holding `x` (the hit test, and the search for a free frame). */
  method FindFrame(frames: array<int>, x: int) returns (idx: int)
    ensures idx == Find(frames[..], x)
  {
    idx := -1;
    var j := 0;
    while j < frames.Length
      invariant 0 <= j <= frames.Length
      invariant x !in frames[..j]
    {
      if frames[j] == x {
        FindUnique(frames[..], x, j);
        idx := j;
        return;
      }
      assert frames[..j + 1] == frames[..j] + [frames[j]];
      j := j + 1;
    }
    assert frames[..j] == frames[..];
  }

  /**
   * `simulate_fifo`. `defined` is false when the C behaviour is undefined: with no frame
   * the first reference is stored at `frames[next_replace]` of a zero-sized allocation
   * and `next_replace` is taken `% 0`. Without references no frame is touched.
   */
  method SimulateFifo(refs: array<int>, framesCount: int) returns (faults: nat, defined: bool)
    ensures defined <==> framesCount >= 1 || refs.Length == 0
    ensures framesCount >= 1 ==> faults == Faults(Fifo, refs[..], framesCount)
    ensures framesCount < 1 ==> faults == 0
  {
    if framesCount < 1 {
      return 0, refs.Length == 0;
    }
    defined := true;
    var frames := new int[framesCount](_ => -1);
    faults := 0;
    var nextReplace: nat := 0;
    ghost var times := Init(framesCount).lastUsed;
    ghost var r := refs[..];
    for i := 0 to refs.Length
      invariant Run(Fifo, r, framesCount, i) == Trace(Memory(frames[..], times, nextReplace), faults)
    {
      var fault;
      fault, nextReplace := FifoStep(refs, i, frames, nextReplace, times, faults);
      if fault {
        faults := faults + 1;
      }
    }
    assert r == r[..refs.Length];
  }

  /** One pass of `simulate_fifo`'s loop: reference `i` against the frames and the pointer. */
  method FifoStep(refs: array<int>, i: nat, frames: array<int>, nextReplace: nat, ghost times: seq<int>, ghost faults: nat)
      returns (fault: bool, next2: nat)
    requires i < refs.Length && refs != frames && frames.Length >= 1
    requires Run(Fifo, refs[..], frames.Length, i) == Trace(Memory(frames[..], times, nextReplace), faults)
    modifies frames
    ensures Run(Fifo, refs[..], frames.Length, i + 1) ==
            Trace(Memory(frames[..], times, next2), faults + if fault then 1 else 0)
  {
    ghost var m := Memory(frames[..], times, nextReplace);
    next2 := nextReplace;
    var page := refs[i];
    var hit := FindFrame(frames, page);
    fault := hit == -1;
    if fault {
      var freeIdx := FindFrame(frames, -1);
      if freeIdx != -1 {
        frames[freeIdx] := page;
      } else {
        frames[nextReplace] := page;
        next2 := (nextReplace + 1) % frames.Length;
      }
    }
    assert Step(Fifo, refs[..], i, m).mem == Memory(frames[..], times, next2);
  }

  /** The LRU victim search: the first frame with the least last-use time. */
  method LruScan(lastUsed: array<int>) returns (lruIndex: nat)
    requires lastUsed.Length >= 1
    ensures lruIndex == FirstMin(lastUsed[..])
  {
    lruIndex := 0;
    var lruTime := lastUsed[0];
    for j := 1 to lastUsed.Length
      invariant lruIndex == FirstMin(lastUsed[..j]) && lruTime == lastUsed[lruIndex]
    {
      assert lastUsed[..j + 1][..j] == lastUsed[..j];
      if lastUsed[j] < lruTime {
        lruTime := lastUsed[j];
        lruIndex := j;
      }
    }
    assert lastUsed[..lastUsed.Length] == lastUsed[..];
  }

  /**
   * `simulate_lru`. `defined` is false when the C behaviour is undefined: with no frame
   * the first reference reads `last_used[0]` and writes `frames[0]` of zero-sized
   * allocations. Without references no frame is touched.
   */
  method SimulateLru(refs: array<int>, framesCount: int) returns (faults: nat, defined: bool)
    ensures defined <==> framesCount >= 1 || refs.Length == 0
    ensures framesCount >= 1 ==> faults == Faults(Lru, refs[..], framesCount)
    ensures framesCount < 1 ==> faults == 0
  {
    if framesCount < 1 {
      return 0, refs.Length == 0;
    }
    defined := true;
    var frames := new int[framesCount](_ => -1);
    var lastUsed := new int[framesCount](_ => -1);
    faults := 0;
    ghost var r := refs[..];
    for i := 0 to refs.Length
      invariant Run(Lru, r, framesCount, i) == Trace(Memory(frames[..], lastUsed[..], 0), faults)
    {
      var fault := LruStep(refs, i, frames, lastUsed, faults);
      if fault {
        faults := faults + 1;
      }
    }
    assert r == r[..refs.Length];
  }

  /** One pass of `simulate_lru`'s loop: reference `i` against the frames and their last-use times. */
  method LruStep(refs: array<int>, i: nat, frames: array<int>, lastUsed: array<int>, ghost faults: nat)
      returns (fault: bool)
    requires i < refs.Length && refs != frames && refs != lastUsed && frames != lastUsed && frames.Length >= 1
    requires Run(Lru, refs[..], frames.Length, i) == Trace(Memory(frames[..], lastUsed[..], 0), faults)
    modifies frames, lastUsed
    ensures Run(Lru, refs[..], frames.Length, i + 1) ==
            Trace(Memory(frames[..], lastUsed[..], 0), faults + if fault then 1 else 0)
  {
    ghost var m := Memory(frames[..], lastUsed[..], 0);
    var page := refs[i];
    var hit := FindFrame(frames, page);
    fault := hit == -1;
    if !fault {
      lastUsed[hit] := i;
    } else {
      var freeIdx := FindFrame(frames, -1);
      if freeIdx != -1 {
        frames[freeIdx] := page;
        lastUsed[freeIdx] := i;
      } else {
        var lruIndex := LruScan(lastUsed);
        frames[lruIndex] := page;
        lastUsed[lruIndex] := i;
      }
    }
    assert Step(Lru, refs[..], i, m).mem == Memory(frames[..], lastUsed[..], 0);
  }

  /** The inner look-ahead: the next reference to `page` after `i`, or INT_MAX. */
  method NextUseScan(refs: array<int>, i: nat, page: int) returns (nextUse: int)
    requires i < refs.Length
    ensures nextUse == Capped(NextUse(refs[..], i, page), refs.Length)
  {
    nextUse := INT_MAX;
    var k := i + 1;
    while k < refs.Length
      invariant i + 1 <= k <= refs.Length
      invariant NextUse(refs[..], i, page) >= k
      decreases refs.Length - k
    {
      if refs[k] == page {
        nextUse := k;
        return;
      }
      k := k + 1;
    }
  }

  /** The value the C scan compares: the next use, or INT_MAX for "never". */
  function Capped(u: int, len: int): int {
    if u < len then u else INT_MAX
  }

  /** One frame of the Optimal victim search keeps `victimIndex` at the first farthest use so far. */
  lemma ScanStep(uses: seq<int>, j: nat, victimIndex: int, farthest: int, nextUse: int, len: int)
    requires j < |uses| && len <= INT_MAX
    requires forall t :: 0 <= t < |uses| ==> 0 <= uses[t] <= len
    requires nextUse == Capped(uses[j], len)
    requires j == 0 ==> victimIndex == -1 && farthest == -1
    requires j > 0 ==> victimIndex == FirstMax(uses[..j]) && farthest == Capped(uses[victimIndex], len)
    ensures var v := if nextUse > farthest then j else victimIndex;
      v == FirstMax(uses[..j + 1]) && (if nextUse > farthest then nextUse else farthest) == Capped(uses[v], len)
  {
    if j > 0 {
      assert uses[..j + 1][..j] == uses[..j];
      assert (nextUse > farthest) == (uses[j] > uses[victimIndex]);
    } else {
      assert Capped(uses[0], len) > -1;
    }
  }

  /** The Optimal victim search: the first frame whose page is next used farthest ahead. */
  method OptimalScan(refs: array<int>, i: nat, frames: array<int>) returns (victimIndex: int)
    requires i < refs.Length <= INT_MAX && frames.Length >= 1
    ensures victimIndex == FirstMax(NextUses(refs[..], i, frames[..]))
  {
    ghost var uses := NextUses(refs[..], i, frames[..]);
    victimIndex := -1;
    var farthest := -1;
    for j := 0 to frames.Length
      invariant j == 0 ==> victimIndex == -1 && farthest == -1
      invariant j > 0 ==> victimIndex == FirstMax(uses[..j]) && farthest == Capped(uses[victimIndex], refs.Length)
    {
      var currentPage := frames[j];
      var nextUse := NextUseScan(refs, i, currentPage);
      ScanStep(uses, j, victimIndex, farthest, nextUse, refs.Length);
      if nextUse > farthest {
        farthest := nextUse;
        victimIndex := j;
      }
    }
    assert uses[..frames.Length] == uses;
  }

  /**
   * `simulate_optimal`; `n` is a C `int`, so the reference string has at most INT_MAX
   * entries. `defined` is false when the C behaviour is undefined: with no frame the
   * scan finds no victim and the first reference is stored at `frames[-1]`. Without
   * references no frame is touched.
   */
  method SimulateOptimal(refs: array<int>, framesCount: int) returns (faults: nat, defined: bool)
    requires refs.Length <= INT_MAX
    ensures defined <==> framesCount >= 1 || refs.Length == 0
    ensures framesCount >= 1 ==> faults == Faults(Optimal, refs[..], framesCount)
    ensures framesCount < 1 ==> faults == 0
  {
    if framesCount < 1 {
      return 0, refs.Length == 0;
    }
    defined := true;
    var frames := new int[framesCount](_ => -1);
    faults := 0;
    ghost var times := Init(framesCount).lastUsed;
    ghost var r := refs[..];
    for i := 0 to refs.Length
      invariant Run(Optimal, r, framesCount, i) == Trace(Memory(frames[..], times, 0), faults)
    {
      var fault := OptimalStep(refs, i, frames, times, faults);
      if fault {
        faults := faults + 1;
      }
    }
    assert r == r[..refs.Length];
  }

  /** One pass of `simulate_optimal`'s loop. */
  method OptimalStep(refs: array<int>, i: nat, frames: array<int>, ghost times: seq<int>, ghost faults: nat)
      returns (fault: bool)
    requires i < refs.Length <= INT_MAX && refs != frames && frames.Length >= 1
    requires Run(Optimal, refs[..], frames.Length, i) == Trace(Memory(frames[..], times, 0), faults)
    modifies frames
    ensures Run(Optimal, refs[..], frames.Length, i + 1) ==
            Trace(Memory(frames[..], times, 0), faults + if fault then 1 else 0)
  {
    ghost var m := Memory(frames[..], times, 0);
    var page := refs[i];
    var hit := FindFrame(frames, page);
    fault := hit == -1;
    if fault {
      var freeIdx := FindFrame(frames, -1);
      if freeIdx != -1 {
        frames[freeIdx] := page;
      } else {
        var victimIndex := OptimalScan(refs, i, frames);
        frames[victimIndex] := page;
      }
    }
    assert Step(Optimal, refs[..], i, m).mem == Memory(frames[..], times, 0);
  }
}
