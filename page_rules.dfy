/**
 * The reference semantics of the page-replacement simulators in
 * music/os_project/memory_allocation.c, which music/page_replacement.py follows as
 * well. Frames hold page numbers, -1 marks an empty frame (a reference to page -1
 * therefore "hits" an empty frame, in both programs). Each reference is a hit when the
 * page is in a frame; otherwise it is a fault, and the page goes to the lowest empty
 * frame or, when there is none, replaces the policy's victim: the FIFO pointer, the
 * frame with the least last-use time, or the frame whose page is next used farthest
 * ahead (earliest frame on ties for both).
 */
module PageRules {

  const INT_MAX := 2147483647

  datatype Policy = Fifo | Lru | Optimal

  /** The first index of `x` in `s`, or -1 (the source's scans that stop at the first match). */
  function Find(s: seq<int>, x: int): (r: int)
    ensures -1 <= r < |s|
    ensures r == -1 <==> x !in s
    ensures r >= 0 ==> s[r] == x && x !in s[..r]
  {
    if |s| == 0 then -1
    else if s[0] == x then 0
    else
      var r := Find(s[1..], x);
      assert r >= 0 ==> s[1..][..r] == s[1..r + 1] && s[..r + 1] == [s[0]] + s[1..r + 1];
      if r == -1 then -1 else r + 1
  }

  /** Any index that holds `x` with no earlier `x` is the one `Find` returns. */
  lemma FindUnique(s: seq<int>, x: int, i: nat)
    requires i < |s| && s[i] == x && x !in s[..i]
    ensures Find(s, x) == i
  {
  }

  /** The first index holding the least value (a scan that replaces only on strictly smaller). */
  function FirstMin(s: seq<int>): (r: nat)
    requires |s| > 0
    ensures r < |s|
    ensures forall j :: 0 <= j < |s| ==> s[r] <= s[j]
    ensures forall j :: 0 <= j < r ==> s[r] < s[j]
  {
    if |s| == 1 then 0
    else
      var m := FirstMin(s[..|s| - 1]);
      assert forall j :: 0 <= j < |s| - 1 ==> s[..|s| - 1][j] == s[j];
      if s[|s| - 1] < s[m] then |s| - 1 else m
  }

  /** The first index holding the greatest value (a scan that replaces only on strictly greater). */
  function FirstMax(s: seq<int>): (r: nat)
    requires |s| > 0
    ensures r < |s|
    ensures forall j :: 0 <= j < |s| ==> s[j] <= s[r]
    ensures forall j :: 0 <= j < r ==> s[j] < s[r]
  {
    if |s| == 1 then 0
    else
      var m := FirstMax(s[..|s| - 1]);
      assert forall j :: 0 <= j < |s| - 1 ==> s[..|s| - 1][j] == s[j];
      if s[|s| - 1] > s[m] then |s| - 1 else m
  }

  /** The first index at or after `j` that references `page`, or |refs| when there is none. */
  function NextFrom(refs: seq<int>, j: nat, page: int): (r: nat)
    ensures j <= r || r == |refs|
    ensures r <= |refs| || r == j
    ensures r < |refs| ==> refs[r] == page
    ensures forall t :: j <= t < r && t < |refs| ==> refs[t] != page
    decreases |refs| - j
  {
    if j >= |refs| then |refs|
    else if refs[j] == page then j
    else NextFrom(refs, j + 1, page)
  }

  /** When reference `i` needs a victim: the next use of `page` after `i`, |refs| standing for "never". */
  function NextUse(refs: seq<int>, i: nat, page: int): (r: nat)
    requires i < |refs|
    ensures i < r <= |refs|
    ensures r < |refs| ==> refs[r] == page
    ensures forall t :: i < t < r ==> refs[t] != page
  {
    NextFrom(refs, i + 1, page)
  }

  function NextUses(refs: seq<int>, i: nat, frames: seq<int>): (u: seq<int>)
    requires i < |refs|
    ensures |u| == |frames|
    ensures forall j :: 0 <= j < |frames| ==> u[j] == NextUse(refs, i, frames[j])
  {
    seq(|frames|, j requires 0 <= j < |frames| => NextUse(refs, i, frames[j]))
  }

  /** The simulator state: the frames, their last-use times (LRU) and the FIFO pointer. */
  datatype Memory = Memory(frames: seq<int>, lastUsed: seq<int>, nextReplace: nat)

  predicate Sized(m: Memory, k: nat) {
    k >= 1 && |m.frames| == k && |m.lastUsed| == k && m.nextReplace < k
  }

  /** Every frame empty, every last-use time -1, the FIFO pointer at frame 0. */
  function Init(k: nat): (m: Memory)
    requires k >= 1
    ensures Sized(m, k)
    ensures forall j :: 0 <= j < k ==> m.frames[j] == -1 && m.lastUsed[j] == -1
  {
    Memory(seq(k, _ => -1), seq(k, _ => -1), 0)
  }

  /** The frame a full memory gives up for reference `i`. */
  function Victim(pol: Policy, refs: seq<int>, i: nat, m: Memory): (v: nat)
    requires Sized(m, |m.frames|) && i < |refs|
    ensures v < |m.frames|
  {
    match pol
    case Fifo => m.nextReplace
    case Lru => FirstMin(m.lastUsed)
    case Optimal => FirstMax(NextUses(refs, i, m.frames))
  }

  /** The effect of one reference: the new memory, whether it faulted, and the frame written (-1 on a hit). */
  datatype Outcome = Outcome(mem: Memory, fault: bool, replaced: int)

  function Step(pol: Policy, refs: seq<int>, i: nat, m: Memory): (o: Outcome)
    requires Sized(m, |m.frames|) && i < |refs|
    ensures Sized(o.mem, |m.frames|)
    ensures o.fault <==> refs[i] !in m.frames
    ensures !o.fault ==> o.mem.frames == m.frames && o.replaced == -1
    ensures o.fault ==> 0 <= o.replaced < |m.frames| && o.mem.frames == m.frames[o.replaced := refs[i]]
    ensures o.fault && -1 in m.frames ==> o.replaced == Find(m.frames, -1)
    ensures o.fault && -1 !in m.frames ==> o.replaced == Victim(pol, refs, i, m)
  {
    var page := refs[i];
    var h := Find(m.frames, page);
    if h != -1 then
      Outcome(if pol == Lru then m.(lastUsed := m.lastUsed[h := i]) else m, false, -1)
    else
      var f := Find(m.frames, -1);
      var v := if f != -1 then f else Victim(pol, refs, i, m);
      var pointer := if pol == Fifo && f == -1 then (m.nextReplace + 1) % |m.frames| else m.nextReplace;
      var times := if pol == Lru then m.lastUsed[v := i] else m.lastUsed;
      Outcome(Memory(m.frames[v := page], times, pointer), true, v)
  }

  /** The memory and the fault count after the first `n` references. */
  datatype Trace = Trace(mem: Memory, faults: nat)

  function Run(pol: Policy, refs: seq<int>, k: nat, n: nat): (t: Trace)
    requires k >= 1 && n <= |refs|
    ensures Sized(t.mem, k)
    ensures t.faults <= n
  {
    if n == 0 then Trace(Init(k), 0)
    else
      var t := Run(pol, refs, k, n - 1);
      var o := Step(pol, refs, n - 1, t.mem);
      Trace(o.mem, t.faults + if o.fault then 1 else 0)
  }

  /** The fault count over the whole reference string. */
  function Faults(pol: Policy, refs: seq<int>, k: nat): (f: nat)
    requires k >= 1
    ensures f <= |refs|
  {
    Run(pol, refs, k, |refs|).faults
  }

  /** FIFO: a full memory replaces the frame under the pointer and moves the pointer on cyclically. */
  lemma FifoVictim(refs: seq<int>, i: nat, m: Memory)
    requires Sized(m, |m.frames|) && i < |refs|
    ensures var o := Step(Fifo, refs, i, m);
      (o.fault && -1 !in m.frames ==>
         o.replaced == m.nextReplace && o.mem.nextReplace == (m.nextReplace + 1) % |m.frames|) &&
      (!o.fault || -1 in m.frames ==> o.mem.nextReplace == m.nextReplace)
  {
  }

  /** LRU: the victim has the least last-use time, and every earlier frame a strictly later one. */
  lemma LruVictim(refs: seq<int>, i: nat, m: Memory)
    requires Sized(m, |m.frames|) && i < |refs|
    ensures var v := Victim(Lru, refs, i, m);
      (forall j :: 0 <= j < |m.frames| ==> m.lastUsed[v] <= m.lastUsed[j]) &&
      (forall j :: 0 <= j < v ==> m.lastUsed[v] < m.lastUsed[j])
  {
  }

  /** Optimal: no frame's page is next used later than the victim's, and every earlier frame's sooner. */
  lemma OptimalVictim(refs: seq<int>, i: nat, m: Memory)
    requires Sized(m, |m.frames|) && i < |refs|
    ensures var v := Victim(Optimal, refs, i, m);
      (forall j :: 0 <= j < |m.frames| ==> NextUse(refs, i, m.frames[j]) <= NextUse(refs, i, m.frames[v])) &&
      (forall j :: 0 <= j < v ==> NextUse(refs, i, m.frames[j]) < NextUse(refs, i, m.frames[v]))
  {
  }

  /** The pages in non-empty frames are pairwise different. */
  ghost predicate Distinct(frames: seq<int>) {
    forall a, b :: 0 <= a < b < |frames| && frames[a] != -1 ==> frames[a] != frames[b]
  }

  /** Every page in a frame was referenced before. */
  ghost predicate Loaded(frames: seq<int>, refs: seq<int>, n: nat)
    requires n <= |refs|
  {
    forall j :: 0 <= j < |frames| && frames[j] != -1 ==> frames[j] in refs[..n]
  }

  /** A page enters a frame only on a fault, so the loaded pages stay distinct and come from the references. */
  lemma {:induction false} RunFrames(pol: Policy, refs: seq<int>, k: nat, n: nat)
    requires k >= 1 && n <= |refs|
    ensures Distinct(Run(pol, refs, k, n).mem.frames)
    ensures Loaded(Run(pol, refs, k, n).mem.frames, refs, n)
  {
    if n > 0 {
      RunFrames(pol, refs, k, n - 1);
      FramesRun(pol, refs, k, n);
    }
  }

  lemma FramesRun(pol: Policy, refs: seq<int>, k: nat, n: nat)
    requires k >= 1 && 0 < n <= |refs|
    requires Distinct(Run(pol, refs, k, n - 1).mem.frames) && Loaded(Run(pol, refs, k, n - 1).mem.frames, refs, n - 1)
    ensures Distinct(Run(pol, refs, k, n).mem.frames) && Loaded(Run(pol, refs, k, n).mem.frames, refs, n)
  {
    var m := Run(pol, refs, k, n - 1).mem;
    var m2 := Run(pol, refs, k, n).mem;
    assert m2 == Step(pol, refs, n - 1, m).mem;
    FramesStep(pol, refs, n - 1, m, m2, n);
  }

  lemma FramesStep(pol: Policy, refs: seq<int>, i: nat, m: Memory, m2: Memory, n: nat)
    requires Sized(m, |m.frames|) && i < |refs| && m2 == Step(pol, refs, i, m).mem && n == i + 1
    requires Distinct(m.frames) && Loaded(m.frames, refs, i)
    ensures Distinct(m2.frames)
    ensures Loaded(m2.frames, refs, n)
  {
    assert refs[..n] == refs[..i] + [refs[i]];
  }

  /** The first reference to a page (other than -1) is always a fault, whatever the policy. */
  lemma FirstReferenceFaults(pol: Policy, refs: seq<int>, k: nat, i: nat)
    requires k >= 1 && i < |refs|
    requires refs[i] != -1 && refs[i] !in refs[..i]
    ensures Step(pol, refs, i, Run(pol, refs, k, i).mem).fault
    ensures Run(pol, refs, k, i + 1).faults == Run(pol, refs, k, i).faults + 1
  {
    RunFrames(pol, refs, k, i);
  }

  /** Every reference leaves its page in a frame. */
  lemma ReferencedPageLoaded(pol: Policy, refs: seq<int>, k: nat, i: nat)
    requires k >= 1 && i < |refs|
    ensures refs[i] in Run(pol, refs, k, i + 1).mem.frames
  {
    var o := Step(pol, refs, i, Run(pol, refs, k, i).mem);
    if o.fault {
      assert o.mem.frames[o.replaced] == refs[i];
    }
  }

  /**
   * The LRU times are what their name says: a non-empty frame's time is the last
   * reference to its page so far.
   */
  ghost predicate Recency(m: Memory, refs: seq<int>, n: nat)
    requires |m.lastUsed| == |m.frames| && n <= |refs|
  {
    forall j {:trigger LastUse(m, refs, n, j)} :: 0 <= j < |m.frames| && m.frames[j] != -1 ==> LastUse(m, refs, n, j)
  }

  ghost predicate LastUse(m: Memory, refs: seq<int>, n: nat, j: nat)
    requires j < |m.lastUsed| == |m.frames| && n <= |refs|
  {
    0 <= m.lastUsed[j] < n && refs[m.lastUsed[j]] == m.frames[j] &&
    forall t :: m.lastUsed[j] < t < n ==> refs[t] != m.frames[j]
  }

  lemma {:induction false} LruRecency(refs: seq<int>, k: nat, n: nat)
    requires k >= 1 && n <= |refs|
    ensures Recency(Run(Lru, refs, k, n).mem, refs, n)
  {
    if n > 0 {
      LruRecency(refs, k, n - 1);
      RunFrames(Lru, refs, k, n - 1);
      RecencyRun(refs, k, n);
    }
  }

  lemma RecencyRun(refs: seq<int>, k: nat, n: nat)
    requires k >= 1 && 0 < n <= |refs|
    requires Recency(Run(Lru, refs, k, n - 1).mem, refs, n - 1) && Distinct(Run(Lru, refs, k, n - 1).mem.frames)
    ensures Recency(Run(Lru, refs, k, n).mem, refs, n)
  {
    var m := Run(Lru, refs, k, n - 1).mem;
    var o := Step(Lru, refs, n - 1, m);
    var m2 := Run(Lru, refs, k, n).mem;
    assert m2 == o.mem;
    RecencyStep(refs, n - 1, m, o, m2, n);
  }

  lemma RecencyStep(refs: seq<int>, i: nat, m: Memory, o: Outcome, m2: Memory, n: nat)
    requires Sized(m, |m.frames|) && i < |refs| && o == Step(Lru, refs, i, m) && m2 == o.mem && n == i + 1
    requires Recency(m, refs, i) && Distinct(m.frames)
    ensures Recency(m2, refs, n)
  {
    var h := Find(m.frames, refs[i]);
    forall j | 0 <= j < |o.mem.frames| && o.mem.frames[j] != -1 ensures LastUse(o.mem, refs, n, j) {
      if (o.fault && j == o.replaced) || (!o.fault && j == h) {
        assert o.mem.lastUsed[j] == i;
      } else {
        assert o.mem.frames[j] == m.frames[j] && o.mem.lastUsed[j] == m.lastUsed[j];
        assert LastUse(m, refs, i, j);
        assert refs[i] != m.frames[j] by {
          if !o.fault && h < j {
            assert m.frames[h] == refs[i];
          } else if !o.fault && j < h {
            assert m.frames[..h][j] == m.frames[j];
          }
        }
      }
    }
  }

  /** So the LRU victim is the frame whose page was referenced longest ago. */
  lemma LruEvictsLeastRecent(refs: seq<int>, k: nat, i: nat, j: nat)
    requires k >= 1 && i < |refs| && j < k
    requires -1 !in Run(Lru, refs, k, i).mem.frames
    ensures var m := Run(Lru, refs, k, i).mem; var v := Victim(Lru, refs, i, m);
      LastUse(m, refs, i, v) && LastUse(m, refs, i, j) && m.lastUsed[v] <= m.lastUsed[j]
  {
    var m := Run(Lru, refs, k, i).mem;
    LruRecency(refs, k, i);
    var v := Victim(Lru, refs, i, m);
    assert m.frames[v] != -1 && m.frames[j] != -1;
  }
}
