/**
 * music/page_replacement.py: `simulate_fifo`, `simulate_lru` and `simulate_optimal`
 * over Python lists, each returning a timeline (one entry per reference: the page, a
 * copy of the frames, whether it faulted, and the frame replaced or None) and the
 * number of faulting entries. LRU keeps a dictionary from page to last use; Optimal
 * builds a dictionary from page to next use (`math.inf` for never) and takes `max`
 * over it. Both are proved to follow `PageRules` step for step. FIFO keeps a deque of
 * frame indices; it has its own reference semantics here, proved to agree with the C
 * pointer version on reference strings without the empty-frame marker -1.
 */
module PageReplacementPy {

  import opened PageRules

  datatype Option<T> = None | Some(value: T)

  /** One timeline dictionary: `page`, `frames`, `fault`, `replaced_index`. */
  datatype Entry = Entry(page: int, frames: seq<int>, fault: bool, replacedIndex: Option<nat>)

  /** `sum(1 for t in timeline if t['fault'])`. */
  function CountFaults(timeline: seq<Entry>): (f: nat)
    ensures f <= |timeline|
  {
    if |timeline| == 0 then 0
    else CountFaults(timeline[..|timeline| - 1]) + if timeline[|timeline| - 1].fault then 1 else 0
  }

  lemma CountFaultsAppend(timeline: seq<Entry>, e: Entry, t2: seq<Entry>)
    requires t2 == timeline + [e]
    ensures CountFaults(t2) == CountFaults(timeline) + if e.fault then 1 else 0
  {
    assert t2[..|t2| - 1] == timeline;
  }

  /** The entry the reference semantics gives for reference `i`. */
  function EntryAt(pol: Policy, refs: seq<int>, k: nat, i: nat): (e: Entry)
    requires k >= 1 && i < |refs|
    ensures e.page == refs[i] && |e.frames| == k
    ensures e.fault <==> e.replacedIndex.Some?
  {
    var o := Step(pol, refs, i, Run(pol, refs, k, i).mem);
    Entry(refs[i], o.mem.frames, o.fault, if o.fault then Some(o.replaced as nat) else None)
  }

  /** The first `n` entries of a timeline follow the reference semantics. */
  ghost predicate Follows(pol: Policy, refs: seq<int>, k: nat, timeline: seq<Entry>)
    requires k >= 1
  {
    |timeline| <= |refs| && forall t: nat :: t < |timeline| ==> EntryFollows(pol, refs, k, timeline, t)
  }

  ghost predicate EntryFollows(pol: Policy, refs: seq<int>, k: nat, timeline: seq<Entry>, t: nat)
    requires k >= 1 && t < |timeline| <= |refs|
  {
    timeline[t] == EntryAt(pol, refs, k, t)
  }

  lemma FollowsExtend(pol: Policy, refs: seq<int>, k: nat, timeline: seq<Entry>, e: Entry, t2: seq<Entry>)
    requires k >= 1 && Follows(pol, refs, k, timeline) && |timeline| < |refs|
    requires CountFaults(timeline) == Run(pol, refs, k, |timeline|).faults
    requires e == EntryAt(pol, refs, k, |timeline|) && t2 == timeline + [e]
    ensures Follows(pol, refs, k, t2)
    ensures CountFaults(t2) == Run(pol, refs, k, |t2|).faults
  {
    FollowsAppend(pol, refs, k, timeline, e, t2);
    FaultsAppend(pol, refs, k, timeline, e, t2);
  }

  lemma FollowsAppend(pol: Policy, refs: seq<int>, k: nat, timeline: seq<Entry>, e: Entry, t2: seq<Entry>)
    requires k >= 1 && Follows(pol, refs, k, timeline) && |timeline| < |refs|
    requires e == EntryAt(pol, refs, k, |timeline|) && t2 == timeline + [e]
    ensures Follows(pol, refs, k, t2)
  {
    forall t: nat | t < |t2| ensures EntryFollows(pol, refs, k, t2, t) {
      if t < |timeline| {
        assert EntryFollows(pol, refs, k, timeline, t);
      }
    }
  }

  lemma FaultsAppend(pol: Policy, refs: seq<int>, k: nat, timeline: seq<Entry>, e: Entry, t2: seq<Entry>)
    requires k >= 1 && |timeline| < |refs|
    requires CountFaults(timeline) == Run(pol, refs, k, |timeline|).faults
    requires e == EntryAt(pol, refs, k, |timeline|) && t2 == timeline + [e]
    ensures CountFaults(t2) == Run(pol, refs, k, |t2|).faults
  {
    CountFaultsAppend(timeline, e, t2);
    assert |t2| - 1 == |timeline|;
  }

  // ---------------------------------------------------------------- LRU

  /** `last_used.get(page, -1)`. */
  function Get(lastUsed: map<int, int>, page: int): int {
    if page in lastUsed then lastUsed[page] else -1
  }

  /** The times the eviction scan compares, in frame order. */
  function Times(frames: seq<int>, lastUsed: map<int, int>): (ts: seq<int>)
    ensures |ts| == |frames|
    ensures forall j :: 0 <= j < |frames| ==> ts[j] == Get(lastUsed, frames[j])
  {
    seq(|frames|, j requires 0 <= j < |frames| => Get(lastUsed, frames[j]))
  }

  /** The dictionary agrees with the reference semantics' per-frame times on every loaded frame. */
  ghost predicate TimesAgree(frames: seq<int>, lastUsed: map<int, int>, times: seq<int>)
    requires |times| == |frames|
  {
    forall j :: 0 <= j < |frames| && frames[j] != -1 ==> frames[j] in lastUsed && lastUsed[frames[j]] == times[j]
  }

  ghost predicate LruState(refs: seq<int>, k: nat, i: nat, frames: seq<int>, lastUsed: map<int, int>)
    requires k >= 1 && i <= |refs|
  {
    var m := Run(Lru, refs, k, i).mem;
    frames == m.frames && TimesAgree(frames, lastUsed, m.lastUsed)
  }

  /**
   * The eviction scan: the first page in frame order with the least `last_used.get(page, -1)`,
   * starting from `lru_time = math.inf` (None here).
   */
  method LeastRecentPage(frames: seq<int>, lastUsed: map<int, int>) returns (lruPage: int)
    requires |frames| >= 1
    ensures lruPage == frames[FirstMin(Times(frames, lastUsed))]
  {
    ghost var ts := Times(frames, lastUsed);
    var best: Option<int> := None;
    var lruTime: Option<int> := None;
    ghost var at := 0;
    for j := 0 to |frames|
      invariant j == 0 <==> best.None?
      invariant j == 0 <==> lruTime.None?
      invariant j > 0 ==> at == FirstMin(ts[..j]) && best == Some(frames[at]) && lruTime == Some(ts[at])
    {
      var page := frames[j];
      var t := Get(lastUsed, page);
      assert j > 0 ==> ts[..j + 1][..j] == ts[..j];
      if lruTime.None? || t < lruTime.value {
        lruTime := Some(t);
        best := Some(page);
        at := j;
      }
    }
    assert ts[..|frames|] == ts;
    lruPage := best.value;
  }

  /** One pass of `simulate_lru`'s loop. */
  method LruRound(refs: seq<int>, k: nat, i: nat, frames: seq<int>, lastUsed: map<int, int>)
      returns (frames2: seq<int>, lastUsed2: map<int, int>, entry: Entry)
    requires k >= 1 && i < |refs| && LruState(refs, k, i, frames, lastUsed)
    ensures LruState(refs, k, i + 1, frames2, lastUsed2)
    ensures entry == EntryAt(Lru, refs, k, i)
  {
    ghost var m := Run(Lru, refs, k, i).mem;
    assert Run(Lru, refs, k, i + 1).mem == Step(Lru, refs, i, m).mem;
    RunFrames(Lru, refs, k, i);
    var p := refs[i];
    if p in frames {
      frames2, lastUsed2 := frames, lastUsed[p := i];
      entry := Entry(p, frames2, false, None);
      LruHit(refs, i, m, lastUsed, lastUsed2);
    } else if -1 in frames {
      var idx := Find(frames, -1);
      frames2, lastUsed2 := frames[idx := p], lastUsed[p := i];
      entry := Entry(p, frames2, true, Some(idx));
      LruFill(refs, i, m, lastUsed, frames2, lastUsed2);
    } else {
      var lruPage := LeastRecentPage(frames, lastUsed);
      var idx := Find(frames, lruPage);
      LruEvictIndex(m, lastUsed, lruPage);
      assert lruPage in lastUsed;
      lastUsed2 := lastUsed - {lruPage};
      frames2 := frames[idx := p];
      lastUsed2 := lastUsed2[p := i];
      entry := Entry(p, frames2, true, Some(idx));
      LruEvict(refs, i, m, lastUsed, lruPage, frames2, lastUsed2);
    }
  }

  lemma LruHit(refs: seq<int>, i: nat, m: Memory, lastUsed: map<int, int>, lastUsed2: map<int, int>)
    requires Sized(m, |m.frames|) && i < |refs| && refs[i] in m.frames
    requires Distinct(m.frames) && TimesAgree(m.frames, lastUsed, m.lastUsed)
    requires lastUsed2 == lastUsed[refs[i] := i]
    ensures TimesAgree(m.frames, lastUsed2, Step(Lru, refs, i, m).mem.lastUsed)
  {
  }

  lemma LruFill(refs: seq<int>, i: nat, m: Memory, lastUsed: map<int, int>, frames2: seq<int>, lastUsed2: map<int, int>)
    requires Sized(m, |m.frames|) && i < |refs| && refs[i] !in m.frames && -1 in m.frames
    requires TimesAgree(m.frames, lastUsed, m.lastUsed)
    requires frames2 == m.frames[Find(m.frames, -1) := refs[i]] && lastUsed2 == lastUsed[refs[i] := i]
    ensures frames2 == Step(Lru, refs, i, m).mem.frames
    ensures TimesAgree(frames2, lastUsed2, Step(Lru, refs, i, m).mem.lastUsed)
  {
  }

  /** The page the scan picks sits in the reference semantics' victim frame, and is a key of `last_used`. */
  lemma LruEvictIndex(m: Memory, lastUsed: map<int, int>, lruPage: int)
    requires Sized(m, |m.frames|) && -1 !in m.frames
    requires Distinct(m.frames) && TimesAgree(m.frames, lastUsed, m.lastUsed)
    requires lruPage == m.frames[FirstMin(Times(m.frames, lastUsed))]
    ensures Find(m.frames, lruPage) == FirstMin(m.lastUsed)
    ensures lruPage in lastUsed
  {
    var ts := Times(m.frames, lastUsed);
    assert ts == m.lastUsed;
    FindUnique(m.frames, lruPage, FirstMin(m.lastUsed));
  }

  lemma LruEvict(refs: seq<int>, i: nat, m: Memory, lastUsed: map<int, int>, lruPage: int,
                 frames2: seq<int>, lastUsed2: map<int, int>)
    requires Sized(m, |m.frames|) && i < |refs| && refs[i] !in m.frames && -1 !in m.frames
    requires Distinct(m.frames) && TimesAgree(m.frames, lastUsed, m.lastUsed)
    requires Find(m.frames, lruPage) == FirstMin(m.lastUsed)
    requires frames2 == m.frames[FirstMin(m.lastUsed) := refs[i]] && lastUsed2 == (lastUsed - {lruPage})[refs[i] := i]
    ensures frames2 == Step(Lru, refs, i, m).mem.frames
    ensures TimesAgree(frames2, lastUsed2, Step(Lru, refs, i, m).mem.lastUsed)
  {
  }

  /**
   * `simulate_lru`. `raised` says the call raised instead of returning: with no frame
   * the first reference finds no least recently used page, and `frames.index(None)`
   * raises ValueError. Without references it returns an empty timeline.
   */
  method SimulateLru(refs: seq<int>, framesCount: int) returns (timeline: seq<Entry>, faults: nat, raised: bool)
    ensures raised <==> framesCount < 1 && |refs| > 0
    ensures framesCount >= 1 ==> |timeline| == |refs| && Follows(Lru, refs, framesCount, timeline)
    ensures framesCount >= 1 ==> faults == CountFaults(timeline) == Faults(Lru, refs, framesCount)
    ensures framesCount < 1 ==> timeline == [] && faults == 0
  {
    if framesCount < 1 {
      return [], 0, |refs| > 0;
    }
    raised := false;
    var frames := seq(framesCount, _ => -1);
    var lastUsed: map<int, int> := map[];
    timeline := [];
    for i := 0 to |refs|
      invariant |timeline| == i && Follows(Lru, refs, framesCount, timeline)
      invariant CountFaults(timeline) == Run(Lru, refs, framesCount, i).faults
      invariant LruState(refs, framesCount, i, frames, lastUsed)
    {
      var entry;
      frames, lastUsed, entry := LruRound(refs, framesCount, i, frames, lastUsed);
      FollowsExtend(Lru, refs, framesCount, timeline, entry, timeline + [entry]);
      timeline := timeline + [entry];
    }
    faults := CountFaults(timeline);
  }

  // ---------------------------------------------------------------- Optimal

  /** A value of `future_indices`: a reference index, or `math.inf`. */
  datatype Future = At(index: nat) | Inf

  /** The order of `future_indices` values, `math.inf` above every index. */
  predicate Later(a: Future, b: Future) {
    match (a, b)
    case (Inf, _) => !b.Inf?
    case (At(x), At(y)) => x > y
    case (At(_), Inf) => false
  }

  /** `max(d, key=d.get)` over a dictionary whose keys, in insertion order, are `keys`: the first key of greatest value. */
  function MaxKey(keys: seq<int>, d: map<int, Future>): (r: int)
    requires |keys| > 0 && forall j :: 0 <= j < |keys| ==> keys[j] in d
    ensures r in keys
  {
    if |keys| == 1 then keys[0]
    else
      var best := MaxKey(keys[..|keys| - 1], d);
      if Later(d[keys[|keys| - 1]], d[best]) then keys[|keys| - 1] else best
  }

  /** `math.inf` read as |refs|: the order of the dictionary values is that of `NextUse`. */
  function Rank(f: Future, n: nat): int {
    if f.Inf? then n else f.index
  }

  /** Every key's value, read through `Rank`, is the matching entry of `u`. */
  ghost predicate RanksMatch(keys: seq<int>, d: map<int, Future>, u: seq<int>, n: nat) {
    |u| == |keys| && forall j :: 0 <= j < |keys| ==> RankAt(keys, d, u, n, j)
  }

  ghost predicate RankAt(keys: seq<int>, d: map<int, Future>, u: seq<int>, n: nat, j: nat)
    requires j < |keys| == |u|
  {
    keys[j] in d && u[j] == Rank(d[keys[j]], n) && (d[keys[j]].At? ==> d[keys[j]].index < n)
  }

  lemma RanksExtend(keys: seq<int>, d: map<int, Future>, u: seq<int>, n: nat, page: int, f: Future, x: int,
                    keys2: seq<int>, d2: map<int, Future>, u2: seq<int>)
    requires RanksMatch(keys, d, u, n) && page !in keys
    requires x == Rank(f, n) && (f.At? ==> f.index < n)
    requires keys2 == keys + [page] && d2 == d[page := f] && u2 == u + [x]
    ensures RanksMatch(keys2, d2, u2, n)
  {
    forall j | 0 <= j < |keys2| ensures RankAt(keys2, d2, u2, n, j) {
      if j < |keys| {
        assert RankAt(keys, d, u, n, j);
      }
    }
  }

  lemma LaterRank(a: Future, b: Future, n: nat)
    requires a.At? ==> a.index < n
    requires b.At? ==> b.index < n
    ensures Later(a, b) <==> Rank(a, n) > Rank(b, n)
  {
  }

  lemma {:induction false} MaxKeyIsFirstMax(keys: seq<int>, d: map<int, Future>, u: seq<int>, n: nat)
    requires |keys| > 0 && RanksMatch(keys, d, u, n)
    ensures forall j :: 0 <= j < |keys| ==> keys[j] in d
    ensures MaxKey(keys, d) == keys[FirstMax(u)]
  {
    assert forall j :: 0 <= j < |keys| ==> RankAt(keys, d, u, n, j);
    if |keys| > 1 {
      var m := |keys| - 1;
      assert RanksMatch(keys[..m], d, u[..m], n) by {
        forall j | 0 <= j < m ensures RankAt(keys[..m], d, u[..m], n, j) {
          assert RankAt(keys, d, u, n, j);
        }
      }
      MaxKeyIsFirstMax(keys[..m], d, u[..m], n);
      var f := FirstMax(u[..m]);
      assert RankAt(keys, d, u, n, f) && RankAt(keys, d, u, n, m);
      LaterRank(d[keys[m]], d[keys[f]], n);
    } else {
      assert RankAt(keys, d, u, n, 0);
    }
  }

  /** The inner look-ahead: the first `j` in `range(i+1, n)` with `refs[j] == page`, or None. */
  method Lookahead(refs: seq<int>, i: nat, page: int) returns (found: Option<nat>)
    requires i < |refs|
    ensures found == if NextUse(refs, i, page) < |refs| then Some(NextUse(refs, i, page)) else None
  {
    for j := i + 1 to |refs|
      invariant NextUse(refs, i, page) >= j
    {
      if refs[j] == page {
        return Some(j);
      }
    }
    return None;
  }

  /** The victim page: `future_indices` built in frame order, then `max` over it. */
  method FarthestPage(refs: seq<int>, i: nat, frames: seq<int>) returns (victim: int)
    requires i < |refs| && |frames| >= 1
    requires forall a, b :: 0 <= a < b < |frames| ==> frames[a] != frames[b]
    ensures victim == frames[FirstMax(NextUses(refs, i, frames))]
  {
    var futureIndices: map<int, Future> := map[];
    var keys: seq<int> := [];
    ghost var uses := NextUses(refs, i, frames);
    for j := 0 to |frames|
      invariant keys == frames[..j]
      invariant RanksMatch(keys, futureIndices, uses[..j], |refs|)
    {
      var page := frames[j];
      var found := Lookahead(refs, i, page);
      assert page !in keys;
      var future := if found.Some? then At(found.value) else Inf;
      assert uses[..j + 1] == uses[..j] + [uses[j]];
      RanksExtend(keys, futureIndices, uses[..j], |refs|, page, future, uses[j],
                  keys + [page], futureIndices[page := future], uses[..j + 1]);
      futureIndices := futureIndices[page := future];
      keys := keys + [page];
    }
    assert keys == frames && uses[..|frames|] == uses;
    MaxKeyIsFirstMax(keys, futureIndices, uses, |refs|);
    victim := MaxKey(keys, futureIndices);
  }

  /** One pass of `simulate_optimal`'s loop. */
  method OptimalRound(refs: seq<int>, k: nat, i: nat, frames: seq<int>) returns (frames2: seq<int>, entry: Entry)
    requires k >= 1 && i < |refs| && frames == Run(Optimal, refs, k, i).mem.frames
    ensures frames2 == Run(Optimal, refs, k, i + 1).mem.frames
    ensures entry == EntryAt(Optimal, refs, k, i)
  {
    ghost var m := Run(Optimal, refs, k, i).mem;
    RunFrames(Optimal, refs, k, i);
    var p := refs[i];
    if p in frames {
      frames2 := frames;
      entry := Entry(p, frames2, false, None);
    } else if -1 in frames {
      var idx := Find(frames, -1);
      frames2 := frames[idx := p];
      entry := Entry(p, frames2, true, Some(idx));
    } else {
      var victim := FarthestPage(refs, i, frames);
      ghost var v := FirstMax(NextUses(refs, i, m.frames));
      var idx := Find(frames, victim);
      FindUnique(frames, victim, v);
      frames2 := frames[idx := p];
      entry := Entry(p, frames2, true, Some(idx));
    }
  }

  /**
   * `simulate_optimal`. `raised` says the call raised instead of returning: with no frame
   * the first reference leaves `future_indices` empty and `max` over it raises
   * ValueError. Without references it returns an empty timeline.
   */
  method SimulateOptimal(refs: seq<int>, framesCount: int) returns (timeline: seq<Entry>, faults: nat, raised: bool)
    ensures raised <==> framesCount < 1 && |refs| > 0
    ensures framesCount >= 1 ==> |timeline| == |refs| && Follows(Optimal, refs, framesCount, timeline)
    ensures framesCount >= 1 ==> faults == CountFaults(timeline) == Faults(Optimal, refs, framesCount)
    ensures framesCount < 1 ==> timeline == [] && faults == 0
  {
    if framesCount < 1 {
      return [], 0, |refs| > 0;
    }
    raised := false;
    var frames := seq(framesCount, _ => -1);
    timeline := [];
    for i := 0 to |refs|
      invariant |timeline| == i && Follows(Optimal, refs, framesCount, timeline)
      invariant CountFaults(timeline) == Run(Optimal, refs, framesCount, i).faults
      invariant frames == Run(Optimal, refs, framesCount, i).mem.frames
    {
      var entry;
      frames, entry := OptimalRound(refs, framesCount, i, frames);
      FollowsExtend(Optimal, refs, framesCount, timeline, entry, timeline + [entry]);
      timeline := timeline + [entry];
    }
    faults := CountFaults(timeline);
  }

  // ---------------------------------------------------------------- FIFO

  /** `simulate_fifo`'s state: the frames and the deque `q` of frame indices in loading order. */
  datatype FifoState = FifoState(frames: seq<int>, q: seq<nat>)

  /** The deque holds frame indices, and every loaded frame's index. */
  ghost predicate QueueOk(st: FifoState, k: nat) {
    k >= 1 && |st.frames| == k &&
    (forall t :: 0 <= t < |st.q| ==> st.q[t] < k) &&
    (forall j :: 0 <= j < k && st.frames[j] != -1 ==> j in st.q)
  }

  datatype FifoOutcome = FifoOutcome(st: FifoState, entry: Entry)

  /**
   * One reference: a hit leaves everything as it was; a fault fills the lowest empty frame
   * and appends it to the deque, or with no empty frame pops the deque's head, replaces
   * that frame and appends it again (so `popleft` never meets an empty deque).
   */
  function FifoStep(st: FifoState, p: int): (o: FifoOutcome)
    requires QueueOk(st, |st.frames|)
    ensures QueueOk(o.st, |st.frames|)
    ensures o.entry.page == p && o.entry.frames == o.st.frames
    ensures o.entry.fault <==> p !in st.frames
    ensures !o.entry.fault ==> o.st == st && o.entry.replacedIndex == None
    ensures o.entry.fault && -1 in st.frames ==>
              o.entry.replacedIndex == Some(Find(st.frames, -1) as nat) && o.st.q == st.q + [Find(st.frames, -1) as nat]
    ensures o.entry.fault && -1 !in st.frames ==>
              |st.q| > 0 && o.entry.replacedIndex == Some(st.q[0]) && o.st.q == st.q[1..] + [st.q[0]]
    ensures o.entry.fault ==> o.st.frames == st.frames[o.entry.replacedIndex.value := p]
  {
    if p in st.frames then
      FifoOutcome(st, Entry(p, st.frames, false, None))
    else if -1 in st.frames then
      var idx := Find(st.frames, -1) as nat;
      var frames2 := st.frames[idx := p];
      FifoOutcome(FifoState(frames2, st.q + [idx]), Entry(p, frames2, true, Some(idx)))
    else
      assert st.frames[0] != -1 && 0 in st.q;
      var idx := st.q[0];
      var frames2 := st.frames[idx := p];
      FifoOutcome(FifoState(frames2, st.q[1..] + [idx]), Entry(p, frames2, true, Some(idx)))
  }

  datatype FifoTrace = FifoTrace(st: FifoState, timeline: seq<Entry>)

  /** The state and timeline after the first `n` references. */
  function FifoRun(refs: seq<int>, k: nat, n: nat): (t: FifoTrace)
    requires k >= 1 && n <= |refs|
    ensures QueueOk(t.st, k) && |t.timeline| == n
  {
    if n == 0 then FifoTrace(FifoState(seq(k, _ => -1), []), [])
    else
      var t := FifoRun(refs, k, n - 1);
      var o := FifoStep(t.st, refs[n - 1]);
      FifoTrace(o.st, t.timeline + [o.entry])
  }

  /**
   * `simulate_fifo`. `raised` says the call raised instead of returning: with no frame
   * the first reference finds no free frame and `q.popleft()` on the empty deque raises
   * IndexError. Without references it returns an empty timeline.
   */
  method SimulateFifo(refs: seq<int>, framesCount: int) returns (timeline: seq<Entry>, faults: nat, raised: bool)
    ensures raised <==> framesCount < 1 && |refs| > 0
    ensures framesCount >= 1 ==> timeline == FifoRun(refs, framesCount, |refs|).timeline
    ensures faults == CountFaults(timeline)
    ensures framesCount < 1 ==> timeline == []
  {
    if framesCount < 1 {
      return [], 0, |refs| > 0;
    }
    raised := false;
    var frames := seq(framesCount, _ => -1);
    var q: seq<nat> := [];
    timeline := [];
    for i := 0 to |refs|
      invariant FifoRun(refs, framesCount, i) == FifoTrace(FifoState(frames, q), timeline)
    {
      var p := refs[i];
      if p in frames {
        timeline := timeline + [Entry(p, frames, false, None)];
      } else if -1 in frames {
        var idx := Find(frames, -1) as nat;
        frames := frames[idx := p];
        q := q + [idx];
        timeline := timeline + [Entry(p, frames, true, Some(idx))];
      } else {
        assert frames[0] != -1;
        var idx := q[0];
        q := q[1..];
        frames := frames[idx := p];
        q := q + [idx];
        timeline := timeline + [Entry(p, frames, true, Some(idx))];
      }
    }
    faults := CountFaults(timeline);
  }

  /** The frame indices a..b-1 in order. */
  function Range(a: nat, b: nat): (r: seq<nat>)
    requires a <= b
    ensures |r| == b - a && forall t :: 0 <= t < |r| ==> r[t] == a + t
  {
    seq(b - a, t requires 0 <= t < b - a => a + t)
  }

  /**
   * How the deque matches the C pointer when no reference is -1: while the frames fill,
   * the deque is 0..f-1 with frames 0..f-1 loaded and the pointer at 0; once they are
   * full, the deque is the rotation of 0..k-1 that starts at the pointer.
   */
  ghost predicate Shape(st: FifoState, m: Memory, k: nat) {
    Sized(m, k) && st.frames == m.frames &&
    if |st.q| < k then
      st.q == Range(0, |st.q|) && m.nextReplace == 0 &&
      forall j :: 0 <= j < k ==> (st.frames[j] == -1 <==> j >= |st.q|)
    else
      st.q == Rotation(m.nextReplace, k) && -1 !in st.frames
  }

  /** The frame indices r..k-1 followed by 0..r-1. */
  function Rotation(r: nat, k: nat): (s: seq<nat>)
    requires r < k
    ensures |s| == k && forall t :: 0 <= t < k ==> s[t] == if r + t < k then r + t else r + t - k
  {
    seq(k, t requires 0 <= t < k => if r + t < k then r + t else r + t - k)
  }

  lemma ShapeStep(refs: seq<int>, i: nat, st: FifoState, m: Memory, k: nat)
    requires i < |refs| && refs[i] != -1 && Shape(st, m, k) && QueueOk(st, k)
    ensures var o := Step(Fifo, refs, i, m); var f := FifoStep(st, refs[i]);
      Shape(f.st, o.mem, k) &&
      f.entry == Entry(refs[i], o.mem.frames, o.fault, if o.fault then Some(o.replaced as nat) else None)
  {
    if refs[i] !in st.frames {
      if |st.q| < k {
        ShapeFill(refs, i, st, m, k);
      } else {
        ShapeRotate(refs, i, st, m, k);
      }
    }
  }

  /** A fault while the frames fill: both load frame |q|. */
  lemma ShapeFill(refs: seq<int>, i: nat, st: FifoState, m: Memory, k: nat)
    requires i < |refs| && refs[i] != -1 && Shape(st, m, k) && QueueOk(st, k)
    requires refs[i] !in st.frames && |st.q| < k
    ensures var o := Step(Fifo, refs, i, m); var f := FifoStep(st, refs[i]);
      Shape(f.st, o.mem, k) && o.replaced == |st.q| && f.entry.replacedIndex == Some(|st.q|)
  {
    var c := |st.q|;
    assert st.frames[c] == -1;
    assert -1 !in st.frames[..c];
    FindUnique(st.frames, -1, c);
    var f := FifoStep(st, refs[i]);
    assert f.st.q == Range(0, c + 1);
    if c + 1 == k {
      assert f.st.q == Rotation(0, k);
      assert forall j :: 0 <= j < k ==> f.st.frames[j] != -1;
    }
  }

  /** A fault with the frames full: the deque's head is the pointer, and popping and re-appending it rotates the deque. */
  lemma ShapeRotate(refs: seq<int>, i: nat, st: FifoState, m: Memory, k: nat)
    requires i < |refs| && refs[i] != -1 && Shape(st, m, k) && QueueOk(st, k)
    requires refs[i] !in st.frames && |st.q| >= k
    ensures var o := Step(Fifo, refs, i, m); var f := FifoStep(st, refs[i]);
      Shape(f.st, o.mem, k) && o.replaced == m.nextReplace && f.entry.replacedIndex == Some(m.nextReplace)
  {
    var r := m.nextReplace;
    var r2 := if r + 1 < k then r + 1 else 0;
    RotateRange(r, k, st.q);
    FifoVictim(refs, i, m);
    var o := Step(Fifo, refs, i, m);
    var f := FifoStep(st, refs[i]);
    WrapNext(r, k);
    RotatedShape(f.st, o.mem, k, r2);
  }

  /** A full memory whose deque is the rotation starting at the pointer has the full-memory shape. */
  lemma RotatedShape(st: FifoState, m: Memory, k: nat, r: nat)
    requires Sized(m, k) && r == m.nextReplace && st.frames == m.frames
    requires st.q == Rotation(r, k) && -1 !in st.frames
    ensures Shape(st, m, k)
  {
  }

  /** The pointer's cyclic advance `(r + 1) % k`. */
  lemma WrapNext(r: nat, k: nat)
    requires r < k
    ensures (r + 1) % k == if r + 1 < k then r + 1 else 0
  {
  }

  lemma RotateRange(r: nat, k: nat, q: seq<nat>)
    requires r < k && q == Rotation(r, k)
    ensures |q| > 0 && q[0] == r
    ensures q[1..] + [q[0]] == Rotation(if r + 1 < k then r + 1 else 0, k)
  {
    var r2 := if r + 1 < k then r + 1 else 0;
    var q2 := q[1..] + [r];
    var q3 := Rotation(r2, k);
    forall t | 0 <= t < k ensures q2[t] == q3[t] {
      if t < k - 1 {
        assert q2[t] == q[t + 1];
      } else {
        assert q2[t] == r;
      }
    }
  }

  /** Without references to page -1 the deque version and the pointer version are the same simulation. */
  lemma {:induction false} FifoAgrees(refs: seq<int>, k: nat, n: nat)
    requires k >= 1 && n <= |refs| && -1 !in refs
    ensures Shape(FifoRun(refs, k, n).st, Run(Fifo, refs, k, n).mem, k)
    ensures Follows(Fifo, refs, k, FifoRun(refs, k, n).timeline)
    ensures CountFaults(FifoRun(refs, k, n).timeline) == Run(Fifo, refs, k, n).faults
  {
    if n == 0 {
      assert [] == Range(0, 0);
    } else {
      FifoAgrees(refs, k, n - 1);
      var t := FifoRun(refs, k, n - 1);
      var m := Run(Fifo, refs, k, n - 1).mem;
      ShapeStep(refs, n - 1, t.st, m, k);
      var e := FifoStep(t.st, refs[n - 1]).entry;
      FollowsExtend(Fifo, refs, k, t.timeline, e, t.timeline + [e]);
    }
  }

  /** So on such reference strings `simulate_fifo` reports the C program's fault count. */
  lemma FifoFaultsAgree(refs: seq<int>, k: nat)
    requires k >= 1 && -1 !in refs
    ensures CountFaults(FifoRun(refs, k, |refs|).timeline) == Faults(Fifo, refs, k)
  {
    FifoAgrees(refs, k, |refs|);
  }
}
