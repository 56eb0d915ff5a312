/**
 * The non-preemptive dispatch loop shared by the shortest-job and priority
 * schedulers (cpu_scheduling.c `sjf` and `priority_np`, sjf.c, 1.c):
 *
 *   while some job is unfinished:
 *     scan the jobs in index order for the best ready job (arrived, not finished);
 *     if none is ready, let the clock jump forward (idle) and scan again;
 *     otherwise run it to completion and advance the clock by its burst.
 *
 * The four programs differ only in the key that ranks ready jobs (a `Rule`)
 * and in how the idle jump is computed; both idle jumps land on the earliest
 * pending arrival, which is what `Dispatch` states.
 */
module NonPreemptive {

  import opened Counting

  const INT_MAX := 2147483647

  datatype Job = Job(pid: int, arrival: int, burst: int, priority: int)

  /**
   * CpuSjf, CpuPriority: cpu_scheduling.c (key, then earlier arrival);
   * SjfFile: sjf.c (burst, arrival, pid); PriorityFile: 1.c (priority, arrival, burst).
   */
  datatype Rule = CpuSjf | CpuPriority | SjfFile | PriorityFile

  /** The key compared against the running minimum (which starts at INT_MAX). */
  function Primary(rule: Rule, j: Job): int {
    if rule == CpuSjf || rule == SjfFile then j.burst else j.priority
  }

  /** The tie-break applied when the primary keys are equal. */
  predicate TieBetter(rule: Rule, x: Job, y: Job) {
    match rule
    case CpuSjf => x.arrival < y.arrival
    case CpuPriority => x.arrival < y.arrival
    case SjfFile => x.arrival < y.arrival || (x.arrival == y.arrival && x.pid < y.pid)
    case PriorityFile => x.arrival < y.arrival || (x.arrival == y.arrival && x.burst < y.burst)
  }

  /** `x` replaces `y` as the best candidate found so far. */
  predicate Better(rule: Rule, x: Job, y: Job) {
    Primary(rule, x) < Primary(rule, y) || (Primary(rule, x) == Primary(rule, y) && TieBetter(rule, x, y))
  }

  lemma BetterIsStrictWeakOrder(rule: Rule)
    ensures forall x :: !Better(rule, x, x)
    ensures forall x, y, z :: Better(rule, x, y) && Better(rule, y, z) ==> Better(rule, x, z)
    ensures forall x, y, z :: Better(rule, x, z) && !Better(rule, y, z) ==> Better(rule, x, y)
  {
  }

  /** Job `j` is ready at `time`: arrived and not finished. */
  predicate Ready(jobs: seq<Job>, done: seq<bool>, time: int, j: int) {
    0 <= j < |jobs| && j < |done| && !done[j] && jobs[j].arrival <= time
  }

  /**
   * Job `i` is the one dispatched at time `s` after the jobs in `d` have run and the
   * clock stood at `prev`: it is ready at `s`, no ready job is better, every ready job
   * before it in index order is worse, and the CPU idled only when nothing pending
   * had arrived, up to the first pending arrival.
   */
  ghost predicate Dispatch(jobs: seq<Job>, rule: Rule, d: seq<nat>, prev: int, i: nat, s: int) {
    i < |jobs| && i !in d && jobs[i].arrival <= s && prev <= s
    && (s == prev || forall j :: 0 <= j < |jobs| && j !in d ==> s <= jobs[j].arrival)
    && (forall j :: 0 <= j < |jobs| && j !in d && jobs[j].arrival <= s ==>
          !Better(rule, jobs[j], jobs[i]) && (j < i ==> Better(rule, jobs[i], jobs[j])))
  }

  ghost predicate Indices(jobs: seq<Job>, order: seq<nat>, startAt: seq<int>) {
    |startAt| == |jobs| && forall k :: 0 <= k < |order| ==> order[k] < |jobs|
  }

  /** The clock after the jobs of `order` have run: the end of the last one. */
  ghost function End(jobs: seq<Job>, time0: int, order: seq<nat>, startAt: seq<int>): int
    requires Indices(jobs, order, startAt)
  {
    if |order| == 0 then time0
    else startAt[order[|order| - 1]] + jobs[order[|order| - 1]].burst
  }

  /** Every dispatch so far followed the rule. */
  ghost predicate Prefix(jobs: seq<Job>, rule: Rule, time0: int, order: seq<nat>, startAt: seq<int>) {
    Indices(jobs, order, startAt) &&
    forall k: nat :: k < |order| ==> DispatchedAt(jobs, rule, time0, order, startAt, k)
  }

  /** The k-th dispatch of `order` followed the rule, given the history before it. */
  ghost predicate DispatchedAt(jobs: seq<Job>, rule: Rule, time0: int, order: seq<nat>, startAt: seq<int>, k: nat) {
    k < |order| && Indices(jobs, order[..k], startAt) && order[k] < |startAt| &&
    Dispatch(jobs, rule, order[..k], End(jobs, time0, order[..k], startAt), order[k], startAt[order[k]])
  }

  /** A complete run: every job dispatched, each by the rule; `startAt[i]` is job i's start. */
  ghost predicate Schedule(jobs: seq<Job>, rule: Rule, time0: int, order: seq<nat>, startAt: seq<int>) {
    |order| == |jobs| && Prefix(jobs, rule, time0, order, startAt)
  }

  /** The ranking loop: the best ready job, or -1 when none is ready. */
  method Select(jobs: seq<Job>, rule: Rule, done: seq<bool>, time: int) returns (idx: int)
    requires |done| == |jobs|
    requires forall i :: 0 <= i < |jobs| ==> Primary(rule, jobs[i]) < INT_MAX
    ensures -1 <= idx < |jobs|
    ensures idx == -1 <==> forall j :: 0 <= j < |jobs| ==> !Ready(jobs, done, time, j)
    ensures idx >= 0 ==> Ready(jobs, done, time, idx)
    ensures idx >= 0 ==> forall j :: Ready(jobs, done, time, j) ==>
              !Better(rule, jobs[j], jobs[idx]) && (j < idx ==> Better(rule, jobs[idx], jobs[j]))
  {
    BetterIsStrictWeakOrder(rule);
    idx := -1;
    var minKey := INT_MAX;
    for i := 0 to |jobs|
      invariant -1 <= idx < i
      invariant idx == -1 ==> minKey == INT_MAX && forall j :: 0 <= j < i ==> !Ready(jobs, done, time, j)
      invariant idx >= 0 ==> Ready(jobs, done, time, idx) && minKey == Primary(rule, jobs[idx])
      invariant idx >= 0 ==> forall j :: 0 <= j < i && Ready(jobs, done, time, j) ==>
                  !Better(rule, jobs[j], jobs[idx]) && (j < idx ==> Better(rule, jobs[idx], jobs[j]))
    {
      if !done[i] && jobs[i].arrival <= time {
        var key := Primary(rule, jobs[i]);
        if key < minKey || (key == minKey && idx >= 0 && TieBetter(rule, jobs[i], jobs[idx])) {
          minKey := key;
          idx := i;
        }
      }
    }
  }

  /**
   * The idle jump of cpu_scheduling.c: the earliest arrival among unfinished jobs
   * (it starts from INT_MAX).
   */
  method EarliestPending(jobs: seq<Job>, done: seq<bool>) returns (next: int)
    requires |done| == |jobs|
    requires forall i :: 0 <= i < |jobs| ==> jobs[i].arrival <= INT_MAX
    ensures next <= INT_MAX
    ensures forall j :: 0 <= j < |jobs| && !done[j] ==> next <= jobs[j].arrival
    ensures next == INT_MAX || exists j :: 0 <= j < |jobs| && !done[j] && jobs[j].arrival == next
  {
    next := INT_MAX;
    for i := 0 to |jobs|
      invariant next <= INT_MAX
      invariant forall j :: 0 <= j < i && !done[j] ==> next <= jobs[j].arrival
      invariant next == INT_MAX || exists j :: 0 <= j < i && !done[j] && jobs[j].arrival == next
    {
      if !done[i] {
        next := if jobs[i].arrival < next then jobs[i].arrival else next;
      }
    }
  }

  /**
   * The idle jump of sjf.c and 1.c: the nearest unfinished arrival after `time`
   * that is below INT_MAX, or one tick later when there is none.
   */
  method NextLaterArrival(jobs: seq<Job>, done: seq<bool>, time: int) returns (next: int)
    requires |done| == |jobs|
    ensures time < next
    ensures forall j :: 0 <= j < |jobs| && !done[j] && time < jobs[j].arrival && jobs[j].arrival < INT_MAX ==>
              next <= jobs[j].arrival
    ensures next == time + 1 || exists j :: 0 <= j < |jobs| && !done[j] && jobs[j].arrival == next
  {
    var nextArrival := INT_MAX;
    for i := 0 to |jobs|
      invariant nextArrival <= INT_MAX
      invariant nextArrival == INT_MAX || time < nextArrival
      invariant forall j :: 0 <= j < i && !done[j] && time < jobs[j].arrival && jobs[j].arrival < INT_MAX ==>
                  nextArrival <= jobs[j].arrival
      invariant nextArrival == INT_MAX || exists j :: 0 <= j < i && !done[j] && jobs[j].arrival == nextArrival
    {
      if !done[i] && jobs[i].arrival > time && jobs[i].arrival < nextArrival {
        nextArrival := jobs[i].arrival;
      }
    }
    next := if nextArrival == INT_MAX then time + 1 else nextArrival;
  }

  /** The idle jump of the program the rule comes from. */
  method Idle(jobs: seq<Job>, rule: Rule, done: seq<bool>, time: int) returns (next: int)
    requires |done| == |jobs|
    requires forall i :: 0 <= i < |jobs| ==> jobs[i].arrival <= INT_MAX
    requires forall j :: 0 <= j < |jobs| ==> !Ready(jobs, done, time, j)
    requires exists j :: 0 <= j < |jobs| && !done[j]
    ensures time < next <= INT_MAX
    ensures forall j :: 0 <= j < |jobs| && !done[j] ==> next <= jobs[j].arrival
  {
    if rule == CpuSjf || rule == CpuPriority {
      next := EarliestPending(jobs, done);
      var w :| 0 <= w < |jobs| && !done[w];
      assert !Ready(jobs, done, time, w);
      if next != INT_MAX {
        var v :| 0 <= v < |jobs| && !done[v] && jobs[v].arrival == next;
        assert !Ready(jobs, done, time, v);
      }
    } else {
      next := NextLaterArrival(jobs, done, time);
      forall j | 0 <= j < |jobs| && !done[j] ensures next <= jobs[j].arrival {
        assert !Ready(jobs, done, time, j);
      }
      var w :| 0 <= w < |jobs| && !done[w];
      assert !Ready(jobs, done, time, w);
    }
  }

  lemma PrefixExtend(jobs: seq<Job>, rule: Rule, time0: int, order: seq<nat>, startAt: seq<int>, i: nat, s: int)
    requires Prefix(jobs, rule, time0, order, startAt)
    requires Dispatch(jobs, rule, order, End(jobs, time0, order, startAt), i, s)
    ensures Prefix(jobs, rule, time0, order + [i], startAt[i := s])
    ensures End(jobs, time0, order + [i], startAt[i := s]) == s + jobs[i].burst
  {
    var o2, s2 := order + [i], startAt[i := s];
    assert Indices(jobs, o2, s2);
    forall k: nat | k < |o2|
      ensures DispatchedAt(jobs, rule, time0, o2, s2, k)
    {
      if k < |order| {
        OldDispatchKept(jobs, rule, time0, order, startAt, i, s, k);
      } else {
        assert o2[..k] == order;
        EndUnchanged(jobs, time0, order, startAt, i, s);
      }
    }
  }

  lemma EndUnchanged(jobs: seq<Job>, time0: int, d: seq<nat>, startAt: seq<int>, i: nat, s: int)
    requires Indices(jobs, d, startAt) && i < |startAt| && i !in d
    ensures Indices(jobs, d, startAt[i := s])
    ensures End(jobs, time0, d, startAt[i := s]) == End(jobs, time0, d, startAt)
  {
    if |d| > 0 {
      assert d[|d| - 1] in d;
    }
  }

  lemma OldDispatchKept(jobs: seq<Job>, rule: Rule, time0: int, order: seq<nat>, startAt: seq<int>, i: nat, s: int, k: nat)
    requires Prefix(jobs, rule, time0, order, startAt)
    requires i < |jobs| && i !in order && k < |order|
    ensures Indices(jobs, (order + [i])[..k], startAt[i := s])
    ensures Dispatch(jobs, rule, (order + [i])[..k], End(jobs, time0, (order + [i])[..k], startAt[i := s]),
                     (order + [i])[k], startAt[i := s][(order + [i])[k]])
  {
    var d := order[..k];
    assert (order + [i])[..k] == d;
    assert (order + [i])[k] == order[k];
    assert order[k] in order;
    assert startAt[i := s][order[k]] == startAt[order[k]];
    assert i !in d;
    EndUnchanged(jobs, time0, d, startAt, i, s);
    DispatchAt(jobs, rule, time0, order, startAt, k);
  }

  /** What `Select` returns at the loop head is a dispatch by the rule. */
  lemma SelectedDispatch(jobs: seq<Job>, rule: Rule, order: seq<nat>, done: seq<bool>, prev: int, time: int, idx: nat)
    requires |done| == |jobs|
    requires forall j :: 0 <= j < |jobs| ==> (done[j] <==> j in order)
    requires prev <= time
    requires time == prev || forall j :: 0 <= j < |jobs| && !done[j] ==> time <= jobs[j].arrival
    requires Ready(jobs, done, time, idx)
    requires forall j :: Ready(jobs, done, time, j) ==>
               !Better(rule, jobs[j], jobs[idx]) && (j < idx ==> Better(rule, jobs[idx], jobs[j]))
    ensures Dispatch(jobs, rule, order, prev, idx, time)
  {
    forall j | 0 <= j < |jobs| && j !in order && jobs[j].arrival <= time
      ensures !Better(rule, jobs[j], jobs[idx]) && (j < idx ==> Better(rule, jobs[idx], jobs[j]))
    {
      assert Ready(jobs, done, time, j);
    }
  }

  /** The engine: dispatches every job, each by `rule`, starting the clock at `time0`. */
  method Run(jobs: seq<Job>, rule: Rule, time0: int) returns (order: seq<nat>, startAt: seq<int>)
    requires forall i :: 0 <= i < |jobs| ==> jobs[i].arrival <= INT_MAX && Primary(rule, jobs[i]) < INT_MAX
    ensures Schedule(jobs, rule, time0, order, startAt)
  {
    var n := |jobs|;
    var done := seq(n, _ => false);
    startAt := seq(n, _ => 0);
    order := [];
    var time := time0;
    var completed := 0;
    ghost var prev := time0;
    while completed < n
      invariant |done| == n
      invariant completed == |order| <= n
      invariant forall j :: 0 <= j < n ==> (done[j] <==> j in order)
      invariant Prefix(jobs, rule, time0, order, startAt)
      invariant prev == End(jobs, time0, order, startAt)
      invariant prev <= time
      invariant time == prev || forall j :: 0 <= j < n && !done[j] ==> time <= jobs[j].arrival
      decreases n - completed, INT_MAX - time
    {
      var idx := Select(jobs, rule, done, time);
      if idx == -1 {
        PendingExists(order, done, n);
        time := Idle(jobs, rule, done, time);
        continue;
      }
      SelectedDispatch(jobs, rule, order, done, prev, time, idx);
      PrefixExtend(jobs, rule, time0, order, startAt, idx, time);
      order := order + [idx];
      startAt := startAt[idx := time];
      time := time + jobs[idx].burst;
      prev := time;
      done := done[idx := true];
      completed := completed + 1;
    }
  }

  /** Two dispatches after the same history agree on the job and on its start time. */
  lemma DispatchUnique(jobs: seq<Job>, rule: Rule, d: seq<nat>, prev: int, i1: nat, s1: int, i2: nat, s2: int)
    requires Dispatch(jobs, rule, d, prev, i1, s1)
    requires Dispatch(jobs, rule, d, prev, i2, s2)
    ensures i1 == i2 && s1 == s2
  {
    BetterIsStrictWeakOrder(rule);
  }

  /** The schedule is a function of the jobs: any two complete runs coincide. */
  lemma {:induction false} ScheduleUnique(jobs: seq<Job>, rule: Rule, time0: int,
                                          o1: seq<nat>, st1: seq<int>, o2: seq<nat>, st2: seq<int>)
    requires Schedule(jobs, rule, time0, o1, st1)
    requires Schedule(jobs, rule, time0, o2, st2)
    ensures o1 == o2
    ensures forall k :: 0 <= k < |o1| ==> st1[o1[k]] == st2[o2[k]]
  {
    AgreeUpTo(jobs, rule, time0, o1, st1, o2, st2, |jobs|);
    assert o1 == o1[..|jobs|];
    assert o2 == o2[..|jobs|];
  }

  lemma {:induction false} AgreeUpTo(jobs: seq<Job>, rule: Rule, time0: int,
                                     o1: seq<nat>, st1: seq<int>, o2: seq<nat>, st2: seq<int>, k: nat)
    requires Schedule(jobs, rule, time0, o1, st1)
    requires Schedule(jobs, rule, time0, o2, st2)
    requires k <= |jobs|
    ensures o1[..k] == o2[..k]
    ensures forall m :: 0 <= m < k ==> st1[o1[m]] == st2[o2[m]]
  {
    if k > 0 {
      AgreeUpTo(jobs, rule, time0, o1, st1, o2, st2, k - 1);
      DispatchAt(jobs, rule, time0, o1, st1, k - 1);
      DispatchAt(jobs, rule, time0, o2, st2, k - 1);
      AgreeStep(jobs, rule, time0, o1, st1, o2, st2, k - 1);
    }
  }

  lemma AgreeStep(jobs: seq<Job>, rule: Rule, time0: int,
                  o1: seq<nat>, st1: seq<int>, o2: seq<nat>, st2: seq<int>, k: nat)
    requires Indices(jobs, o1, st1) && Indices(jobs, o2, st2)
    requires k < |o1| && k < |o2| && o1[..k] == o2[..k]
    requires forall m :: 0 <= m < k ==> st1[o1[m]] == st2[o2[m]]
    requires Indices(jobs, o1[..k], st1) && Indices(jobs, o2[..k], st2)
    requires Dispatch(jobs, rule, o1[..k], End(jobs, time0, o1[..k], st1), o1[k], st1[o1[k]])
    requires Dispatch(jobs, rule, o2[..k], End(jobs, time0, o2[..k], st2), o2[k], st2[o2[k]])
    ensures o1[..k + 1] == o2[..k + 1]
    ensures forall m :: 0 <= m < k + 1 ==> st1[o1[m]] == st2[o2[m]]
  {
    EndOfEqualPrefixes(jobs, time0, o1, st1, o2, st2, k);
    DispatchUnique(jobs, rule, o1[..k], End(jobs, time0, o1[..k], st1), o1[k], st1[o1[k]], o2[k], st2[o2[k]]);
    assert o1[..k + 1] == o1[..k] + [o1[k]];
    assert o2[..k + 1] == o2[..k] + [o2[k]];
  }

  lemma DispatchAt(jobs: seq<Job>, rule: Rule, time0: int, order: seq<nat>, startAt: seq<int>, k: nat)
    requires Prefix(jobs, rule, time0, order, startAt)
    requires k < |order|
    ensures Indices(jobs, order[..k], startAt)
    ensures Dispatch(jobs, rule, order[..k], End(jobs, time0, order[..k], startAt), order[k], startAt[order[k]])
  {
    assert DispatchedAt(jobs, rule, time0, order, startAt, k);
  }

  lemma EndOfEqualPrefixes(jobs: seq<Job>, time0: int, o1: seq<nat>, st1: seq<int>, o2: seq<nat>, st2: seq<int>, k: nat)
    requires Indices(jobs, o1, st1) && Indices(jobs, o2, st2)
    requires k <= |o1| && k <= |o2| && o1[..k] == o2[..k]
    requires forall m :: 0 <= m < k ==> st1[o1[m]] == st2[o2[m]]
    ensures Indices(jobs, o1[..k], st1) && Indices(jobs, o2[..k], st2)
    ensures End(jobs, time0, o1[..k], st1) == End(jobs, time0, o2[..k], st2)
  {
    if k > 0 {
      assert o1[..k][k - 1] == o1[k - 1];
      assert o2[..k][k - 1] == o2[k - 1];
    }
  }

  /** No job is dispatched twice. */
  lemma ScheduleDistinct(jobs: seq<Job>, rule: Rule, time0: int, order: seq<nat>, startAt: seq<int>)
    requires Prefix(jobs, rule, time0, order, startAt)
    ensures forall k, m :: 0 <= k < m < |order| ==> order[k] != order[m]
  {
    forall k, m | 0 <= k < m < |order| ensures order[k] != order[m] {
      DispatchAt(jobs, rule, time0, order, startAt, m);
      assert order[k] in order[..m];
    }
  }

  /** Every job is dispatched, and exactly once. */
  lemma ScheduleIsPermutation(jobs: seq<Job>, rule: Rule, time0: int, order: seq<nat>, startAt: seq<int>)
    requires Schedule(jobs, rule, time0, order, startAt)
    ensures forall i :: 0 <= i < |jobs| ==> i in order
    ensures forall k, m :: 0 <= k < m < |order| ==> order[k] != order[m]
  {
    ScheduleDistinct(jobs, rule, time0, order, startAt);
    forall i | 0 <= i < |jobs| ensures i in order {
      DistinctCovers(order, |jobs|, i);
    }
  }

  /** The CPU never idles while an unfinished job has already arrived. */
  lemma NoIdleWhileReady(jobs: seq<Job>, rule: Rule, time0: int, order: seq<nat>, startAt: seq<int>, k: nat, j: nat)
    requires Schedule(jobs, rule, time0, order, startAt)
    requires k < |order| && j < |jobs| && j !in order[..k]
    requires jobs[j].arrival < startAt[order[k]]
    ensures startAt[order[k]] == End(jobs, time0, order[..k], startAt)
  {
    DispatchAt(jobs, rule, time0, order, startAt, k);
  }

  /** While fewer than n jobs have run, some job is unfinished. */
  lemma PendingExists(order: seq<nat>, done: seq<bool>, n: nat)
    requires |order| < n == |done|
    requires forall j :: 0 <= j < n ==> (done[j] <==> j in order)
    ensures exists j :: 0 <= j < n && !done[j]
  {
    if forall j :: 0 <= j < n ==> done[j] {
      forall x | x in RangeSet(n) ensures x in Elems(order) {
        RangeSetMember(n, x);
        assert done[x];
      }
      SubsetCard(RangeSet(n), Elems(order));
      RangeSetCard(n);
      ElemsCard(order);
      assert false;
    }
  }
}
