/**
 * Round robin from music/os_project/cpu_scheduling.c. The ready queue is the C array
 * `queue` read at `qhead` and written at `qtail`; neither index ever wraps. Here the
 * live part `queue[qhead..qtail]` is a sequence, and `qtail` counts every push. A
 * process is admitted once (the `inqueue` flags are never cleared) and, after a slice
 * that does not finish it, pushed again behind the processes admitted during that slice.
 */
module CpuRoundRobin {

  import opened Sorting
  import opened Counting
  import opened CpuScheduling

  /** One slice of the chart: process `idx` ran from `start` to `end`. */
  datatype Slice = Slice(idx: nat, start: int, end: int)

  /** Time process j has been served by the slices. */
  function Served(slices: seq<Slice>, j: nat): int {
    if |slices| == 0 then 0
    else var x := slices[|slices| - 1];
      Served(slices[..|slices| - 1], j) + (if x.idx == j then x.end - x.start else 0)
  }

  /** Number of slices process j has had. */
  function Count(slices: seq<Slice>, j: nat): nat {
    if |slices| == 0 then 0
    else Count(slices[..|slices| - 1], j) + (if slices[|slices| - 1].idx == j then 1 else 0)
  }

  /** The end of process j's last slice (0 if it never ran). */
  function LastSliceEnd(slices: seq<Slice>, j: nat): int {
    if |slices| == 0 then 0
    else if slices[|slices| - 1].idx == j then slices[|slices| - 1].end
    else LastSliceEnd(slices[..|slices| - 1], j)
  }

  lemma SliceFacts(slices: seq<Slice>, x: Slice, j: nat)
    ensures Served(slices + [x], j) == Served(slices, j) + (if x.idx == j then x.end - x.start else 0)
    ensures Count(slices + [x], j) == Count(slices, j) + (if x.idx == j then 1 else 0)
    ensures LastSliceEnd(slices + [x], j) == if x.idx == j then x.end else LastSliceEnd(slices, j)
  {
    assert (slices + [x])[..|slices|] == slices;
  }

  /** The table row of process j after the slices. */
  function RrRow(p: Proc, slices: seq<Slice>, j: nat): Proc {
    var r := p.burst - Served(slices, j);
    if Count(slices, j) > 0 && r == 0 then Completed(p.(remaining := 0), LastSliceEnd(slices, j))
    else p.(remaining := r, completion := -1)
  }

  function RrRows(input: seq<Proc>, slices: seq<Slice>): (r: seq<Proc>)
    ensures |r| == |input|
    ensures forall j :: 0 <= j < |input| ==> r[j] == RrRow(input[j], slices, j)
  {
    seq(|input|, j requires 0 <= j < |input| => RrRow(input[j], slices, j))
  }

  /** The Gantt chart the C program prints for the slices. */
  function Chart(input: seq<Proc>, slices: seq<Slice>): (g: seq<GanttEntry>)
    requires forall k :: 0 <= k < |slices| ==> slices[k].idx < |input|
    ensures |g| == |slices|
  {
    if |slices| == 0 then []
    else var x := slices[|slices| - 1];
      Chart(input, slices[..|slices| - 1]) + [GanttEntry(input[x.idx].pid, x.start, x.end)]
  }

  /**
   * The slices are in time order without overlap; each is non-empty, at most one
   * quantum long, and starts no earlier than its process's arrival.
   */
  ghost predicate RrSlices(input: seq<Proc>, slices: seq<Slice>, q: int) {
    (forall k :: 0 <= k < |slices| ==>
       slices[k].idx < |input| && input[slices[k].idx].arrival <= slices[k].start &&
       slices[k].start < slices[k].end <= slices[k].start + q) &&
    InTimeOrder(slices)
  }

  /** Each slice starts no earlier than the one before it ends. */
  predicate InTimeOrder(slices: seq<Slice>) {
    |slices| <= 1 ||
    (InTimeOrder(slices[..|slices| - 1]) && slices[|slices| - 2].end <= slices[|slices| - 1].start)
  }

  /** Slices in time order do not overlap: any slice ends before any later one starts. */
  lemma {:induction false} InTimeOrderDisjoint(slices: seq<Slice>)
    requires InTimeOrder(slices)
    requires forall k :: 0 <= k < |slices| ==> slices[k].start < slices[k].end
    ensures forall k, l :: 0 <= k < l < |slices| ==> slices[k].end <= slices[l].start
  {
    if |slices| > 1 {
      var init := slices[..|slices| - 1];
      InTimeOrderDisjoint(init);
      forall k, l | 0 <= k < l < |slices| ensures slices[k].end <= slices[l].start {
        if l < |slices| - 1 {
          assert slices[k] == init[k] && slices[l] == init[l];
        } else if k < |slices| - 2 {
          assert slices[k] == init[k] && slices[|slices| - 2] == init[|slices| - 2];
        }
      }
    }
  }

  /**
   * Every slice of a process but its last is a whole quantum: after c slices a process
   * with burst b has been served c quanta, or it is done and c is the least number of
   * quanta covering b.
   */
  ghost predicate Accounted(b: int, served: int, c: nat, q: int) {
    (c == 0 && served == 0) ||
    (c > 0 && served < b && served == q * c) ||
    (c > 0 && served == b && (c - 1) * q < b <= c * q)
  }

  /** Between slices: the table, the accounting and the set of finished processes. */
  ghost predicate RrTable(input: seq<Proc>, q: int, p: seq<Proc>, slices: seq<Slice>, fin: set<nat>) {
    |p| == |input| && p == RrRows(input, slices) && RrSlices(input, slices, q)
    && (forall j :: 0 <= j < |input| ==> Accounted(input[j].burst, Served(slices, j), Count(slices, j), q))
    && (forall j :: j in fin <==> 0 <= j < |input| && Count(slices, j) > 0 && p[j].remaining == 0)
  }

  /** 1 when process j is admitted and has time left, the processes the queue must hold. */
  function Live(p: seq<Proc>, inq: seq<bool>, j: nat): nat
    requires |inq| == |p|
  {
    if j < |p| && inq[j] && p[j].remaining > 0 then 1 else 0
  }

  /**
   * Between slices: the live queue holds each admitted process with time left exactly
   * once and nothing else; admitted processes have arrived; a process not yet admitted
   * has never run and, if it has time left, arrives after `time`.
   */
  ghost predicate RrQueue(p: seq<Proc>, time: int, queue: seq<nat>, inq: seq<bool>, slices: seq<Slice>) {
    |inq| == |p|
    && (|slices| == 0 || slices[|slices| - 1].end <= time)
    && (forall j: nat :: Occ(queue, j) == Live(p, inq, j))
    && (forall j :: 0 <= j < |p| && inq[j] ==> p[j].arrival <= time)
    && (forall j :: 0 <= j < |p| && !inq[j] ==> Count(slices, j) == 0 && (p[j].remaining > 0 ==> time < p[j].arrival))
  }

  /** The head of a queue that holds exactly the live processes is live. */
  lemma HeadLive(p: seq<Proc>, inq: seq<bool>, queue: seq<nat>)
    requires |inq| == |p| && |queue| > 0
    requires forall j: nat :: Occ(queue, j) == Live(p, inq, j)
    ensures queue[0] < |p| && inq[queue[0]] && p[queue[0]].remaining > 0
  {
    OccFront(queue, queue[0]);
  }

  /** A queue that holds exactly the live processes has at most one entry per process. */
  lemma QueueBound(p: seq<Proc>, inq: seq<bool>, queue: seq<nat>)
    requires |inq| == |p|
    requires forall j: nat :: Occ(queue, j) == Live(p, inq, j)
    ensures |queue| <= |p|
  {
    OccRange(queue, |p|);
  }

  /** Dequeuing the head removes one occurrence of it. */
  lemma Dequeue(queue: seq<nat>)
    requires |queue| > 0
    ensures forall j: nat :: Occ(queue[1..], j) == Occ(queue, j) - (if j == queue[0] then 1 else 0)
  {
    forall j: nat ensures Occ(queue[1..], j) == Occ(queue, j) - (if j == queue[0] then 1 else 0) {
      OccFront(queue, j);
    }
  }

  /** A process the admission scan at `time` pushes: arrived, with time left, never admitted. */
  predicate Arriving(p: seq<Proc>, time: int, inq: seq<bool>, j: nat)
    requires j < |p| && |inq| == |p|
  {
    !inq[j] && p[j].arrival <= time && p[j].remaining > 0
  }

  /** The indices below `upto` that the admission scan pushes, in index order. */
  function Arrivals(p: seq<Proc>, time: int, inq: seq<bool>, upto: nat): seq<nat>
    requires upto <= |p| && |inq| == |p|
  {
    if upto == 0 then []
    else Arrivals(p, time, inq, upto - 1) + (if Arriving(p, time, inq, upto - 1) then [upto - 1] else [])
  }

  /** Arrivals lists each arriving index below `upto` once, and nothing else. */
  lemma {:induction false} ArrivalsCount(p: seq<Proc>, time: int, inq: seq<bool>, upto: nat)
    requires upto <= |p| && |inq| == |p|
    ensures forall j: nat :: Occ(Arrivals(p, time, inq, upto), j) ==
              if j < upto && Arriving(p, time, inq, j) then 1 else 0
  {
    if upto > 0 {
      ArrivalsCount(p, time, inq, upto - 1);
      var step: seq<nat> := if Arriving(p, time, inq, upto - 1) then [upto - 1] else [];
      forall j: nat ensures Occ(Arrivals(p, time, inq, upto), j) == if j < upto && Arriving(p, time, inq, j) then 1 else 0 {
        OccAppend(Arrivals(p, time, inq, upto - 1), step, j);
        assert step == [] || step[..0] == [];
      }
    }
  }

  /**
   * `inq2`/`queue2` are `inq`/`queue` after the admission scan at `time`: the arriving
   * processes are flagged and appended in index order, one push each.
   */
  ghost predicate Admitted(p: seq<Proc>, time: int, inq: seq<bool>, queue: seq<nat>, qtail: int,
                           inq2: seq<bool>, queue2: seq<nat>, qtail2: int) {
    |inq| == |p| && |inq2| == |p|
    && (forall j :: 0 <= j < |p| ==> inq2[j] == (inq[j] || (p[j].arrival <= time && p[j].remaining > 0)))
    && queue2 == queue + Arrivals(p, time, inq, |p|)
    && qtail2 == qtail + |queue2| - |queue|
  }

  /** The scan adds one occurrence of each process that arrived, has time left and was never admitted. */
  lemma AdmittedCount(p: seq<Proc>, time: int, inq: seq<bool>, queue: seq<nat>, qtail: int,
                      inq2: seq<bool>, queue2: seq<nat>, qtail2: int)
    requires Admitted(p, time, inq, queue, qtail, inq2, queue2, qtail2)
    ensures forall j: nat :: Occ(queue2, j) ==
              Occ(queue, j) + (if j < |p| && !inq[j] && p[j].arrival <= time && p[j].remaining > 0 then 1 else 0)
  {
    ArrivalsCount(p, time, inq, |p|);
    forall j: nat ensures Occ(queue2, j) ==
        Occ(queue, j) + (if j < |p| && !inq[j] && p[j].arrival <= time && p[j].remaining > 0 then 1 else 0)
    {
      OccAppend(queue, Arrivals(p, time, inq, |p|), j);
    }
  }

  /** Scan in index order and push every arrived process with time left that was never admitted. */
  method Admit(p: seq<Proc>, time: int, inq: seq<bool>, queue: seq<nat>, qtail: nat)
    returns (inq2: seq<bool>, queue2: seq<nat>, qtail2: nat)
    requires |inq| == |p|
    ensures Admitted(p, time, inq, queue, qtail, inq2, queue2, qtail2)
  {
    inq2, queue2, qtail2 := inq, queue, qtail;
    for i := 0 to |p|
      invariant |inq2| == |p|
      invariant forall j :: 0 <= j < |p| ==> inq2[j] == (inq[j] || (j < i && p[j].arrival <= time && p[j].remaining > 0))
      invariant queue2 == queue + Arrivals(p, time, inq, i)
      invariant qtail2 == qtail + |queue2| - |queue|
    {
      if p[i].arrival <= time && !inq2[i] && p[i].remaining > 0 {
        queue2 := queue2 + [i];
        qtail2 := qtail2 + 1;
        inq2 := inq2[i := true];
      }
    }
  }

  /** The earliest arrival of the table, or INT_MAX when none is earlier: where the clock starts. */
  function MinArrival(p: seq<Proc>): (t: int)
    ensures t <= INT_MAX
    ensures forall j :: 0 <= j < |p| ==> t <= p[j].arrival
    ensures t == INT_MAX || exists j :: 0 <= j < |p| && p[j].arrival == t
  {
    if |p| == 0 then INT_MAX
    else
      var t0 := MinArrival(p[..|p| - 1]);
      assert forall j :: 0 <= j < |p| - 1 ==> p[..|p| - 1][j] == p[j];
      if p[|p| - 1].arrival < t0 then p[|p| - 1].arrival else t0
  }

  /** The first arrival after `time` of a process with time left, or INT_MAX when there is none. */
  function NextArrivalAfter(p: seq<Proc>, time: int): (next: int)
    ensures next <= INT_MAX
    ensures forall j :: 0 <= j < |p| && p[j].remaining > 0 && p[j].arrival > time ==> next <= p[j].arrival
    ensures next == INT_MAX || exists j :: 0 <= j < |p| && p[j].remaining > 0 && time < p[j].arrival == next
  {
    if |p| == 0 then INT_MAX
    else
      var n0 := NextArrivalAfter(p[..|p| - 1], time);
      var x := p[|p| - 1];
      assert forall j :: 0 <= j < |p| - 1 ==> p[..|p| - 1][j] == p[j];
      if x.remaining > 0 && x.arrival > time && x.arrival < n0 then x.arrival else n0
  }

  /** The scan for the earliest arrival, where the clock starts. */
  method EarliestArrival(p: seq<Proc>) returns (t: int)
    requires forall j :: 0 <= j < |p| ==> p[j].arrival <= INT_MAX
    ensures t == MinArrival(p)
    ensures |p| == 0 ==> t == INT_MAX
    ensures |p| > 0 ==> exists j :: 0 <= j < |p| && p[j].arrival == t
  {
    t := INT_MAX;
    for i := 0 to |p|
      invariant t == MinArrival(p[..i])
    {
      assert p[..i + 1][..i] == p[..i];
      t := if p[i].arrival < t then p[i].arrival else t;
    }
    assert p[..|p|] == p;
    if |p| > 0 {
      assert t <= p[0].arrival;
    }
  }

  /** The scan for the next arrival after `time` of a process with time left. */
  method NextArrival(p: seq<Proc>, time: int) returns (next: int)
    ensures next == NextArrivalAfter(p, time)
  {
    next := INT_MAX;
    for i := 0 to |p|
      invariant next == NextArrivalAfter(p[..i], time)
    {
      assert p[..i + 1][..i] == p[..i];
      if p[i].remaining > 0 && p[i].arrival > time {
        next := if p[i].arrival < next then p[i].arrival else next;
      }
    }
    assert p[..|p|] == p;
  }

  /** The table after process idx is served `exec` units from `time`, completing it if nothing is left. */
  function SliceRows(p: seq<Proc>, idx: nat, time: int, exec: int): seq<Proc>
    requires idx < |p|
  {
    var q := p[idx := p[idx].(remaining := p[idx].remaining - exec)];
    if q[idx].remaining > 0 then q else q[idx := Completed(q[idx], time + exec)]
  }

  lemma SliceRowOther(q: Proc, slices: seq<Slice>, x: Slice, j: nat)
    requires x.idx != j
    ensures RrRow(q, slices + [x], j) == RrRow(q, slices, j)
  {
    SliceFacts(slices, x, j);
  }

  lemma SliceRowsMatch(input: seq<Proc>, p: seq<Proc>, slices: seq<Slice>, idx: nat, time: int, exec: int,
                        x: Slice, s2: seq<Slice>, p2: seq<Proc>)
    requires |p| == |input| && p == RrRows(input, slices)
    requires idx < |p| && 0 < exec <= p[idx].remaining
    requires x == Slice(idx, time, time + exec) && s2 == slices + [x] && p2 == SliceRows(p, idx, time, exec)
    ensures p2 == RrRows(input, s2)
  {
    var v := RrRows(input, s2);
    forall j | 0 <= j < |p| ensures p2[j] == v[j] {
      if j == idx {
        SliceFacts(slices, x, j);
      } else {
        SliceRowOther(input[j], slices, x, j);
      }
    }
  }

  /** A slice of min(remaining, quantum) keeps the accounting. */
  lemma AccountStep(b: int, served: int, c: nat, q: int, exec: int)
    requires q >= 1 && Accounted(b, served, c, q) && served < b
    requires exec == if b - served < q then b - served else q
    ensures Accounted(b, served + exec, c + 1, q)
  {
    if c > 0 {
      assert served == q * c;
    }
    assert q * (c + 1) == q * c + q;
    assert c * q == q * c;
  }

  lemma {:induction false} WorkLower(p: seq<Proc>, i: nat, r: Proc)
    requires i < |p| && p[i].remaining > 0 && r.remaining < p[i].remaining
    ensures Work(p[i := r]) < Work(p)
  {
    var n := |p|;
    if i < n - 1 {
      WorkLower(p[..n - 1], i, r);
      assert p[i := r][..n - 1] == p[..n - 1][i := r];
    } else {
      assert p[i := r][..n - 1] == p[..n - 1];
    }
  }

  lemma SliceWork(p: seq<Proc>, idx: nat, time: int, exec: int, p2: seq<Proc>)
    requires idx < |p| && 0 < exec <= p[idx].remaining && p2 == SliceRows(p, idx, time, exec)
    ensures Work(p2) < Work(p)
  {
    var r := p[idx].(remaining := p[idx].remaining - exec);
    var q := p[idx := r];
    WorkLower(p, idx, r);
    if r.remaining <= 0 {
      WorkSame(q, idx, Completed(r, time + exec));
      assert p2 == q[idx := Completed(r, time + exec)];
    } else {
      assert p2 == q;
    }
  }

  lemma SlicesExtend(input: seq<Proc>, slices: seq<Slice>, q: int, x: Slice, s2: seq<Slice>)
    requires RrSlices(input, slices, q)
    requires x.idx < |input| && input[x.idx].arrival <= x.start && x.start < x.end <= x.start + q
    requires |slices| == 0 || slices[|slices| - 1].end <= x.start
    requires s2 == slices + [x]
    ensures RrSlices(input, s2, q)
  {
    assert s2[..|slices|] == slices;
  }

  lemma AccountAll(input: seq<Proc>, q: int, slices: seq<Slice>, idx: nat, time: int, exec: int,
                    x: Slice, s2: seq<Slice>)
    requires q >= 1 && idx < |input|
    requires x == Slice(idx, time, time + exec) && s2 == slices + [x]
    requires forall j :: 0 <= j < |input| ==> Accounted(input[j].burst, Served(slices, j), Count(slices, j), q)
    requires Served(slices, idx) < input[idx].burst
    requires exec == if input[idx].burst - Served(slices, idx) < q then input[idx].burst - Served(slices, idx) else q
    ensures forall j :: 0 <= j < |input| ==> Accounted(input[j].burst, Served(s2, j), Count(s2, j), q)
  {
    forall j | 0 <= j < |input|
      ensures Accounted(input[j].burst, Served(s2, j), Count(s2, j), q)
    {
      SliceFacts(slices, x, j);
      if j == idx {
        AccountStep(input[idx].burst, Served(slices, idx), Count(slices, idx), q, exec);
      }
    }
  }

  /** The table invariant after one slice of the queue head. */
  lemma TableStep(input: seq<Proc>, q: int, p: seq<Proc>, slices: seq<Slice>, fin: set<nat>,
                  idx: nat, time: int, exec: int, x: Slice, s2: seq<Slice>, p2: seq<Proc>)
    returns (fin2: set<nat>)
    requires q >= 1 && RrTable(input, q, p, slices, fin)
    requires idx < |p| && p[idx].remaining > 0 && input[idx].arrival <= time
    requires |slices| == 0 || slices[|slices| - 1].end <= time
    requires exec == if p[idx].remaining < q then p[idx].remaining else q
    requires x == Slice(idx, time, time + exec) && s2 == slices + [x] && p2 == RrRows(input, s2)
    ensures |fin2| == |fin| + (if p[idx].remaining - exec > 0 then 0 else 1)
    ensures RrTable(input, q, p2, s2, fin2)
  {
    assert p[idx] == RrRow(input[idx], slices, idx);
    AccountAll(input, q, slices, idx, time, exec, x, s2);
    SlicesExtend(input, slices, q, x, s2);
    fin2 := FinStep(input, p, slices, fin, idx, time, exec, x, s2, p2);
  }

  lemma FinStep(input: seq<Proc>, p: seq<Proc>, slices: seq<Slice>, fin: set<nat>, idx: nat, time: int, exec: int,
                 x: Slice, s2: seq<Slice>, p2: seq<Proc>)
    returns (fin2: set<nat>)
    requires |p| == |input| && p == RrRows(input, slices)
    requires forall j :: j in fin <==> 0 <= j < |input| && Count(slices, j) > 0 && p[j].remaining == 0
    requires idx < |p| && 0 < exec <= p[idx].remaining
    requires x == Slice(idx, time, time + exec) && s2 == slices + [x] && p2 == RrRows(input, s2)
    ensures |fin2| == |fin| + (if p[idx].remaining - exec > 0 then 0 else 1)
    ensures forall j :: j in fin2 <==> 0 <= j < |input| && Count(s2, j) > 0 && p2[j].remaining == 0
  {
    forall j | 0 <= j < |input|
      ensures Count(s2, j) == Count(slices, j) + (if idx == j then 1 else 0)
      ensures p2[j].remaining == p[j].remaining - (if idx == j then exec else 0)
    {
      SliceFacts(slices, x, j);
    }
    fin2 := if p[idx].remaining - exec > 0 then fin else fin + {idx};
  }

  lemma TableCore(input: seq<Proc>, q: int, p: seq<Proc>, slices: seq<Slice>, fin: set<nat>,
                  idx: nat, time: int, exec: int, time2: int, s2: seq<Slice>, p2: seq<Proc>)
    returns (fin2: set<nat>)
    requires q >= 1 && RrTable(input, q, p, slices, fin)
    requires idx < |p| && p[idx].remaining > 0 && p[idx].arrival <= time
    requires |slices| == 0 || slices[|slices| - 1].end <= time
    requires exec == if p[idx].remaining < q then p[idx].remaining else q
    requires time2 == time + exec && s2 == slices + [Slice(idx, time, time2)] && p2 == SliceRows(p, idx, time, exec)
    ensures |fin2| == |fin| + (if p[idx].remaining - exec > 0 then 0 else 1)
    ensures RrTable(input, q, p2, s2, fin2)
    ensures Work(p2) < Work(p)
    ensures idx < |input| && p[idx].pid == input[idx].pid
  {
    var x := Slice(idx, time, time2);
    assert p[idx] == RrRow(input[idx], slices, idx);
    SliceRowsMatch(input, p, slices, idx, time, exec, x, s2, p2);
    fin2 := TableStep(input, q, p, slices, fin, idx, time, exec, x, s2, p2);
    SliceWork(p, idx, time, exec, p2);
  }

  /** Printing one more slice extends the chart by its entry. */
  lemma ChartStep(input: seq<Proc>, slices: seq<Slice>, gantt: seq<GanttEntry>, x: Slice, pid: int,
                  gantt2: seq<GanttEntry>, slices2: seq<Slice>)
    requires forall k :: 0 <= k < |slices| ==> slices[k].idx < |input|
    requires x.idx < |input| && pid == input[x.idx].pid && slices2 == slices + [x]
    requires gantt == Chart(input, slices) && gantt2 == gantt + [GanttEntry(pid, x.start, x.end)]
    ensures forall k :: 0 <= k < |slices2| ==> slices2[k].idx < |input|
    ensures gantt2 == Chart(input, slices2)
  {
    assert (slices + [x])[..|slices|] == slices;
  }

  /** When only the remaining time of idx changes, the processes that index ended up with stay as they were. */
  ghost predicate SameButRemaining(p: seq<Proc>, p1: seq<Proc>, idx: nat) {
    |p1| == |p| && forall j :: 0 <= j < |p| ==>
      p1[j].arrival == p[j].arrival && (j != idx ==> p1[j].remaining == p[j].remaining)
  }

  /**
   * One slice of the queue head `queue[0]`, as the queue lemmas see it: its remaining
   * time drops by `exec` (p1), the scan at the end of the slice admits behind the rest of
   * the queue (inq2, queue1), the head is pushed again if it has time left (queue2), and
   * p2 differs from p1 at most in the completion fields.
   */
  ghost predicate SliceSetup(p: seq<Proc>, p1: seq<Proc>, p2: seq<Proc>, time: int, exec: int, time2: int,
                             queue: seq<nat>, inq: seq<bool>, qtail: int, inq2: seq<bool>, queue1: seq<nat>,
                             qtail1: int, queue2: seq<nat>) {
    |queue| > 0 && queue[0] < |p| && exec > 0 && time2 == time + exec
    && SameButRemaining(p, p1, queue[0]) && SameButRemaining(p1, p2, queue[0])
    && p1[queue[0]].remaining == p[queue[0]].remaining - exec
    && p2[queue[0]].remaining == p1[queue[0]].remaining
    && Admitted(p1, time2, inq, queue[1..], qtail, inq2, queue1, qtail1)
    && queue2 == if p1[queue[0]].remaining > 0 then queue1 + [queue[0]] else queue1
  }

  /**
   * The queue invariant after one slice: the head is dequeued, the processes that
   * arrived during the slice are admitted, and the head is pushed again when it has
   * time left. The queue then still holds at most one entry per process.
   */
  lemma QueueStep(p: seq<Proc>, p1: seq<Proc>, p2: seq<Proc>, time: int, exec: int, time2: int,
                  queue: seq<nat>, inq: seq<bool>, qtail: int, inq2: seq<bool>, queue1: seq<nat>,
                  qtail1: int, queue2: seq<nat>, slices: seq<Slice>, slices2: seq<Slice>)
    requires RrQueue(p, time, queue, inq, slices)
    requires SliceSetup(p, p1, p2, time, exec, time2, queue, inq, qtail, inq2, queue1, qtail1, queue2)
    requires slices2 == slices + [Slice(queue[0], time, time2)]
    ensures RrQueue(p2, time2, queue2, inq2, slices2)
    ensures |queue2| <= |p|
  {
    var idx := queue[0];
    HeadLive(p, inq, queue);
    Dequeue(queue);
    AdmittedCount(p1, time2, inq, queue[1..], qtail, inq2, queue1, qtail1);
    forall j: nat ensures Occ(queue2, j) == Live(p2, inq2, j) {
      if j < |p| && j != idx {
        assert p1[j].remaining == p[j].remaining && p2[j].remaining == p[j].remaining;
      }
    }
    forall j | 0 <= j < |p2| && !inq2[j]
      ensures Count(slices2, j) == 0 && (p2[j].remaining > 0 ==> time2 < p2[j].arrival)
    {
      SliceFacts(slices, Slice(idx, time, time2), j);
    }
    QueueBound(p2, inq2, queue2);
  }

  /**
   * The state after one slice of the queue head `idx`: it ran for `exec` =
   * min(remaining, quantum) units (p1), the admission scan ran at the end of the slice
   * (inq2, queue1, qtail1), and the head is pushed again (queue2, qtail2) or completed (p2).
   */
  ghost predicate SliceShape(p: seq<Proc>, quantum: int, time: int, queue: seq<nat>, inq: seq<bool>, qtail: int,
                             completed: nat, p2: seq<Proc>, time2: int, queue2: seq<nat>, inq2: seq<bool>,
                             qtail2: int, completed2: nat, p1: seq<Proc>, queue1: seq<nat>, qtail1: int, exec: int) {
    |queue| > 0 && queue[0] < |p|
    && var idx := queue[0];
       exec == (if p[idx].remaining < quantum then p[idx].remaining else quantum)
       && time2 == time + exec
       && p1 == p[idx := p[idx].(remaining := p[idx].remaining - exec)]
       && Admitted(p1, time2, inq, queue[1..], qtail, inq2, queue1, qtail1)
       && queue2 == (if p1[idx].remaining > 0 then queue1 + [idx] else queue1)
       && qtail2 == (if p1[idx].remaining > 0 then qtail1 + 1 else qtail1)
       && p2 == SliceRows(p, idx, time, exec)
       && completed2 == completed + (if p1[idx].remaining > 0 then 0 else 1)
  }

  /**
   * One slice of the round-robin loop, the body of the C loop when the queue is not
   * empty: dequeue the head, run it for min(remaining, quantum), admit what arrived
   * meanwhile, then push the head again or complete it.
   */
  method RrSliceStep(p: seq<Proc>, quantum: int, time: int, queue: seq<nat>, inq: seq<bool>, qtail: nat,
                     completed: nat)
    returns (p2: seq<Proc>, time2: int, queue2: seq<nat>, inq2: seq<bool>, qtail2: nat, completed2: nat,
             ghost p1: seq<Proc>, ghost queue1: seq<nat>, ghost qtail1: nat, ghost exec: int)
    requires |queue| > 0 && queue[0] < |p| && |inq| == |p|
    ensures SliceShape(p, quantum, time, queue, inq, qtail, completed,
                       p2, time2, queue2, inq2, qtail2, completed2, p1, queue1, qtail1, exec)
  {
    var idx := queue[0];
    var rest := queue[1..];
    var execTime := if p[idx].remaining < quantum then p[idx].remaining else quantum;
    exec := execTime;
    p2 := p[idx := p[idx].(remaining := p[idx].remaining - execTime)];
    time2 := time + execTime;
    p1 := p2;
    inq2, queue2, qtail2 := Admit(p2, time2, inq, rest, qtail);
    queue1, qtail1 := queue2, qtail2;
    completed2 := completed;
    if p2[idx].remaining > 0 {
      queue2 := queue2 + [idx];
      qtail2 := qtail2 + 1;
    } else {
      p2 := p2[idx := Completed(p2[idx], time2)];
      completed2 := completed2 + 1;
    }
  }

  /** The shape of one slice, as RrSliceStep produces it, is a SliceSetup. */
  lemma SetupHolds(p: seq<Proc>, quantum: int, time: int, queue: seq<nat>, inq: seq<bool>, qtail: int,
                   completed: nat, p2: seq<Proc>, time2: int, queue2: seq<nat>, inq2: seq<bool>,
                   qtail2: int, completed2: nat, p1: seq<Proc>, queue1: seq<nat>, qtail1: int, exec: int)
    requires quantum >= 1 && |queue| > 0 && queue[0] < |p| && p[queue[0]].remaining > 0
    requires SliceShape(p, quantum, time, queue, inq, qtail, completed,
                        p2, time2, queue2, inq2, qtail2, completed2, p1, queue1, qtail1, exec)
    ensures SliceSetup(p, p1, p2, time, exec, time2, queue, inq, qtail, inq2, queue1, qtail1, queue2)
  {
    RowsShape(p, queue[0], time, exec, p1, p2);
  }

  /** A slice changes the remaining time of its process and, when it completes it, the completion fields. */
  lemma RowsShape(p: seq<Proc>, idx: nat, time: int, exec: int, p1: seq<Proc>, p2: seq<Proc>)
    requires idx < |p| && p1 == p[idx := p[idx].(remaining := p[idx].remaining - exec)]
    requires p2 == SliceRows(p, idx, time, exec)
    ensures SameButRemaining(p, p1, idx) && SameButRemaining(p1, p2, idx)
    ensures p1[idx].remaining == p[idx].remaining - exec && p2[idx].remaining == p1[idx].remaining
  {
    if p1[idx].remaining <= 0 {
      assert p2 == p1[idx := Completed(p1[idx], time + exec)];
    }
  }

  /** The queue part of one slice. */
  lemma QueuePart(p: seq<Proc>, quantum: int, time: int, queue: seq<nat>, inq: seq<bool>, qtail: int,
                  completed: nat, p2: seq<Proc>, time2: int, queue2: seq<nat>, inq2: seq<bool>,
                  qtail2: int, completed2: nat, p1: seq<Proc>, queue1: seq<nat>, qtail1: int, exec: int,
                  slices: seq<Slice>, slices2: seq<Slice>)
    requires quantum >= 1 && RrQueue(p, time, queue, inq, slices)
    requires SliceShape(p, quantum, time, queue, inq, qtail, completed,
                        p2, time2, queue2, inq2, qtail2, completed2, p1, queue1, qtail1, exec)
    requires slices2 == slices + [Slice(queue[0], time, time2)]
    ensures RrQueue(p2, time2, queue2, inq2, slices2)
    ensures |queue2| <= |p|
    ensures qtail2 == qtail + |queue2| - |queue| + 1
  {
    HeadLive(p, inq, queue);
    SetupHolds(p, quantum, time, queue, inq, qtail, completed, p2, time2, queue2, inq2, qtail2, completed2,
               p1, queue1, qtail1, exec);
    QueueStep(p, p1, p2, time, exec, time2, queue, inq, qtail, inq2, queue1, qtail1, queue2, slices, slices2);
  }

  /** The table part of one slice: rows, accounting, completions and the work measure. */
  lemma TablePart(input: seq<Proc>, quantum: int, p: seq<Proc>, time: int, queue: seq<nat>, inq: seq<bool>,
                  qtail: int, completed: nat, slices: seq<Slice>, fin: set<nat>,
                  p2: seq<Proc>, time2: int, queue2: seq<nat>, inq2: seq<bool>, qtail2: int, completed2: nat,
                  p1: seq<Proc>, queue1: seq<nat>, qtail1: int, exec: int, slices2: seq<Slice>)
    returns (fin2: set<nat>)
    requires quantum >= 1 && RrTable(input, quantum, p, slices, fin) && |fin| == completed
    requires RrQueue(p, time, queue, inq, slices)
    requires SliceShape(p, quantum, time, queue, inq, qtail, completed,
                        p2, time2, queue2, inq2, qtail2, completed2, p1, queue1, qtail1, exec)
    requires slices2 == slices + [Slice(queue[0], time, time2)]
    ensures RrTable(input, quantum, p2, slices2, fin2) && |fin2| == completed2
    ensures Work(p2) < Work(p)
    ensures queue[0] < |input| && p[queue[0]].pid == input[queue[0]].pid
  {
    var idx := queue[0];
    HeadLive(p, inq, queue);
    assert p[idx].arrival <= time;
    fin2 := TableCore(input, quantum, p, slices, fin, queue[0], time, exec, time2, slices2, p2);
  }

  /** When every process has completed, each has been served its whole burst. */
  lemma RrFinishes(input: seq<Proc>, q: int, p: seq<Proc>, slices: seq<Slice>, fin: set<nat>)
    requires RrTable(input, q, p, slices, fin) && |fin| >= |input|
    ensures forall j :: 0 <= j < |input| ==> Served(slices, j) == input[j].burst
  {
    forall j | 0 <= j < |input| ensures Served(slices, j) == input[j].burst {
      SubsetFull(fin, |input|, j);
      assert p[j] == RrRow(input[j], slices, j);
    }
  }

  /** After the CPU idles until the next arrival and admits, the queue is not empty. */
  lemma IdleAdmit(p: seq<Proc>, time: int, time2: int, queue: seq<nat>, inq: seq<bool>, qtail: int,
                  slices: seq<Slice>, inq2: seq<bool>, queue2: seq<nat>, qtail2: int, w: nat)
    requires RrQueue(p, time, queue, inq, slices) && |queue| == 0 && time < time2
    requires Admitted(p, time2, inq, queue, qtail, inq2, queue2, qtail2)
    requires w < |p| && p[w].remaining > 0 && p[w].arrival == time2
    ensures RrQueue(p, time2, queue2, inq2, slices)
    ensures 0 < |queue2| <= |p| && qtail2 == qtail + |queue2|
  {
    AdmittedCount(p, time2, inq, queue, qtail, inq2, queue2, qtail2);
    assert !inq[w] && Occ(queue2, w) == 1;
    forall j: nat ensures Occ(queue2, j) == Live(p, inq2, j) {
      assert Occ(queue, j) == Live(p, inq, j);
    }
    QueueBound(p, inq2, queue2);
  }

  /**
   * When the queue is empty and nothing with time left arrives later, every process
   * with positive burst that arrives before INT_MAX has been served its whole burst.
   */
  lemma RrStops(input: seq<Proc>, q: int, p: seq<Proc>, time: int, queue: seq<nat>, inq: seq<bool>,
                slices: seq<Slice>, fin: set<nat>)
    requires RrTable(input, q, p, slices, fin) && RrQueue(p, time, queue, inq, slices)
    requires |queue| == 0
    requires forall j :: 0 <= j < |p| && p[j].remaining > 0 && p[j].arrival > time ==> INT_MAX <= p[j].arrival
    ensures forall j :: 0 <= j < |input| && input[j].burst > 0 && input[j].arrival < INT_MAX ==>
              Served(slices, j) == input[j].burst
  {
    forall j | 0 <= j < |input| && input[j].burst > 0 && input[j].arrival < INT_MAX
      ensures Served(slices, j) == input[j].burst
    {
      assert p[j] == RrRow(input[j], slices, j);
      assert Occ(queue, j) == Live(p, inq, j);
    }
  }

  datatype Option<T> = None | Some(value: T)

  /** The variables of rr() at the top of its main loop; `qtail` counts every push. */
  datatype RrState = RrState(p: seq<Proc>, time: int, queue: seq<nat>, inq: seq<bool>, qtail: int,
                             completed: nat, slices: seq<Slice>)

  /** The `inqueue` flags after an admission scan at `time`. */
  function AdmitFlags(p: seq<Proc>, time: int, inq: seq<bool>): (r: seq<bool>)
    requires |inq| == |p|
    ensures |r| == |p|
    ensures forall j :: 0 <= j < |p| ==> r[j] == (inq[j] || (p[j].arrival <= time && p[j].remaining > 0))
  {
    seq(|p|, j requires 0 <= j < |p| => inq[j] || (p[j].arrival <= time && p[j].remaining > 0))
  }

  /** The admission scan at `s.time`: the arriving processes are flagged and pushed in index order. */
  ghost function Admission(s: RrState): RrState
    requires |s.inq| == |s.p|
  {
    var arrived := Arrivals(s.p, s.time, s.inq, |s.p|);
    s.(inq := AdmitFlags(s.p, s.time, s.inq), queue := s.queue + arrived, qtail := s.qtail + |arrived|)
  }

  /** The copy of the input with remaining = burst and completion = -1 that rr() works on. */
  function Fresh(input: seq<Proc>): (p: seq<Proc>)
    ensures |p| == |input|
    ensures forall i :: 0 <= i < |input| ==> p[i] == input[i].(remaining := input[i].burst, completion := -1)
  {
    seq(|input|, i requires 0 <= i < |input| => input[i].(remaining := input[i].burst, completion := -1))
  }

  /** The state before the main loop: the clock at the earliest arrival, after one admission scan. */
  ghost function RrInit(input: seq<Proc>): RrState {
    var p := Fresh(input);
    Admission(RrState(p, MinArrival(p), [], seq(|input|, i => false), 0, 0, []))
  }

  /**
   * One pass of the main loop of rr(), or None where the loop ends (every process
   * completed, or an empty queue and nothing left to arrive). With an empty queue the
   * clock jumps to the next arrival and the scan admits; otherwise the head of the FIFO
   * queue runs for min(remaining, quantum), the scan at the end of the slice admits
   * behind the rest of the queue, and the head is pushed again or completed.
   */
  ghost function RrNext(quantum: int, s: RrState): Option<RrState> {
    if s.completed >= |s.p| || |s.inq| != |s.p| then None
    else if |s.queue| == 0 then IdleJump(s)
    else if s.queue[0] >= |s.p| then None
    else Some(ServeSlice(quantum, s))
  }

  /** An empty queue: jump to the next arrival and admit, or end the loop when nothing arrives. */
  ghost function IdleJump(s: RrState): Option<RrState>
    requires |s.inq| == |s.p|
  {
    var next := NextArrivalAfter(s.p, s.time);
    if next == INT_MAX then None else Some(Admission(s.(time := next)))
  }

  /** A slice of the queue head, then the admission scan, then the head pushed again or completed. */
  ghost function ServeSlice(quantum: int, s: RrState): RrState
    requires |s.inq| == |s.p| && |s.queue| > 0 && s.queue[0] < |s.p|
  {
    var idx := s.queue[0];
    var exec := if s.p[idx].remaining < quantum then s.p[idx].remaining else quantum;
    var p1 := s.p[idx := s.p[idx].(remaining := s.p[idx].remaining - exec)];
    var time2 := s.time + exec;
    var arrived := Arrivals(p1, time2, s.inq, |p1|);
    var again := p1[idx].remaining > 0;
    RrState(SliceRows(s.p, idx, s.time, exec), time2,
            if again then s.queue[1..] + arrived + [idx] else s.queue[1..] + arrived,
            AdmitFlags(p1, time2, s.inq),
            if again then s.qtail + |arrived| + 1 else s.qtail + |arrived|,
            if again then s.completed else s.completed + 1,
            s.slices + [Slice(idx, s.time, time2)])
  }

  /** The state of rr() after k passes of its main loop, None once the loop has ended. */
  ghost function Reach(quantum: int, input: seq<Proc>, k: nat): Option<RrState> {
    if k == 0 then Some(RrInit(input))
    else match Reach(quantum, input, k - 1)
      case None => None
      case Some(s) => RrNext(quantum, s)
  }

  /** The admission scan of Admit is the one of the reference loop. */
  lemma AdmittedIsAdmission(s: RrState, inq2: seq<bool>, queue2: seq<nat>, qtail2: int)
    requires Admitted(s.p, s.time, s.inq, s.queue, s.qtail, inq2, queue2, qtail2)
    ensures Admission(s) == s.(inq := inq2, queue := queue2, qtail := qtail2)
  {
    assert AdmitFlags(s.p, s.time, s.inq) == inq2;
  }

  /** A slice as RrSliceStep runs it is one pass of the reference loop. */
  lemma ServeIsNext(p: seq<Proc>, quantum: int, time: int, queue: seq<nat>, inq: seq<bool>, qtail: int,
                    completed: nat, p2: seq<Proc>, time2: int, queue2: seq<nat>, inq2: seq<bool>,
                    qtail2: int, completed2: nat, p1: seq<Proc>, queue1: seq<nat>, qtail1: int, exec: int,
                    slices: seq<Slice>)
    requires |inq| == |p| && completed < |p|
    requires SliceShape(p, quantum, time, queue, inq, qtail, completed,
                        p2, time2, queue2, inq2, qtail2, completed2, p1, queue1, qtail1, exec)
    ensures RrNext(quantum, RrState(p, time, queue, inq, qtail, completed, slices)) ==
            Some(RrState(p2, time2, queue2, inq2, qtail2, completed2, slices + [Slice(queue[0], time, time2)]))
  {
    var s := RrState(p, time, queue, inq, qtail, completed, slices);
    assert RrNext(quantum, s) == Some(ServeSlice(quantum, s));
    ServeSliceIs(p, quantum, time, queue, inq, qtail, completed, p2, time2, queue2, inq2, qtail2, completed2,
                 p1, queue1, qtail1, exec, slices);
  }

  lemma ServeSliceIs(p: seq<Proc>, quantum: int, time: int, queue: seq<nat>, inq: seq<bool>, qtail: int,
                     completed: nat, p2: seq<Proc>, time2: int, queue2: seq<nat>, inq2: seq<bool>,
                     qtail2: int, completed2: nat, p1: seq<Proc>, queue1: seq<nat>, qtail1: int, exec: int,
                     slices: seq<Slice>)
    requires |inq| == |p|
    requires SliceShape(p, quantum, time, queue, inq, qtail, completed,
                        p2, time2, queue2, inq2, qtail2, completed2, p1, queue1, qtail1, exec)
    ensures ServeSlice(quantum, RrState(p, time, queue, inq, qtail, completed, slices)) ==
            RrState(p2, time2, queue2, inq2, qtail2, completed2, slices + [Slice(queue[0], time, time2)])
  {
    ServeQueueIs(p, quantum, time, queue, inq, qtail, completed, p2, time2, queue2, inq2, qtail2, completed2, p1, queue1, qtail1, exec, slices);
    ServeFlagsIs(p, quantum, time, queue, inq, qtail, completed, p2, time2, queue2, inq2, qtail2, completed2, p1, queue1, qtail1, exec, slices);
    ServeRowsIs(p, quantum, time, queue, inq, qtail, completed, p2, time2, queue2, inq2, qtail2, completed2, p1, queue1, qtail1, exec, slices);
  }

  lemma ServeQueueIs(p: seq<Proc>, quantum: int, time: int, queue: seq<nat>, inq: seq<bool>, qtail: int,
                     completed: nat, p2: seq<Proc>, time2: int, queue2: seq<nat>, inq2: seq<bool>,
                     qtail2: int, completed2: nat, p1: seq<Proc>, queue1: seq<nat>, qtail1: int, exec: int,
                     slices: seq<Slice>)
    requires |inq| == |p|
    requires SliceShape(p, quantum, time, queue, inq, qtail, completed,
                        p2, time2, queue2, inq2, qtail2, completed2, p1, queue1, qtail1, exec)
    ensures ServeSlice(quantum, RrState(p, time, queue, inq, qtail, completed, slices)).queue == queue2 && ServeSlice(quantum, RrState(p, time, queue, inq, qtail, completed, slices)).qtail == qtail2
  {
  }

  lemma ServeFlagsIs(p: seq<Proc>, quantum: int, time: int, queue: seq<nat>, inq: seq<bool>, qtail: int,
                     completed: nat, p2: seq<Proc>, time2: int, queue2: seq<nat>, inq2: seq<bool>,
                     qtail2: int, completed2: nat, p1: seq<Proc>, queue1: seq<nat>, qtail1: int, exec: int,
                     slices: seq<Slice>)
    requires |inq| == |p|
    requires SliceShape(p, quantum, time, queue, inq, qtail, completed,
                        p2, time2, queue2, inq2, qtail2, completed2, p1, queue1, qtail1, exec)
    ensures ServeSlice(quantum, RrState(p, time, queue, inq, qtail, completed, slices)).inq == inq2
  {
    assert AdmitFlags(p1, time2, inq) == inq2;
  }

  lemma ServeRowsIs(p: seq<Proc>, quantum: int, time: int, queue: seq<nat>, inq: seq<bool>, qtail: int,
                     completed: nat, p2: seq<Proc>, time2: int, queue2: seq<nat>, inq2: seq<bool>,
                     qtail2: int, completed2: nat, p1: seq<Proc>, queue1: seq<nat>, qtail1: int, exec: int,
                     slices: seq<Slice>)
    requires |inq| == |p|
    requires SliceShape(p, quantum, time, queue, inq, qtail, completed,
                        p2, time2, queue2, inq2, qtail2, completed2, p1, queue1, qtail1, exec)
    ensures ServeSlice(quantum, RrState(p, time, queue, inq, qtail, completed, slices)).p == p2 && ServeSlice(quantum, RrState(p, time, queue, inq, qtail, completed, slices)).time == time2 && ServeSlice(quantum, RrState(p, time, queue, inq, qtail, completed, slices)).completed == completed2
    ensures ServeSlice(quantum, RrState(p, time, queue, inq, qtail, completed, slices)).slices == slices + [Slice(queue[0], time, time2)]
  {
  }

  /** An idle jump to the next arrival followed by Admit is one pass of the reference loop. */
  lemma IdleIsNext(p: seq<Proc>, quantum: int, time: int, inq: seq<bool>, qtail: int, completed: nat,
                   slices: seq<Slice>, time2: int, inq2: seq<bool>, queue2: seq<nat>, qtail2: int)
    requires |inq| == |p| && completed < |p|
    requires time2 == NextArrivalAfter(p, time) && time2 != INT_MAX
    requires Admitted(p, time2, inq, [], qtail, inq2, queue2, qtail2)
    ensures RrNext(quantum, RrState(p, time, [], inq, qtail, completed, slices)) ==
            Some(RrState(p, time2, queue2, inq2, qtail2, completed, slices))
  {
    AdmittedIsAdmission(RrState(p, time2, [], inq, qtail, completed, slices), inq2, queue2, qtail2);
  }

  /** Admission is an admission scan in the sense of Admitted. */
  lemma AdmissionAdmits(s: RrState)
    requires |s.inq| == |s.p|
    ensures Admitted(s.p, s.time, s.inq, s.queue, s.qtail, Admission(s).inq, Admission(s).queue, Admission(s).qtail)
  {
  }

  /** What every state the reference loop reaches satisfies: the queue invariant, hence at most n entries. */
  ghost predicate QueueOk(input: seq<Proc>, s: RrState) {
    |s.p| == |input| && RrQueue(s.p, s.time, s.queue, s.inq, s.slices) && |s.queue| <= |input|
  }

  /** One pass of the reference loop keeps the queue invariant. */
  lemma NextQueue(input: seq<Proc>, quantum: int, s: RrState, s2: RrState)
    requires quantum >= 1 && QueueOk(input, s) && RrNext(quantum, s) == Some(s2)
    ensures QueueOk(input, s2)
  {
    if |s.queue| == 0 {
      IdleQueue(input, s, s2);
    } else {
      ServeQueue(input, quantum, s, s2);
    }
  }

  lemma IdleQueue(input: seq<Proc>, s: RrState, s2: RrState)
    requires QueueOk(input, s) && |s.queue| == 0 && IdleJump(s) == Some(s2)
    ensures QueueOk(input, s2)
  {
    var next := NextArrivalAfter(s.p, s.time);
    var w :| 0 <= w < |s.p| && s.p[w].remaining > 0 && s.time < s.p[w].arrival == next;
    AdmissionAdmits(s.(time := next));
    IdleAdmit(s.p, s.time, next, [], s.inq, s.qtail, s.slices, s2.inq, s2.queue, s2.qtail, w);
  }

  lemma ServeQueue(input: seq<Proc>, quantum: int, s: RrState, s2: RrState)
    requires quantum >= 1 && QueueOk(input, s) && |s.queue| > 0 && s.queue[0] < |s.p|
    requires s2 == ServeSlice(quantum, s)
    ensures QueueOk(input, s2)
  {
    HeadLive(s.p, s.inq, s.queue);
    var p1, queue1, qtail1, exec := ServeShape(quantum, s, s2);
    QueuePart(s.p, quantum, s.time, s.queue, s.inq, s.qtail, s.completed, s2.p, s2.time, s2.queue, s2.inq,
              s2.qtail, s2.completed, p1, queue1, qtail1, exec, s.slices, s2.slices);
  }

  /** A pass of the reference loop that serves the head has the shape of RrSliceStep. */
  lemma ServeShape(quantum: int, s: RrState, s2: RrState) returns (p1: seq<Proc>, queue1: seq<nat>, qtail1: int, exec: int)
    requires |s.inq| == |s.p| && |s.queue| > 0 && s.queue[0] < |s.p|
    requires s2 == ServeSlice(quantum, s)
    ensures SliceShape(s.p, quantum, s.time, s.queue, s.inq, s.qtail, s.completed, s2.p, s2.time, s2.queue, s2.inq,
                       s2.qtail, s2.completed, p1, queue1, qtail1, exec)
    ensures s2.slices == s.slices + [Slice(s.queue[0], s.time, s2.time)]
  {
    var idx := s.queue[0];
    exec := if s.p[idx].remaining < quantum then s.p[idx].remaining else quantum;
    p1 := s.p[idx := s.p[idx].(remaining := s.p[idx].remaining - exec)];
    var arrived := Arrivals(p1, s.time + exec, s.inq, |p1|);
    queue1, qtail1 := s.queue[1..] + arrived, s.qtail + |arrived|;
  }

  /**
   * Every state the main loop of rr() reaches keeps its ready queue to one entry per
   * live process: the live part of `queue` never holds more than n entries.
   */
  lemma {:induction false} ReachQueue(input: seq<Proc>, quantum: int, k: nat)
    requires quantum >= 1
    ensures Reach(quantum, input, k).Some? ==> QueueOk(input, Reach(quantum, input, k).value)
    ensures Reach(quantum, input, k).Some? ==> |Reach(quantum, input, k).value.queue| <= |input|
  {
    if k == 0 {
      var p := Fresh(input);
      var s0 := RrState(p, MinArrival(p), [], seq(|input|, i => false), 0, 0, []);
      AdmissionAdmits(s0);
      var s := Admission(s0);
      RrStart(input, quantum, p, s0.time, s0.inq, s.inq, s.queue, s.qtail);
    } else {
      ReachQueue(input, quantum, k - 1);
      if Reach(quantum, input, k - 1).Some? && Reach(quantum, input, k).Some? {
        NextQueue(input, quantum, Reach(quantum, input, k - 1).value, Reach(quantum, input, k).value);
      }
    }
  }

  /** The invariant of the main loop of rr(). */
  ghost predicate RrLoop(input: seq<Proc>, q: int, p: seq<Proc>, time: int, queue: seq<nat>, inq: seq<bool>,
                         qtail: int, completed: nat, gantt: seq<GanttEntry>, slices: seq<Slice>,
                         fin: set<nat>) {
    RrTable(input, q, p, slices, fin) && |fin| == completed
    && RrQueue(p, time, queue, inq, slices) && gantt == Chart(input, slices)
    && qtail == |slices| + |queue| && |queue| <= |input|
  }

  /** The loop body when the queue is not empty. */
  method ServeHead(input: seq<Proc>, quantum: int, p: seq<Proc>, time: int, queue: seq<nat>, inq: seq<bool>,
                   qtail: nat, completed: nat, gantt: seq<GanttEntry>,
                   ghost slices: seq<Slice>, ghost fin: set<nat>)
    returns (p2: seq<Proc>, time2: int, queue2: seq<nat>, inq2: seq<bool>, qtail2: nat, completed2: nat,
             gantt2: seq<GanttEntry>, ghost slices2: seq<Slice>, ghost fin2: set<nat>)
    requires quantum >= 1 && |queue| > 0 && completed < |input|
    requires RrLoop(input, quantum, p, time, queue, inq, qtail, completed, gantt, slices, fin)
    ensures RrLoop(input, quantum, p2, time2, queue2, inq2, qtail2, completed2, gantt2, slices2, fin2)
    ensures RrNext(quantum, RrState(p, time, queue, inq, qtail, completed, slices)) ==
            Some(RrState(p2, time2, queue2, inq2, qtail2, completed2, slices2))
    ensures Work(p2) < Work(p)
  {
    HeadLive(p, inq, queue);
    ghost var p1, queue1, qtail1, exec;
    p2, time2, queue2, inq2, qtail2, completed2, p1, queue1, qtail1, exec :=
      RrSliceStep(p, quantum, time, queue, inq, qtail, completed);
    gantt2 := gantt + [GanttEntry(p[queue[0]].pid, time, time2)];
    slices2, fin2 := ServeInvariant(input, quantum, p, time, queue, inq, qtail, completed, gantt, slices, fin,
                                    p2, time2, queue2, inq2, qtail2, completed2, gantt2, p1, queue1, qtail1, exec);
    ServeIsNext(p, quantum, time, queue, inq, qtail, completed, p2, time2, queue2, inq2, qtail2, completed2,
                p1, queue1, qtail1, exec, slices);
  }

  /** RrLoop survives one slice. */
  lemma ServeInvariant(input: seq<Proc>, quantum: int, p: seq<Proc>, time: int, queue: seq<nat>, inq: seq<bool>,
                       qtail: int, completed: nat, gantt: seq<GanttEntry>, slices: seq<Slice>, fin: set<nat>,
                       p2: seq<Proc>, time2: int, queue2: seq<nat>, inq2: seq<bool>, qtail2: int,
                       completed2: nat, gantt2: seq<GanttEntry>, p1: seq<Proc>, queue1: seq<nat>,
                       qtail1: int, exec: int)
    returns (slices2: seq<Slice>, fin2: set<nat>)
    requires quantum >= 1
    requires RrLoop(input, quantum, p, time, queue, inq, qtail, completed, gantt, slices, fin)
    requires SliceShape(p, quantum, time, queue, inq, qtail, completed,
                        p2, time2, queue2, inq2, qtail2, completed2, p1, queue1, qtail1, exec)
    requires gantt2 == gantt + [GanttEntry(p[queue[0]].pid, time, time2)]
    ensures slices2 == slices + [Slice(queue[0], time, time2)]
    ensures RrLoop(input, quantum, p2, time2, queue2, inq2, qtail2, completed2, gantt2, slices2, fin2)
    ensures Work(p2) < Work(p)
  {
    slices2 := slices + [Slice(queue[0], time, time2)];
    fin2 := TablePart(input, quantum, p, time, queue, inq, qtail, completed, slices, fin,
                      p2, time2, queue2, inq2, qtail2, completed2, p1, queue1, qtail1, exec, slices2);
    QueuePart(p, quantum, time, queue, inq, qtail, completed, p2, time2, queue2, inq2, qtail2, completed2,
              p1, queue1, qtail1, exec, slices, slices2);
    ChartStep(input, slices, gantt, Slice(queue[0], time, time2), p[queue[0]].pid, gantt2, slices2);
  }

  /**
   * The loop body when the queue is empty: jump to the next arrival and admit, or stop
   * when nothing with time left arrives before INT_MAX.
   */
  method IdleUntilArrival(input: seq<Proc>, quantum: int, p: seq<Proc>, time: int, queue: seq<nat>, inq: seq<bool>,
                          qtail: nat, completed: nat, gantt: seq<GanttEntry>,
                          ghost slices: seq<Slice>, ghost fin: set<nat>)
    returns (stop: bool, time2: int, queue2: seq<nat>, inq2: seq<bool>, qtail2: nat)
    requires |queue| == 0 && completed < |input|
    requires forall j :: 0 <= j < |input| ==> input[j].arrival <= INT_MAX
    requires RrLoop(input, quantum, p, time, queue, inq, qtail, completed, gantt, slices, fin)
    ensures stop ==> time2 == time && queue2 == queue && inq2 == inq && qtail2 == qtail
    ensures stop ==> RrNext(quantum, RrState(p, time, queue, inq, qtail, completed, slices)) == None
    ensures stop ==> forall j :: 0 <= j < |input| && input[j].burst > 0 && input[j].arrival < INT_MAX ==>
                       Served(slices, j) == input[j].burst
    ensures !stop ==> |queue2| > 0
    ensures !stop ==> RrLoop(input, quantum, p, time2, queue2, inq2, qtail2, completed, gantt, slices, fin)
    ensures !stop ==> RrNext(quantum, RrState(p, time, queue, inq, qtail, completed, slices)) ==
                      Some(RrState(p, time2, queue2, inq2, qtail2, completed, slices))
  {
    var nextA := NextArrival(p, time);
    if nextA == INT_MAX {
      RrStops(input, quantum, p, time, queue, inq, slices, fin);
      return true, time, queue, inq, qtail;
    }
    var w :| 0 <= w < |p| && p[w].remaining > 0 && time < p[w].arrival == nextA;
    stop, time2 := false, nextA;
    inq2, queue2, qtail2 := Admit(p, time2, inq, queue, qtail);
    IdleAdmit(p, time, time2, queue, inq, qtail, slices, inq2, queue2, qtail2, w);
    IdleIsNext(p, quantum, time, inq, qtail, completed, slices, time2, inq2, queue2, qtail2);
  }

  /** The state after the first admission scan satisfies the loop invariant. */
  lemma RrStart(input: seq<Proc>, q: int, p: seq<Proc>, time: int, inq0: seq<bool>,
                inq: seq<bool>, queue: seq<nat>, qtail: int)
    requires |p| == |input|
    requires forall i :: 0 <= i < |input| ==> p[i] == input[i].(remaining := input[i].burst, completion := -1)
    requires |inq0| == |input| && forall i :: 0 <= i < |input| ==> !inq0[i]
    requires Admitted(p, time, inq0, [], 0, inq, queue, qtail)
    ensures RrLoop(input, q, p, time, queue, inq, qtail, 0, [], [], {})
  {
    var empty: seq<nat> := [];
    assert p == RrRows(input, []);
    AdmittedCount(p, time, inq0, empty, 0, inq, queue, qtail);
    forall j: nat ensures Occ(queue, j) == Live(p, inq, j) {
      assert Occ(empty, j) == 0;
    }
    QueueBound(p, inq, queue);
  }

  /** The program state before the loop is the initial state of the reference loop. */
  lemma StartIsInit(input: seq<Proc>, p: seq<Proc>, time: int, inq0: seq<bool>,
                    inq: seq<bool>, queue: seq<nat>, qtail: int)
    requires p == Fresh(input) && time == MinArrival(p) && inq0 == seq(|input|, i => false)
    requires Admitted(p, time, inq0, [], 0, inq, queue, qtail)
    ensures RrInit(input) == RrState(p, time, queue, inq, qtail, 0, [])
  {
    AdmittedIsAdmission(RrState(p, time, [], inq0, 0, 0, []), inq, queue, qtail);
  }

  /**
   * Round robin with quantum `quantum` (main raises a quantum below 1 to 1). The run is
   * the reference loop: after `passes` passes of the main loop it reaches `last`, where
   * the loop ends, and its slices are those of the chart; so each slice serves the head
   * of the FIFO ready queue. Each process is served once per visit to the head, a whole
   * quantum or whatever is left; every process with positive burst arriving before
   * INT_MAX is served its burst. `queueSlots` is how many entries the C array `queue`
   * receives (its final `qtail`).
   */
  method RoundRobin(input: seq<Proc>, quantum: int)
    returns (gantt: seq<GanttEntry>, table: seq<Proc>, queueSlots: nat, ghost slices: seq<Slice>,
             ghost passes: nat, ghost last: RrState)
    requires |input| <= MAXP && quantum >= 1
    requires forall i :: 0 <= i < |input| ==> input[i].arrival <= INT_MAX
    ensures Reach(quantum, input, passes) == Some(last) && RrNext(quantum, last) == None
    ensures last.slices == slices && last.qtail == queueSlots && last.p == RrRows(input, slices)
    ensures RrSlices(input, slices, quantum) && gantt == Chart(input, slices)
    ensures forall j :: 0 <= j < |input| ==>
              Accounted(input[j].burst, Served(slices, j), Count(slices, j), quantum)
    ensures forall j :: 0 <= j < |input| && input[j].burst > 0 && input[j].arrival < INT_MAX ==>
              Served(slices, j) == input[j].burst
    ensures SortedBy(table, PidGreater) && multiset(table) == multiset(RrRows(input, slices))
    ensures |gantt| <= queueSlots
  {
    var n := |input|;
    var p := seq(n, i requires 0 <= i < n => input[i].(remaining := input[i].burst, completion := -1));
    var completed: nat := 0;
    var queue: seq<nat> := [];
    var qtail: nat := 0;
    var inq := seq(n, i => false);
    gantt := [];
    var time := EarliestArrival(p);
    ghost var inq0 := inq;
    inq, queue, qtail := Admit(p, time, inq, queue, qtail);
    RrStart(input, quantum, p, time, inq0, inq, queue, qtail);
    assert p == Fresh(input);
    StartIsInit(input, p, time, inq0, inq, queue, qtail);
    slices, passes := [], 0;
    ghost var fin: set<nat> := {};
    ghost var stopped := false;
    while completed < n
      invariant RrLoop(input, quantum, p, time, queue, inq, qtail, completed, gantt, slices, fin)
      invariant Reach(quantum, input, passes) == Some(RrState(p, time, queue, inq, qtail, completed, slices))
      invariant stopped ==> RrNext(quantum, RrState(p, time, queue, inq, qtail, completed, slices)) == None
      decreases Work(p), if |queue| == 0 then 1 else 0
    {
      ghost var here := RrState(p, time, queue, inq, qtail, completed, slices);
      if |queue| == 0 {
        var stop;
        stop, time, queue, inq, qtail :=
          IdleUntilArrival(input, quantum, p, time, queue, inq, qtail, completed, gantt, slices, fin);
        if stop {
          stopped := true;
          break;
        }
      } else {
        p, time, queue, inq, qtail, completed, gantt, slices, fin :=
          ServeHead(input, quantum, p, time, queue, inq, qtail, completed, gantt, slices, fin);
      }
      passes := passes + 1;
      assert Reach(quantum, input, passes) == RrNext(quantum, here);
    }
    last := RrState(p, time, queue, inq, qtail, completed, slices);
    RrOutcome(input, quantum, p, time, queue, inq, qtail, completed, gantt, slices, fin, stopped);
    queueSlots := qtail;
    table := ByPid(p);
  }

  lemma RrOutcome(input: seq<Proc>, q: int, p: seq<Proc>, time: int, queue: seq<nat>, inq: seq<bool>,
                  qtail: int, completed: nat, gantt: seq<GanttEntry>, slices: seq<Slice>,
                  fin: set<nat>, stopped: bool)
    requires RrLoop(input, q, p, time, queue, inq, qtail, completed, gantt, slices, fin)
    requires stopped || completed >= |input|
    requires stopped ==> forall j :: 0 <= j < |input| && input[j].burst > 0 && input[j].arrival < INT_MAX ==>
                           Served(slices, j) == input[j].burst
    ensures forall j :: 0 <= j < |input| && input[j].burst > 0 && input[j].arrival < INT_MAX ==>
              Served(slices, j) == input[j].burst
    ensures |gantt| <= qtail && p == RrRows(input, slices)
  {
    if !stopped {
      RrFinishes(input, q, p, slices, fin);
    }
  }

  /** No process has more slices than there are. */
  lemma {:induction false} CountAtMost(slices: seq<Slice>, j: nat)
    ensures Count(slices, j) <= |slices|
  {
    if |slices| > 0 {
      CountAtMost(slices[..|slices| - 1], j);
    }
  }

  /**
   * `queue` has MAXP*10 entries and `qtail` is never wrapped: one process of burst 1001
   * run with quantum 1 is served in 1001 slices, so the queue receives more than
   * MAXP*10 entries.
   */
  method QueueOverflow() returns (queueSlots: nat, capacity: nat)
    ensures capacity == MAXP * 10
    ensures queueSlots > capacity
  {
    var input := [Proc(1, 0, 1001, 0, 0, 0, 0, 0)];
    var gantt, table;
    ghost var slices, passes, last;
    gantt, table, queueSlots, slices, passes, last := RoundRobin(input, 1);
    assert Accounted(input[0].burst, Served(slices, 0), Count(slices, 0), 1);
    CountAtMost(slices, 0);
    capacity := MAXP * 10;
  }
}
