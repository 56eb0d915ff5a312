/**
 * music/os_project/cpu_scheduling.c: five CPU-scheduling simulations over at most
 * MAXP processes. Each works on a copy of the input table, records a Gantt chart
 * (pid, start, end) and, for every process, its completion, turnaround and waiting
 * time, and finally reorders the table by pid for printing.
 * Printing (and the averages, computed in floating point) is not modelled; the
 * Gantt chart and the pid-ordered table are what each method returns.
 */
module CpuScheduling {

  import opened Sorting
  import opened Counting
  import NP = NonPreemptive

  const MAXP := 100
  const INT_MAX := 2147483647

  /** `burst_orig` (always equal to `burst`) and the informational `started` flag are omitted. */
  datatype Proc = Proc(pid: int, arrival: int, burst: int, priority: int,
                       completion: int, turnaround: int, waiting: int, remaining: int)

  datatype GanttEntry = GanttEntry(pid: int, start: int, end: int)

  function Max(a: int, b: int): int {
    if a < b then b else a
  }

  function Min(a: int, b: int): int {
    if a < b then a else b
  }

  /** The figures every algorithm records once a process completes at time `c`. */
  function Completed(p: Proc, c: int): Proc {
    p.(completion := c, turnaround := c - p.arrival, waiting := c - p.arrival - p.burst)
  }

  /** The swap test of the FCFS sort: by arrival, then by pid. */
  predicate ArrivalThenPidGreater(x: Proc, y: Proc) {
    x.arrival > y.arrival || (x.arrival == y.arrival && x.pid > y.pid)
  }

  /** The swap test of the final reordering of the table. */
  predicate PidGreater(x: Proc, y: Proc) {
    x.pid > y.pid
  }

  function AsJob(p: Proc): NP.Job {
    NP.Job(p.pid, p.arrival, p.burst, p.priority)
  }

  function Jobs(ps: seq<Proc>): (js: seq<NP.Job>)
    ensures |js| == |ps|
    ensures forall i :: 0 <= i < |ps| ==> js[i] == AsJob(ps[i])
  {
    seq(|ps|, i requires 0 <= i < |ps| => AsJob(ps[i]))
  }

  /** The input table with process i completed at `ends[i]`. */
  function CompletedAt(ps: seq<Proc>, ends: seq<int>): (r: seq<Proc>)
    requires |ends| == |ps|
    ensures |r| == |ps|
    ensures forall i :: 0 <= i < |ps| ==> r[i] == Completed(ps[i], ends[i])
  {
    seq(|ps|, i requires 0 <= i < |ps| => Completed(ps[i], ends[i]))
  }

  function Ends(gantt: seq<GanttEntry>): (r: seq<int>)
    ensures |r| == |gantt|
    ensures forall k :: 0 <= k < |gantt| ==> r[k] == gantt[k].end
  {
    seq(|gantt|, k requires 0 <= k < |gantt| => gantt[k].end)
  }

  /**
   * The FCFS chart for a table in dispatch order: entry k is process k, starting when
   * entry k-1 ends (time 0 for the first) or at the process's arrival, whichever is later.
   */
  ghost predicate FcfsChart(sorted: seq<Proc>, gantt: seq<GanttEntry>) {
    |gantt| == |sorted| &&
    forall k :: 0 <= k < |gantt| ==>
      gantt[k].pid == sorted[k].pid &&
      gantt[k].start == Max(PrevEnd(gantt, k), sorted[k].arrival) &&
      gantt[k].end == gantt[k].start + sorted[k].burst
  }

  /** Where the clock stands before entry k of a chart: the end of entry k-1, or 0. */
  function PrevEnd(gantt: seq<GanttEntry>, k: int): int
    requires 0 <= k <= |gantt|
  {
    if k == 0 then 0 else gantt[k - 1].end
  }

  /** The last step of every algorithm: the table reordered by pid. */
  method ByPid(ps: seq<Proc>) returns (table: seq<Proc>)
    ensures SortedBy(table, PidGreater)
    ensures multiset(table) == multiset(ps)
  {
    table := SortedCopy(ps, PidGreater);
  }

  /** main: a quantum that is not positive is replaced by 1. */
  function EffectiveQuantum(q: int): (r: int)
    ensures r >= 1
    ensures q >= 1 ==> r == q
    ensures q < 1 ==> r == 1
  {
    if q <= 0 then 1 else q
  }

  /**
   * First come, first served: processes run to completion in (arrival, pid) order;
   * each starts when the previous one ends, or at its arrival if the CPU is idle by then.
   * `sorted` is the table after the sort.
   */
  method Fcfs(input: seq<Proc>) returns (gantt: seq<GanttEntry>, table: seq<Proc>, ghost sorted: seq<Proc>)
    requires |input| <= MAXP
    ensures SortedBy(sorted, ArrivalThenPidGreater) && multiset(sorted) == multiset(input)
    ensures FcfsChart(sorted, gantt)
    ensures SortedBy(table, PidGreater)
    ensures multiset(table) == multiset(CompletedAt(sorted, Ends(gantt)))
  {
    var p := new Proc[|input|](i requires 0 <= i < |input| => input[i]);
    assert p[..] == input;
    ExchangeSort(p, ArrivalThenPidGreater);
    sorted := p[..];
    gantt := RunInOrder(p);
    table := ByPid(p[..]);
  }

  /** The FCFS timing loop, over the sorted table in place. */
  method RunInOrder(p: array<Proc>) returns (gantt: seq<GanttEntry>)
    modifies p
    ensures FcfsChart(old(p[..]), gantt)
    ensures p[..] == CompletedAt(old(p[..]), Ends(gantt))
  {
    ghost var sorted := p[..];
    var n := p.Length;
    var time := 0;
    gantt := [];
    for i := 0 to n
      invariant FcfsChart(sorted[..i], gantt)
      invariant time == PrevEnd(gantt, i)
      invariant forall k :: 0 <= k < i ==> p[k] == Completed(sorted[k], gantt[k].end)
      invariant forall k :: i <= k < n ==> p[k] == sorted[k]
    {
      var start := Max(time, p[i].arrival);
      if time < p[i].arrival {
        time := p[i].arrival;
      }
      assert time == start;
      FcfsChartExtend(sorted, gantt, i);
      gantt := gantt + [GanttEntry(p[i].pid, time, time + p[i].burst)];
      time := time + p[i].burst;
      p[i] := Completed(p[i], time);
    }
    assert sorted[..n] == sorted;
    assert p[..] == CompletedAt(sorted, Ends(gantt));
  }

  lemma FcfsChartExtend(sorted: seq<Proc>, gantt: seq<GanttEntry>, i: nat)
    requires i < |sorted| && FcfsChart(sorted[..i], gantt)
    ensures FcfsChart(sorted[..i + 1], gantt + [GanttEntry(sorted[i].pid, Max(PrevEnd(gantt, i), sorted[i].arrival),
                                                           Max(PrevEnd(gantt, i), sorted[i].arrival) + sorted[i].burst)])
  {
    var g := gantt + [GanttEntry(sorted[i].pid, Max(PrevEnd(gantt, i), sorted[i].arrival),
                                 Max(PrevEnd(gantt, i), sorted[i].arrival) + sorted[i].burst)];
    forall k | 0 <= k < |g|
      ensures g[k].pid == sorted[..i + 1][k].pid
      ensures g[k].start == Max(PrevEnd(g, k), sorted[..i + 1][k].arrival)
      ensures g[k].end == g[k].start + sorted[..i + 1][k].burst
    {
      if k < i {
        assert g[k] == gantt[k] && sorted[..i + 1][k] == sorted[..i][k];
        assert PrevEnd(g, k) == PrevEnd(gantt, k);
      }
    }
  }

  /** FCFS never starts a process before it arrives, and the chart has no overlap. */
  lemma FcfsChronological(sorted: seq<Proc>, gantt: seq<GanttEntry>, k: nat)
    requires FcfsChart(sorted, gantt) && k < |gantt|
    ensures sorted[k].arrival <= gantt[k].start
    ensures k + 1 < |gantt| ==> gantt[k].end <= gantt[k + 1].start
    ensures Completed(sorted[k], gantt[k].end).waiting == gantt[k].start - sorted[k].arrival >= 0
  {
    if k + 1 < |gantt| {
      assert gantt[k + 1].start == Max(PrevEnd(gantt, k + 1), sorted[k + 1].arrival);
    }
  }

  /**
   * Non-preemptive SJF (rule CpuSjf) and non-preemptive priority (rule CpuPriority):
   * the dispatches form the unique schedule of `NonPreemptive.Schedule` with the clock
   * starting at 0; the Gantt chart lists them in dispatch order.
   */
  method NonPreemptive(input: seq<Proc>, rule: NP.Rule)
      returns (gantt: seq<GanttEntry>, table: seq<Proc>, ghost order: seq<nat>, ghost startAt: seq<int>)
    requires rule == NP.CpuSjf || rule == NP.CpuPriority
    requires |input| <= MAXP
    requires forall i :: 0 <= i < |input| ==>
               input[i].arrival <= INT_MAX && NP.Primary(rule, AsJob(input[i])) < INT_MAX
    ensures NP.Schedule(Jobs(input), rule, 0, order, startAt)
    ensures |gantt| == |input|
    ensures forall k :: 0 <= k < |gantt| ==>
              gantt[k] == GanttEntry(input[order[k]].pid, startAt[order[k]], startAt[order[k]] + input[order[k]].burst)
    ensures SortedBy(table, PidGreater)
    ensures multiset(table) == multiset(CompletedAt(input, seq(|input|, i requires 0 <= i < |input| => startAt[i] + input[i].burst)))
  {
    var jobs := Jobs(input);
    var dispatched, starts := NP.Run(jobs, rule, 0);
    order, startAt := dispatched, starts;
    var n := |input|;
    assert NP.Indices(jobs, dispatched, starts);
    gantt := seq(n, k requires 0 <= k < n =>
                   GanttEntry(input[dispatched[k]].pid, starts[dispatched[k]], starts[dispatched[k]] + input[dispatched[k]].burst));
    // every process has been dispatched, so every row is completed
    var p := CompletedAt(input, seq(n, i requires 0 <= i < n => starts[i] + input[i].burst));
    table := ByPid(p);
  }

  // ---------------------------------------------------------------------------
  // SRTF: one time unit per step, always to the ready process with the least
  // remaining time (ties to the earlier arrival, then the lower index).

  /** One executed time unit: process `idx` ran from `time` to `time + 1`. */
  datatype Tick = Tick(time: int, idx: nat)

  /** How many units process j has run. */
  function Runs(ticks: seq<Tick>, j: nat): nat {
    if |ticks| == 0 then 0
    else Runs(ticks[..|ticks| - 1], j) + (if ticks[|ticks| - 1].idx == j then 1 else 0)
  }

  /** The end of process j's last unit (0 if it never ran). */
  function LastEnd(ticks: seq<Tick>, j: nat): int {
    if |ticks| == 0 then 0
    else if ticks[|ticks| - 1].idx == j then ticks[|ticks| - 1].time + 1
    else LastEnd(ticks[..|ticks| - 1], j)
  }

  /** The clock after the units of `ticks`: the end of the last one, or 0. */
  function Clock(ticks: seq<Tick>): int {
    if |ticks| == 0 then 0 else ticks[|ticks| - 1].time + 1
  }

  /** The table as the selection scan sees it: burst replaced by remaining time. */
  function RemJobs(input: seq<Proc>, ticks: seq<Tick>): (r: seq<NP.Job>)
    ensures |r| == |input|
    ensures forall j :: 0 <= j < |input| ==>
              r[j] == NP.Job(input[j].pid, input[j].arrival, input[j].burst - Runs(ticks, j), input[j].priority)
  {
    seq(|input|, j requires 0 <= j < |input| =>
      NP.Job(input[j].pid, input[j].arrival, input[j].burst - Runs(ticks, j), input[j].priority))
  }

  /** Processes with no remaining time; the scan skips them. */
  function Exhausted(input: seq<Proc>, ticks: seq<Tick>): (r: seq<bool>)
    ensures |r| == |input|
    ensures forall j :: 0 <= j < |input| ==> r[j] == (input[j].burst - Runs(ticks, j) <= 0)
  {
    seq(|input|, j requires 0 <= j < |input| => input[j].burst - Runs(ticks, j) <= 0)
  }

  /**
   * Unit t of the run follows the SRTF rule: given the units before it, its process is
   * ready (arrived, time left), none ready has less time left (or as much and an earlier
   * arrival), every ready process before it in index order is worse, and the CPU
   * idled before it only until the first arrival among processes with time left.
   */
  ghost predicate SrtfTick(input: seq<Proc>, ticks: seq<Tick>, t: nat)
    requires t < |ticks|
  {
    var before := ticks[..t];
    var jobs := RemJobs(input, before);
    var done := Exhausted(input, before);
    var tm := ticks[t].time;
    var i := ticks[t].idx;
    NP.Ready(jobs, done, tm, i) && Clock(before) <= tm
    && (tm == Clock(before) || forall j :: 0 <= j < |input| && !done[j] ==> tm <= input[j].arrival)
    && forall j :: NP.Ready(jobs, done, tm, j) ==>
         !NP.Better(NP.CpuSjf, jobs[j], jobs[i]) && (j < i ==> NP.Better(NP.CpuSjf, jobs[i], jobs[j]))
  }

  ghost predicate SrtfRun(input: seq<Proc>, ticks: seq<Tick>) {
    forall t :: 0 <= t < |ticks| ==> SrtfTick(input, ticks, t)
  }

  /** The table row of process j after the run. */
  function SrtfRow(p: Proc, ticks: seq<Tick>, j: nat): Proc {
    var r := p.burst - Runs(ticks, j);
    if Runs(ticks, j) > 0 && r == 0 then Completed(p.(remaining := 0), LastEnd(ticks, j))
    else p.(remaining := r, completion := -1)
  }

  function SrtfRows(input: seq<Proc>, ticks: seq<Tick>): (r: seq<Proc>)
    ensures |r| == |input|
    ensures forall j :: 0 <= j < |input| ==> r[j] == SrtfRow(input[j], ticks, j)
  {
    seq(|input|, j requires 0 <= j < |input| => SrtfRow(input[j], ticks, j))
  }

  /** A chart whose pieces are non-empty, each ending by the start of the next, the last by `upto`. */
  ghost predicate Chronological(gantt: seq<GanttEntry>, upto: int) {
    |gantt| == 0 ||
    (Chronological(gantt[..|gantt| - 1], gantt[|gantt| - 1].start) &&
     gantt[|gantt| - 1].start < gantt[|gantt| - 1].end <= upto)
  }

  /** In a chronological chart any piece ends before any later one starts, and all end by `upto`. */
  lemma {:induction false} ChronologicalDisjoint(gantt: seq<GanttEntry>, upto: int)
    requires Chronological(gantt, upto)
    ensures forall k :: 0 <= k < |gantt| ==> gantt[k].start < gantt[k].end <= upto
    ensures forall k, l :: 0 <= k < l < |gantt| ==> gantt[k].end <= gantt[l].start
  {
    if |gantt| > 0 {
      var m := |gantt| - 1;
      var init := gantt[..m];
      ChronologicalDisjoint(init, gantt[m].start);
      forall k | 0 <= k < m ensures gantt[k] == init[k] {
      }
    }
  }

  /** Total length of the chart's pieces. */
  function Busy(gantt: seq<GanttEntry>): int {
    if |gantt| == 0 then 0 else Busy(gantt[..|gantt| - 1]) + gantt[|gantt| - 1].end - gantt[|gantt| - 1].start
  }

  lemma AppendPiece(gantt: seq<GanttEntry>, e: GanttEntry, upto: int)
    requires Chronological(gantt, e.start) && e.start < e.end <= upto
    ensures Chronological(gantt + [e], upto)
    ensures Busy(gantt + [e]) == Busy(gantt) + e.end - e.start
  {
    assert (gantt + [e])[..|gantt|] == gantt;
  }

  lemma ChronologicalLater(gantt: seq<GanttEntry>, a: int, b: int)
    requires Chronological(gantt, a) && a <= b
    ensures Chronological(gantt, b)
  {
  }

  /**
   * The chart while a run is drawn: the pieces written so far and the open piece, if any,
   * of process `pid` from `start`.
   */
  datatype Drawing = Drawing(closed: seq<GanttEntry>, open: bool, pid: int, start: int)

  /**
   * The chart after one more unit, of process `pid` from `time`, when the previous unit
   * ended at `clock`: an open piece of another process, or one with a gap before this
   * unit, is written up to `clock`; a piece of `pid` is opened at `time` unless one
   * continues; and it is written up to `time + 1` when the unit finishes the process.
   */
  function DrawUnit(d: Drawing, pid: int, time: int, clock: int, finishes: bool): Drawing {
    var d2 := DrawSwitch(d, pid, time, clock);
    if finishes then Drawing(d2.closed + [GanttEntry(pid, d2.start, time + 1)], false, -1, -1) else d2
  }

  /** The first half of DrawUnit: the piece of `pid` that the unit from `time` belongs to is open. */
  function DrawSwitch(d: Drawing, pid: int, time: int, clock: int): Drawing {
    if d.open && d.pid == pid && time == clock then d
    else if d.open then Drawing(d.closed + [GanttEntry(d.pid, d.start, clock)], true, pid, time)
    else Drawing(d.closed, true, pid, time)
  }

  /** The chart of a run: the units merged into pieces, unit by unit. */
  function Drawn(input: seq<Proc>, ticks: seq<Tick>): Drawing {
    if |ticks| == 0 then Drawing([], false, -1, -1)
    else
      var prev := ticks[..|ticks| - 1];
      var x := ticks[|ticks| - 1];
      if x.idx >= |input| then Drawn(input, prev)
      else DrawUnit(Drawn(input, prev), input[x.idx].pid, x.time, Clock(prev), Runs(ticks, x.idx) == input[x.idx].burst)
  }

  /** The loop's chart variables hold drawing `d`. */
  predicate Draws(d: Drawing, gantt: seq<GanttEntry>, currentPid: int, currentStart: int) {
    d.closed == gantt && d.open == (currentPid != -1) && (d.open ==> d.pid == currentPid && d.start == currentStart)
  }

  lemma TickFacts(ticks: seq<Tick>, x: Tick, j: nat)
    ensures Runs(ticks + [x], j) == Runs(ticks, j) + (if x.idx == j then 1 else 0)
    ensures LastEnd(ticks + [x], j) == if x.idx == j then x.time + 1 else LastEnd(ticks, j)
    ensures Clock(ticks + [x]) == x.time + 1
  {
    assert (ticks + [x])[..|ticks|] == ticks;
  }

  lemma SrtfRunExtend(input: seq<Proc>, ticks: seq<Tick>, x: Tick, t2: seq<Tick>)
    requires SrtfRun(input, ticks) && t2 == ticks + [x]
    requires SrtfTick(input, t2, |ticks|)
    ensures SrtfRun(input, t2)
  {
    forall t | 0 <= t < |t2| ensures SrtfTick(input, t2, t) {
      if t < |ticks| {
        assert t2[..t] == ticks[..t];
        assert t2[t] == ticks[t];
        assert SrtfTick(input, ticks, t);
      }
    }
  }

  /** The unit chosen by the scan at `time` is the next SRTF unit. */
  lemma SrtfStep(input: seq<Proc>, ticks: seq<Tick>, time: int, idx: nat, t2: seq<Tick>)
    requires t2 == ticks + [Tick(time, idx)]
    requires Clock(ticks) <= time
    requires time == Clock(ticks) || forall j :: 0 <= j < |input| && !Exhausted(input, ticks)[j] ==> time <= input[j].arrival
    requires NP.Ready(RemJobs(input, ticks), Exhausted(input, ticks), time, idx)
    requires forall j :: NP.Ready(RemJobs(input, ticks), Exhausted(input, ticks), time, j) ==>
               !NP.Better(NP.CpuSjf, RemJobs(input, ticks)[j], RemJobs(input, ticks)[idx]) &&
               (j < idx ==> NP.Better(NP.CpuSjf, RemJobs(input, ticks)[idx], RemJobs(input, ticks)[j]))
    ensures SrtfTick(input, t2, |ticks|)
  {
    assert t2[..|ticks|] == ticks;
  }

  /** The sum of the positive remaining times: it falls by one with every unit. */
  function Work(p: seq<Proc>): nat {
    if |p| == 0 then 0 else Work(p[..|p| - 1]) + (if p[|p| - 1].remaining > 0 then p[|p| - 1].remaining else 0)
  }

  lemma {:induction false} WorkDecrease(p: seq<Proc>, i: nat, q: Proc)
    requires i < |p| && p[i].remaining > 0 && q.remaining == p[i].remaining - 1
    ensures Work(p[i := q]) == Work(p) - 1
  {
    var n := |p|;
    if i < n - 1 {
      WorkDecrease(p[..n - 1], i, q);
      assert p[i := q][..n - 1] == p[..n - 1][i := q];
    } else {
      assert p[i := q][..n - 1] == p[..n - 1];
    }
  }

  lemma WorkSame(p: seq<Proc>, i: nat, q: Proc)
    requires i < |p| && q.remaining == p[i].remaining
    ensures Work(p[i := q]) == Work(p)
  {
    var n := |p|;
    if i < n - 1 {
      WorkSame(p[..n - 1], i, q);
      assert p[i := q][..n - 1] == p[..n - 1][i := q];
    } else {
      assert p[i := q][..n - 1] == p[..n - 1];
    }
  }

  ghost predicate NoneReady(p: seq<Proc>, time: int) {
    forall j :: 0 <= j < |p| ==> !(p[j].arrival <= time && p[j].remaining > 0)
  }

  function ScanJobs(p: seq<Proc>): (r: seq<NP.Job>)
    ensures |r| == |p|
    ensures forall j :: 0 <= j < |p| ==> r[j] == NP.Job(p[j].pid, p[j].arrival, p[j].remaining, p[j].priority)
  {
    seq(|p|, j requires 0 <= j < |p| => NP.Job(p[j].pid, p[j].arrival, p[j].remaining, p[j].priority))
  }

  function ScanDone(p: seq<Proc>): (r: seq<bool>)
    ensures |r| == |p|
    ensures forall j :: 0 <= j < |p| ==> r[j] == (p[j].remaining <= 0)
  {
    seq(|p|, j requires 0 <= j < |p| => p[j].remaining <= 0)
  }

  /**
   * What holds between two units of the SRTF loop: the table is the run's rows, the run
   * follows the rule, nobody ran past its burst, the clock moved only forward (and past
   * the last unit only to the first pending arrival, where something is ready), and
   * `fin` holds the processes that ran to zero.
   */
  ghost predicate SrtfState(input: seq<Proc>, p: seq<Proc>, ticks: seq<Tick>, time: int, fin: set<nat>) {
    |p| == |input| && p == SrtfRows(input, ticks) && SrtfRun(input, ticks)
    && (forall j :: 0 <= j < |input| && Runs(ticks, j) > 0 ==> Runs(ticks, j) <= input[j].burst)
    && Clock(ticks) <= time
    && (time == Clock(ticks) || forall j :: 0 <= j < |input| && p[j].remaining > 0 ==> time <= input[j].arrival)
    && (time == Clock(ticks) || !NoneReady(p, time))
    && (forall j :: j in fin <==> 0 <= j < |input| && Runs(ticks, j) > 0 && p[j].remaining == 0)
  }

  /** The table after process idx runs the unit that starts at `time`. */
  function UnitRows(p: seq<Proc>, idx: nat, time: int): seq<Proc>
    requires idx < |p|
  {
    var q := p[idx := p[idx].(remaining := p[idx].remaining - 1)];
    if q[idx].remaining == 0 then q[idx := Completed(q[idx], time + 1)] else q
  }

  lemma RowOther(q: Proc, ticks: seq<Tick>, x: Tick, j: nat)
    requires x.idx != j
    ensures SrtfRow(q, ticks + [x], j) == SrtfRow(q, ticks, j)
  {
    TickFacts(ticks, x, j);
  }

  /** The row of the process that runs a unit: one unit less left, completed when none is. */
  lemma RowSelf(q: Proc, ticks: seq<Tick>, time: int, j: nat)
    requires q.burst - Runs(ticks, j) > 0
    ensures var r := SrtfRow(q, ticks, j).(remaining := SrtfRow(q, ticks, j).remaining - 1);
            SrtfRow(q, ticks + [Tick(time, j)], j) == if r.remaining == 0 then Completed(r, time + 1) else r
  {
    TickFacts(ticks, Tick(time, j), j);
  }

  /** Running process idx for one unit turns the run's rows into the rows of the longer run. */
  lemma UnitRowsMatch(input: seq<Proc>, p: seq<Proc>, ticks: seq<Tick>, time: int, idx: nat,
                       t2: seq<Tick>, p2: seq<Proc>)
    requires |p| == |input| && p == SrtfRows(input, ticks)
    requires idx < |p| && p[idx].remaining > 0
    requires t2 == ticks + [Tick(time, idx)] && p2 == UnitRows(p, idx, time)
    ensures p2 == SrtfRows(input, t2)
  {
    var v := SrtfRows(input, t2);
    forall j | 0 <= j < |p| ensures p2[j] == v[j] {
      if j == idx {
        RowSelf(input[j], ticks, time, j);
      } else {
        RowOther(input[j], ticks, Tick(time, idx), j);
      }
    }
  }

  lemma UnitWork(p: seq<Proc>, idx: nat, time: int, p2: seq<Proc>)
    requires idx < |p| && p[idx].remaining > 0 && p2 == UnitRows(p, idx, time)
    ensures Work(p2) < Work(p)
  {
    var q := p[idx := p[idx].(remaining := p[idx].remaining - 1)];
    WorkDecrease(p, idx, q[idx]);
    if q[idx].remaining == 0 {
      WorkSame(q, idx, Completed(q[idx], time + 1));
    }
  }

  lemma UnitStep(input: seq<Proc>, p: seq<Proc>, ticks: seq<Tick>, time: int, fin: set<nat>, idx: nat,
                 p2: seq<Proc>, t2: seq<Tick>, time2: int)
    returns (fin2: set<nat>)
    requires SrtfState(input, p, ticks, time, fin)
    requires idx < |p| && p2 == UnitRows(p, idx, time) && t2 == ticks + [Tick(time, idx)] && time2 == time + 1
    requires NP.Ready(ScanJobs(p), ScanDone(p), time, idx)
    requires forall j :: NP.Ready(ScanJobs(p), ScanDone(p), time, j) ==>
               !NP.Better(NP.CpuSjf, ScanJobs(p)[j], ScanJobs(p)[idx]) &&
               (j < idx ==> NP.Better(NP.CpuSjf, ScanJobs(p)[idx], ScanJobs(p)[j]))
    ensures fin2 == if p[idx].remaining == 1 then fin + {idx} else fin
    ensures |fin2| == |fin| + (if p[idx].remaining == 1 then 1 else 0)
    ensures SrtfState(input, p2, t2, time2, fin2)
    ensures Work(p2) < Work(p)
  {
    assert ScanJobs(p) == RemJobs(input, ticks) && ScanDone(p) == Exhausted(input, ticks);
    SrtfStep(input, ticks, time, idx, t2);
    SrtfRunExtend(input, ticks, Tick(time, idx), t2);
    UnitRowsMatch(input, p, ticks, time, idx, t2, p2);
    UnitWork(p, idx, time, p2);
    fin2 := UnitFin(input, p, ticks, fin, idx, time, p2, t2);
    TickFacts(ticks, Tick(time, idx), 0);
  }

  /** The finished set and the burst bound after one unit of process idx. */
  lemma UnitFin(input: seq<Proc>, p: seq<Proc>, ticks: seq<Tick>, fin: set<nat>, idx: nat, time: int,
                p2: seq<Proc>, t2: seq<Tick>)
    returns (fin2: set<nat>)
    requires |p| == |input| && p == SrtfRows(input, ticks)
    requires forall j :: j in fin <==> 0 <= j < |input| && Runs(ticks, j) > 0 && p[j].remaining == 0
    requires forall j :: 0 <= j < |input| && Runs(ticks, j) > 0 ==> Runs(ticks, j) <= input[j].burst
    requires idx < |p| && p[idx].remaining > 0
    requires t2 == ticks + [Tick(time, idx)] && p2 == SrtfRows(input, t2)
    ensures fin2 == if p[idx].remaining == 1 then fin + {idx} else fin
    ensures |fin2| == |fin| + (if p[idx].remaining == 1 then 1 else 0)
    ensures forall j :: j in fin2 <==> 0 <= j < |input| && Runs(t2, j) > 0 && p2[j].remaining == 0
    ensures forall j :: 0 <= j < |input| && Runs(t2, j) > 0 ==> Runs(t2, j) <= input[j].burst
  {
    forall j | 0 <= j < |input|
      ensures Runs(t2, j) == Runs(ticks, j) + (if idx == j then 1 else 0)
      ensures p[j] == SrtfRow(input[j], ticks, j) && p2[j] == SrtfRow(input[j], t2, j)
    {
      TickFacts(ticks, Tick(time, idx), j);
    }
    fin2 := if p[idx].remaining == 1 then fin + {idx} else fin;
  }

  /** When the loop gives up, everything left to run arrives at INT_MAX, after the last unit. */
  lemma SrtfStops(input: seq<Proc>, p: seq<Proc>, ticks: seq<Tick>, time: int, fin: set<nat>)
    requires SrtfState(input, p, ticks, time, fin)
    requires forall j :: 0 <= j < |p| ==> !NP.Ready(ScanJobs(p), ScanDone(p), time, j)
    requires forall j :: 0 <= j < |p| && !ScanDone(p)[j] ==> INT_MAX <= ScanJobs(p)[j].arrival
    requires forall j :: 0 <= j < |input| ==> input[j].arrival <= INT_MAX
    ensures time == Clock(ticks)
    ensures forall j :: 0 <= j < |input| && Runs(ticks, j) < input[j].burst ==>
              input[j].arrival == INT_MAX && Clock(ticks) < INT_MAX
  {
    assert NoneReady(p, time) by {
      forall j | 0 <= j < |p| ensures !(p[j].arrival <= time && p[j].remaining > 0) {
        assert !NP.Ready(ScanJobs(p), ScanDone(p), time, j);
      }
    }
    forall j | 0 <= j < |input| && Runs(ticks, j) < input[j].burst
      ensures input[j].arrival == INT_MAX && Clock(ticks) < INT_MAX
    {
      assert p[j] == SrtfRow(input[j], ticks, j);
      assert !NP.Ready(ScanJobs(p), ScanDone(p), time, j);
    }
  }

  /** When every process has run to zero, nothing is left to run. */
  lemma SrtfFinishes(input: seq<Proc>, p: seq<Proc>, ticks: seq<Tick>, time: int, fin: set<nat>)
    requires SrtfState(input, p, ticks, time, fin)
    requires |fin| >= |input|
    ensures forall j :: 0 <= j < |input| ==> Runs(ticks, j) >= input[j].burst
    ensures time == Clock(ticks)
  {
    forall j | 0 <= j < |input| ensures Runs(ticks, j) >= input[j].burst && p[j].remaining <= 0 {
      SubsetFull(fin, |input|, j);
      assert p[j] == SrtfRow(input[j], ticks, j);
    }
    assert NoneReady(p, time);
  }

  /**
   * The Gantt bookkeeping between two units: with no piece open the chart covers every
   * unit so far; with a piece open (from `currentStart` to now) the chart plus that piece
   * does, and the piece's process is still ready.
   */
  ghost predicate ChartState(p: seq<Proc>, ticks: seq<Tick>, time: int, gantt: seq<GanttEntry>,
                             currentPid: int, currentStart: int, currentIdx: nat, completed: nat) {
    (currentPid == -1 ==> Chronological(gantt, time) && Busy(gantt) == |ticks|) &&
    (currentPid != -1 ==>
       time == Clock(ticks) && currentStart < time && Chronological(gantt, currentStart) &&
       Busy(gantt) + (time - currentStart) == |ticks| && completed < |p| &&
       currentIdx < |p| && p[currentIdx].pid == currentPid &&
       NP.Ready(ScanJobs(p), ScanDone(p), time, currentIdx))
  }

  /**
   * The chart side of one unit of process `pid` from `time`: a piece of another process
   * is closed and a new one opened, and the piece is closed at `time + 1` when the
   * process finishes. `busy` is the number of units run before this one.
   */
  method ChartUnit(gantt: seq<GanttEntry>, currentPid: int, currentStart: int, pid: int, time: int,
                   finishes: bool, ghost busy: int, ghost d: Drawing, ghost clock: int)
    returns (gantt2: seq<GanttEntry>, currentPid2: int, currentStart2: int)
    requires pid != -1
    requires currentPid == -1 ==> Chronological(gantt, time) && Busy(gantt) == busy
    requires currentPid != -1 ==>
               currentStart < time && Chronological(gantt, currentStart) && Busy(gantt) + (time - currentStart) == busy
    requires Draws(d, gantt, currentPid, currentStart) && (currentPid != -1 ==> time == clock)
    ensures finishes ==> currentPid2 == -1 && Chronological(gantt2, time + 1) && Busy(gantt2) == busy + 1
    ensures !finishes ==>
              currentPid2 == pid && currentStart2 < time + 1 && Chronological(gantt2, currentStart2) &&
              Busy(gantt2) + (time + 1 - currentStart2) == busy + 1
    ensures Draws(DrawUnit(d, pid, time, clock, finishes), gantt2, currentPid2, currentStart2)
  {
    gantt2, currentPid2, currentStart2 := SwitchPiece(gantt, currentPid, currentStart, pid, time, busy, d, clock);
    if finishes {
      AppendPiece(gantt2, GanttEntry(pid, currentStart2, time + 1), time + 1);
      gantt2 := gantt2 + [GanttEntry(pid, currentStart2, time + 1)];
      currentPid2 := -1;
    }
  }

  /** The first half of ChartUnit: close the piece of another process and open one of `pid`. */
  method SwitchPiece(gantt: seq<GanttEntry>, currentPid: int, currentStart: int, pid: int, time: int,
                     ghost busy: int, ghost d: Drawing, ghost clock: int)
    returns (gantt2: seq<GanttEntry>, currentPid2: int, currentStart2: int)
    requires pid != -1
    requires currentPid == -1 ==> Chronological(gantt, time) && Busy(gantt) == busy
    requires currentPid != -1 ==>
               currentStart < time && Chronological(gantt, currentStart) && Busy(gantt) + (time - currentStart) == busy
    requires Draws(d, gantt, currentPid, currentStart) && (currentPid != -1 ==> time == clock)
    ensures currentPid2 == pid && currentStart2 <= time && Chronological(gantt2, currentStart2)
    ensures Busy(gantt2) + (time - currentStart2) == busy
    ensures Draws(DrawSwitch(d, pid, time, clock), gantt2, currentPid2, currentStart2)
  {
    gantt2, currentPid2, currentStart2 := gantt, currentPid, currentStart;
    if currentPid2 != pid {
      if currentPid2 != -1 {
        AppendPiece(gantt2, GanttEntry(currentPid2, currentStart2, time), time);
        gantt2 := gantt2 + [GanttEntry(currentPid2, currentStart2, time)];
      }
      currentPid2 := pid;
      currentStart2 := time;
    }
  }

  /** The chart state after one unit, from the chart side's own postcondition. */
  lemma UnitChart(input: seq<Proc>, p: seq<Proc>, ticks: seq<Tick>, time: int, fin2: set<nat>, idx: nat,
                  gantt2: seq<GanttEntry>, currentPid2: int, currentStart2: int, completed: nat,
                  p2: seq<Proc>, t2: seq<Tick>, time2: int)
    requires |p| == |input| && idx < |p| && p[idx].remaining > 0 && p[idx].arrival <= time && p[idx].pid != -1
    requires p2 == UnitRows(p, idx, time) && t2 == ticks + [Tick(time, idx)] && time2 == time + 1
    requires forall j :: j in fin2 ==> j < |p|
    requires p[idx].remaining > 1 ==> idx !in fin2 && completed == |fin2|
    requires p[idx].remaining == 1 ==>
               currentPid2 == -1 && Chronological(gantt2, time + 1) && Busy(gantt2) == |ticks| + 1
    requires p[idx].remaining > 1 ==>
               currentPid2 == p[idx].pid && currentStart2 < time + 1 && Chronological(gantt2, currentStart2) &&
               Busy(gantt2) + (time + 1 - currentStart2) == |ticks| + 1
    ensures ChartState(p2, t2, time2, gantt2, currentPid2, currentStart2, idx, completed)
  {
    TickFacts(ticks, Tick(time, idx), idx);
    if p[idx].remaining > 1 {
      MissingBound(fin2, |p|, idx);
    }
  }

  /** The table side of one unit: one unit less left; a process left with none completes at `time + 1`. */
  method RunOneUnit(p: seq<Proc>, idx: nat, time: int) returns (p2: seq<Proc>, finished: bool)
    requires idx < |p|
    ensures p2 == UnitRows(p, idx, time)
    ensures finished == (p[idx].remaining == 1)
  {
    p2 := p[idx := p[idx].(remaining := p[idx].remaining - 1)];
    finished := p2[idx].remaining == 0;
    if finished {
      p2 := p2[idx := Completed(p2[idx], time + 1)];
    }
  }

  /** One unit of process idx, as the SRTF loop runs it, with the chart kept up to date. */
  method SrtfUnit(input: seq<Proc>, p: seq<Proc>, ghost ticks: seq<Tick>, time: int, ghost fin: set<nat>,
                  completed: nat, gantt: seq<GanttEntry>, currentPid: int, currentStart: int,
                  ghost currentIdx: nat, idx: nat)
    returns (p2: seq<Proc>, ghost ticks2: seq<Tick>, time2: int, ghost fin2: set<nat>, completed2: nat,
             gantt2: seq<GanttEntry>, currentPid2: int, currentStart2: int, ghost currentIdx2: nat)
    requires SrtfState(input, p, ticks, time, fin) && |fin| == completed
    requires ChartState(p, ticks, time, gantt, currentPid, currentStart, currentIdx, completed)
    requires forall j :: 0 <= j < |input| ==> input[j].pid >= 1
    requires NP.Ready(ScanJobs(p), ScanDone(p), time, idx)
    requires forall j :: NP.Ready(ScanJobs(p), ScanDone(p), time, j) ==>
               !NP.Better(NP.CpuSjf, ScanJobs(p)[j], ScanJobs(p)[idx]) &&
               (j < idx ==> NP.Better(NP.CpuSjf, ScanJobs(p)[idx], ScanJobs(p)[j]))
    ensures SrtfState(input, p2, ticks2, time2, fin2) && |fin2| == completed2
    requires Draws(Drawn(input, ticks), gantt, currentPid, currentStart)
    ensures ChartState(p2, ticks2, time2, gantt2, currentPid2, currentStart2, currentIdx2, completed2)
    ensures Draws(Drawn(input, ticks2), gantt2, currentPid2, currentStart2)
    ensures Work(p2) < Work(p)
  {
    assert p[idx].pid == input[idx].pid && p[idx].remaining > 0 && p[idx].arrival <= time;
    gantt2, currentPid2, currentStart2 :=
      ChartUnit(gantt, currentPid, currentStart, p[idx].pid, time, p[idx].remaining == 1, |ticks|,
                Drawn(input, ticks), Clock(ticks));
    currentIdx2 := idx;
    var finished;
    p2, finished := RunOneUnit(p, idx, time);
    completed2 := completed;
    if finished {
      completed2 := completed2 + 1;
    }
    time2 := time + 1;
    ticks2 := ticks + [Tick(time, idx)];
    fin2 := UnitStep(input, p, ticks, time, fin, idx, p2, ticks2, time2);
    UnitChart(input, p, ticks, time, fin2, idx, gantt2, currentPid2, currentStart2, completed2, p2, ticks2, time2);
    DrawnStep(input, ticks, time, idx);
  }

  /** One more unit of process idx draws the chart one unit further. */
  lemma DrawnStep(input: seq<Proc>, ticks: seq<Tick>, time: int, idx: nat)
    requires idx < |input|
    ensures Drawn(input, ticks + [Tick(time, idx)]) ==
              DrawUnit(Drawn(input, ticks), input[idx].pid, time, Clock(ticks), Runs(ticks, idx) + 1 == input[idx].burst)
  {
    assert (ticks + [Tick(time, idx)])[..|ticks|] == ticks;
    TickFacts(ticks, Tick(time, idx), idx);
  }

  /**
   * Preemptive shortest remaining time first. `ticks` is the run unit by unit; a process
   * left with time to run at the end arrives at INT_MAX, after the last unit (the scan for
   * the next arrival cannot tell INT_MAX from "none" and stops).
   */
  method Srtf(input: seq<Proc>) returns (gantt: seq<GanttEntry>, table: seq<Proc>, ghost ticks: seq<Tick>)
    requires |input| <= MAXP
    requires forall i :: 0 <= i < |input| ==>
               input[i].pid >= 1 && input[i].arrival <= INT_MAX && input[i].burst < INT_MAX
    ensures SrtfRun(input, ticks)
    ensures forall j :: 0 <= j < |input| && Runs(ticks, j) < input[j].burst ==>
              input[j].arrival == INT_MAX && Clock(ticks) < INT_MAX
    ensures Chronological(gantt, Clock(ticks)) && Busy(gantt) == |ticks|
    ensures gantt == Drawn(input, ticks).closed && !Drawn(input, ticks).open
    ensures SortedBy(table, PidGreater)
    ensures multiset(table) == multiset(SrtfRows(input, ticks))
  {
    var n := |input|;
    var p := seq(n, i requires 0 <= i < n => input[i].(remaining := input[i].burst, completion := -1));
    ticks := [];
    assert p == SrtfRows(input, ticks);
    var completed: nat, time := 0, 0;
    gantt := [];
    var currentPid, currentStart := -1, -1;
    ghost var currentIdx: nat := 0;
    ghost var fin: set<nat> := {};
    ghost var stopped := false;
    while completed < n
      invariant SrtfLoop(input, p, ticks, time, fin, completed, gantt, currentPid, currentStart, currentIdx)
      invariant Draws(Drawn(input, ticks), gantt, currentPid, currentStart)
      decreases Work(p), if NoneReady(p, time) then 1 else 0
    {
      var jobs, done := ScanJobs(p), ScanDone(p);
      var idx := NP.Select(jobs, NP.CpuSjf, done, time);
      if idx == -1 {
        var stop;
        stop, time, gantt, currentPid :=
          SrtfIdle(input, p, ticks, time, fin, completed, gantt, currentPid, currentStart, currentIdx);
        if stop {
          stopped := true;
          break;
        }
      } else {
        p, ticks, time, fin, completed, gantt, currentPid, currentStart, currentIdx :=
          SrtfUnit(input, p, ticks, time, fin, completed, gantt, currentPid, currentStart, currentIdx, idx);
      }
    }
    SrtfOutcome(input, p, ticks, time, fin, completed, gantt, currentPid, currentStart, currentIdx, stopped);
    table := ByPid(p);
  }

  /** The invariant of the SRTF loop. */
  ghost predicate SrtfLoop(input: seq<Proc>, p: seq<Proc>, ticks: seq<Tick>, time: int, fin: set<nat>,
                           completed: nat, gantt: seq<GanttEntry>, currentPid: int, currentStart: int,
                           currentIdx: nat) {
    SrtfState(input, p, ticks, time, fin) && |fin| == completed
    && ChartState(p, ticks, time, gantt, currentPid, currentStart, currentIdx, completed)
  }

  /**
   * The loop body when nothing is ready: close the open piece and jump to the next
   * arrival of a process with time left, or stop when that is INT_MAX.
   */
  method SrtfIdle(input: seq<Proc>, p: seq<Proc>, ghost ticks: seq<Tick>, time: int, ghost fin: set<nat>,
                  completed: nat, gantt: seq<GanttEntry>, currentPid: int, currentStart: int, ghost currentIdx: nat)
    returns (stop: bool, time2: int, gantt2: seq<GanttEntry>, currentPid2: int)
    requires forall j :: 0 <= j < |input| ==> input[j].arrival <= INT_MAX
    requires SrtfLoop(input, p, ticks, time, fin, completed, gantt, currentPid, currentStart, currentIdx)
    requires forall j :: 0 <= j < |p| ==> !NP.Ready(ScanJobs(p), ScanDone(p), time, j)
    ensures stop ==> time2 == time && gantt2 == gantt && currentPid2 == currentPid == -1
    ensures stop ==> time == Clock(ticks)
    ensures stop ==> forall j :: 0 <= j < |input| && Runs(ticks, j) < input[j].burst ==>
                       input[j].arrival == INT_MAX && Clock(ticks) < INT_MAX
    ensures !stop ==> SrtfLoop(input, p, ticks, time2, fin, completed, gantt2, currentPid2, currentStart, currentIdx)
    ensures !stop ==> NoneReady(p, time) && !NoneReady(p, time2)
    ensures currentPid == -1 && gantt2 == gantt && currentPid2 == -1
  {
    var jobs, done := ScanJobs(p), ScanDone(p);
    var next := NP.EarliestPending(jobs, done);
    assert NoneReady(p, time) by {
      forall j | 0 <= j < |p| ensures !(p[j].arrival <= time && p[j].remaining > 0) {
        assert !NP.Ready(jobs, done, time, j);
      }
    }
    assert currentPid == -1 by {
      assert !NP.Ready(jobs, done, time, currentIdx);
    }
    if next == INT_MAX {
      SrtfStops(input, p, ticks, time, fin);
      return true, time, gantt, currentPid;
    }
    stop, gantt2, currentPid2 := false, gantt, currentPid;
    if currentPid2 != -1 {
      gantt2 := gantt2 + [GanttEntry(currentPid2, currentStart, time)];
      currentPid2 := -1;
    }
    var w :| 0 <= w < |p| && !done[w] && jobs[w].arrival == next;
    assert !NP.Ready(jobs, done, time, w);
    ChronologicalLater(gantt2, time, next);
    time2 := next;
    assert !NoneReady(p, time2) by {
      assert p[w].arrival <= time2 && p[w].remaining > 0;
    }
  }

  /** What the loop leaves behind, whether it stopped early or every process completed. */
  lemma SrtfOutcome(input: seq<Proc>, p: seq<Proc>, ticks: seq<Tick>, time: int, fin: set<nat>,
                    completed: nat, gantt: seq<GanttEntry>, currentPid: int, currentStart: int,
                    currentIdx: nat, stopped: bool)
    requires SrtfLoop(input, p, ticks, time, fin, completed, gantt, currentPid, currentStart, currentIdx)
    requires stopped || completed >= |input|
    requires stopped ==> time == Clock(ticks) && currentPid == -1
    requires stopped ==> forall j :: 0 <= j < |input| && Runs(ticks, j) < input[j].burst ==>
                           input[j].arrival == INT_MAX && Clock(ticks) < INT_MAX
    ensures SrtfRun(input, ticks) && p == SrtfRows(input, ticks)
    ensures forall j :: 0 <= j < |input| && Runs(ticks, j) < input[j].burst ==>
              input[j].arrival == INT_MAX && Clock(ticks) < INT_MAX
    ensures Chronological(gantt, Clock(ticks)) && Busy(gantt) == |ticks|
    ensures currentPid == -1
  {
    if !stopped {
      SrtfFinishes(input, p, ticks, time, fin);
    }
  }

  lemma SrtfRunPrefix(input: seq<Proc>, ticks: seq<Tick>, k: nat)
    requires SrtfRun(input, ticks) && k <= |ticks|
    ensures SrtfRun(input, ticks[..k])
  {
    forall t | 0 <= t < k ensures SrtfTick(input, ticks[..k], t) {
      assert ticks[..k][..t] == ticks[..t];
      assert SrtfTick(input, ticks, t);
    }
  }

  /**
   * Along an SRTF run no process gets more units than its burst, every unit of a
   * process starts at or after its arrival, and its last unit ends by the clock.
   */
  lemma {:induction false} SrtfRunBounds(input: seq<Proc>, ticks: seq<Tick>, j: nat)
    requires SrtfRun(input, ticks) && j < |input|
    ensures Runs(ticks, j) > 0 ==> Runs(ticks, j) <= input[j].burst
    ensures Runs(ticks, j) > 0 ==> input[j].arrival + Runs(ticks, j) <= LastEnd(ticks, j) <= Clock(ticks)
  {
    if |ticks| > 0 {
      var m := |ticks| - 1;
      var before := ticks[..m];
      assert ticks == before + [ticks[m]];
      SrtfRunPrefix(input, ticks, m);
      SrtfRunBounds(input, before, j);
      TickFacts(before, ticks[m], j);
      assert SrtfTick(input, ticks, m);
      if ticks[m].idx == j {
        assert ticks[..m] == before;
        assert NP.Ready(RemJobs(input, before), Exhausted(input, before), ticks[m].time, j);
      } else {
        assert Clock(before) <= ticks[m].time by {
          assert SrtfTick(input, ticks, m);
        }
      }
    }
  }

  /**
   * A process that SRTF ran to the end completes no earlier than its arrival plus its
   * burst: its turnaround covers its burst and its waiting time is not negative.
   */
  lemma SrtfFinishedRow(input: seq<Proc>, ticks: seq<Tick>, j: nat)
    requires SrtfRun(input, ticks) && j < |input|
    requires input[j].burst > 0 && Runs(ticks, j) >= input[j].burst
    ensures SrtfRow(input[j], ticks, j).remaining == 0
    ensures SrtfRow(input[j], ticks, j).completion <= Clock(ticks)
    ensures SrtfRow(input[j], ticks, j).turnaround >= input[j].burst
    ensures SrtfRow(input[j], ticks, j).waiting >= 0
  {
    SrtfRunBounds(input, ticks, j);
  }
}
