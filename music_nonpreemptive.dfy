/**
 * music/sjf.c and music/1.c: stand-alone non-preemptive shortest-job-first and
 * priority schedulers. Both start the clock at the earliest arrival, then repeat the
 * dispatch loop of `NonPreemptive.Run` (rule SjfFile: burst, then arrival, then pid;
 * rule PriorityFile: priority, then arrival, then burst), idling to the nearest later
 * arrival (or one tick) when nothing is ready. Each dispatched process gets
 * start, completion, turnaround and waiting times and is marked done.
 * The totals are exact integer sums (the source keeps them in doubles).
 */
module StandaloneNonPreemptive {

  import NP = NonPreemptive

  const INT_MAX := 2147483647

  /** sjf.c's `remaining` (never read) is omitted; sjf.c has no priority field and ignores it here. */
  datatype Process = Process(pid: int, arrival: int, burst: int, priority: int,
                             start: int, completion: int, turnaround: int, waiting: int, done: bool)

  function AsJob(p: Process): NP.Job {
    NP.Job(p.pid, p.arrival, p.burst, p.priority)
  }

  function Jobs(ps: seq<Process>): (js: seq<NP.Job>)
    ensures |js| == |ps|
    ensures forall i :: 0 <= i < |ps| ==> js[i] == AsJob(ps[i])
  {
    seq(|ps|, i requires 0 <= i < |ps| => AsJob(ps[i]))
  }

  /** The record written when process `p` is dispatched at `start`. */
  function Dispatched(p: Process, start: int): (r: Process)
    ensures r.pid == p.pid && r.arrival == p.arrival && r.burst == p.burst && r.priority == p.priority
    ensures r.start == start && r.completion == start + p.burst && r.done
    ensures r.turnaround == r.completion - r.arrival && r.waiting == r.start - r.arrival
    ensures r.turnaround == r.waiting + r.burst
  {
    p.(start := start, completion := start + p.burst, turnaround := start + p.burst - p.arrival,
       waiting := start - p.arrival, done := true)
  }

  /**
   * The start of the clock: the earliest arrival, found by a scan that starts from INT_MAX
   * (so when every arrival is INT_MAX the clock stays at 0).
   */
  method EarliestArrival(ps: seq<Process>) returns (time: int)
    requires forall i :: 0 <= i < |ps| ==> ps[i].arrival <= INT_MAX
    ensures (forall i :: 0 <= i < |ps| ==> ps[i].arrival == INT_MAX) ==> time == 0
    ensures (exists i :: 0 <= i < |ps| && ps[i].arrival < INT_MAX) ==>
              (exists i :: 0 <= i < |ps| && ps[i].arrival == time) &&
              forall i :: 0 <= i < |ps| ==> time <= ps[i].arrival
  {
    var earliest := INT_MAX;
    for i := 0 to |ps|
      invariant earliest <= INT_MAX
      invariant forall k :: 0 <= k < i ==> earliest <= ps[k].arrival
      invariant earliest == INT_MAX || exists k :: 0 <= k < i && ps[k].arrival == earliest
    {
      if ps[i].arrival < earliest {
        earliest := ps[i].arrival;
      }
    }
    time := 0;
    if earliest != INT_MAX {
      time := earliest;
    }
  }

  function SumWaiting(r: seq<Process>): int {
    if |r| == 0 then 0 else SumWaiting(r[..|r| - 1]) + r[|r| - 1].waiting
  }

  function SumTurnaround(r: seq<Process>): int {
    if |r| == 0 then 0 else SumTurnaround(r[..|r| - 1]) + r[|r| - 1].turnaround
  }

  /**
   * `main` of sjf.c (rule SjfFile) and of 1.c (rule PriorityFile): the dispatches form the
   * schedule of `NonPreemptive.Schedule` starting at `time0`, the earliest arrival; the table
   * keeps the input order with every row dispatched.
   */
  method Simulate(input: seq<Process>, rule: NP.Rule)
      returns (table: seq<Process>, totalWt: int, totalTat: int,
               ghost time0: int, ghost order: seq<nat>, ghost startAt: seq<int>)
    requires rule == NP.SjfFile || rule == NP.PriorityFile
    requires forall i :: 0 <= i < |input| ==>
               input[i].arrival <= INT_MAX && NP.Primary(rule, AsJob(input[i])) < INT_MAX
    ensures (forall i :: 0 <= i < |input| ==> input[i].arrival == INT_MAX) ==> time0 == 0
    ensures (exists i :: 0 <= i < |input| && input[i].arrival < INT_MAX) ==>
              (exists i :: 0 <= i < |input| && input[i].arrival == time0) &&
              forall i :: 0 <= i < |input| ==> time0 <= input[i].arrival
    ensures NP.Schedule(Jobs(input), rule, time0, order, startAt)
    ensures |table| == |input|
    ensures forall i :: 0 <= i < |input| ==> table[i] == Dispatched(input[i], startAt[i])
    ensures totalWt == SumWaiting(table) && totalTat == SumTurnaround(table)
  {
    var jobs := Jobs(input);
    var time := EarliestArrival(input);
    time0 := time;
    var dispatched, starts := NP.Run(jobs, rule, time);
    order, startAt := dispatched, starts;
    var n := |input|;
    table := [];
    totalWt, totalTat := 0, 0;
    for i := 0 to n
      invariant |table| == i
      invariant forall k :: 0 <= k < i ==> table[k] == Dispatched(input[k], starts[k])
      invariant totalWt == SumWaiting(table) && totalTat == SumTurnaround(table)
    {
      var row := Dispatched(input[i], starts[i]);
      assert (table + [row])[..i] == table;
      table := table + [row];
      totalWt := totalWt + row.waiting;
      totalTat := totalTat + row.turnaround;
    }
  }

  /**
   * Every process is dispatched exactly once, never before it arrives, and (the ranking rule)
   * with a key no worse than that of any process ready at the same moment.
   */
  lemma ScheduledRow(jobs: seq<NP.Job>, rule: NP.Rule, time0: int, order: seq<nat>, startAt: seq<int>, i: nat)
    requires NP.Schedule(jobs, rule, time0, order, startAt) && i < |jobs|
    ensures exists k :: 0 <= k < |order| && order[k] == i
    ensures forall k, m :: 0 <= k < m < |order| ==> order[k] != order[m]
    ensures startAt[i] >= jobs[i].arrival
  {
    NP.ScheduleIsPermutation(jobs, rule, time0, order, startAt);
    assert i in order;
    var k :| 0 <= k < |order| && order[k] == i;
    NP.DispatchAt(jobs, rule, time0, order, startAt, k);
  }

  /** The dispatched process has the least key among the processes ready when it starts. */
  lemma LeastKey(jobs: seq<NP.Job>, rule: NP.Rule, time0: int, order: seq<nat>, startAt: seq<int>, k: nat, j: nat)
    requires NP.Schedule(jobs, rule, time0, order, startAt) && k < |order| && j < |jobs|
    requires j !in order[..k] && jobs[j].arrival <= startAt[order[k]]
    ensures NP.Primary(rule, jobs[order[k]]) <= NP.Primary(rule, jobs[j])
  {
    NP.DispatchAt(jobs, rule, time0, order, startAt, k);
  }

  /** In the final table every waiting time is non-negative. */
  lemma WaitingNonNegative(input: seq<Process>, rule: NP.Rule, time0: int, order: seq<nat>, startAt: seq<int>,
                           table: seq<Process>, i: nat)
    requires NP.Schedule(Jobs(input), rule, time0, order, startAt)
    requires |table| == |input| && i < |input|
    requires forall k :: 0 <= k < |input| ==> table[k] == Dispatched(input[k], startAt[k])
    ensures table[i].done && table[i].waiting >= 0
  {
    ScheduledRow(Jobs(input), rule, time0, order, startAt, i);
  }
}
