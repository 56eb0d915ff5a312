/**
 * music/fcfs.c: first come, first served with arrival times. The table is sorted
 * with `qsort` by (arrival, pid); then one pass runs every process to completion in
 * that order, starting it when the CPU frees up or when it arrives, whichever is later.
 * The running totals of waiting and turnaround time are kept as exact integer sums
 * (the source keeps them in doubles and prints their averages).
 */
module FcfsFile {

  import opened Sorting

  datatype Process = Process(pid: int, arrival: int, burst: int,
                             start: int, completion: int, turnaround: int, waiting: int)

  function Max(a: int, b: int): int {
    if a < b then b else a
  }

  /** `cmp_arrival`: negative, zero or positive as `p` sorts before, with or after `q`. */
  function CmpArrival(p: Process, q: Process): int {
    if p.arrival != q.arrival then p.arrival - q.arrival else p.pid - q.pid
  }

  /** The comparator orders by arrival and then by pid, and is antisymmetric. */
  lemma CmpArrivalOrder(p: Process, q: Process)
    ensures CmpArrival(p, q) < 0 <==> p.arrival < q.arrival || (p.arrival == q.arrival && p.pid < q.pid)
    ensures CmpArrival(p, q) == 0 <==> p.arrival == q.arrival && p.pid == q.pid
    ensures CmpArrival(p, q) == -CmpArrival(q, p)
  {
  }

  /** The order `qsort` establishes: `p` must come after `q`. */
  predicate SortsAfter(p: Process, q: Process) {
    CmpArrival(p, q) > 0
  }

  lemma SortsAfterIsStrict()
    ensures StrictOrder(SortsAfter)
  {
  }

  /** One step of the timing loop: process `q` run with the clock at `time`. */
  function Timed(q: Process, time: int): (r: Process)
    ensures r.pid == q.pid && r.arrival == q.arrival && r.burst == q.burst
  {
    var start := Max(time, q.arrival);
    q.(start := start, completion := start + q.burst,
       turnaround := start + q.burst - q.arrival, waiting := start - q.arrival)
  }

  /** The clock when row i of a timed table starts to be processed: the previous completion, or 0. */
  function PrevCompletion(r: seq<Process>, i: nat): int
    requires i <= |r|
  {
    if i == 0 then 0 else r[i - 1].completion
  }

  /** The first |r| rows of the timed table of `s`. */
  ghost predicate TimedPrefix(s: seq<Process>, r: seq<Process>) {
    |r| <= |s| && forall i: nat :: i < |r| ==> RowTimed(s, r, i)
  }

  /** Row i of `r` is row i of `s` run at the clock the previous row left. */
  ghost predicate RowTimed(s: seq<Process>, r: seq<Process>, i: nat)
    requires i < |r| <= |s|
  {
    r[i] == Timed(s[i], PrevCompletion(r, i))
  }

  /** The table after the timing loop: row i run at the clock left by rows 0..i-1. */
  ghost predicate TimedTable(s: seq<Process>, r: seq<Process>) {
    |r| == |s| && TimedPrefix(s, r)
  }

  function SumWaiting(r: seq<Process>): int {
    if |r| == 0 then 0 else SumWaiting(r[..|r| - 1]) + r[|r| - 1].waiting
  }

  function SumTurnaround(r: seq<Process>): int {
    if |r| == 0 then 0 else SumTurnaround(r[..|r| - 1]) + r[|r| - 1].turnaround
  }

  /** `main`: sort by arrival then pid, then time every process in that order. */
  method Simulate(input: seq<Process>) returns (table: seq<Process>, totalWt: int, totalTat: int, ghost sorted: seq<Process>)
    ensures SortedBy(sorted, SortsAfter) && multiset(sorted) == multiset(input)
    ensures TimedTable(sorted, table)
    ensures totalWt == SumWaiting(table) && totalTat == SumTurnaround(table)
  {
    SortsAfterIsStrict();
    var p := new Process[|input|](i requires 0 <= i < |input| => input[i]);
    assert p[..] == input;
    ExchangeSort(p, SortsAfter);
    sorted := p[..];
    totalWt, totalTat := RunAll(p);
    table := p[..];
  }

  /** The timing loop over the sorted table, in place. */
  method RunAll(p: array<Process>) returns (totalWt: int, totalTat: int)
    modifies p
    ensures TimedTable(old(p[..]), p[..])
    ensures totalWt == SumWaiting(p[..]) && totalTat == SumTurnaround(p[..])
  {
    ghost var s := p[..];
    ghost var r: seq<Process> := [];
    var time := 0;
    totalWt, totalTat := 0, 0;
    for i := 0 to p.Length
      invariant |r| == i && TimedPrefix(s, r)
      invariant forall k :: 0 <= k < p.Length ==> p[k] == if k < i then r[k] else s[k]
      invariant time == PrevCompletion(r, i)
      invariant totalWt == SumWaiting(r) && totalTat == SumTurnaround(r)
    {
      if time < p[i].arrival {
        time := p[i].arrival;
      }
      var row := p[i].(start := time, completion := time + p[i].burst,
                       turnaround := time + p[i].burst - p[i].arrival, waiting := time - p[i].arrival);
      TimedExtend(s, r, row, r + [row]);
      SumsExtend(r, row, r + [row]);
      p[i] := row;
      time := row.completion;
      totalWt := totalWt + row.waiting;
      totalTat := totalTat + row.turnaround;
      r := r + [row];
    }
    assert p[..] == r;
  }

  /** The loop step: the next row is timed at the clock the previous rows left. */
  lemma TimedExtend(s: seq<Process>, r: seq<Process>, row: Process, r2: seq<Process>)
    requires TimedPrefix(s, r) && |r| < |s|
    requires row == Timed(s[|r|], PrevCompletion(r, |r|)) && r2 == r + [row]
    ensures TimedPrefix(s, r2)
    ensures PrevCompletion(r2, |r2|) == row.completion
  {
    forall i: nat | i < |r2| ensures RowTimed(s, r2, i) {
      if i < |r| {
        assert RowTimed(s, r, i);
        assert r2[i] == r[i];
        assert PrevCompletion(r2, i) == PrevCompletion(r, i);
      }
    }
  }

  lemma SumsExtend(r: seq<Process>, row: Process, r2: seq<Process>)
    requires r2 == r + [row]
    ensures SumWaiting(r2) == SumWaiting(r) + row.waiting
    ensures SumTurnaround(r2) == SumTurnaround(r) + row.turnaround
  {
    assert r2[..|r2| - 1] == r;
  }

  /**
   * What each row of the timed table says: a process starts no earlier than it
   * arrives and no earlier than the previous one completes; it completes one burst
   * after it starts; waiting = start - arrival >= 0 and turnaround = waiting + burst.
   */
  lemma TimedRow(s: seq<Process>, r: seq<Process>, i: nat)
    requires TimedTable(s, r) && i < |s|
    ensures r[i].pid == s[i].pid && r[i].arrival == s[i].arrival && r[i].burst == s[i].burst
    ensures r[i].start >= r[i].arrival
    ensures i > 0 ==> r[i].start >= r[i - 1].completion
    ensures i == 0 ==> r[i].start == Max(0, r[i].arrival)
    ensures r[i].completion == r[i].start + r[i].burst
    ensures r[i].waiting == r[i].start - r[i].arrival >= 0
    ensures r[i].turnaround == r[i].completion - r[i].arrival == r[i].waiting + r[i].burst
  {
    assert RowTimed(s, r, i);
  }

  /** With non-negative bursts the start times never decrease: the CPU runs jobs one after another. */
  lemma StartsIncrease(s: seq<Process>, r: seq<Process>, i: nat, j: nat)
    requires TimedTable(s, r) && i <= j < |s|
    requires forall k :: 0 <= k < |s| ==> s[k].burst >= 0
    ensures r[i].start <= r[j].start
    ensures i < j ==> r[i].completion <= r[j].start
    decreases j - i
  {
    if i < j {
      TimedRow(s, r, j);
      TimedRow(s, r, j - 1);
      StartsIncrease(s, r, i, j - 1);
    }
  }

  /** The totals are the sums of the per-process figures, and turnaround exceeds waiting by the total burst. */
  lemma {:induction false} TotalsRelation(s: seq<Process>, r: seq<Process>)
    requires TimedTable(s, r)
    ensures SumTurnaround(r) == SumWaiting(r) + SumBurst(s)
    ensures SumWaiting(r) >= 0
  {
    if |r| > 0 {
      var m := |r| - 1;
      assert TimedTable(s[..m], r[..m]) by {
        assert |r[..m]| == |s[..m]|;
        forall i: nat | i < m ensures RowTimed(s[..m], r[..m], i) {
          assert RowTimed(s, r, i);
          assert PrevCompletion(r[..m], i) == PrevCompletion(r, i);
        }
      }
      TotalsRelation(s[..m], r[..m]);
      TimedRow(s, r, m);
    }
  }

  function SumBurst(s: seq<Process>): int {
    if |s| == 0 then 0 else SumBurst(s[..|s| - 1]) + s[|s| - 1].burst
  }
}
