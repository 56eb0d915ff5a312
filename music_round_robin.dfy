/**
 * music/rr.c and music/rr.cpp: stand-alone round robin with arrival times. The two
 * programs run the same simulation; they differ in the ready queue (a C array of
 * n*10+5 slots written at `rear`, never wrapped, against a `std::queue`) and in the
 * bound of the scan for the next arrival (`1e9` against INT_MAX).
 *
 * The clock starts at the earliest arrival and every process that has arrived by
 * then is queued. Each turn takes the head of the queue and runs it for
 * min(remaining, quantum); the processes that arrived meanwhile are queued, and then
 * the process itself is queued again unless it has finished. A process is queued on
 * arrival once (`inQueue` is never cleared). When the queue is empty the clock jumps
 * to the next arrival of an unfinished process, or the simulation stops when there is
 * none below the scan bound. A process that never finished is reported with
 * completion = arrival and zero turnaround and waiting time.
 *
 * Here the queue is a sequence and `rear` counts every push; `slices` is a ghost log
 * of the turns.
 */
module StandaloneRoundRobin {

  import opened Counting

  const INT_MAX := 2147483647

  /** The scan bound of rr.c, written `1e9` there. */
  const RR_C_LIMIT := 1000000000

  datatype Process = Process(pid: int, arrival: int, burst: int, remaining: int,
                             completion: int, turnaround: int, waiting: int, inQueue: bool, done: bool)

  /** One turn: process `idx` ran from `start` to `end`. */
  datatype Slice = Slice(idx: nat, start: int, end: int)

  /** rr.c line `if (quantum <= 0) quantum = 1`; rr.cpp `max(1, q)`. */
  function Quantum(q: int): (r: int)
    ensures r >= 1
    ensures q >= 1 ==> r == q
    ensures q <= 0 ==> r == 1
  {
    if q <= 0 then 1 else q
  }

  /** Time process j has been served by the slices. */
  function Served(slices: seq<Slice>, j: nat): int {
    if |slices| == 0 then 0
    else var x := slices[|slices| - 1];
      Served(slices[..|slices| - 1], j) + (if x.idx == j then x.end - x.start else 0)
  }

  /** Number of turns process j has had. */
  function Count(slices: seq<Slice>, j: nat): nat {
    if |slices| == 0 then 0
    else Count(slices[..|slices| - 1], j) + (if slices[|slices| - 1].idx == j then 1 else 0)
  }

  lemma SliceFacts(slices: seq<Slice>, x: Slice, j: nat, s2: seq<Slice>)
    requires s2 == slices + [x]
    ensures Served(s2, j) == Served(slices, j) + (if x.idx == j then x.end - x.start else 0)
    ensures Count(s2, j) == Count(slices, j) + (if x.idx == j then 1 else 0)
  {
    assert s2[..|slices|] == slices;
  }

  /** No turn is longer than the quantum, so a process served `t` units has had at least t/q turns. */
  lemma {:induction false} ServedBound(slices: seq<Slice>, q: int, j: nat)
    requires forall k :: 0 <= k < |slices| ==> slices[k].end - slices[k].start <= q
    ensures Served(slices, j) <= q * Count(slices, j)
    ensures Count(slices, j) <= |slices|
  {
    if |slices| > 0 {
      var m := |slices| - 1;
      ServedBound(slices[..m], q, j);
      SliceFacts(slices[..m], slices[m], j, slices);
    }
  }

  // ---------------------------------------------------------------------------
  // Admission of arrived processes

  /** Process r is queued by an admission scan at `time`. */
  predicate Arriving(r: Process, time: int) {
    !r.inQueue && !r.done && r.arrival <= time
  }

  function AdmitRow(r: Process, time: int): Process {
    if Arriving(r, time) then r.(inQueue := true) else r
  }

  /** The indices below `upto` that a scan at `time` queues, in index order. */
  function Arrivals(p: seq<Process>, time: int, upto: nat): seq<nat>
    requires upto <= |p|
  {
    if upto == 0 then []
    else Arrivals(p, time, upto - 1) + (if Arriving(p[upto - 1], time) then [upto - 1] else [])
  }

  lemma {:induction false} ArrivalsCount(p: seq<Process>, time: int, upto: nat, j: nat)
    requires upto <= |p|
    ensures Occ(Arrivals(p, time, upto), j) == if j < upto && Arriving(p[j], time) then 1 else 0
  {
    if upto > 0 {
      ArrivalsCount(p, time, upto - 1, j);
      var step: seq<nat> := if Arriving(p[upto - 1], time) then [upto - 1] else [];
      OccAppend(Arrivals(p, time, upto - 1), step, j);
      assert step == [] || step[..0] == [];
    }
  }

  /**
   * The admission loop: scan the processes in index order and queue each one that has
   * arrived by `time` and is neither queued nor finished.
   */
  method Admit(p: seq<Process>, time: int, queue: seq<nat>, rear: nat)
      returns (p2: seq<Process>, queue2: seq<nat>, rear2: nat)
    ensures |p2| == |p|
    ensures forall j :: 0 <= j < |p| ==> p2[j] == AdmitRow(p[j], time)
    ensures queue2 == queue + Arrivals(p, time, |p|)
    ensures rear2 == rear + |queue2| - |queue|
  {
    p2, queue2, rear2 := p, queue, rear;
    for i := 0 to |p|
      invariant |p2| == |p|
      invariant forall j :: 0 <= j < |p| ==> p2[j] == if j < i then AdmitRow(p[j], time) else p[j]
      invariant queue2 == queue + Arrivals(p, time, i)
      invariant rear2 == rear + |queue2| - |queue|
    {
      if !p2[i].inQueue && !p2[i].done && p2[i].arrival <= time {
        queue2 := queue2 + [i];
        rear2 := rear2 + 1;
        p2 := p2[i := p2[i].(inQueue := true)];
      }
    }
  }

  // ---------------------------------------------------------------------------
  // The state of the simulation

  /** What a row says about its process, given the clock and the turns so far. */
  ghost predicate RowCore(r: Process, time: int, slices: seq<Slice>, j: nat) {
    0 <= r.remaining <= r.burst && r.remaining == r.burst - Served(slices, j)
    && (r.done ==> r.inQueue && r.remaining == 0 && r.turnaround == r.completion - r.arrival
                   && r.waiting == r.turnaround - r.burst && r.arrival + r.burst <= r.completion <= time)
    && (r.inQueue ==> r.arrival + (r.burst - r.remaining) <= time)
    && (!r.inQueue ==> Count(slices, j) == 0)
  }

  /** ... and, once the admission scan has run, a process not yet queued has not arrived. */
  ghost predicate RowOk(r: Process, time: int, slices: seq<Slice>, j: nat) {
    RowCore(r, time, slices, j) && (!r.inQueue ==> time < r.arrival)
  }

  /** Process j is queued and unfinished: it must be in the queue exactly once. */
  function Live(p: seq<Process>, j: nat): nat {
    if j < |p| && p[j].inQueue && !p[j].done then 1 else 0
  }

  /** The quantities the simulation keeps per row: finished count, totals, outstanding work. */
  datatype Measure = Finished | Waiting | Turnaround | Pending

  function RowValue(r: Process, m: Measure): int {
    match m
    case Finished => if r.done then 1 else 0
    case Waiting => if r.done then r.waiting else 0
    case Turnaround => if r.done then r.turnaround else 0
    case Pending => r.remaining + (if r.done then 0 else 1)
  }

  function Sum(p: seq<Process>, m: Measure): int {
    if |p| == 0 then 0 else Sum(p[..|p| - 1], m) + RowValue(p[|p| - 1], m)
  }

  lemma {:induction false} SumSame(p: seq<Process>, p2: seq<Process>, m: Measure)
    requires |p2| == |p|
    requires forall j :: 0 <= j < |p| ==> RowValue(p2[j], m) == RowValue(p[j], m)
    ensures Sum(p2, m) == Sum(p, m)
  {
    if |p| > 0 {
      SumSame(p[..|p| - 1], p2[..|p| - 1], m);
    }
  }

  lemma {:induction false} SumUpdate(p: seq<Process>, i: nat, x: Process, m: Measure)
    requires i < |p|
    ensures Sum(p[i := x], m) == Sum(p, m) - RowValue(p[i], m) + RowValue(x, m)
  {
    var n := |p| - 1;
    if i < n {
      SumUpdate(p[..n], i, x, m);
      assert p[i := x][..n] == p[..n][i := x];
    } else {
      assert p[i := x][..n] == p[..n];
    }
  }

  lemma {:induction false} SumBounds(p: seq<Process>, m: Measure)
    requires m == Finished || m == Pending
    requires forall j :: 0 <= j < |p| ==> p[j].remaining >= 0
    ensures 0 <= Sum(p, m)
    ensures m == Finished ==> Sum(p, m) <= |p|
    ensures m == Finished && Sum(p, m) == |p| ==> forall j :: 0 <= j < |p| ==> p[j].done
  {
    if |p| > 0 {
      SumBounds(p[..|p| - 1], m);
    }
  }

  /** Identity fields a row never changes. */
  predicate Kept(a: Process, b: Process) {
    a.pid == b.pid && a.arrival == b.arrival && a.burst == b.burst
  }

  ghost predicate RrState(input: seq<Process>, q: int, p: seq<Process>, queue: seq<nat>, time: int,
                          completed: int, slices: seq<Slice>, rear: int, totalWt: int, totalTat: int) {
    |p| == |input| && q >= 1
    && (forall j :: 0 <= j < |p| ==> Kept(input[j], p[j]))
    && (forall j: nat :: j < |p| ==> RowOk(p[j], time, slices, j))
    && (forall j: nat :: Occ(queue, j) == Live(p, j))
    && completed == Sum(p, Finished) && totalWt == Sum(p, Waiting) && totalTat == Sum(p, Turnaround)
    && rear == |slices| + |queue|
    && (forall k :: 0 <= k < |slices| ==> slices[k].idx < |p| && 0 <= slices[k].end - slices[k].start <= q)
  }

  /** The queue holds each queued, unfinished process once, so never more than n entries. */
  lemma QueueBound(p: seq<Process>, queue: seq<nat>)
    requires forall j: nat :: Occ(queue, j) == Live(p, j)
    ensures |queue| <= |p|
  {
    OccRange(queue, |p|);
  }

  lemma HeadLive(p: seq<Process>, queue: seq<nat>)
    requires forall j: nat :: Occ(queue, j) == Live(p, j)
    requires |queue| > 0
    ensures queue[0] < |p| && p[queue[0]].inQueue && !p[queue[0]].done
    ensures forall j: nat :: Occ(queue[1..], j) == Live(p, j) - (if j == queue[0] then 1 else 0)
  {
    OccFront(queue, queue[0]);
    forall j: nat ensures Occ(queue[1..], j) == Live(p, j) - (if j == queue[0] then 1 else 0) {
      OccFront(queue, j);
    }
  }

  // ---------------------------------------------------------------------------
  // Rows across a step

  /** A row not served by the new turn stays consistent as the clock moves forward. */
  lemma RowLater(r: Process, time: int, time2: int, slices: seq<Slice>, x: Slice, s2: seq<Slice>, j: nat)
    requires RowCore(r, time, slices, j) && time <= time2
    requires s2 == slices + [x] && x.idx != j
    ensures RowCore(r, time2, s2, j)
  {
    SliceFacts(slices, x, j, s2);
  }

  /** After the admission scan at `time`, every row is consistent again. */
  lemma AdmitRowOk(r: Process, time: int, slices: seq<Slice>, j: nat)
    requires RowCore(r, time, slices, j)
    ensures RowOk(AdmitRow(r, time), time, slices, j)
  {
    if !r.inQueue {
      Unserved(slices, j);
    }
  }

  /** A process that has had no turn has not been served. */
  lemma {:induction false} Unserved(slices: seq<Slice>, j: nat)
    requires Count(slices, j) == 0
    ensures Served(slices, j) == 0
  {
    if |slices| > 0 {
      Unserved(slices[..|slices| - 1], j);
    }
  }

  /** The row of the process that ran, after its turn of `exec` units ending at `time2`. */
  lemma RowServed(r: Process, time: int, exec: int, time2: int, slices: seq<Slice>, s2: seq<Slice>, j: nat, r1: Process)
    requires RowOk(r, time, slices, j) && r.inQueue && !r.done
    requires 0 <= exec <= r.remaining && time2 == time + exec
    requires s2 == slices + [Slice(j, time, time2)]
    requires r1 == r.(remaining := r.remaining - exec)
    ensures RowCore(r1, time2, s2, j)
  {
    SliceFacts(slices, Slice(j, time, time2), j, s2);
  }

  /** The record written when a process finishes at `time`. */
  function Finish(r: Process, time: int): Process {
    r.(done := true, completion := time, turnaround := time - r.arrival, waiting := time - r.arrival - r.burst)
  }

  lemma RowFinished(r: Process, time: int, slices: seq<Slice>, j: nat)
    requires RowOk(r, time, slices, j) && r.inQueue && !r.done && r.remaining == 0
    ensures RowOk(Finish(r, time), time, slices, j)
  {
  }

  // ---------------------------------------------------------------------------
  // The reference loop: one iteration of rr.c's `while (completed < n)` as a function

  datatype Option<T> = None | Some(value: T)

  /** The variables of the loop: rows, queue, clock, finished count, pushes, and the turns so far. */
  datatype SimState = SimState(p: seq<Process>, queue: seq<nat>, time: int, completed: int, rear: int,
                               slices: seq<Slice>)

  /** Every row after an admission scan at `time`. */
  function AdmitAll(p: seq<Process>, time: int): (r: seq<Process>)
    ensures |r| == |p| && forall j :: 0 <= j < |p| ==> r[j] == AdmitRow(p[j], time)
  {
    seq(|p|, j requires 0 <= j < |p| => AdmitRow(p[j], time))
  }

  /** The admission scan at the current clock: flag and queue, in index order, what has arrived. */
  function Admission(s: SimState): (t: SimState)
    ensures t.p == AdmitAll(s.p, s.time) && t.queue == s.queue + Arrivals(s.p, s.time, |s.p|)
    ensures t.rear == s.rear + |Arrivals(s.p, s.time, |s.p|)|
    ensures t.time == s.time && t.completed == s.completed && t.slices == s.slices
  {
    var arrived := Arrivals(s.p, s.time, |s.p|);
    SimState(AdmitAll(s.p, s.time), s.queue + arrived, s.time, s.completed, s.rear + |arrived|, s.slices)
  }

  /** The rows before the first scan: remaining = burst, neither queued nor finished. */
  function FreshRows(input: seq<Process>): (p: seq<Process>)
    ensures |p| == |input|
    ensures forall i :: 0 <= i < |input| ==> p[i] == input[i].(remaining := input[i].burst, inQueue := false, done := false)
  {
    seq(|input|, i requires 0 <= i < |input| => input[i].(remaining := input[i].burst, inQueue := false, done := false))
  }

  /** The smallest arrival below `limit`, or `limit` when there is none. */
  function MinBelow(p: seq<Process>, limit: int): (t: int)
    ensures t <= limit
    ensures forall j :: 0 <= j < |p| ==> t <= p[j].arrival
    ensures t == limit || exists j :: 0 <= j < |p| && p[j].arrival == t
  {
    if |p| == 0 then limit
    else
      var t0 := MinBelow(p[..|p| - 1], limit);
      assert forall j :: 0 <= j < |p| - 1 ==> p[..|p| - 1][j] == p[j];
      if p[|p| - 1].arrival < t0 then p[|p| - 1].arrival else t0
  }

  /** The clock at the start: the earliest arrival below `limit`, or 0 when there is none. */
  function StartClock(p: seq<Process>, limit: int): (time: int)
    ensures (exists i :: 0 <= i < |p| && p[i].arrival < limit) ==>
              (exists i :: 0 <= i < |p| && p[i].arrival == time) && forall i :: 0 <= i < |p| ==> time <= p[i].arrival
    ensures (forall i :: 0 <= i < |p| ==> limit <= p[i].arrival) ==> time == 0
  {
    var t := MinBelow(p, limit);
    if t == limit then 0 else t
  }

  /** The earliest arrival after `time` of an unfinished process below `limit`, or `limit`. */
  function NextBelow(p: seq<Process>, time: int, limit: int): (next: int)
    ensures next <= limit
    ensures forall k :: 0 <= k < |p| && !p[k].done && time < p[k].arrival ==> next <= p[k].arrival
    ensures next == limit || exists k :: 0 <= k < |p| && !p[k].done && time < p[k].arrival == next
  {
    if |p| == 0 then limit
    else
      var n0 := NextBelow(p[..|p| - 1], time, limit);
      assert forall j :: 0 <= j < |p| - 1 ==> p[..|p| - 1][j] == p[j];
      var x := p[|p| - 1];
      if !x.done && x.arrival > time && x.arrival < n0 then x.arrival else n0
  }

  /** A turn: run the head, scan for arrivals, then finish the head or queue it again. */
  ghost function Turn(q: int, s: SimState): SimState
    requires |s.queue| > 0 && s.queue[0] < |s.p|
  {
    var i := s.queue[0];
    var exec := if s.p[i].remaining <= q then s.p[i].remaining else q;
    var time2 := s.time + exec;
    var p1 := s.p[i := s.p[i].(remaining := s.p[i].remaining - exec)];
    var arrived := Arrivals(p1, time2, |p1|);
    var pa := AdmitAll(p1, time2);
    var again := pa[i].remaining != 0;
    SimState(if again then pa else pa[i := Finish(pa[i], time2)],
             s.queue[1..] + arrived + (if again then [i] else []),
             time2,
             if again then s.completed else s.completed + 1,
             s.rear + |arrived| + (if again then 1 else 0),
             s.slices + [Slice(i, s.time, time2)])
  }

  /**
   * One iteration of the loop, None once it stops: every process finished, or the queue
   * is empty and no unfinished process arrives below `limit`.
   */
  ghost function SimNext(q: int, limit: int, s: SimState): Option<SimState> {
    if s.completed >= |s.p| then None
    else if |s.queue| == 0 then
      var next := NextBelow(s.p, s.time, limit);
      if next == limit then None
      else Some(Admission(SimState(s.p, s.queue, next, s.completed, s.rear, s.slices)))
    else if s.queue[0] >= |s.p| then None
    else Some(Turn(q, s))
  }

  /** The state before the loop: fresh rows, the start clock and the first scan. */
  ghost function SimInit(input: seq<Process>, limit: int): SimState {
    var p0 := FreshRows(input);
    Admission(SimState(p0, [], StartClock(p0, limit), 0, 0, []))
  }

  /** The state after k iterations, None if the loop stopped before. */
  ghost function SimReach(q: int, limit: int, input: seq<Process>, k: nat): Option<SimState> {
    if k == 0 then Some(SimInit(input, limit))
    else match SimReach(q, limit, input, k - 1)
      case None => None
      case Some(s) => SimNext(q, limit, s)
  }

  /** The state invariant of a loop state, with the totals the loop keeps beside it. */
  ghost predicate SimOk(input: seq<Process>, q: int, s: SimState) {
    RrState(input, q, s.p, s.queue, s.time, s.completed, s.slices, s.rear, Sum(s.p, Waiting), Sum(s.p, Turnaround))
  }

  /** The scan Admit performs is the reference admission. */
  lemma AdmissionIs(s: SimState, p2: seq<Process>, queue2: seq<nat>, rear2: int)
    requires |p2| == |s.p| && forall j :: 0 <= j < |s.p| ==> p2[j] == AdmitRow(s.p[j], s.time)
    requires queue2 == s.queue + Arrivals(s.p, s.time, |s.p|) && rear2 == s.rear + |queue2| - |s.queue|
    ensures Admission(s) == SimState(p2, queue2, s.time, s.completed, rear2, s.slices)
  {
    assert p2 == AdmitAll(s.p, s.time);
  }

  /**
   * Every state the loop reaches keeps the invariant, so the queue never holds more
   * than n entries: n slots used circularly would do.
   */
  lemma {:induction false} SimReachQueue(input: seq<Process>, q: int, limit: int, k: nat)
    requires q >= 1 && forall i :: 0 <= i < |input| ==> input[i].burst >= 0
    ensures SimReach(q, limit, input, k).Some? ==> SimOk(input, q, SimReach(q, limit, input, k).value)
    ensures SimReach(q, limit, input, k).Some? ==> |SimReach(q, limit, input, k).value.queue| <= |input|
  {
    if k == 0 {
      InitOk(input, q, limit);
    } else {
      SimReachQueue(input, q, limit, k - 1);
      var prev := SimReach(q, limit, input, k - 1);
      if prev.Some? && SimNext(q, limit, prev.value).Some? {
        NextOk(input, q, limit, prev.value);
      }
    }
  }

  /** The state before the loop keeps the invariant. */
  lemma InitOk(input: seq<Process>, q: int, limit: int)
    requires q >= 1 && forall i :: 0 <= i < |input| ==> input[i].burst >= 0
    ensures SimOk(input, q, SimInit(input, limit)) && |SimInit(input, limit).queue| <= |input|
  {
    var p0 := FreshRows(input);
    var s0 := SimInit(input, limit);
    RrStart(input, q, p0, StartClock(p0, limit), s0.p, s0.queue, s0.rear);
    QueueBound(s0.p, s0.queue);
  }

  /** An iteration of the reference loop keeps the invariant. */
  lemma NextOk(input: seq<Process>, q: int, limit: int, s: SimState)
    requires SimOk(input, q, s) && SimNext(q, limit, s).Some?
    ensures SimOk(input, q, SimNext(q, limit, s).value) && |SimNext(q, limit, s).value.queue| <= |input|
  {
    if |s.queue| == 0 {
      IdleKeeps(input, q, limit, s, Sum(s.p, Waiting), Sum(s.p, Turnaround));
    } else {
      TurnKeeps(input, q, s, Sum(s.p, Waiting), Sum(s.p, Turnaround));
    }
    var t := SimNext(q, limit, s).value;
    QueueBound(t.p, t.queue);
  }

  // ---------------------------------------------------------------------------
  // One turn

  /** The per-row quantities that the totals add up agree. */
  predicate SameValues(a: Process, b: Process) {
    a.done == b.done && a.remaining == b.remaining && a.waiting == b.waiting && a.turnaround == b.turnaround
  }

  /** When only row i changes a totalled quantity, each total changes by that row's difference. */
  lemma SumsChange(p: seq<Process>, p2: seq<Process>, i: nat)
    requires |p2| == |p| && i < |p|
    requires forall j :: 0 <= j < |p| && j != i ==> SameValues(p[j], p2[j])
    ensures forall m :: Sum(p2, m) == Sum(p, m) - RowValue(p[i], m) + RowValue(p2[i], m)
  {
    forall m ensures Sum(p2, m) == Sum(p, m) - RowValue(p[i], m) + RowValue(p2[i], m) {
      SumUpdate(p, i, p2[i], m);
      SumSame(p[i := p2[i]], p2, m);
    }
  }

  /** The rows once process i has run for `exec` units, before the admission scan. */
  lemma TurnRows(p: seq<Process>, time: int, slices: seq<Slice>, i: nat, exec: int, time2: int,
                 s2: seq<Slice>, p1: seq<Process>)
    requires forall j: nat :: j < |p| ==> RowOk(p[j], time, slices, j)
    requires i < |p| && p[i].inQueue && !p[i].done
    requires 0 <= exec <= p[i].remaining && time2 == time + exec
    requires s2 == slices + [Slice(i, time, time2)]
    requires p1 == p[i := p[i].(remaining := p[i].remaining - exec)]
    ensures forall j: nat :: j < |p1| ==> RowCore(p1[j], time2, s2, j)
  {
    forall j: nat | j < |p1| ensures RowCore(p1[j], time2, s2, j) {
      if j == i {
        RowServed(p[i], time, exec, time2, slices, s2, i, p1[i]);
      } else {
        RowLater(p[j], time, time2, slices, Slice(i, time, time2), s2, j);
      }
    }
  }

  /** The rows after an admission scan at `time`. */
  lemma AdmitRows(p1: seq<Process>, time: int, slices: seq<Slice>, pa: seq<Process>)
    requires forall j: nat :: j < |p1| ==> RowCore(p1[j], time, slices, j)
    requires |pa| == |p1| && forall j :: 0 <= j < |p1| ==> pa[j] == AdmitRow(p1[j], time)
    ensures forall j: nat :: j < |pa| ==> RowOk(pa[j], time, slices, j)
  {
    forall j: nat | j < |pa| ensures RowOk(pa[j], time, slices, j) {
      AdmitRowOk(p1[j], time, slices, j);
    }
  }

  /** The queue after a turn still holds each queued, unfinished process exactly once. */
  lemma TurnQueue(p: seq<Process>, queue: seq<nat>, p1: seq<Process>, time2: int, pa: seq<Process>,
                  p2: seq<Process>, queue2: seq<nat>)
    requires forall j: nat :: Occ(queue, j) == Live(p, j)
    requires |queue| > 0 && queue[0] < |p|
    requires |p1| == |p| && forall j :: 0 <= j < |p| && j != queue[0] ==> p1[j] == p[j]
    requires p1[queue[0]].inQueue && !p1[queue[0]].done
    requires |pa| == |p| && forall j :: 0 <= j < |p| ==> pa[j] == AdmitRow(p1[j], time2)
    requires |p2| == |p| && forall j :: 0 <= j < |p| && j != queue[0] ==> p2[j] == pa[j]
    requires p2[queue[0]].inQueue
    requires queue2 == queue[1..] + Arrivals(p1, time2, |p1|) + (if p2[queue[0]].done then [] else [queue[0]])
    ensures forall j: nat :: Occ(queue2, j) == Live(p2, j)
  {
    HeadLive(p, queue);
    var i := queue[0];
    var tail: seq<nat> := if p2[i].done then [] else [i];
    forall j: nat ensures Occ(queue2, j) == Live(p2, j) {
      ArrivalsCount(p1, time2, |p1|, j);
      OccAppend(queue[1..], Arrivals(p1, time2, |p1|), j);
      OccAppend(queue[1..] + Arrivals(p1, time2, |p1|), tail, j);
      assert tail == [] || tail[..0] == [];
    }
  }

  /** The state invariant is re-established once each of its parts is. */
  lemma TurnState(input: seq<Process>, q: int, p: seq<Process>, queue: seq<nat>, time: int, completed: int,
                  slices: seq<Slice>, rear: int, totalWt: int, totalTat: int,
                  p2: seq<Process>, queue2: seq<nat>, time2: int, completed2: int,
                  slices2: seq<Slice>, rear2: int, totalWt2: int, totalTat2: int, x: Slice)
    requires RrState(input, q, p, queue, time, completed, slices, rear, totalWt, totalTat)
    requires |p2| == |p| && forall j :: 0 <= j < |p| ==> Kept(p[j], p2[j])
    requires forall j: nat :: j < |p2| ==> RowOk(p2[j], time2, slices2, j)
    requires forall j: nat :: Occ(queue2, j) == Live(p2, j)
    requires x.idx < |p| && 0 <= x.end - x.start <= q && slices2 == slices + [x]
    requires forall m :: Sum(p2, m) == Sum(p, m) - RowValue(p[x.idx], m) + RowValue(p2[x.idx], m)
    requires completed2 == completed + RowValue(p2[x.idx], Finished) - RowValue(p[x.idx], Finished)
    requires totalWt2 == totalWt + RowValue(p2[x.idx], Waiting) - RowValue(p[x.idx], Waiting)
    requires totalTat2 == totalTat + RowValue(p2[x.idx], Turnaround) - RowValue(p[x.idx], Turnaround)
    requires rear2 == rear + 1 + |queue2| - |queue|
    ensures RrState(input, q, p2, queue2, time2, completed2, slices2, rear2, totalWt2, totalTat2)
  {
    assert Sum(p2, Finished) == Sum(p, Finished) - RowValue(p[x.idx], Finished) + RowValue(p2[x.idx], Finished);
    assert Sum(p2, Waiting) == Sum(p, Waiting) - RowValue(p[x.idx], Waiting) + RowValue(p2[x.idx], Waiting);
    assert Sum(p2, Turnaround) == Sum(p, Turnaround) - RowValue(p[x.idx], Turnaround) + RowValue(p2[x.idx], Turnaround);
    forall k | 0 <= k < |slices2| ensures slices2[k].idx < |p2| && 0 <= slices2[k].end - slices2[k].start <= q {
      if k < |slices| {
        assert slices2[k] == slices[k];
      }
    }
  }

  /**
   * Serve the head of the queue for min(remaining, quantum), queue the processes that
   * arrived meanwhile, then queue the served process again unless it finished.
   */
  method ServeHead(input: seq<Process>, q: int, p: seq<Process>, queue: seq<nat>, time: int, completed: int,
                   ghost slices: seq<Slice>, rear: int, totalWt: int, totalTat: int)
      returns (p2: seq<Process>, queue2: seq<nat>, time2: int, completed2: int,
               ghost slices2: seq<Slice>, rear2: int, totalWt2: int, totalTat2: int, ghost arrived: seq<nat>)
    requires RrState(input, q, p, queue, time, completed, slices, rear, totalWt, totalTat)
    requires |queue| > 0
    ensures RrState(input, q, p2, queue2, time2, completed2, slices2, rear2, totalWt2, totalTat2)
    ensures queue[0] < |p| && Turn(q, SimState(p, queue, time, completed, rear, slices)) ==
              SimState(p2, queue2, time2, completed2, rear2, slices2)
    ensures time2 - time == (if p[queue[0]].remaining <= q then p[queue[0]].remaining else q)
    ensures slices2 == slices + [Slice(queue[0], time, time2)]
    ensures p2[queue[0]].remaining == p[queue[0]].remaining - (time2 - time)
    ensures queue2 == queue[1..] + arrived + (if p2[queue[0]].done then [] else [queue[0]])
    ensures forall j: nat :: Occ(arrived, j) == if j < |p| && !p[j].inQueue && !p[j].done && p[j].arrival <= time2 then 1 else 0
    ensures Sum(p2, Pending) < Sum(p, Pending)
  {
    HeadLive(p, queue);
    var i := queue[0];
    var rest := queue[1..];
    var exec := if p[i].remaining <= q then p[i].remaining else q;
    time2 := time + exec;
    var p1 := p[i := p[i].(remaining := p[i].remaining - exec)];
    slices2 := slices + [Slice(i, time, time2)];
    var pa;
    pa, queue2, rear2 := Admit(p1, time2, rest, rear);
    arrived := Arrivals(p1, time2, |p1|);
    if pa[i].remaining == 0 {
      var fin := Finish(pa[i], time2);
      p2 := pa[i := fin];
      completed2 := completed + 1;
      totalWt2 := totalWt + fin.waiting;
      totalTat2 := totalTat + fin.turnaround;
      assert queue2 == rest + arrived + [];
    } else {
      p2 := pa;
      queue2 := queue2 + [i];
      rear2 := rear2 + 1;
      completed2, totalWt2, totalTat2 := completed, totalWt, totalTat;
    }
    ghost var s := SimState(p, queue, time, completed, rear, slices);
    TurnIs(q, s, p1, pa, p2, queue2, time2, completed2, rear2, slices2);
    TurnKeeps(input, q, s, totalWt, totalTat);
    ArrivedFrom(p, p1, i, time2);
  }

  /** The turn ServeHead takes is the one of the reference loop. */
  lemma TurnIs(q: int, s: SimState, p1: seq<Process>, pa: seq<Process>, p2: seq<Process>, queue2: seq<nat>,
               time2: int, completed2: int, rear2: int, slices2: seq<Slice>)
    requires |s.queue| > 0 && s.queue[0] < |s.p|
    requires var i := s.queue[0];
      time2 == s.time + (if s.p[i].remaining <= q then s.p[i].remaining else q)
      && p1 == s.p[i := s.p[i].(remaining := s.p[i].remaining - (time2 - s.time))]
      && |pa| == |p1| && (forall j :: 0 <= j < |p1| ==> pa[j] == AdmitRow(p1[j], time2))
      && slices2 == s.slices + [Slice(i, s.time, time2)]
      && (pa[i].remaining == 0 ==>
            p2 == pa[i := Finish(pa[i], time2)] && completed2 == s.completed + 1
            && queue2 == s.queue[1..] + Arrivals(p1, time2, |p1|)
            && rear2 == s.rear + |Arrivals(p1, time2, |p1|)|)
      && (pa[i].remaining != 0 ==>
            p2 == pa && completed2 == s.completed
            && queue2 == s.queue[1..] + Arrivals(p1, time2, |p1|) + [i]
            && rear2 == s.rear + |Arrivals(p1, time2, |p1|)| + 1)
    ensures Turn(q, s) == SimState(p2, queue2, time2, completed2, rear2, slices2)
  {
    assert pa == AdmitAll(p1, time2);
  }

  /** A turn of the reference loop keeps the state invariant and lowers the outstanding work. */
  lemma TurnKeeps(input: seq<Process>, q: int, s: SimState, totalWt: int, totalTat: int)
    requires RrState(input, q, s.p, s.queue, s.time, s.completed, s.slices, s.rear, totalWt, totalTat)
    requires |s.queue| > 0
    ensures s.queue[0] < |s.p|
    ensures var t := Turn(q, s); var i := s.queue[0];
      RrState(input, q, t.p, t.queue, t.time, t.completed, t.slices, t.rear,
              totalWt + RowValue(t.p[i], Waiting), totalTat + RowValue(t.p[i], Turnaround))
      && Sum(t.p, Pending) < Sum(s.p, Pending)
  {
    HeadLive(s.p, s.queue);
    var i := s.queue[0];
    var t := Turn(q, s);
    assert RowOk(s.p[i], s.time, s.slices, i);
    TurnRowsOk(q, s);
    TurnQueueOk(q, s);
    TurnSums(q, s);
    TurnState(input, q, s.p, s.queue, s.time, s.completed, s.slices, s.rear, totalWt, totalTat,
              t.p, t.queue, t.time, t.completed, t.slices, t.rear,
              totalWt + RowValue(t.p[i], Waiting), totalTat + RowValue(t.p[i], Turnaround), Slice(i, s.time, t.time));
  }

  /** The head of a consistent queue, queued and unfinished, with every row consistent. */
  ghost predicate HeadReady(q: int, s: SimState) {
    q >= 1 && |s.queue| > 0 && s.queue[0] < |s.p| && s.p[s.queue[0]].inQueue && !s.p[s.queue[0]].done
    && forall j: nat :: j < |s.p| ==> RowOk(s.p[j], s.time, s.slices, j)
  }

  /** After a turn every row is consistent again, keeps its identity, and the turn lasted at most q. */
  lemma TurnRowsOk(q: int, s: SimState)
    requires HeadReady(q, s)
    ensures var t := Turn(q, s); var i := s.queue[0];
      |t.p| == |s.p| && (forall j :: 0 <= j < |s.p| ==> Kept(s.p[j], t.p[j]))
      && (forall j: nat :: j < |t.p| ==> RowOk(t.p[j], t.time, t.slices, j))
      && t.slices == s.slices + [Slice(i, s.time, t.time)] && 0 <= t.time - s.time <= q
  {
    var i := s.queue[0];
    var exec := if s.p[i].remaining <= q then s.p[i].remaining else q;
    var time2 := s.time + exec;
    var p1 := s.p[i := s.p[i].(remaining := s.p[i].remaining - exec)];
    var pa := AdmitAll(p1, time2);
    var t := Turn(q, s);
    TurnRowsFrom(q, s.p, s.time, s.slices, i, exec, p1, pa, t.p);
  }

  /** The rows after process i has run for `exec` units, the scan at `time + exec` and the finish check. */
  lemma TurnRowsFrom(q: int, p: seq<Process>, time: int, slices: seq<Slice>, i: nat, exec: int,
                     p1: seq<Process>, pa: seq<Process>, p2: seq<Process>)
    requires forall j: nat :: j < |p| ==> RowOk(p[j], time, slices, j)
    requires q >= 1 && i < |p| && p[i].inQueue && !p[i].done
    requires exec == if p[i].remaining <= q then p[i].remaining else q
    requires p1 == p[i := p[i].(remaining := p[i].remaining - exec)]
    requires pa == AdmitAll(p1, time + exec)
    requires p2 == if pa[i].remaining != 0 then pa else pa[i := Finish(pa[i], time + exec)]
    ensures |p2| == |p| && forall j :: 0 <= j < |p| ==> Kept(p[j], p2[j])
    ensures forall j: nat :: j < |p2| ==> RowOk(p2[j], time + exec, slices + [Slice(i, time, time + exec)], j)
  {
    var time2 := time + exec;
    var slices2 := slices + [Slice(i, time, time2)];
    ScanRows(q, p, time, slices, i, exec, p1, pa);
    if pa[i].remaining == 0 {
      RowFinished(pa[i], time2, slices2, i);
      assert forall j: nat :: j < |p2| && j != i ==> p2[j] == pa[j];
    }
  }

  /** The rows after process i has run for `exec` units and the scan at `time + exec`. */
  lemma ScanRows(q: int, p: seq<Process>, time: int, slices: seq<Slice>, i: nat, exec: int,
                 p1: seq<Process>, pa: seq<Process>)
    requires forall j: nat :: j < |p| ==> RowOk(p[j], time, slices, j)
    requires q >= 1 && i < |p| && p[i].inQueue && !p[i].done
    requires exec == if p[i].remaining <= q then p[i].remaining else q
    requires p1 == p[i := p[i].(remaining := p[i].remaining - exec)]
    requires pa == AdmitAll(p1, time + exec)
    ensures forall j :: 0 <= j < |p| ==> Kept(p[j], pa[j])
    ensures forall j: nat :: j < |pa| ==> RowOk(pa[j], time + exec, slices + [Slice(i, time, time + exec)], j)
    ensures pa[i].inQueue && !pa[i].done && pa[i].remaining == p[i].remaining - exec
  {
    var time2 := time + exec;
    var slices2 := slices + [Slice(i, time, time2)];
    assert RowOk(p[i], time, slices, i);
    TurnRows(p, time, slices, i, exec, time2, slices2, p1);
    AdmitRows(p1, time2, slices2, pa);
  }

  /** After a turn the queue holds each queued, unfinished process exactly once. */
  lemma TurnQueueOk(q: int, s: SimState)
    requires |s.queue| > 0 && s.queue[0] < |s.p| && s.p[s.queue[0]].inQueue && !s.p[s.queue[0]].done
    requires forall j: nat :: Occ(s.queue, j) == Live(s.p, j)
    ensures var t := Turn(q, s); forall j: nat :: Occ(t.queue, j) == Live(t.p, j)
  {
    var i := s.queue[0];
    var exec := if s.p[i].remaining <= q then s.p[i].remaining else q;
    var time2 := s.time + exec;
    var p1 := s.p[i := s.p[i].(remaining := s.p[i].remaining - exec)];
    var pa := AdmitAll(p1, time2);
    var t := Turn(q, s);
    if pa[i].remaining == 0 {
      assert t.queue == s.queue[1..] + Arrivals(p1, time2, |p1|) + [];
    }
    TurnQueue(s.p, s.queue, p1, time2, pa, t.p, t.queue);
  }

  /** A turn changes the totals, the finished count and the pushes by the head's row alone. */
  lemma TurnSums(q: int, s: SimState)
    requires q >= 1 && |s.queue| > 0 && s.queue[0] < |s.p| && s.p[s.queue[0]].inQueue && !s.p[s.queue[0]].done
    requires s.p[s.queue[0]].remaining >= 0
    ensures var t := Turn(q, s); var i := s.queue[0];
      |t.p| == |s.p|
      && (forall m :: Sum(t.p, m) == Sum(s.p, m) - RowValue(s.p[i], m) + RowValue(t.p[i], m))
      && t.completed == s.completed + RowValue(t.p[i], Finished) - RowValue(s.p[i], Finished)
      && RowValue(s.p[i], Waiting) == 0 && RowValue(s.p[i], Turnaround) == 0
      && t.rear == s.rear + 1 + |t.queue| - |s.queue|
      && RowValue(t.p[i], Pending) < RowValue(s.p[i], Pending)
  {
    var t := Turn(q, s);
    SumsChange(s.p, t.p, s.queue[0]);
  }

  /** The processes a scan queues after a turn are those that were neither queued nor finished. */
  lemma ArrivedFrom(p: seq<Process>, p1: seq<Process>, i: nat, time2: int)
    requires |p1| == |p| && i < |p| && p[i].inQueue && p1[i].inQueue
    requires forall j :: 0 <= j < |p| && j != i ==> p1[j] == p[j]
    ensures forall j: nat :: Occ(Arrivals(p1, time2, |p1|), j) ==
              if j < |p| && !p[j].inQueue && !p[j].done && p[j].arrival <= time2 then 1 else 0
  {
    forall j: nat ensures Occ(Arrivals(p1, time2, |p1|), j) ==
                          if j < |p| && !p[j].inQueue && !p[j].done && p[j].arrival <= time2 then 1 else 0 {
      ArrivalsCount(p1, time2, |p1|, j);
    }
  }

  // ---------------------------------------------------------------------------
  // Idling

  /**
   * The scan for the next arrival: the earliest arrival after `time` of an unfinished
   * process, if one lies below `limit`.
   */
  method NextArrival(p: seq<Process>, time: int, limit: int) returns (next: int, idx: int)
    ensures -1 <= idx < |p|
    ensures idx == -1 ==> next == limit
    ensures idx >= 0 ==> !p[idx].done && time < p[idx].arrival == next < limit
    ensures forall k :: 0 <= k < |p| && !p[k].done && time < p[k].arrival ==> next <= p[k].arrival
    ensures next == NextBelow(p, time, limit)
  {
    next, idx := limit, -1;
    for i := 0 to |p|
      invariant next == NextBelow(p[..i], time, limit)
      invariant -1 <= idx < i
      invariant idx == -1 ==> next == limit
      invariant idx >= 0 ==> !p[idx].done && time < p[idx].arrival == next < limit
    {
      assert p[..i + 1][..i] == p[..i];
      if !p[i].done && p[i].arrival > time && p[i].arrival < next {
        next := p[i].arrival;
        idx := i;
      }
    }
    assert p[..|p|] == p;
  }

  /** With the queue empty, every unfinished process is still to arrive. */
  lemma EmptyQueue(p: seq<Process>, queue: seq<nat>, time: int, slices: seq<Slice>, j: nat)
    requires forall j: nat :: j < |p| ==> RowOk(p[j], time, slices, j)
    requires forall j: nat :: Occ(queue, j) == Live(p, j)
    requires |queue| == 0 && j < |p| && !p[j].done
    ensures !p[j].inQueue && time < p[j].arrival
  {
    assert Occ(queue, j) == Live(p, j);
    assert RowOk(p[j], time, slices, j);
  }

  lemma IdleRows(p: seq<Process>, time: int, time2: int, slices: seq<Slice>)
    requires forall j: nat :: j < |p| ==> RowOk(p[j], time, slices, j)
    requires time <= time2
    ensures forall j: nat :: j < |p| ==> RowCore(p[j], time2, slices, j)
  {
    forall j: nat | j < |p| ensures RowCore(p[j], time2, slices, j) {
      assert RowOk(p[j], time, slices, j);
    }
  }

  /** The admission scan after idling queues the process that arrived, and nothing twice. */
  lemma IdleQueue(p: seq<Process>, queue: seq<nat>, time2: int, p2: seq<Process>, queue2: seq<nat>, idx: nat)
    requires forall j: nat :: Occ(queue, j) == Live(p, j)
    requires |queue| == 0
    requires |p2| == |p| && forall j :: 0 <= j < |p| ==> p2[j] == AdmitRow(p[j], time2)
    requires queue2 == queue + Arrivals(p, time2, |p|)
    requires idx < |p| && Arriving(p[idx], time2)
    ensures forall j: nat :: Occ(queue2, j) == Live(p2, j)
    ensures |queue2| > 0
  {
    assert queue2 == Arrivals(p, time2, |p|);
    forall j: nat ensures Occ(queue2, j) == Live(p2, j) {
      ArrivalsCount(p, time2, |p|, j);
      assert Occ(queue, j) == Live(p, j);
    }
    ArrivalsCount(p, time2, |p|, idx);
  }

  /**
   * The queue is empty: jump to the earliest arrival of an unfinished process after
   * `time` that lies below `limit` and queue what has arrived by then; stop when there
   * is no such arrival.
   */
  method IdleStep(input: seq<Process>, q: int, limit: int, p: seq<Process>, queue: seq<nat>, time: int,
                  completed: int, ghost slices: seq<Slice>, rear: int, totalWt: int, totalTat: int)
      returns (stop: bool, p2: seq<Process>, queue2: seq<nat>, time2: int, rear2: int)
    requires RrState(input, q, p, queue, time, completed, slices, rear, totalWt, totalTat)
    requires |queue| == 0
    ensures stop <==> NextBelow(p, time, limit) == limit
    ensures stop ==> p2 == p && queue2 == queue && time2 == time && rear2 == rear
    ensures stop ==> forall j :: 0 <= j < |p| && !p[j].done ==> !p[j].inQueue && limit <= p[j].arrival
    ensures !stop ==> time2 == NextBelow(p, time, limit)
    ensures !stop ==> Admission(SimState(p, queue, time2, completed, rear, slices)) == SimState(p2, queue2, time2, completed, rear2, slices)
    ensures !stop ==> RrState(input, q, p2, queue2, time2, completed, slices, rear2, totalWt, totalTat)
    ensures !stop ==> |queue2| > 0 && time < time2 && Sum(p2, Pending) == Sum(p, Pending)
  {
    var next, idx := NextArrival(p, time, limit);
    if idx == -1 {
      forall j | 0 <= j < |p| && !p[j].done ensures !p[j].inQueue && limit <= p[j].arrival {
        EmptyQueue(p, queue, time, slices, j);
      }
      return true, p, queue, time, rear;
    }
    stop := false;
    time2 := next;
    p2, queue2, rear2 := Admit(p, time2, queue, rear);
    AdmissionIs(SimState(p, queue, time2, completed, rear, slices), p2, queue2, rear2);
    IdleKeeps(input, q, limit, SimState(p, queue, time, completed, rear, slices), totalWt, totalTat);
  }

  /** Idling to the next arrival keeps the state invariant and queues at least that process. */
  lemma IdleKeeps(input: seq<Process>, q: int, limit: int, s: SimState, totalWt: int, totalTat: int)
    requires RrState(input, q, s.p, s.queue, s.time, s.completed, s.slices, s.rear, totalWt, totalTat)
    requires |s.queue| == 0 && NextBelow(s.p, s.time, limit) != limit
    ensures var t := Admission(SimState(s.p, s.queue, NextBelow(s.p, s.time, limit), s.completed, s.rear, s.slices));
      RrState(input, q, t.p, t.queue, t.time, t.completed, t.slices, t.rear, totalWt, totalTat)
      && |t.queue| > 0 && s.time < t.time && Sum(t.p, Pending) == Sum(s.p, Pending)
  {
    var next := NextBelow(s.p, s.time, limit);
    var idx :| 0 <= idx < |s.p| && !s.p[idx].done && s.time < s.p[idx].arrival == next;
    EmptyQueue(s.p, s.queue, s.time, s.slices, idx);
    IdleRows(s.p, s.time, next, s.slices);
    var p2 := AdmitAll(s.p, next);
    var queue2 := s.queue + Arrivals(s.p, next, |s.p|);
    AdmitRows(s.p, next, s.slices, p2);
    IdleQueue(s.p, s.queue, next, p2, queue2, idx);
    SumsChange(s.p, p2, idx);
  }

  // ---------------------------------------------------------------------------
  // The simulation

  /** The clock at the start: the earliest arrival below `limit`, or 0 when there is none. */
  method StartTime(p: seq<Process>, limit: int) returns (time: int)
    ensures (exists i :: 0 <= i < |p| && p[i].arrival < limit) ==>
              (exists i :: 0 <= i < |p| && p[i].arrival == time) && forall i :: 0 <= i < |p| ==> time <= p[i].arrival
    ensures (forall i :: 0 <= i < |p| ==> limit <= p[i].arrival) ==> time == 0
    ensures time == StartClock(p, limit)
  {
    time := limit;
    for i := 0 to |p|
      invariant time == MinBelow(p[..i], limit)
    {
      assert p[..i + 1][..i] == p[..i];
      if p[i].arrival < time {
        time := p[i].arrival;
      }
    }
    assert p[..|p|] == p;
    if time == limit {
      time := 0;
    }
  }

  /** The report of a process that never finished. */
  function Unfinished(r: Process): Process {
    r.(completion := r.arrival, turnaround := 0, waiting := 0)
  }

  /** The report loop: rows of unfinished processes get completion = arrival and zero times. */
  method Report(p: seq<Process>) returns (table: seq<Process>)
    ensures |table| == |p|
    ensures forall j :: 0 <= j < |p| ==> table[j] == if p[j].done then p[j] else Unfinished(p[j])
  {
    table := p;
    for i := 0 to |p|
      invariant |table| == |p|
      invariant forall j :: 0 <= j < |p| ==> table[j] == if j < i && !p[j].done then Unfinished(p[j]) else p[j]
    {
      if !table[i].done {
        table := table[i := table[i].(completion := table[i].arrival, turnaround := 0, waiting := 0)];
      }
    }
  }

  /** What is reported for process j of `input` after the turns `slices`. */
  ghost predicate Reported(a: Process, r: Process, slices: seq<Slice>, j: nat, limit: int) {
    Kept(a, r)
    && (r.done ==> Served(slices, j) == a.burst && r.turnaround == r.completion - a.arrival
                   && r.waiting == r.turnaround - a.burst && r.waiting >= 0)
    && (!r.done ==> limit <= a.arrival && Count(slices, j) == 0
                    && r.completion == a.arrival && r.turnaround == 0 && r.waiting == 0)
  }

  /**
   * The simulation of rr.c (limit RR_C_LIMIT) and rr.cpp (limit INT_MAX). `pushes` is the
   * number of queue writes (the final `rear` of rr.c). The loop stops in state `last`
   * after `passes` iterations of the reference loop, and the table is what it reports.
   */
  method Simulate(input: seq<Process>, quantum: int, limit: int)
      returns (table: seq<Process>, totalWt: int, totalTat: int,
               ghost slices: seq<Slice>, pushes: int, ghost passes: nat, ghost last: SimState)
    requires forall i :: 0 <= i < |input| ==> input[i].burst >= 0
    ensures SimReach(Quantum(quantum), limit, input, passes) == Some(last)
    ensures SimNext(Quantum(quantum), limit, last) == None
    ensures last.slices == slices && last.rear == pushes && |last.p| == |table|
    ensures forall j :: 0 <= j < |table| ==> table[j] == if last.p[j].done then last.p[j] else Unfinished(last.p[j])
    ensures |table| == |input|
    ensures forall j :: 0 <= j < |input| ==> Reported(input[j], table[j], slices, j, limit)
    ensures (exists j :: 0 <= j < |input| && input[j].arrival < limit) ==> exists j :: 0 <= j < |input| && table[j].done
    ensures forall k :: 0 <= k < |slices| ==>
              slices[k].idx < |input| && 0 <= slices[k].end - slices[k].start <= Quantum(quantum)
    ensures totalWt == Sum(table, Waiting) && totalTat == Sum(table, Turnaround)
    ensures pushes == |slices|
  {
    var q := Quantum(quantum);
    var p, queue, time, completed, rear, totalW, totalT;
    p, queue, time, completed, slices, rear, totalW, totalT, passes := Run(input, q, limit);
    last := SimState(p, queue, time, completed, rear, slices);
    SumBounds(p, Finished);
    table := Report(p);
    RrOutcome(input, q, limit, p, queue, time, completed, slices, rear, totalW, totalT, table);
    totalWt, totalTat := totalW, totalT;
    pushes := rear;
  }

  /** Set up, then run the main loop from the start state of the reference loop. */
  method Run(input: seq<Process>, q: int, limit: int)
      returns (p: seq<Process>, queue: seq<nat>, time: int, completed: int,
               ghost slices: seq<Slice>, rear: int, totalWt: int, totalTat: int, ghost passes: nat)
    requires q >= 1 && forall i :: 0 <= i < |input| ==> input[i].burst >= 0
    ensures RrState(input, q, p, queue, time, completed, slices, rear, totalWt, totalTat)
    ensures SimReach(q, limit, input, passes) == Some(SimState(p, queue, time, completed, rear, slices))
    ensures SimNext(q, limit, SimState(p, queue, time, completed, rear, slices)) == None
    ensures completed >= |p| ||
              (|queue| == 0 && forall j :: 0 <= j < |p| && !p[j].done ==> !p[j].inQueue && limit <= p[j].arrival)
  {
    p, queue, time, rear := Start(input, q, limit);
    p, queue, time, completed, slices, rear, totalWt, totalTat, passes :=
      RunTurns(input, q, limit, p, queue, time, 0, [], rear, 0, 0, 0);
  }

  /**
   * The main loop: serve the head of the queue, or idle to the next arrival, until every
   * process has finished or the scan finds no arrival below `limit`. Started in the state
   * the reference loop reaches after `passes0` iterations, it stops where the reference
   * loop stops.
   */
  method RunTurns(input: seq<Process>, q: int, limit: int, p: seq<Process>, queue: seq<nat>, time: int,
                  completed: int, ghost slices: seq<Slice>, rear: int, totalWt: int, totalTat: int, ghost passes0: nat)
      returns (p2: seq<Process>, queue2: seq<nat>, time2: int, completed2: int,
               ghost slices2: seq<Slice>, rear2: int, totalWt2: int, totalTat2: int, ghost passes: nat)
    requires RrState(input, q, p, queue, time, completed, slices, rear, totalWt, totalTat)
    requires SimReach(q, limit, input, passes0) == Some(SimState(p, queue, time, completed, rear, slices))
    ensures RrState(input, q, p2, queue2, time2, completed2, slices2, rear2, totalWt2, totalTat2)
    ensures SimReach(q, limit, input, passes) == Some(SimState(p2, queue2, time2, completed2, rear2, slices2))
    ensures SimNext(q, limit, SimState(p2, queue2, time2, completed2, rear2, slices2)) == None
    ensures completed2 >= |p| ||
              (|queue2| == 0 && forall j :: 0 <= j < |p2| && !p2[j].done ==> !p2[j].inQueue && limit <= p2[j].arrival)
  {
    p2, queue2, time2, completed2, slices2, rear2, totalWt2, totalTat2 :=
      p, queue, time, completed, slices, rear, totalWt, totalTat;
    passes := passes0;
    while completed2 < |p|
      invariant RrState(input, q, p2, queue2, time2, completed2, slices2, rear2, totalWt2, totalTat2)
      invariant SimReach(q, limit, input, passes) == Some(SimState(p2, queue2, time2, completed2, rear2, slices2))
      decreases Sum(p2, Pending), if |queue2| == 0 then 1 else 0
    {
      SumBounds(p2, Pending);
      var stop;
      stop, p2, queue2, time2, completed2, slices2, rear2, totalWt2, totalTat2, passes :=
        Step(input, q, limit, p2, queue2, time2, completed2, slices2, rear2, totalWt2, totalTat2, passes);
      if stop {
        return;
      }
    }
  }

  /**
   * One iteration of the loop body: idle when the queue is empty (stopping when no arrival
   * is left below `limit`), otherwise serve the head. It is the reference iteration.
   */
  method Step(input: seq<Process>, q: int, limit: int, p: seq<Process>, queue: seq<nat>, time: int,
              completed: int, ghost slices: seq<Slice>, rear: int, totalWt: int, totalTat: int, ghost k: nat)
      returns (stop: bool, p2: seq<Process>, queue2: seq<nat>, time2: int, completed2: int,
               ghost slices2: seq<Slice>, rear2: int, totalWt2: int, totalTat2: int, ghost k2: nat)
    requires RrState(input, q, p, queue, time, completed, slices, rear, totalWt, totalTat)
    requires SimReach(q, limit, input, k) == Some(SimState(p, queue, time, completed, rear, slices))
    requires completed < |p|
    ensures RrState(input, q, p2, queue2, time2, completed2, slices2, rear2, totalWt2, totalTat2)
    ensures SimReach(q, limit, input, k2) == Some(SimState(p2, queue2, time2, completed2, rear2, slices2))
    ensures stop ==> SimNext(q, limit, SimState(p2, queue2, time2, completed2, rear2, slices2)) == None
    ensures stop ==> |queue2| == 0 && forall j :: 0 <= j < |p2| && !p2[j].done ==> !p2[j].inQueue && limit <= p2[j].arrival
    ensures !stop ==> Sum(p2, Pending) < Sum(p, Pending) ||
                      (Sum(p2, Pending) == Sum(p, Pending) && |queue| == 0 && |queue2| > 0)
  {
    ghost var here := SimState(p, queue, time, completed, rear, slices);
    completed2, slices2, totalWt2, totalTat2 := completed, slices, totalWt, totalTat;
    if |queue| == 0 {
      stop, p2, queue2, time2, rear2 :=
        IdleStep(input, q, limit, p, queue, time, completed, slices, rear, totalWt, totalTat);
      if stop {
        k2 := k;
        return;
      }
    } else {
      stop := false;
      ghost var arrived;
      p2, queue2, time2, completed2, slices2, rear2, totalWt2, totalTat2, arrived :=
        ServeHead(input, q, p, queue, time, completed, slices, rear, totalWt, totalTat);
    }
    NextReach(q, limit, input, k, here, SimState(p2, queue2, time2, completed2, rear2, slices2));
    k2 := k + 1;
  }

  /** One more iteration from a reached state reaches its successor. */
  lemma NextReach(q: int, limit: int, input: seq<Process>, k: nat, s: SimState, t: SimState)
    requires SimReach(q, limit, input, k) == Some(s)
    requires s.completed < |s.p|
    requires |s.queue| == 0 ==> NextBelow(s.p, s.time, limit) != limit
    requires |s.queue| == 0 ==> Admission(SimState(s.p, s.queue, NextBelow(s.p, s.time, limit), s.completed, s.rear, s.slices)) == t
    requires |s.queue| > 0 ==> s.queue[0] < |s.p| && Turn(q, s) == t
    ensures SimReach(q, limit, input, k + 1) == Some(t)
  {
    assert SimNext(q, limit, s) == Some(t);
  }

  /** Set up the rows, start the clock at the earliest arrival and queue what has arrived by then. */
  method Start(input: seq<Process>, q: int, limit: int) returns (p: seq<Process>, queue: seq<nat>, time: int, rear: int)
    requires q >= 1 && forall i :: 0 <= i < |input| ==> input[i].burst >= 0
    ensures SimInit(input, limit) == SimState(p, queue, time, 0, rear, [])
    ensures RrState(input, q, p, queue, time, 0, [], rear, 0, 0)
    ensures |queue| <= |p|
    ensures (exists i :: 0 <= i < |input| && input[i].arrival < limit) ==>
              (exists i :: 0 <= i < |input| && input[i].arrival == time) && forall i :: 0 <= i < |input| ==> time <= input[i].arrival
    ensures (forall i :: 0 <= i < |input| ==> limit <= input[i].arrival) ==> time == 0
  {
    var p0 := FreshRows(input);
    time := StartTime(p0, limit);
    var r;
    p, queue, r := Admit(p0, time, [], 0);
    rear := r;
    AdmissionIs(SimState(p0, [], time, 0, 0, []), p, queue, rear);
    RrStart(input, q, p0, time, p, queue, rear);
    QueueBound(p, queue);
  }

  /** The state after the first admission scan. */
  lemma RrStart(input: seq<Process>, q: int, p0: seq<Process>, time: int, p: seq<Process>, queue: seq<nat>, rear: int)
    requires q >= 1 && (forall i :: 0 <= i < |input| ==> input[i].burst >= 0)
    requires |p0| == |input|
    requires forall j :: 0 <= j < |input| ==> p0[j] == input[j].(remaining := input[j].burst, inQueue := false, done := false)
    requires |p| == |p0| && forall j :: 0 <= j < |p0| ==> p[j] == AdmitRow(p0[j], time)
    requires queue == [] + Arrivals(p0, time, |p0|) && rear == |queue|
    ensures RrState(input, q, p, queue, time, 0, [], rear, 0, 0)
  {
    forall j: nat | j < |p0| ensures RowCore(p0[j], time, [], j) {
    }
    AdmitRows(p0, time, [], p);
    assert queue == Arrivals(p0, time, |p0|);
    forall j: nat ensures Occ(queue, j) == Live(p, j) {
      ArrivalsCount(p0, time, |p0|, j);
    }
    ZeroSums(p0);
    SumSame(p0, p, Finished);
    SumSame(p0, p, Waiting);
    SumSame(p0, p, Turnaround);
  }

  lemma {:induction false} ZeroSums(p: seq<Process>)
    requires forall j :: 0 <= j < |p| ==> !p[j].done
    ensures Sum(p, Finished) == 0 && Sum(p, Waiting) == 0 && Sum(p, Turnaround) == 0
  {
    if |p| > 0 {
      ZeroSums(p[..|p| - 1]);
    }
  }

  /** What the loop leaves behind, whether every process finished or the scan found no arrival. */
  lemma RrOutcome(input: seq<Process>, q: int, limit: int, p: seq<Process>, queue: seq<nat>, time: int,
                  completed: int, slices: seq<Slice>, rear: int, totalWt: int, totalTat: int, table: seq<Process>)
    requires RrState(input, q, p, queue, time, completed, slices, rear, totalWt, totalTat)
    requires completed >= |p| || (|queue| == 0 && forall j :: 0 <= j < |p| && !p[j].done ==> !p[j].inQueue && limit <= p[j].arrival)
    requires |table| == |p|
    requires forall j :: 0 <= j < |p| ==> table[j] == if p[j].done then p[j] else Unfinished(p[j])
    ensures forall j :: 0 <= j < |input| ==> Reported(input[j], table[j], slices, j, limit)
    ensures (exists j :: 0 <= j < |input| && input[j].arrival < limit) ==> exists j :: 0 <= j < |input| && table[j].done
    ensures totalWt == Sum(table, Waiting) && totalTat == Sum(table, Turnaround)
    ensures rear == |slices|
  {
    SumBounds(p, Finished);
    forall j | 0 <= j < |input| ensures Reported(input[j], table[j], slices, j, limit) {
      assert RowOk(p[j], time, slices, j);
    }
    if completed < |p| {
      assert |queue| == 0;
    } else {
      assert forall j :: 0 <= j < |p| ==> p[j].done;
      forall j: nat ensures Occ(queue, j) == 0 {
        assert Occ(queue, j) == Live(p, j);
      }
      if |queue| > 0 {
        assert Occ(queue, queue[0]) == 0;
        OccFront(queue, queue[0]);
      }
    }
    SumSame(p, table, Waiting);
    SumSame(p, table, Turnaround);
  }

  /** rr.c: the simulation with the `1e9` scan bound. */
  method RrC(input: seq<Process>, quantum: int)
      returns (table: seq<Process>, totalWt: int, totalTat: int, ghost slices: seq<Slice>, pushes: int,
               ghost passes: nat, ghost last: SimState)
    requires forall i :: 0 <= i < |input| ==> input[i].burst >= 0
    ensures SimReach(Quantum(quantum), RR_C_LIMIT, input, passes) == Some(last)
    ensures SimNext(Quantum(quantum), RR_C_LIMIT, last) == None
    ensures last.slices == slices && last.rear == pushes && |last.p| == |table|
    ensures forall j :: 0 <= j < |table| ==> table[j] == if last.p[j].done then last.p[j] else Unfinished(last.p[j])
    ensures |table| == |input|
    ensures forall j :: 0 <= j < |input| ==> Reported(input[j], table[j], slices, j, RR_C_LIMIT)
    ensures forall k :: 0 <= k < |slices| ==>
              slices[k].idx < |input| && 0 <= slices[k].end - slices[k].start <= Quantum(quantum)
    ensures pushes == |slices|
  {
    table, totalWt, totalTat, slices, pushes, passes, last := Simulate(input, quantum, RR_C_LIMIT);
  }

  /** rr.cpp: the simulation with the INT_MAX scan bound; only a process arriving at INT_MAX can be left unfinished. */
  method RrCpp(input: seq<Process>, quantum: int)
      returns (table: seq<Process>, totalWt: int, totalTat: int, ghost slices: seq<Slice>,
               ghost passes: nat, ghost last: SimState)
    requires forall i :: 0 <= i < |input| ==> input[i].burst >= 0 && input[i].arrival <= INT_MAX
    ensures SimReach(Quantum(quantum), INT_MAX, input, passes) == Some(last)
    ensures SimNext(Quantum(quantum), INT_MAX, last) == None
    ensures last.slices == slices && |last.p| == |table|
    ensures forall j :: 0 <= j < |table| ==> table[j] == if last.p[j].done then last.p[j] else Unfinished(last.p[j])
    ensures |table| == |input|
    ensures forall j :: 0 <= j < |input| ==> Reported(input[j], table[j], slices, j, INT_MAX)
    ensures forall j :: 0 <= j < |input| && !table[j].done ==> input[j].arrival == INT_MAX
  {
    var pushes;
    table, totalWt, totalTat, slices, pushes, passes, last := Simulate(input, quantum, INT_MAX);
  }

  /**
   * rr.c allocates n*10+5 queue slots and never wraps `rear`: with one process of burst 16
   * and quantum 1 it writes 16 times, one past the end of its 15 slots.
   */
  method RrCQueueOverflow() returns (pushes: int, slots: int)
    ensures slots == 1 * 10 + 5
    ensures pushes > slots
  {
    var input := [Process(1, 0, 16, 0, 0, 0, 0, false, false)];
    var table, totalWt, totalTat;
    ghost var slices, passes, last;
    table, totalWt, totalTat, slices, pushes, passes, last := RrC(input, 1);
    assert Reported(input[0], table[0], slices, 0, RR_C_LIMIT);
    ServedBound(slices, 1, 0);
    slots := |input| * 10 + 5;
  }
}
