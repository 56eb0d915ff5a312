# Verified model of the course projects' algorithmic core

This project models, in Dafny, the parts of the repository that compute something. There are three groups.

- **Operating-systems simulators.** These are written in C and Python.
  - CPU schedulers with arrival times: FCFS, non-preemptive SJF, non-preemptive priority, SRTF and Round Robin. They appear in `cpu_scheduling.c` and in the standalone `fcfs.c`, `sjf.c`, `1.c`, `rr.c` and `rr.cpp`.
  - Contiguous memory allocation: first, best and worst fit.
  - FIFO, LRU and Optimal page replacement, each in its C version and its Python version.
- **The algorithms collected in `all.c`.**
  - Binary search and quicksort.
  - Tower of Hanoi and N-queens.
  - BFS and DFS over adjacency lists.
  - Prim, and Kruskal with union-find.
  - Greedy colouring and Floyd–Warshall.
  - Brute-force and nearest-neighbour TSP.
- **The small logic of the web and script applications.**
  - The two to-do lists.
  - The shop cart.
  - The sign-up and login rules and the authentication controller's responses.
  - The video downloader's format selector, time formatting, URL splitting and de-duplication, and its fallback chain.
  - The PDF page selection.
  - The music player's time label, track wrap and volume clamps.
  - The blog pagination bar, the sitemap and the scroll-spy hook.

Each source file keeps its own form.
- Code that updates arrays, queues and fields in place is modelled by methods over `array`s and by classes whose fields they update. Each such method is proved against a functional specification.
- Code that computes values is modelled by functions with named results, together with lemmas about them.
- The two Round Robin runs and the SRTF chart also have a reference definition: a step function over the scheduler state (for SRTF, over the ticks run). Each method ends in the state that the reference reaches when it stops.

C `int` arithmetic is modelled with unbounded integers. Where a value can reach `INT_MAX` as a sentinel, the precondition says so. The fixed-size queues of the two Round Robin programs are sequences. "## Findings" shows the inputs that overflow them.

Modules (one per source file or per `all.c` program):
- `CpuScheduling` and `CpuRoundRobin` model `cpu_scheduling.c`, with `NonPreemptive` and `Sorting` as shared engines.
- `FcfsFile`, `StandaloneNonPreemptive` and `StandaloneRoundRobin` cover the standalone schedulers.
- `FitRules`, `MemoryAllocation` and `MemoryAllocationPy` cover allocation.
- `PageRules`, `PageReplacement` and `PageReplacementPy` cover paging.
- The `all.c` programs:
  - `BinarySearch`, `QuickSort`, `Hanoi` and `NQueens`;
  - `Adjacency`, `Bfs` and `Dfs`;
  - `Prim`, `Kruskal` and `UnionFind`;
  - `GreedyColoring`, `FloydWarshall` and `Tsp`.
- The applications:
  - `TaskList`, `TodoApp` and `TodoEnhanced`;
  - `ShopCart`, `Validation` and `AuthController`;
  - `YtOptions` and `YtUrls`;
  - `PdfPages`, `MusicPlayer`, `Pagination`, `Sitemap` and `ScrollSpy`.
- `Text` (trimming, case, digits) and `Counting` (cardinality facts) are helpers.

## Model

| member | source | states |
|---|---|---|
| Sorting.ExchangeSort | music/os_project/cpu_scheduling.c:75-79 | the in-place exchange sort (compare slot i with every later slot j, swap when i's element is "greater") leaves the array ordered under any strict order and a permutation of its old contents |
| Sorting.SortedCopy | music/os_project/cpu_scheduling.c:95-99 | copying the rows into a fresh array and exchange-sorting it gives an ordered permutation of the rows |
| NonPreemptive.BetterIsStrictWeakOrder | music/os_project/cpu_scheduling.c:119 | the selection rule "smaller key, ties to the earlier arrival" is irreflexive, transitive and has transitive incomparability, for SJF, priority and the standalone programs alike |
| NonPreemptive.Select | music/os_project/cpu_scheduling.c:113-122 | the scan returns -1 exactly when no unfinished process has arrived; otherwise an arrived unfinished process that no other ready process beats, and that beats each ready process scanned before it |
| NonPreemptive.EarliestPending | music/os_project/cpu_scheduling.c:125-128 | the idle jump goes to the smallest arrival among unfinished processes, or stays at INT_MAX when none is left |
| NonPreemptive.NextLaterArrival | music/sjf.c:59-66 | the standalone programs' idle step goes to the earliest later arrival of an unfinished process, or one tick on when none has a representable arrival |
| NonPreemptive.Idle | music/os_project/cpu_scheduling.c:124-129 | when nothing is ready but work remains, the clock moves strictly forward to no later than every pending arrival |
| NonPreemptive.Run | music/os_project/cpu_scheduling.c:111-140 | the dispatch loop produces a schedule in which every process runs exactly once, each dispatch picking the best ready process at the moment the previous one ended (or the next arrival after an idle gap) |
| NonPreemptive.ScheduleUnique | music/os_project/cpu_scheduling.c:111-140 | the dispatch rules determine the schedule: two schedules of the same jobs under the same rule have the same order and start times |
| NonPreemptive.ScheduleIsPermutation | music/os_project/cpu_scheduling.c:138-139 | a complete schedule dispatches every process once and none twice |
| NonPreemptive.NoIdleWhileReady | music/os_project/cpu_scheduling.c:124-131 | the CPU is never left idle while a process that has not yet run is waiting: a dispatch after such an arrival starts the moment the previous one ends |
| CpuScheduling.ByPid | music/os_project/cpu_scheduling.c:95-99 | the result table is the completed rows sorted by ascending pid, a permutation of them |
| CpuScheduling.EffectiveQuantum | music/os_project/cpu_scheduling.c:332 | a quantum that is not positive is replaced by 1; a positive one is kept |
| CpuScheduling.Fcfs | music/os_project/cpu_scheduling.c:70-102 | the processes are sorted by arrival then pid, run back to back in that order with idle gaps up to each arrival, and the table holds every one with its completion, turnaround and waiting, sorted by pid |
| CpuScheduling.RunInOrder | music/os_project/cpu_scheduling.c:81-91 | the FCFS loop updates the array in place: each row gets the end of its own Gantt entry as completion, and the chart is the FCFS chart of the old contents |
| CpuScheduling.FcfsChronological | music/os_project/cpu_scheduling.c:84-90 | in the FCFS chart no process starts before it arrives, each entry ends before the next starts, and waiting is the start minus the arrival, never negative |
| CpuScheduling.NonPreemptive | music/os_project/cpu_scheduling.c:105-185 | sjf and priority_np: the Gantt chart is the unique non-preemptive schedule of the rule, one entry per process running its full burst, and the table holds each row completed at its entry's end, sorted by pid |
| CpuScheduling.Srtf | music/os_project/cpu_scheduling.c:187-244 | the unit-by-unit run is a shortest-remaining-time schedule, every process with a representable arrival is served its whole burst, the chart is exactly the pieces drawn from the run's ticks (a piece closes on a switch, an idle gap or a finish) and covers the busy units in time order, and the table is the rows of that run sorted by pid |
| CpuScheduling.ChartUnit | music/os_project/cpu_scheduling.c:216-235 | one unit of work changes the chart as the reference drawing does: a switch closes the open piece at the clock and opens one for the new process, a finish closes its piece one unit later; the pieces stay in time order and the busy time grows by one |
| CpuScheduling.ChronologicalDisjoint | music/os_project/cpu_scheduling.c:213-234 | the SRTF Gantt pieces are non-empty and do not overlap |
| CpuScheduling.SrtfRunBounds | music/os_project/cpu_scheduling.c:224-226 | no process is run longer than its burst, nor before it arrives |
| CpuScheduling.SrtfFinishedRow | music/os_project/cpu_scheduling.c:227-231 | a process served its whole burst has no time left, completes no later than the clock, and has turnaround at least its burst and non-negative waiting |
| CpuRoundRobin.MinArrival | music/os_project/cpu_scheduling.c:260-262 | the smallest arrival: no larger than any, and either INT_MAX or some process's arrival |
| CpuRoundRobin.NextArrivalAfter | music/os_project/cpu_scheduling.c:269-271 | the earliest arrival after the clock among processes with work left: no later than any, and either INT_MAX or one of them |
| CpuRoundRobin.ReachQueue | music/os_project/cpu_scheduling.c:253 | every state the reference loop reaches keeps the queue invariant, so at most n processes are ever queued at once |
| CpuRoundRobin.EarliestArrival | music/os_project/cpu_scheduling.c:260-262 | the start time is the smallest arrival (the reference MinArrival), INT_MAX for no processes |
| CpuRoundRobin.NextArrival | music/os_project/cpu_scheduling.c:269-271 | with an empty queue the clock jumps to the earliest later arrival of unfinished work, or INT_MAX when there is none (the reference NextArrivalAfter) |
| CpuRoundRobin.Admit | music/os_project/cpu_scheduling.c:265 | the admission scan appends, in index order, every arrived unfinished process not yet queued, and marks it queued |
| CpuRoundRobin.RoundRobin | music/os_project/cpu_scheduling.c:246-301 | the run is the reference loop (FIFO ready queue, head served first, arrivals queued before the preempted head) followed to the state where it stops; its slices are each at most one quantum and after the process's arrival, in time order; every process gets exactly its burst split into full quanta and a last remainder; the chart has one entry per slice; the table holds the rows sorted by pid |
| CpuRoundRobin.InTimeOrderDisjoint | music/os_project/cpu_scheduling.c:279-281 | round-robin slices do not overlap |
| CpuRoundRobin.RrFinishes | music/os_project/cpu_scheduling.c:283-292 | when the completed count reaches the number of processes, each has been served its whole burst |
| CpuRoundRobin.QueueOverflow | music/os_project/cpu_scheduling.c:253 | as written: a process list that needs more queue slots than the fixed `MAXP*10` array holds |
| FcfsFile.CmpArrivalOrder | music/fcfs.c:18-23 | the comparator is negative exactly when the first process arrives earlier, or at the same time with a smaller pid; zero exactly on equal arrival and pid; and antisymmetric |
| FcfsFile.SortsAfterIsStrict | music/fcfs.c:18-23 | "compares greater" is a strict order, so sorting by it is well defined |
| FcfsFile.Simulate | music/fcfs.c:36-50 | the rows are sorted by the comparator (a permutation of the input) and each is timed from the clock the previous row left; the totals are the sums of the waiting and turnaround columns |
| FcfsFile.RunAll | music/fcfs.c:38-50 | the timing loop updates the array in place: every row is timed in order, and the totals are the column sums |
| FcfsFile.TimedRow | music/fcfs.c:41-45 | each row keeps pid, arrival and burst; starts no earlier than its arrival and than the previous completion (the first at max(0, arrival)); completes burst units later; waiting is start minus arrival, never negative; turnaround is waiting plus burst |
| FcfsFile.StartsIncrease | music/fcfs.c:41-46 | starts never decrease down the table, and a row completes before any later row starts |
| FcfsFile.TotalsRelation | music/fcfs.c:48-49 | total turnaround is total waiting plus total burst, and total waiting is not negative |
| StandaloneNonPreemptive.Dispatched | music/sjf.c:69-73 | a dispatched row keeps its input fields, starts at the given time, completes burst units later, is marked done, and has turnaround = waiting + burst |
| StandaloneNonPreemptive.EarliestArrival | music/sjf.c:39-41 | the clock starts at the smallest arrival, or at 0 when every arrival is INT_MAX (or there are no processes) |
| StandaloneNonPreemptive.Simulate | music/sjf.c:43-78 | starting at the earliest arrival, the table is the unique non-preemptive schedule of the file's rule (sjf.c: burst, arrival, pid; 1.c: priority, arrival, burst), every row dispatched at its start time, with the totals being the column sums |
| StandaloneNonPreemptive.ScheduledRow | music/1.c:42-76 | every process is dispatched exactly once, and never before it arrives |
| StandaloneNonPreemptive.LeastKey | music/1.c:45-56 | the dispatched process has a key no larger than that of any process waiting at its start |
| StandaloneNonPreemptive.WaitingNonNegative | music/sjf.c:72 | every row of the final table is done and has non-negative waiting time |
| StandaloneRoundRobin.Quantum | music/rr.c:38 | a quantum below 1 becomes 1 (rr.cpp's `max(1, q)` is the same rule); a positive one is kept |
| StandaloneRoundRobin.ServedBound | music/rr.c:80 | a process is never served more than one quantum per turn, and has at most as many turns as there are turns |
| StandaloneRoundRobin.Admit | music/rr.c:86-90 | the arrival scan queues, in index order, every process that has arrived, is not done and is not yet queued, and marks it queued; `rear` grows by the number queued |
| StandaloneRoundRobin.ServeHead | music/rr.c:79-103 | a turn dequeues the head, runs it for min(remaining, quantum), queues the arrivals of that interval and then the head again unless it finished, and strictly lowers the work left; the new state is the reference loop's next state |
| StandaloneRoundRobin.NextArrival | music/rr.c:63-67 | the idle scan finds the earliest arrival after the clock of an unfinished process below the scan bound, or reports none; its value is the reference NextBelow |
| StandaloneRoundRobin.IdleStep | music/rr.c:61-76 | with an empty queue the simulation stops exactly when no unfinished process arrives later below the bound; otherwise it jumps to that arrival and queues at least one process, as the reference loop's idle step does |
| StandaloneRoundRobin.StartTime | music/rr.c:45-47 | the clock starts at the smallest arrival below the bound, or at 0 if there is none (the reference StartClock) |
| StandaloneRoundRobin.MinBelow | music/rr.c:45-46 | the smallest arrival, capped at the bound: no larger than any arrival, and either the bound or some process's arrival |
| StandaloneRoundRobin.StartClock | music/rr.c:45-47 | the start time is the earliest arrival when some process arrives below the bound, and 0 otherwise |
| StandaloneRoundRobin.NextBelow | music/rr.c:63-67 | the next arrival after the clock among unfinished processes, capped at the bound: no later than any such arrival, and either the bound or one of them |
| StandaloneRoundRobin.AdmitAll | music/rr.c:50-55 | admission marks each arrived process as queued and leaves the others as they were |
| StandaloneRoundRobin.Admission | music/rr.c:50-55 | an admission appends the arrived, unqueued, unfinished processes in index order, counts them into `rear`, and leaves the clock, the completed count and the turns alone |
| StandaloneRoundRobin.SimReachQueue | music/rr.c:41 | every state the reference loop reaches keeps the queue invariant, so at most n processes are ever queued at once |
| StandaloneRoundRobin.Report | music/rr.c:107-113 | a process that never finished is reported with completion = arrival and zero turnaround and waiting; finished rows are unchanged |
| StandaloneRoundRobin.Simulate | music/rr.c:44-113 | the run is the reference loop (FIFO ready queue, head served first, arrivals queued before the preempted head) followed to the state where it stops; each reported row is either done, served exactly its burst with waiting = turnaround - burst >= 0, or never ran and arrives at or past the scan bound; some process finishes when any arrives below the bound; no turn exceeds the quantum; the totals are the column sums; `rear` ends at the number of queue writes |
| StandaloneRoundRobin.RrC | music/rr.c:35-113 | rr.c's run with its scan bound `1e9`: the reference loop to its stopping state, and the reported table |
| StandaloneRoundRobin.RrCpp | music/rr.cpp:24-91 | rr.cpp's run with bound INT_MAX: the reference loop to its stopping state, and only a process arriving at INT_MAX can be left unfinished |
| StandaloneRoundRobin.RrCQueueOverflow | music/rr.c:41 | as written: one process of burst 16 and quantum 1 writes more than the `n*10+5` queue slots that were allocated |
| FitRules.ChosenUnique | music/os_project/memory_allocation.c:10-71 | under each strategy the block a process receives is determined: two choices satisfying the rule are equal |
| FitRules.UnallocatedIff | music/os_project/memory_allocation.c:11-18 | a process is left unallocated exactly when no free block is large enough (for worst fit, and not negative); an allocated block is free and large enough |
| FitRules.FirstFitScan | music/os_project/memory_allocation.c:12-18 | the scan takes the lowest-index free block that fits, or -1 |
| FitRules.BestFitScan | music/os_project/memory_allocation.c:33-41 | the scan takes the free fitting block with the least leftover, the lowest index on ties, or -1 |
| FitRules.WorstFitScan | music/os_project/memory_allocation.c:60-67 | the scan takes the largest free fitting block, the lowest index on ties, never one of negative size, or -1 |
| FitRules.UsedStep | music/os_project/memory_allocation.c:13-16 | placing a process in block r marks block r used and leaves every other flag as it was; a process left unplaced (-1) changes no flag |
| FitRules.AllocationValid | music/os_project/memory_allocation.c:10-19 | every allocation is -1 or a block index, no block is given to two processes, and an allocated block is at least as large as its process |
| FitRules.AllocationUnique | music/memory_allocation.py:20-25 | the allocation is determined by the strategy, blocks and processes |
| FitRules.FragNonNegative | music/os_project/memory_allocation.c:94-95 | the total internal fragmentation of a valid allocation is not negative |
| FitRules.UnallocatedSpec | music/memory_allocation.py:77-78 | the free-block list holds exactly the block indices no process received, in ascending order |
| MemoryAllocation.Allocate | music/os_project/memory_allocation.c:4-74 | `allocate_first_fit`, `allocate_best_fit` and `allocate_worst_fit` fill the allocation array in place with the allocation the strategy's rule defines |
| MemoryAllocation.PrintAllocation | music/os_project/memory_allocation.c:76-118 | the reported total fragmentation is the sum of block size minus process size over allocated processes, and the listed free blocks are those no process received, in index order |
| MemoryAllocationPy.Allocate | music/memory_allocation.py:16-60 | the Python functions return the allocation the strategy's rule defines |
| MemoryAllocationPy.PrintAllocation | music/memory_allocation.py:62-82 | the total fragmentation and the unallocated blocks, as in the C program |
| MemoryAllocationPy.RunExample | music/memory_allocation.py:84-100 | on blocks [100, 500, 200, 300, 600] and processes [212, 417, 112, 426], first fit gives [1, 4, 2, -1], best fit [3, 1, 2, 4] and worst fit [4, 1, 3, -1] |
| MemoryAllocationPy.ExampleAllocations | music/memory_allocation.py:88-100 | those three results are the allocations each rule defines on the example |
| PageRules.Find | music/page_replacement.py:39 | `index`: the first position of the value, or -1 exactly when it is absent |
| PageRules.FirstMin | music/os_project/memory_allocation.c:303-310 | the first position of a least element |
| PageRules.FirstMax | music/os_project/memory_allocation.c:369-385 | the first position of a greatest element |
| PageRules.NextUse | music/os_project/memory_allocation.c:374-380 | the first reference to the page after position i, or the end of the string when there is none |
| PageRules.Init | music/os_project/memory_allocation.c:204-205 | all k frames start empty (-1), with no recorded use |
| PageRules.Step | music/os_project/memory_allocation.c:220-245 | one reference: a fault exactly when the page is not in a frame; a hit changes no frame; a fault writes the page into the first empty frame if there is one, else into the policy's victim frame, and changes no other frame |
| PageRules.FifoVictim | music/os_project/memory_allocation.c:240-244 | FIFO replaces the frame at `next_replace` and advances it cyclically; it moves only on such a replacement |
| PageRules.LruVictim | music/os_project/memory_allocation.c:303-313 | LRU replaces the first frame with the smallest last-use time |
| PageRules.OptimalVictim | music/os_project/memory_allocation.c:369-387 | Optimal replaces the first frame whose page is next used farthest ahead (never used again counts as farthest) |
| PageRules.RunFrames | music/os_project/memory_allocation.c:214-248 | after any prefix of the reference string the frames are distinct and hold only referenced pages or -1 |
| PageRules.FirstReferenceFaults | music/os_project/memory_allocation.c:227-229 | the first reference to a page always faults and adds one to the count |
| PageRules.ReferencedPageLoaded | music/os_project/memory_allocation.c:237-243 | after a reference its page is in memory |
| PageRules.LruRecency | music/os_project/memory_allocation.c:283-312 | under LRU each frame's recorded time is the position of its page's last reference |
| PageRules.LruEvictsLeastRecent | music/os_project/memory_allocation.c:302-313 | with all frames full, LRU's victim is a page whose last reference is no later than that of any other frame |
| PageReplacement.FindFrame | music/os_project/memory_allocation.c:220-225 | the frame scan finds the first frame holding the page, or -1 |
| PageReplacement.FifoStep | music/os_project/memory_allocation.c:215-245 | one reference under FIFO leaves the frames, the load times and the replacement pointer exactly as the FIFO policy's next state, and reports a fault exactly when the policy counts one |
| PageReplacement.SimulateFifo | music/os_project/memory_allocation.c:198-254 | with at least one frame the returned fault count is the FIFO policy's count on the reference string; with fewer the run is flagged undefined exactly when there is a reference to serve |
| PageReplacement.LruScan | music/os_project/memory_allocation.c:303-310 | the first frame with the smallest last-use time |
| PageReplacement.LruStep | music/os_project/memory_allocation.c:275-315 | one reference under LRU leaves the frames and the last-use times exactly as the LRU policy's next state, and reports a fault exactly when the policy counts one |
| PageReplacement.SimulateLru | music/os_project/memory_allocation.c:256-325 | with at least one frame the returned fault count is the LRU policy's count; with fewer the run is flagged undefined exactly when there is a reference to serve |
| PageReplacement.NextUseScan | music/os_project/memory_allocation.c:374-380 | the next position the page is referenced, or INT_MAX when it is never referenced again |
| PageReplacement.OptimalScan | music/os_project/memory_allocation.c:369-385 | the first frame whose next use is farthest |
| PageReplacement.OptimalStep | music/os_project/memory_allocation.c:343-388 | one reference under Optimal leaves the frames exactly as the Optimal policy's next state, and reports a fault exactly when the policy counts one |
| PageReplacement.SimulateOptimal | music/os_project/memory_allocation.c:327-398 | with at least one frame the returned fault count is the Optimal policy's count; with fewer the run is flagged undefined exactly when there is a reference to serve |
| PageReplacementPy.CountFaults | music/page_replacement.py:49 | the fault count is the number of timeline entries marked as faults, at most the number of entries |
| PageReplacementPy.EntryAt | music/page_replacement.py:34-48 | each timeline entry records the page, a copy of all frames, and a replaced index exactly when it faulted |
| PageReplacementPy.LeastRecentPage | music/page_replacement.py:70-76 | the eviction scan picks the first frame page with the smallest `last_used.get(page, -1)` |
| PageReplacementPy.SimulateLru | music/page_replacement.py:52-84 | with at least one frame, one timeline entry per reference following the LRU policy, and the fault count equals the shared LRU count; with none, `frames.index(None)` raises exactly when there is a reference |
| PageReplacementPy.LruEvictIndex | music/page_replacement.py:77-79 | the evicted page's frame is the frame of smallest last-use time, and the page has an entry to delete |
| PageReplacementPy.Lookahead | music/page_replacement.py:102-107 | the lookahead finds the next reference to the page after i, or none |
| PageReplacementPy.FarthestPage | music/page_replacement.py:100-110 | `max` over the frame pages (distinct, in frame order) returns the first page of farthest next use, never-used-again being farthest |
| PageReplacementPy.SimulateOptimal | music/page_replacement.py:86-114 | with at least one frame, one timeline entry per reference following the Optimal policy, and the fault count equals the shared Optimal count; with none, `max` over the empty table raises exactly when there is a reference |
| PageReplacementPy.FifoStep | music/page_replacement.py:34-48 | the deque version: a hit changes nothing; a fault fills the first empty frame and appends it to the queue, or replaces the queue's head and moves it to the back |
| PageReplacementPy.SimulateFifo | music/page_replacement.py:29-50 | with at least one frame the timeline is the deque simulation's and the fault count is the number of faulting entries; with none, `popleft` on the empty queue raises exactly when there is a reference |
| PageReplacementPy.FifoAgrees | music/page_replacement.py:43-47 | for reference strings without -1, the deque simulation and the C program's cyclic `next_replace` make the same choices, the same timeline and the same fault count |
| Adjacency.Graph.constructor | music/DAA/all.c:236-242 | `createGraph(V)`: V vertices, every adjacency list empty |
| Adjacency.Graph.AddEdge | music/DAA/all.c:244-248 | `addEdge` pushes v onto the front of u's list and u onto the front of v's, in place |
| Adjacency.WithEdgeLists | music/DAA/all.c:244-248 | after adding u-v, v heads u's list and u heads v's, the rest of the two lists is unchanged, and no other list changes |
| Adjacency.WithEdgeEntries | music/DAA/all.c:244-248 | a vertex is listed after the edge is added exactly when it was listed before or is the other end of the new edge |
| Adjacency.WithEdgeUndirected | music/DAA/all.c:246-247 | adding an edge keeps the lists symmetric: w is in x's list exactly when x is in w's |
| Adjacency.ClosedHoldsReachable | music/DAA/all.c:262-266 | a vertex set containing s and closed under listed edges contains every vertex reachable from s |
| Bfs.Search | music/DAA/all.c:252-271 | `bfs` from s visits s first, each vertex at most once, at most V vertices, and exactly the vertices reachable from s |
| Bfs.Expand | music/DAA/all.c:262-267 | scanning u's list marks and enqueues each unvisited neighbour; afterwards every neighbour of u is queued, and the earlier queue is untouched |
| Bfs.Exhausted | music/DAA/all.c:259 | when the head meets the tail the queue holds exactly the vertices reachable from s, no more than V |
| Dfs.Visit | music/DAA/all.c:296-300 | `dfsUtil(u)` prints u first, marks exactly the vertices it prints, all reachable from u, and leaves every neighbour of a printed vertex marked |
| Dfs.Search | music/DAA/all.c:302-307 | `dfs` from s prints s first, each vertex once, and exactly the vertices reachable from s |
| Prim.MinKey | music/DAA/all.c:327-332 | the first unfinished vertex with the least key among keys below INT_MAX; -1 exactly when all unfinished keys are INT_MAX |
| Prim.Relax | music/DAA/all.c:343-346 | after u joins the tree, each unfinished v with an edge from u lighter than its key takes that weight as key and u as parent; no other entry changes |
| Prim.Grow | music/DAA/all.c:341-346 | one round keeps the invariant of the arrays: tree vertices marked, each later vertex hanging by a lightest crossing edge, fringe keys equal to the best known edge |
| Prim.Sum | music/DAA/all.c:348-354 | the printed total is the sum of graph[i][parent[i]] for i = 1 .. V-1, or the first vertex with no parent is reported |
| Prim.Mst | music/DAA/all.c:334-355 | on a graph of at most 9 vertices: either the parents span all vertices from 0, each added by a lightest edge leaving the vertices before it, with the printed total; or (the source then reads outside its arrays) no edge leaves the vertices reached from 0 |
| Prim.SpanningParents | music/DAA/all.c:350-352 | in a spanning result every vertex but 0 has a parent joined to it by an edge |
| BinarySearch.Search | music/DAA/all.c:52-61 | on a sorted array, the result is an index holding the key, or -1 exactly when the key is absent |
| BinarySearch.Example | music/DAA/all.c:63-74 | the section's program finds 7 at index 3 |
| QuickSort.Partition | music/DAA/all.c:83-94 | Lomuto partition around arr[h]: the pivot lands at p in [l, h], everything left of it is at most the pivot, everything right of it greater, and the slice is a permutation of the old one with the rest of the array untouched |
| QuickSort.Sort | music/DAA/all.c:96-102 | `quicksort(arr, l, h)` sorts the slice in place as a permutation of the old slice, leaving the rest of the array untouched |
| QuickSort.SortedUnique | music/DAA/all.c:104-115 | there is only one sorted arrangement of a multiset, so the sorted output of the example, like any, is determined by its input |
| Hanoi.Moves | music/DAA/all.c:122-130 | `hanoi(n, ...)` prints 2^n - 1 moves, each of a disk from 1 to n, and the largest disk moves exactly once, from `from` to `to`, in the middle |
| Hanoi.ThreeDisks | music/DAA/all.c:132-147 | the three-disk run prints exactly the recorded seven moves |
| Hanoi.MovesLegal | music/DAA/all.c:122-130 | played on pegs, the moves never put a disk on a smaller one and carry the n-disk tower from `from` to `to`, leaving the other pegs as they were |
| Hanoi.WholeTower | music/DAA/all.c:133-135 | all n disks move from A to C legally, leaving A and B empty |
| NQueens.FlagsTest | music/DAA/all.c:176 | the three flag tests pass exactly when the queen placed at (row, c) attacks no queen in the rows above |
| NQueens.Solutions | music/DAA/all.c:170-183 | the boards the search prints from row 0 are exactly the N-queens solutions, each once |
| NQueens.CompletionsSound | music/DAA/all.c:171-173 | every printed board extends the rows placed so far and is a full non-attacking placement |
| NQueens.CompletionsComplete | music/DAA/all.c:175-182 | every full non-attacking placement extending the rows so far is printed |
| NQueens.Board.constructor | music/DAA/all.c:186-190 | `calloc`: all flags and board entries zero, no solutions yet |
| NQueens.Board.SolveRow | music/DAA/all.c:170-183 | `solve_row(r)` prints, in order, every completion of the placed rows, counts them, and leaves the flags and placed rows as it found them (backtracking) |
| NQueens.Board.TryColumn | music/DAA/all.c:176-180 | placing a free column, recursing and unplacing prints the completions that start with that column and restores the flags |
| NQueens.Board.PrintBoard | music/DAA/all.c:159-168 | `print_board` counts one more solution and records the current board |
| NQueens.Solve | music/DAA/all.c:191-192 | `main` prints all solutions and the "No solutions" line exactly when the count stays 0 |
| Kruskal.CmpEdge | music/DAA/all.c:386-388 | the comparison is negative, zero or positive exactly as the first edge is lighter, as heavy or heavier than the second |
| Kruskal.HeavierIsStrict | music/DAA/all.c:386-388 | `cmpEdge`'s order, lighter weight first, is a strict weak order, so the sorted edge list is well defined up to ties |
| Kruskal.SortedWeights | music/DAA/all.c:403 | after the sort, an edge never weighs more than any edge after it |
| Kruskal.ConnectedSymmetric | music/DAA/all.c:408-416 | connection through the chosen edges is symmetric |
| Kruskal.ConnectedTrans | music/DAA/all.c:408-416 | connection through the chosen edges is transitive |
| Kruskal.Apart | music/DAA/all.c:410-412 | while every chosen edge joins one disjoint-set class, two vertices with different roots are not connected by the chosen edges |
| Kruskal.GrowAcyclic | music/DAA/all.c:412-415 | adding an edge whose ends are not yet connected keeps the chosen edges free of cycles |
| Kruskal.EveryEdgeSpanned | music/DAA/all.c:408-416 | every edge examined so far, taken or rejected, has its two ends connected by the chosen edges |
| Kruskal.Locate | music/DAA/all.c:410-411 | the two `find` calls return the roots of the next edge's ends and keep every loop invariant |
| Kruskal.Take | music/DAA/all.c:412-415 | taking an edge between two classes stores it, merges the classes, and keeps the invariants one edge further on |
| Kruskal.Examine | music/DAA/all.c:409-415 | one loop step examines one more edge and grows the result by at most one edge |
| Kruskal.Init | music/DAA/all.c:404-407 | every vertex starts as its own root of rank 0, with room for V-1 result edges |
| Kruskal.Loop | music/DAA/all.c:408-416 | the loop stops when V-1 edges are taken or every edge was examined, and the invariants hold at its end |
| Kruskal.Scan | music/DAA/all.c:404-416 | the result has at most V-1 edges, is acyclic, consists of exactly the examined edges that joined two classes, in sorted order, and stops only with V-1 edges or all edges examined |
| Kruskal.Mst | music/DAA/all.c:402-422 | `kruskalMST` sorts the edges in place by weight (a permutation), returns an acyclic edge set that connects the ends of every examined edge, and a total equal to the sum of the chosen weights |
| UnionFind.Root | music/DAA/all.c:390-393 | the root of a vertex in a rank-ordered forest is a self-parented vertex whose rank is at least the vertex's, strictly more when the vertex is not a root |
| UnionFind.Compress | music/DAA/all.c:392 | path compression, pointing a vertex at its root, keeps the forest ordered by rank and changes no vertex's root |
| UnionFind.Find | music/DAA/all.c:390-393 | `find` returns the root of i, leaves i pointing straight at it, keeps the forest, and changes no vertex's root |
| UnionFind.UnionSets | music/DAA/all.c:395-400 | after union by rank, a and b share a root exactly when they did before or one was in x's class and the other in y's |
| UnionFind.Union | music/DAA/all.c:395-400 | `uni` keeps the forest rank-ordered, raises each rank by at most one, and merges exactly the classes of x and y |
| GreedyColoring.Mark | music/DAA/all.c:455-456 | after marking, a colour is flagged exactly when some earlier-coloured neighbour of u wears it |
| GreedyColoring.FirstFree | music/DAA/all.c:458 | the scan returns the least colour not flagged, or V when every colour is flagged |
| GreedyColoring.Unmark | music/DAA/all.c:460-461 | clearing the neighbours' colours leaves every flag at zero again |
| GreedyColoring.FreeColour | music/DAA/all.c:458 | some colour no greater than u's number of earlier neighbours is unused among them, so the first-free scan never runs past V |
| GreedyColoring.DegreeBound | music/DAA/all.c:454-462 | a vertex has at most as many earlier neighbours as there are earlier vertices |
| GreedyColoring.ColourVertex | music/DAA/all.c:454-462 | one step gives vertex u the least colour unused by its earlier neighbours and clears the flags again |
| GreedyColoring.Start | music/DAA/all.c:448-452 | vertex 0 gets colour 0, every other vertex is uncoloured (-1), and no colour is flagged |
| GreedyColoring.Colour | music/DAA/all.c:447-465 | `greedyColoring` gives every vertex, in order, the least colour not worn by an earlier neighbour, and that colour is at most the vertex's number of earlier neighbours |
| GreedyColoring.GreedyUnique | music/DAA/all.c:447-465 | the greedy rule leaves no choice: two greedy colourings of one graph agree everywhere |
| GreedyColoring.Proper | music/DAA/all.c:454-462 | in an undirected graph, the greedy colouring gives adjacent vertices different colours |
| FloydWarshall.DistBounds | music/DAA/all.c:502-506 | the distance through the first k pivots is never negative and never more than the direct entry |
| FloydWarshall.NoOverflow | music/DAA/all.c:505 | with entries at most INF the sum `dist[i][k] + dist[k][j]` stays below INT_MAX, so the C addition does not overflow |
| FloydWarshall.Achieved | music/DAA/all.c:502-506 | each computed distance is the weight of some walk from i to j through pivots below k |
| FloydWarshall.Lightest | music/DAA/all.c:502-506 | no walk from i to j through pivots below k weighs less than the computed distance |
| FloydWarshall.Shortest | music/DAA/all.c:494-516 | the final distance is the weight of a walk from i to j and no walk between them weighs less |
| FloydWarshall.Triangle | music/DAA/all.c:502-506 | the final distances satisfy the triangle inequality |
| FloydWarshall.RelaxOne | music/DAA/all.c:504-505 | one relaxation of entry (i, j) keeps the array at round k for the entries already visited and at round k-1 for the rest |
| FloydWarshall.Pass | music/DAA/all.c:503-505 | a full pass over i and j with pivot k moves every entry from round k to round k+1 |
| FloydWarshall.Relax | music/DAA/all.c:502-506 | after the triple loop, every entry of the matrix is the all-pivot shortest distance |
| FloydWarshall.AllPairs | music/DAA/all.c:494-516 | the program copies the graph, relaxes it to the shortest distances, and prints each one, INF as `INF` |
| Tsp.BackOutcome | music/DAA/all.c:575-591 | the recursion from a partial path returns a best cost no larger than the incumbent's or than any tour that extends the path |
| Tsp.BruteForceOptimal | music/DAA/all.c:593-601 | the brute-force cost is at most INT_MAX and at most the cost of every tour, and below INT_MAX it is the cost of the tour it reports |
| Tsp.Incumbent.constructor | music/DAA/all.c:572-573 | the globals start with `best_cost` at INT_MAX and `best_path` all zeros |
| Tsp.Backtrack | music/DAA/all.c:575-591 | `tsp_backtrack` restores the visited flags and the path prefix and leaves the globals as the recursive definition says |
| Tsp.Try | music/DAA/all.c:585-589 | one candidate vertex is tried only when unvisited, extending the cost by the edge from the path's last vertex |
| Tsp.BruteForce | music/DAA/all.c:593-601 | for at most the 20 cities `best_path` holds, `tsp_bruteforce` starts at vertex 0 with cost 0 and reports the globals it leaves |
| Tsp.Closest | music/DAA/all.c:608-609 | the inner scan picks the first unvisited vertex at least distance from the current one |
| Tsp.Nearest | music/DAA/all.c:603-617 | `tsp_nearest` builds the nearest-neighbour tour back to 0, and its cost is the cost of that cycle |
| Tsp.NearestIsTour | music/DAA/all.c:607-613 | the nearest-neighbour tour visits every vertex once, starting from 0 |
| Tsp.NearestUnique | music/DAA/all.c:607-611 | the nearest-neighbour rule with its first-at-least tie-break leaves no choice |
| Tsp.BruteForceBeatsNearest | music/DAA/all.c:593-617 | the brute-force cost is never above the nearest-neighbour cost |
| TaskList.Select | mini_proj/todo/app.js:163-172 | a status filter keeps exactly the tasks of that status, never more tasks than the list has |
| TaskList.Without | mini_proj/todo/app.js:142 | deleting by id keeps exactly the tasks with another id |
| TaskList.SelectAppend | basic/To-do_enhanced/src/App.jsx:80-85 | filtering by status keeps the list order: it distributes over concatenation |
| TaskList.WithoutAppend | basic/To-do_enhanced/src/App.jsx:77 | deleting by id keeps the list order: it distributes over concatenation |
| TaskList.WithoutAbsent | mini_proj/todo/app.js:142 | deleting an id no task has leaves the list as it was |
| TaskList.Partition | mini_proj/todo/app.js:255-258 | the open and the completed tasks together are the whole list, counted with repeats |
| TaskList.WithoutIncreasing | mini_proj/todo/app.js:142 | deleting keeps the ids increasing along the list |
| TaskList.Find | mini_proj/todo/app.js:133 | `tasks.find` stops at the first task with the id, or past the end when there is none |
| TaskList.FlipAll | basic/To-do_enhanced/src/App.jsx:73 | the `map` toggle changes the status of exactly the tasks with the id and nothing else about any task |
| TaskList.FlipFirst | mini_proj/todo/app.js:132-139 | the `find` toggle keeps the length and every id, changes only the first task with the id, and only its status |
| TaskList.FlipFirstTwice | mini_proj/todo/app.js:132-139 | toggling the same id twice gives back the list |
| TaskList.FindSameIds | mini_proj/todo/app.js:133 | lists with the same ids in the same places find an id at the same position |
| TaskList.FlipAllTwice | basic/To-do_enhanced/src/App.jsx:73 | toggling the same id twice with `map` gives back the list |
| TaskList.FlipFirstIsFlipAll | mini_proj/todo/app.js:132-139 | when ids are unique, as increasing ids are, the two ways of toggling agree |
| TodoApp.CountText | mini_proj/todo/app.js:261-270 | the count line starts with the number and ends in 's' exactly when the number is not 1 |
| TodoApp.Todo.constructor | mini_proj/todo/app.js:2-5 | the page starts with no tasks, the filter 'all' and the counter at 1 |
| TodoApp.Todo.InitializeSampleData | mini_proj/todo/app.js:62-80 | the two sample tasks take the next two counter values, then the counter is set to 3, which keeps ids below the counter when it started at 1 |
| TodoApp.Todo.AddTask | mini_proj/todo/app.js:103-130 | blank input changes nothing; otherwise the trimmed text is appended as an open task with the counter as id, the counter moves on, and ids stay increasing and below the counter |
| TodoApp.Todo.ToggleTask | mini_proj/todo/app.js:132-139 | the first task with the id, the only one since ids are unique, changes status, and nothing else changes |
| TodoApp.Todo.DeleteTask | mini_proj/todo/app.js:141-145 | every task with the id is removed, the others stay in order, and the id invariant is kept |
| TodoApp.Todo.SetFilter | mini_proj/todo/app.js:148-161 | the filter becomes the one clicked and the tasks and counter are unchanged |
| TodoApp.Todo.FilteredTasks | mini_proj/todo/app.js:163-172 | 'active' shows exactly the open tasks, 'completed' the done ones, any other filter every task |
| TodoApp.Todo.TaskCountText | mini_proj/todo/app.js:255-273 | the count line counts exactly the tasks the current filter shows, named by that filter |
| TodoApp.AddedText | mini_proj/todo/app.js:104-105 | an added task's text is never blank and has no white space at either end |
| TodoEnhanced.Load | basic/To-do_enhanced/src/App.jsx:38-47 | the stored list is used only when it parses to an array; null, a non-array or a parse error give the empty list |
| TodoEnhanced.AddTask | basic/To-do_enhanced/src/App.jsx:59-70 | blank input leaves the list alone; otherwise one open task with the trimmed text and the time as id is appended after the old list |
| TodoEnhanced.ToggleTask | basic/To-do_enhanced/src/App.jsx:72-74 | exactly the tasks with the id change status; length, ids, texts and due dates stay |
| TodoEnhanced.DeleteTask | basic/To-do_enhanced/src/App.jsx:76-78 | exactly the tasks with another id remain; an id no task has removes nothing |
| TodoEnhanced.FilteredTasks | basic/To-do_enhanced/src/App.jsx:80-85 | Active shows exactly the open tasks, Completed exactly the done ones, All and any other filter the whole list |
| TodoEnhanced.CompletedCount | basic/To-do_enhanced/src/App.jsx:87 | the done count is at most the length, zero exactly when no task is done and the length exactly when all are |
| TodoEnhanced.ActiveCount | basic/To-do_enhanced/src/App.jsx:87-88 | the list length minus the completed count is the number of open tasks |
| TodoEnhanced.AddThenDelete | basic/To-do_enhanced/src/App.jsx:59-78 | adding a task under an unused id and then deleting that id gives back the list |
| TodoEnhanced.ToggleTwice | basic/To-do_enhanced/src/App.jsx:72-74 | toggling keeps the length, and toggling one id twice gives back the list |
| TodoEnhanced.FilterPartition | basic/To-do_enhanced/src/App.jsx:80-85 | the Active and Completed views split the All view between them |
| ShopCart.FindProduct | mini_proj/auth_system/frontend/js/dashboard.js:111 | `products.find` returns a catalogue product with the id, or nothing when no product has it |
| ShopCart.FindItem | mini_proj/auth_system/frontend/js/dashboard.js:114 | `cart.find` stops at the first line with the id, or past the end when there is none |
| ShopCart.RemoveItem | mini_proj/auth_system/frontend/js/dashboard.js:133 | the `filter` keeps exactly the lines with another id |
| ShopCart.TotalSet | mini_proj/auth_system/frontend/js/dashboard.js:100 | setting one line's quantity moves the badge total by the difference |
| ShopCart.TotalAppend | mini_proj/auth_system/frontend/js/dashboard.js:100 | appending a line adds its quantity to the badge total |
| ShopCart.TotalRemove | mini_proj/auth_system/frontend/js/dashboard.js:100 | removing an id takes every unit held under it off the badge total |
| ShopCart.HeldUnique | mini_proj/auth_system/frontend/js/dashboard.js:114-116 | with unique ids, the units held under an id are the quantity of its one line |
| ShopCart.WellformedSet | mini_proj/auth_system/frontend/js/dashboard.js:147 | setting a positive quantity keeps ids unique and quantities at least 1 |
| ShopCart.WellformedAppend | mini_proj/auth_system/frontend/js/dashboard.js:118-124 | appending a line for an id not yet in the cart, with quantity 1, keeps the cart well formed |
| ShopCart.RemoveAbsent | mini_proj/auth_system/frontend/js/dashboard.js:133 | removing an id the cart does not hold changes nothing and takes nothing off the total |
| ShopCart.Total | mini_proj/auth_system/frontend/js/dashboard.js:100 | the item count is 0 for the empty cart, never negative when no quantity is, and at least the number of lines when every line holds a unit |
| ShopCart.Badge | mini_proj/auth_system/frontend/js/dashboard.js:99-108 | the badge shows the total when it is positive and is hidden otherwise; in a well-formed cart it is hidden exactly when the cart is empty |
| ShopCart.RemoveWellformed | mini_proj/auth_system/frontend/js/dashboard.js:133 | removing an id keeps the cart well formed |
| ShopCart.Cart.constructor | mini_proj/auth_system/frontend/js/dashboard.js:97 | the cart starts as the stored one, over the shop's catalogue |
| ShopCart.Cart.AddToCart | mini_proj/auth_system/frontend/js/dashboard.js:110-130 | an unknown product changes nothing; a product already in the cart gets one more unit in its line; otherwise a line with quantity 1 is appended; the total grows by one exactly for a known product, and a well-formed cart stays well formed |
| ShopCart.Cart.RemoveFromCart | mini_proj/auth_system/frontend/js/dashboard.js:132-137 | every line with the id goes, the others stay in order, and the total drops by what the id held |
| ShopCart.Cart.UpdateCartQuantity | mini_proj/auth_system/frontend/js/dashboard.js:139-152 | a quantity of 0 or less removes the id; a positive one replaces its line's quantity; an id not in the cart changes nothing; the total moves accordingly |
| ShopCart.ByCategory | mini_proj/auth_system/frontend/js/dashboard.js:309 | 'all' shows the whole catalogue; any other category exactly its products |
| ShopCart.SameCategory | mini_proj/auth_system/frontend/js/dashboard.js:309 | the category filter keeps exactly the products of that category |
| ShopCart.Search | mini_proj/auth_system/frontend/js/dashboard.js:316-322 | the search keeps exactly the products whose lower-cased name or category contains the lower-cased query |
| ShopCart.SearchEmpty | mini_proj/auth_system/frontend/js/dashboard.js:316-322 | the empty query shows every product |
| Validation.Length | mini_proj/auth_system/backend/middleware/validation.js:6 | the length `isLength` measures never exceeds the number of code points |
| Validation.FirstLine | mini_proj/auth_system/backend/middleware/validation.js:19 | the look-ahead `.*` scans the longest prefix without a line terminator |
| Validation.UsernameMatches | mini_proj/auth_system/backend/middleware/validation.js:8 | the username pattern matches exactly a non-empty text of letters, digits and underscores |
| Validation.Ahead | mini_proj/auth_system/backend/middleware/validation.js:19 | a look-ahead `.*` followed by a character class at the start holds exactly when the first line has such a character |
| Validation.PasswordMatches | mini_proj/auth_system/backend/middleware/validation.js:19 | the password pattern holds exactly when the first line has a lowercase letter, a capital and a digit |
| Validation.RegisterErrors | mini_proj/auth_system/backend/middleware/validation.js:4-21 | each of the five registration rules adds its message exactly when it fails |
| Validation.LoginErrors | mini_proj/auth_system/backend/middleware/validation.js:23-32 | the e-mail rule and the non-empty password rule each add their message exactly when they fail |
| Validation.RegisterAccepts | mini_proj/auth_system/backend/middleware/validation.js:4-21 | a registration passes exactly when the username has 3 to 30 word characters, the e-mail is valid, and the password has at least 6 characters with a lowercase letter, a capital and a digit on its first line |
| Validation.LoginAccepts | mini_proj/auth_system/backend/middleware/validation.js:23-32 | a login body passes exactly when the e-mail is valid and the password is not empty |
| Validation.StrongPasswordLong | mini_proj/auth_system/backend/middleware/validation.js:16-32 | a password that passes registration is at least 6 characters long and also passes the login rules |
| Validation.UsernameLengthExact | mini_proj/auth_system/backend/middleware/validation.js:5-9 | for a username of word characters, the measured length is its plain length |
| AuthController.Capitalize | mini_proj/auth_system/backend/controllers/authControllers.js:53 | the field name keeps its length and its tail, with its first letter in upper case |
| AuthController.FindUser | mini_proj/auth_system/backend/controllers/authControllers.js:79 | the lookup by e-mail (and, with the other key, by id at line 123) returns a stored user matching the key, or nothing when no stored user matches |
| AuthController.UserStore.constructor | mini_proj/auth_system/backend/controllers/authControllers.js:28-29 | the store starts with the given users |
| AuthController.UserStore.Register | mini_proj/auth_system/backend/controllers/authControllers.js:14-62 | validation errors give 400 with the errors and store nothing; a save adds the user with the hashed password and answers 201 with the public user and a token; a duplicate key answers 400 naming the capitalised field; any other failure answers 500 |
| AuthController.Login | mini_proj/auth_system/backend/controllers/authControllers.js:65-118 | validation errors give 400; with none, a lookup fault gives 500, and an unknown e-mail or a password that does not verify gives the one "Invalid credentials" 401; the answer is 200 exactly when there is no fault, a user has the e-mail and the password verifies, and then the whole response is `"Login successful"` with that public user and the token `sign(user.id)` |
| AuthController.GetProfile | mini_proj/auth_system/backend/controllers/authControllers.js:121-142 | a fault gives 500; an unknown id gives 404 "User not found"; a known id gives 200 with the user without its password |
| AuthController.SameRejection | mini_proj/auth_system/backend/controllers/authControllers.js:80-94 | an unknown e-mail and a wrong password get the same response, so a login attempt does not reveal which e-mail addresses are registered |
| AuthController.RegisterThenLogin | mini_proj/auth_system/backend/controllers/authControllers.js:14-110 | a user registered under a new e-mail logs in with the same password and gets their own public record and token |
| AuthController.FindAppend | mini_proj/auth_system/backend/controllers/authControllers.js:79 | after adding a user under a new e-mail, the lookup finds that user |
| YtOptions.FormatSelector | mini_proj/yt_v_downloader_cli.py:426-441 | a missing or empty choice gives "best"; a known key, after stripping and lower-casing, gives its format string; anything else gives "best" |
| YtOptions.KeyIdempotent | mini_proj/yt_v_downloader_cli.py:429 | normalising a choice twice is normalising it once |
| YtOptions.SelectorNormalises | mini_proj/yt_v_downloader_cli.py:426-441 | white space around the choice and the case of its letters do not change the format chosen |
| YtOptions.Two | mini_proj/yt_v_downloader_cli.py:470 | a minute or second field below 100 is written as exactly two digits with its value |
| YtOptions.Fields | mini_proj/yt_v_downloader_cli.py:470 | the hours, minutes and seconds of `H:MM:SS` can be read off from the end of the text |
| YtOptions.Clock | mini_proj/yt_v_downloader_cli.py:470 | the `H:MM:SS` clock of a time below one day: the hours in plain decimal, then a colon, the minutes below 60 as two digits, a colon and the seconds below 60 as two digits; it reads back as the seconds it shows |
| YtOptions.TimeDelta | mini_proj/yt_v_downloader_cli.py:470 | below one day `str(timedelta(...))` is the bare clock of the count; from one day on it is the day count, " day, " or " days, " by number, then the clock of the remaining seconds |
| YtOptions.HumanTime | mini_proj/yt_v_downloader_cli.py:461-470 | "N/A" exactly for a missing value, one that does not convert, or a negative count; otherwise the `timedelta` text, which below one day reads back as the count |
| YtOptions.Is403 | mini_proj/yt_v_downloader_cli.py:625 | the fallback test holds exactly when the error message contains "403"; its "HTTP Error 403" half adds nothing |
| YtOptions.FallbackOptions | mini_proj/yt_v_downloader_cli.py:630-638 | the fallback options use format "best" and at least 6 retries, never fewer than before, and keep the geo bypass |
| YtOptions.BaseOptions | mini_proj/yt_v_downloader_cli.py:503-533 | the base options carry the selected format, 5 retries, ffmpeg for HLS, unplayable formats allowed and the geo bypass; falling back from them gives format "best" and exactly 6 retries |
| YtOptions.Attempts | mini_proj/yt_v_downloader_cli.py:611-680 | the primary attempt always runs; the fallback only after a failed primary whose error mentions 403; the diagnostic only when neither succeeded; the download succeeds exactly when one attempt that ran succeeded |
| YtUrls.ConcatAppend | mini_proj/yt_v_downloader_cli.py:763 | joining the tokens back together distributes over concatenation |
| YtUrls.Words | mini_proj/yt_v_downloader_cli.py:763 | `split()` gives non-empty runs without white space that together hold every non-space character, in order (where the runs end is pinned by `YtUrls.WordsSplit` and `YtUrls.WordsRun`) |
| YtUrls.SplitComma | mini_proj/yt_v_downloader_cli.py:763 | `split(",")` gives pieces none of which holds a comma, one more than the commas of the text, and joined back with commas they give the text again |
| YtUrls.WordsOfAllProps | mini_proj/yt_v_downloader_cli.py:763 | splitting every piece on white space gives non-empty tokens that together hold exactly the non-space characters of the pieces |
| YtUrls.KeepTwice | mini_proj/yt_v_downloader_cli.py:763 | dropping the commas and then the white space drops both at once |
| YtUrls.PartsHaveNoComma | mini_proj/yt_v_downloader_cli.py:763 | tokens split from comma-free pieces are comma free |
| YtUrls.WordsFrom | mini_proj/yt_v_downloader_cli.py:763 | every token of the comma-free pieces is itself comma free |
| YtUrls.WordsSub | mini_proj/yt_v_downloader_cli.py:763 | every character of a word occurs in the text it was split from |
| YtUrls.InteractiveUrls | mini_proj/yt_v_downloader_cli.py:759-764 | a blank pasted line gives no URLs (the program exits); otherwise its comma- and space-separated tokens |
| YtUrls.SplitUrls | mini_proj/yt_v_downloader_cli.py:763 | every pasted token is non-empty, has no comma or white space, and together the tokens hold exactly the line's other characters, in order (where tokens end is pinned by `YtUrls.UrlsSplit` and `YtUrls.UrlsRun`) |
| YtUrls.WordsSplit | mini_proj/yt_v_downloader_cli.py:763 | any white-space character splits the words: the words of the text around it are the words before it followed by the words after it |
| YtUrls.WordsRun | mini_proj/yt_v_downloader_cli.py:763 | a non-empty run without white space is a single word |
| YtUrls.WordsJoined | mini_proj/yt_v_downloader_cli.py:763 | words joined by any white-space character split back into exactly those words |
| YtUrls.SplitCommaJoined | mini_proj/yt_v_downloader_cli.py:763 | comma-free pieces joined with commas split back into exactly those pieces, so the split is the only comma-free list that joins back to the text |
| YtUrls.CommaSplit | mini_proj/yt_v_downloader_cli.py:763 | a comma splits the pieces: those of the text before it, then those of the text after it |
| YtUrls.CommaGlue | mini_proj/yt_v_downloader_cli.py:763 | any other character joins the last piece before it and the first piece after it into one piece |
| YtUrls.UrlsSplit | mini_proj/yt_v_downloader_cli.py:763 | any comma or white-space character splits the URLs: those of the text before it, then those of the text after it |
| YtUrls.UrlsRun | mini_proj/yt_v_downloader_cli.py:763 | a non-empty run of characters that are neither commas nor white space is a single URL |
| YtUrls.UrlsJoined | mini_proj/yt_v_downloader_cli.py:763 | URLs joined by a comma or by a white-space character are read back as exactly those URLs |
| YtUrls.FirstOccurrences | mini_proj/yt_v_downloader_cli.py:769-774 | the de-duplicated list holds exactly the URLs of the input, each once |
| YtUrls.IndexOf | mini_proj/yt_v_downloader_cli.py:772 | the index found is the first occurrence of the URL |
| YtUrls.IndexOfAppend | mini_proj/yt_v_downloader_cli.py:773 | appending a URL does not move the first occurrence of any URL already present |
| YtUrls.IndexOfLast | mini_proj/yt_v_downloader_cli.py:773 | a URL appended for the first time first occurs at the end |
| YtUrls.FirstOccurrencesOrder | mini_proj/yt_v_downloader_cli.py:769-774 | the kept URLs appear in the order of their first occurrences in the input |
| YtUrls.Dedupe | mini_proj/yt_v_downloader_cli.py:770-774 | the loop with its `seen` set keeps the first occurrence of each URL, in input order |
| YtUrls.Cleaned | mini_proj/yt_v_downloader_cli.py:689-692 | the entries the loop downloads are non-empty, already stripped, and no more than the input entries |
| YtUrls.CleanedComplete | mini_proj/yt_v_downloader_cli.py:689-692 | every non-blank entry is downloaded in its stripped form, and nothing else is |
| YtUrls.CleanedStep | mini_proj/yt_v_downloader_cli.py:689-692 | one more entry adds its stripped form when non-blank and nothing when blank |
| YtUrls.Results | mini_proj/yt_v_downloader_cli.py:694-695 | one result per tried URL, in order, carrying that URL's outcome |
| YtUrls.ResultsAppend | mini_proj/yt_v_downloader_cli.py:694-695 | one more tried URL adds exactly its result at the end |
| YtUrls.Download | mini_proj/yt_v_downloader_cli.py:682-696 | sequential `download` skips blank entries, strips the others, tries them in order, and returns one result each |
| MusicPlayer.Pad2 | music/js/script.js:12 | `padStart(2, '0')` gives at least two digits whose value is the number |
| MusicPlayer.Pad2IsPadStart | music/js/script.js:12 | the padded field is `padStart(2, '0')` of the decimal rendering, exactly two digits below 100 |
| MusicPlayer.Split | music/js/script.js:10-11 | minutes and the floored remainder split the whole seconds, with the remainder below 60 |
| MusicPlayer.JsFields | music/js/script.js:10-11 | the label's two fields, whole minutes and the seconds left over, are exactly `Math.floor(s / 60)` and `Math.floor(s % 60)` of a non-negative time |
| MusicPlayer.LabelFields | music/js/script.js:12 | a label made of a minute count and a rest below 60 reads back as their total in seconds |
| MusicPlayer.ZeroLabel | music/js/script.js:9 | the label shown for NaN and negative times reads back as zero |
| MusicPlayer.TimeLabel | music/js/script.js:8-13 | NaN and negative times show `00:00`; any other time shows the source's `padStart` formula on `Math.floor(s / 60)` and `Math.floor(s % 60)`; the seconds field is two digits below 60, and the label reads back as the whole seconds (zero for NaN and negative times) |
| MusicPlayer.Label | music/js/script.js:10-12 | whole seconds as minutes padded to two digits, a colon and the seconds below 60 as two digits; the label reads back as those seconds |
| MusicPlayer.JsRem | music/js/script.js:262 | JavaScript's `%` keeps the dividend's sign and stays below the divisor in size |
| MusicPlayer.IndexOf | music/js/script.js:261 | `songs.indexOf` returns the first position of the song, or -1 when it is absent |
| MusicPlayer.Next | music/js/script.js:266-270 | next wraps from the last song to the first and otherwise moves one on; with no songs it has no index |
| MusicPlayer.Previous | music/js/script.js:259-264 | previous wraps from the first song to the last and otherwise moves one back; with no songs it has no index |
| MusicPlayer.IndexOfDistinct | music/js/script.js:261 | in a list without repeats, each song's first position is its position |
| MusicPlayer.PreviousAfterNext | music/js/script.js:259-270 | in a list without repeats, previous undoes next |
| MusicPlayer.NextAfterPrevious | music/js/script.js:259-270 | in a list without repeats, next undoes previous |
| MusicPlayer.UnknownSong | music/js/script.js:259-270 | a song that is not in the list sends next to the first song and previous to the second-to-last |
| MusicPlayer.LoadVolume | music/js/script.js:49-54 | an unreadable value gives null; any other value is clamped into [0, 1] and left alone inside it |
| MusicPlayer.ApplyVolume | music/js/script.js:279-284 | the slider value over 100, clamped into [0, 1], so 0 to 100 maps onto 0 to 1 |
| MusicPlayer.SavedVolumeLoads | music/js/script.js:47-54 | a volume that was saved loads back unchanged |
| MusicPlayer.Mute | music/js/script.js:293-305 | an audible player goes silent with the slider at 0; a silent one goes to 0.1 with the slider at 10, which is the volume that slider position gives |
| PdfPages.Ascending | mini_proj/01.py:27 | `sorted` of the set lists each chosen index once, ascending |
| PdfPages.Span | mini_proj/01.py:17 | `range(a, b)` holds exactly the numbers from a up to b |
| PdfPages.OutOfRange | mini_proj/01.py:20-24 | each page warned about is a requested page outside the document, and every requested page outside it is warned about |
| PdfPages.RangeMessage | mini_proj/01.py:16 | the ValueError text is the fixed wording around the page count, written in decimal |
| PdfPages.AddSingles | mini_proj/01.py:19-24 | after the loop the set holds the indices it started with plus the index of every requested page inside the document, and the warnings are exactly the requested pages outside it, in order |
| PdfPages.SelectPages | mini_proj/01.py:4-28 | a bad range raises the ValueError with the page count before anything else; otherwise the indices are those of the range and of the pages inside the document, each once, ascending and inside the document, and the pages outside it are the ones skipped |
| Pagination.PageLink | portfolio/src/components/Pagination.tsx:16-21 | page 1 links to the base path itself; every other page to the base path, `/page/` and the page number |
| Pagination.IntToStringInjective | portfolio/src/components/Pagination.tsx:20 | different page numbers are written differently |
| Pagination.PageLinkInjective | portfolio/src/components/Pagination.tsx:16-21 | different pages link to different places |
| Pagination.Pages | portfolio/src/components/Pagination.tsx:23 | the numbered pages are 1 to the page count, none when the count is not positive |
| Pagination.Render | portfolio/src/components/Pagination.tsx:25-62 | the previous link shows exactly above page 1 and the next link exactly below the last page, each to its neighbour; there is one link per page, marked current exactly on the current page |
| Pagination.OneCurrent | portfolio/src/components/Pagination.tsx:42-46 | exactly one link is marked current when the page is in range, and none otherwise |
| Pagination.NeighbourLinks | portfolio/src/components/Pagination.tsx:27-60 | on a page in range, the previous and next links go where the neighbouring numbered links go |
| Pagination.SecondPageBack | portfolio/src/components/Pagination.tsx:16-29 | the previous link of page 2 goes back to the base path, not to `/page/1` |
| Sitemap.SiteUrl | portfolio/src/lib/sitemap.ts:3 | an unset or empty environment variable falls back to the default site |
| Sitemap.Entries | portfolio/src/lib/sitemap.ts:17-27 | one entry per page, in order, at the site followed by the path, with the given time stamp; the home page alone is weekly with priority 1.0 and every other page is monthly with 0.8 |
| Sitemap.Elements | portfolio/src/lib/sitemap.ts:18-27 | one `<url>` element per entry, in entry order |
| Sitemap.JoinAppend | portfolio/src/lib/sitemap.ts:28 | `join('')` distributes over concatenation |
| Sitemap.Generate | portfolio/src/lib/sitemap.ts:15-31 | the sitemap is the XML declaration and `<urlset>`, then the elements of every site page's entry in page order, then `</urlset>`; the first element is the home page's, at the site address, weekly with priority 1.0, followed by the other pages' elements |
| Sitemap.HomeOnlyWeekly | portfolio/src/lib/sitemap.ts:6-24 | only the first entry, the home page, is weekly at 1.0; the five others are monthly at 0.8 |
| Sitemap.DistinctLocations | portfolio/src/lib/sitemap.ts:6-21 | no two entries share an address |
| ScrollSpy.FirstHolding | portfolio/src/hooks/useScrollSpy.ts:18-28 | the section found is the first whose box holds the position; none found means no box holds it |
| ScrollSpy.ActiveAt | portfolio/src/hooks/useScrollSpy.ts:16-28 | the active id is that of the first section whose box holds the position, or empty when none holds it |
| ScrollSpy.ActivePrefix | portfolio/src/hooks/useScrollSpy.ts:23-26 | sections after the first holding one never decide |
| ScrollSpy.NullIgnored | portfolio/src/hooks/useScrollSpy.ts:19 | a section whose ref is still null is passed over wherever it stands |
| ScrollSpy.Spy.constructor | portfolio/src/hooks/useScrollSpy.ts:9-10 | the active section starts empty and the offset is the one given, 100 when left out |
| ScrollSpy.Spy.HandleScroll | portfolio/src/hooks/useScrollSpy.ts:13-33 | after a scroll the active section is the first one holding the scroll position plus the offset, and the state is set exactly when that id differs from the one held |
| Text.Trim | mini_proj/todo/app.js:104 | `trim()` removes white space from both ends and nothing else: the result is a slice of the input with only white space around it, and it neither starts nor ends with white space |
| Text.TrimEmpty | basic/To-do_enhanced/src/App.jsx:60 | the trim is empty exactly when the input is all white space |
| Text.TrimIdempotent | mini_proj/todo/app.js:104 | trimming twice is trimming once |
| Text.Lower | mini_proj/auth_system/frontend/js/dashboard.js:318 | `toLowerCase()` keeps the length and maps each ASCII capital to its small letter, leaving every other character alone |
| Text.Contains | mini_proj/auth_system/frontend/js/dashboard.js:318 | `includes` holds exactly when the text occurs at some position |
| Text.PadStart | music/js/script.js:12 | `padStart` fills on the left up to the width and keeps the text at the end |

## Left out

### General
- Floating point is not modelled. This covers the average waiting and turnaround times, the fault percentages printed with `%.2f`, the cart's price totals and `toFixed`, and `human_readable_size`. The model keeps the exact integer totals the averages are divided from.
- The fractional knapsack in `music/DAA/all.c` is not part of this model: it works on `double` ratios.
- C `int` overflow is not modelled. Integers are unbounded. Where a sentinel such as `INT_MAX` matters, the precondition keeps the keys below it.
- Console input (`scanf`, `input()`) and printing are left out. The operations take the values read as parameters and return the rows that are printed.
- The Gantt arrays `gantt[10000]` of `cpu_scheduling.c` are sequences, so their fixed size is not modelled.

### Schedulers and memory
- FcfsFile.Simulate: `qsort` is not stable. For processes with equal arrival times the model fixes one order, the exchange sort's, where the C library may choose another.
- StandaloneRoundRobin.Simulate: requires every burst to be non-negative, which `rr.c` never checks after `scanf`. With a negative burst the first turn runs a negative slice: `exec` is the remaining time, the clock moves back by it, and the process is marked done.
- StandaloneRoundRobin.RrC: requires non-negative bursts, for the reason given for Simulate.
- StandaloneRoundRobin.RrCpp: requires non-negative bursts, for the reason given for Simulate; `rr.cpp` reads them with `cin` and does not check them either.
- StandaloneRoundRobin.SimReachQueue: requires non-negative bursts, for the reason given for Simulate.
- StandaloneRoundRobin.Simulate: the `n*10+5` slot queue of `rr.c` is modelled as an unbounded sequence, whose length SimReachQueue bounds by n. The overflow of the array is a finding below.
- CpuRoundRobin.RoundRobin: the `MAXP*10` queue is modelled as an unbounded sequence, whose length ReachQueue bounds by n. The overflow of the array is a finding below.
- MemoryAllocationPy.PrintAllocation requires every allocation entry to be -1 or a valid block index. `allocate` only ever produces such entries.
- MemoryAllocation.PrintAllocation has the same requirement on its allocation array. The C program's `allocate` functions only ever produce such entries.

### Algorithms in `all.c`
- Hanoi.Moves requires at least one disk. `hanoi` recurses without end for `n <= 0`.
- Bfs.Search and Dfs.Search: the visiting order is not pinned down. The contract gives the start first, each reachable vertex exactly once, and nothing else. The adjacency lists, which are prepend-built linked lists, are sequences.
- Prim.Mst and Kruskal.Mst: minimality of the tree's weight is not proved. They are proved to build a spanning tree, or an acyclic Kruskal forest, and to sum its weights.
- Prim.Mst: a disconnected graph makes `minKey` return -1, and the C program then indexes the array with it. The model returns `ok == false` with the cut that stops the growth. Graphs are limited to the program's `V <= 9`.
- Kruskal.CmpEdge: the weight difference is exact here; C's `int` subtraction overflows for weights more than `INT_MAX` apart, which the model does not capture.
- Kruskal.Mst: the `cmpEdge` subtraction is exact here, and `qsort`'s order among equal weights is the exchange sort's.
- GreedyColoring.Colour requires at least one vertex. The C program writes `result[0]` unconditionally.
- FloydWarshall.AllPairs requires non-negative weights. Negative weights and negative cycles are not modelled.
- Tsp.Nearest requires every distance below `INT_MAX` and at least one city. Otherwise no next city is found and the program indexes with -1.
- Tsp.BruteForce: the tour cost is exact, so its overflow is not modelled.
- Tsp.BruteForce, Tsp.Backtrack, Tsp.Try and Tsp.Incumbent.constructor require at most 20 cities. `best_path` is a global array of 20 entries, and the `memcpy` into it (music/DAA/all.c:573,580) writes past its end for more cities; the model does not describe that overflow.

### Applications
- Text.Lower and Text.UpperChar map ASCII letters only. Other Unicode case mapping is not modelled.
- JavaScript numbers are exact reals or integers, with NaN as its own case where the source tests for it. `Infinity` is not modelled.
- The tasks and cart items are values in sequences. Object identity and aliasing of the React state objects are not modelled.
- ShopCart.Cart: the price and image fields travel with an item but are not reasoned about.
- Validation: `isEmail` and `normalizeEmail` are library predicates and stay abstract parameters.
- AuthController.UserStore: the users collection is a sequence of accounts, searched in order by e-mail or by id; a database fault is a flag passed in. The following are not part of this model:
  - `user.js`, with its mongoose schema and bcrypt hooks;
  - jwt signing;
  - express rate limiting;
  - the express wiring.
- The video downloader:
  - not modelled: the real downloads, the `ThreadPoolExecutor` parallel mode, stdin and batch-file input, and the Tkinter GUI;
  - the diagnostic options are modelled only in what they add to the options dictionary.
- The music player: audio playback, fetching the directory listing, `localStorage`, and the throttle and debounce timers are browser I/O and are left out.
- `formatDate` and `escapeHtml` in `mini_proj/todo/app.js` depend on the clock, the locale and the DOM. The celebration and animation helpers are presentation.
- Sitemap.Generate: the `lastmod` time stamps come from the clock and are parameters.
- Pagination.Render models the links the component renders as a value, not as JSX markup.
- ScrollSpy.Spy: scroll positions and element boxes are reals. The event listener registration is not modelled.
- PdfPages.SelectPages models the page selection only. Reading and writing the PDF files are left out.

## Findings

| source | as written | input that shows it | evidently intended | confidence | as-written member | corrected member |
|---|---|---|---|---|---|---|
| music/rr.c:41 | the ready queue gets `n*10+5` slots and `rear` only ever grows, one push per arrival and per preempted turn | one process, arrival 0, burst 16, quantum 1: 16 pushes into 15 slots | a queue large enough for every push, or a circular one; at most n processes are ever waiting | not executed | StandaloneRoundRobin.RrCQueueOverflow | StandaloneRoundRobin.SimReachQueue |
| music/os_project/cpu_scheduling.c:253 | `queue[MAXP*10]` with a tail index that is never wrapped | one process, arrival 0, burst 1001, quantum 1: 1001 slices | a queue that never runs past its end; at most n processes are ever queued at once | not executed | CpuRoundRobin.QueueOverflow | CpuRoundRobin.ReachQueue |
