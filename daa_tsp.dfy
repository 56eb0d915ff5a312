/**
 * music/DAA/all.c, section "tsp.c": the travelling salesman problem on a V×V cost matrix,
 * with tours starting and ending at city 0.
 *
 * `tsp_nearest` builds one tour greedily: from the current city go to the cheapest city not
 * yet visited (the lowest-numbered one on a tie), and return to 0 at the end.
 * `tsp_backtrack` enumerates every tour by depth-first search over cities 1..V-1 in increasing
 * order, keeping in the globals `best_cost`/`best_path` the first tour whose cost beats the
 * best so far.
 */
module Tsp {

  import opened Counting

  const INT_MAX := 2147483647
  /** The length of the global array `best_path`. */
  const BestSlots := 20

  ghost predicate Square(dist: seq<seq<int>>, V: nat) {
    |dist| == V && forall i :: 0 <= i < V ==> |dist[i]| == V
  }

  /** The sum of the edges along p. */
  function PathCost(dist: seq<seq<int>>, V: nat, p: seq<nat>): int
    requires Square(dist, V) && forall i :: 0 <= i < |p| ==> p[i] < V
  {
    if |p| < 2 then 0 else PathCost(dist, V, p[..|p| - 1]) + dist[p[|p| - 2]][p[|p| - 1]]
  }

  /** The cost of the closed tour: the path and the edge from its last city back to its first. */
  function CycleCost(dist: seq<seq<int>>, V: nat, t: seq<nat>): int
    requires Square(dist, V) && 1 <= |t| && forall i :: 0 <= i < |t| ==> t[i] < V
  {
    PathCost(dist, V, t) + dist[t[|t| - 1]][t[0]]
  }

  /** A partial tour: starts at 0, visits distinct cities. */
  ghost predicate Prefix(p: seq<nat>, V: nat) {
    1 <= |p| <= V && p[0] == 0 && (forall i :: 0 <= i < |p| ==> p[i] < V) && Distinct(p)
  }

  /** A tour: every one of the V cities once, starting from 0. */
  ghost predicate Tour(t: seq<nat>, V: nat) {
    Prefix(t, V) && |t| == V
  }

  ghost predicate Extends(t: seq<nat>, p: seq<nat>) {
    |p| <= |t| && t[..|p|] == p
  }

  /** The pair of globals `best_cost` and `best_path[0..V-1]`. */
  datatype Best = Best(cost: int, path: seq<nat>)

  // ---------------------------------------------------------------- backtracking (specification)

  /** What a call `tsp_backtrack(.., pos = |p|, .., cost)` leaves in the globals, starting from `best`. */
  function Back(dist: seq<seq<int>>, V: nat, p: seq<nat>, cost: int, best: Best): Best
    requires Square(dist, V) && Prefix(p, V)
    decreases V - |p|, 1, 0
  {
    if |p| == V then
      var c := cost + dist[p[V - 1]][p[0]];
      if c < best.cost then Best(c, p) else best
    else
      Candidates(dist, V, p, cost, best, 1)
  }

  /** The loop `for (v = v0; v < V; v++)` of that call, from v0 on. */
  function Candidates(dist: seq<seq<int>>, V: nat, p: seq<nat>, cost: int, best: Best, v: nat): Best
    requires Square(dist, V) && Prefix(p, V) && |p| < V
    decreases V - |p|, 0, V - v
  {
    if v >= V then best
    else
      var next := if v !in p then Back(dist, V, p + [v], cost + dist[p[|p| - 1]][v], best) else best;
      Candidates(dist, V, p, cost, next, v + 1)
  }

  lemma PrefixGrow(p: seq<nat>, V: nat, v: nat)
    requires Prefix(p, V) && |p| < V && v < V && v !in p
    ensures Prefix(p + [v], V)
  {
    var q := p + [v];
    forall i, j | 0 <= i < j < |q| ensures q[i] != q[j] {
      if j < |p| {
        assert q[i] == p[i] && q[j] == p[j];
      } else {
        assert q[i] == p[i];
      }
    }
  }

  /** The search ends with the cheaper of `best` and every tour that extends p. */
  ghost predicate Outcome(dist: seq<seq<int>>, V: nat, p: seq<nat>, best: Best, r: Best, lo: nat)
    requires Square(dist, V)
  {
    r.cost <= best.cost &&
    (forall t :: Tour(t, V) && Extends(t, p) && |p| < V && lo <= t[|p|] ==> r.cost <= CycleCost(dist, V, t)) &&
    (r == best || (Tour(r.path, V) && Extends(r.path, p) && r.cost == CycleCost(dist, V, r.path) && r.cost < best.cost))
  }

  /**
   * Backtracking is exhaustive: when `cost` is the cost of the partial tour p, the globals end
   * up holding the cheapest of the old best and every tour that completes p, and whatever they
   * hold other than the old best is such a tour with its true cost.
   */
  lemma {:induction false} BackOutcome(dist: seq<seq<int>>, V: nat, p: seq<nat>, cost: int, best: Best)
    requires Square(dist, V) && Prefix(p, V) && cost == PathCost(dist, V, p)
    ensures Outcome(dist, V, p, best, Back(dist, V, p, cost, best), 0)
    ensures |p| == V ==> (forall t :: Tour(t, V) && Extends(t, p) ==>
                           Back(dist, V, p, cost, best).cost <= CycleCost(dist, V, t))
    decreases V - |p|, 1, 0
  {
    var r := Back(dist, V, p, cost, best);
    if |p| == V {
      forall t | Tour(t, V) && Extends(t, p) ensures r.cost <= CycleCost(dist, V, t) {
        assert t == t[..|p|];
      }
    } else {
      CandidatesOutcome(dist, V, p, cost, best, 1);
      forall t | Tour(t, V) && Extends(t, p) ensures 1 <= t[|p|] {
        assert t[0] == p[0] == 0;
        assert t[|p|] != t[0];
      }
    }
  }

  lemma {:induction false} CandidatesOutcome(dist: seq<seq<int>>, V: nat, p: seq<nat>, cost: int, best: Best, v: nat)
    requires Square(dist, V) && Prefix(p, V) && |p| < V && cost == PathCost(dist, V, p)
    ensures Outcome(dist, V, p, best, Candidates(dist, V, p, cost, best, v), v)
    decreases V - |p|, 0, V - v
  {
    if v < V {
      if v !in p {
        var q, c := p + [v], cost + dist[p[|p| - 1]][v];
        var next := Back(dist, V, q, c, best);
        assert Candidates(dist, V, p, cost, best, v) == Candidates(dist, V, p, cost, next, v + 1);
        CandidatesOutcome(dist, V, p, cost, next, v + 1);
        PrefixGrow(p, V, v);
        assert q[..|p|] == p;
        BackOutcome(dist, V, q, c, best);
        VisitNew(dist, V, p, v, best, next, Candidates(dist, V, p, cost, next, v + 1));
      } else {
        assert Candidates(dist, V, p, cost, best, v) == Candidates(dist, V, p, cost, best, v + 1);
        CandidatesOutcome(dist, V, p, cost, best, v + 1);
        VisitOld(dist, V, p, v, best, Candidates(dist, V, p, cost, best, v + 1));
      }
    }
  }

  /** The step of `CandidatesOutcome` for an unvisited v: the search below p + [v] comes first. */
  lemma VisitNew(dist: seq<seq<int>>, V: nat, p: seq<nat>, v: nat, best: Best, next: Best, r: Best)
    requires Square(dist, V) && Prefix(p, V) && Prefix(p + [v], V) && |p| < V && v < V && v !in p
    requires Outcome(dist, V, p + [v], best, next, 0)
    requires |p| + 1 == V ==> forall t :: Tour(t, V) && Extends(t, p + [v]) ==> next.cost <= CycleCost(dist, V, t)
    requires Outcome(dist, V, p, next, r, v + 1)
    ensures Outcome(dist, V, p, best, r, v)
  {
    var q := p + [v];
    if next != best {
      assert next.path[..|p|] == next.path[..|q|][..|p|];
    }
    forall t | Tour(t, V) && Extends(t, p) && v <= t[|p|] ensures r.cost <= CycleCost(dist, V, t) {
      if t[|p|] == v {
        assert t[..|q|] == t[..|p|] + [t[|p|]];
        assert Extends(t, q);
        if |q| < V {
          assert t[|q|] != t[0];
        }
      }
    }
  }

  /** The step of `CandidatesOutcome` for a visited v: no tour extending p continues with v. */
  lemma VisitOld(dist: seq<seq<int>>, V: nat, p: seq<nat>, v: nat, best: Best, r: Best)
    requires Square(dist, V) && Prefix(p, V) && |p| < V && v in p
    requires Outcome(dist, V, p, best, r, v + 1)
    ensures Outcome(dist, V, p, best, r, v)
  {
    var k :| 0 <= k < |p| && p[k] == v;
    forall t | Tour(t, V) && Extends(t, p) ensures t[|p|] != v {
      assert t[k] == t[..|p|][k] == v;
    }
  }

  /** The globals as `main` finds them: `best_cost = INT_MAX`, `best_path` all zeros. */
  function Initial(V: nat): Best {
    Best(INT_MAX, seq(V, _ => 0))
  }

  /**
   * `tsp_bruteforce` is optimal: the cost it prints is at most the cost of every tour, and
   * when some tour costs less than INT_MAX it prints such a tour with its cost.
   */
  lemma BruteForceOptimal(dist: seq<seq<int>>, V: nat)
    requires 1 <= V && Square(dist, V)
    ensures Back(dist, V, [0], 0, Initial(V)).cost <= INT_MAX
    ensures forall t :: Tour(t, V) ==> Back(dist, V, [0], 0, Initial(V)).cost <= CycleCost(dist, V, t)
    ensures Back(dist, V, [0], 0, Initial(V)).cost < INT_MAX ==>
              Tour(Back(dist, V, [0], 0, Initial(V)).path, V) &&
              Back(dist, V, [0], 0, Initial(V)).cost == CycleCost(dist, V, Back(dist, V, [0], 0, Initial(V)).path)
  {
    BackOutcome(dist, V, [0], 0, Initial(V));
    var r := Back(dist, V, [0], 0, Initial(V));
    forall t | Tour(t, V) ensures r.cost <= CycleCost(dist, V, t) {
      assert Extends(t, [0]);
      if V > 1 {
        assert t[1] != t[0];
      }
    }
  }

  // ---------------------------------------------------------------- backtracking (the code)

  /** The globals `best_cost` and `best_path`, which `tsp_backtrack` updates. */
  class Incumbent {
    var bestCost: int
    var bestPath: seq<nat>

    constructor (V: nat)
      requires V <= BestSlots
      ensures bestCost == INT_MAX && bestPath == seq(V, _ => 0)
    {
      bestCost := INT_MAX;
      bestPath := seq(V, _ => 0);
    }

    function State(): Best
      reads this
    {
      Best(bestCost, bestPath)
    }
  }

  /** `tsp_backtrack`: `visited` marks the cities of `path[0..pos-1]`; both are restored on return. */
  method Backtrack(V: nat, dist: seq<seq<int>>, pos: nat, visited: array<bool>, path: array<nat>,
                   cost: int, g: Incumbent)
    requires V <= BestSlots && Square(dist, V) && visited.Length == V && path.Length == V && 1 <= pos <= V
    requires Prefix(path[..pos], V)
    requires forall x :: 0 <= x < V ==> (visited[x] <==> x in path[..pos])
    modifies visited, path, g
    ensures visited[..] == old(visited[..]) && path[..pos] == old(path[..pos])
    ensures g.State() == Back(dist, V, old(path[..pos]), cost, old(g.State()))
    decreases V - pos, 1, 0
  {
    ghost var p := path[..pos];
    if pos == V {
      assert path[..] == p;
      var c := cost + dist[path[V - 1]][path[0]];
      if c < g.bestCost {
        g.bestCost := c;
        g.bestPath := path[..];
      }
      return;
    }
    ghost var b0 := g.State();
    ghost var vis := visited[..];
    for v := 1 to V
      invariant visited[..] == vis && path[..pos] == p
      invariant Candidates(dist, V, p, cost, b0, 1) == Candidates(dist, V, p, cost, g.State(), v)
    {
      Try(V, dist, pos, visited, path, cost, g, v);
    }
  }

  /** One turn of the loop over v in `tsp_backtrack`: extend the path by v if v is unvisited. */
  method Try(V: nat, dist: seq<seq<int>>, pos: nat, visited: array<bool>, path: array<nat>,
             cost: int, g: Incumbent, v: nat)
    requires V <= BestSlots && Square(dist, V) && visited.Length == V && path.Length == V && 1 <= pos < V && v < V
    requires Prefix(path[..pos], V)
    requires forall x :: 0 <= x < V ==> (visited[x] <==> x in path[..pos])
    modifies visited, path, g
    ensures visited[..] == old(visited[..]) && path[..pos] == old(path[..pos])
    ensures g.State() == if v !in old(path[..pos])
                         then Back(dist, V, old(path[..pos]) + [v], cost + dist[old(path[pos - 1])][v], old(g.State()))
                         else old(g.State())
    decreases V - pos, 0, 0
  {
    ghost var p := path[..pos];
    ghost var vis := visited[..];
    if !visited[v] {
      assert p[pos - 1] == path[pos - 1];
      visited[v] := true;
      path[pos] := v;
      assert path[..pos + 1] == p + [v];
      PrefixGrow(p, V, v);
      forall x | 0 <= x < V ensures visited[x] <==> x in path[..pos + 1] {
        assert x in path[..pos + 1] <==> x in p || x == v;
      }
      Backtrack(V, dist, pos + 1, visited, path, cost + dist[path[pos - 1]][v], g);
      assert path[..pos] == path[..pos + 1][..pos];
      visited[v] := false;
      assert visited[..] == vis;
    } else {
      assert v in p;
    }
  }

  /** `tsp_bruteforce`: start the search from the partial tour [0]. */
  method BruteForce(V: nat, dist: seq<seq<int>>, g: Incumbent) returns (cost: int, tour: seq<nat>)
    requires 1 <= V <= BestSlots && Square(dist, V)
    modifies g
    ensures g.State() == Back(dist, V, [0], 0, old(g.State()))
    ensures cost == g.bestCost && tour == g.bestPath
  {
    var visited := new bool[V];
    var path := new nat[V];
    for i := 0 to V
      invariant forall x :: 0 <= x < i ==> !visited[x]
      invariant g.State() == old(g.State())
    {
      visited[i] := false;
    }
    path[0] := 0;
    visited[0] := true;
    assert path[..1] == [0];
    forall x | 0 <= x < V ensures visited[x] <==> x in path[..1] {
    }
    Backtrack(V, dist, 1, visited, path, 0, g);
    cost, tour := g.bestCost, g.bestPath;
  }

  // ---------------------------------------------------------------- nearest neighbour

  /**
   * Step i of the nearest-neighbour tour: city `tour[i]` is unvisited, no unvisited city is
   * cheaper to reach from `tour[i-1]`, and any that is as cheap has a larger number.
   */
  ghost predicate NearestStep(dist: seq<seq<int>>, V: nat, tour: seq<nat>, i: nat)
    requires Square(dist, V) && 1 <= i < |tour| && forall k :: 0 <= k < |tour| ==> tour[k] < V
  {
    tour[i] !in tour[..i] &&
    forall j :: 0 <= j < V && j !in tour[..i] ==>
      dist[tour[i - 1]][tour[i]] <= dist[tour[i - 1]][j] &&
      (j < tour[i] ==> dist[tour[i - 1]][tour[i]] < dist[tour[i - 1]][j])
  }

  /** The tour `tsp_nearest` prints: 0, the V-1 greedy steps, and 0 again. */
  ghost predicate NearestTour(dist: seq<seq<int>>, V: nat, tour: seq<nat>)
    requires Square(dist, V)
  {
    |tour| == V + 1 && tour[0] == 0 && tour[V] == 0 &&
    (forall k :: 0 <= k < |tour| ==> tour[k] < V) &&
    forall i :: 1 <= i < V ==> NearestStep(dist, V, tour, i)
  }

  /** The inner j loop: the first unvisited city of least cost from `cur`. */
  method Closest(V: nat, dist: seq<seq<int>>, cur: nat, visited: array<bool>) returns (next: int)
    requires Square(dist, V) && cur < V && visited.Length == V
    requires forall j :: 0 <= j < V ==> dist[cur][j] < INT_MAX
    requires exists j :: 0 <= j < V && !visited[j]
    ensures 0 <= next < V && !visited[next]
    ensures forall j :: 0 <= j < V && !visited[j] ==>
              dist[cur][next] <= dist[cur][j] && (j < next ==> dist[cur][next] < dist[cur][j])
  {
    next := -1;
    var min := INT_MAX;
    for j := 0 to V
      invariant next == -1 ==> min == INT_MAX && forall k :: 0 <= k < j ==> visited[k]
      invariant next != -1 ==> 0 <= next < j && !visited[next] && min == dist[cur][next]
      invariant forall k :: 0 <= k < j && !visited[k] ==>
                  min <= dist[cur][k] && (k < next ==> min < dist[cur][k])
    {
      if !visited[j] && dist[cur][j] < min {
        min := dist[cur][j];
        next := j;
      }
    }
  }

  /** `tsp_nearest`: the greedy tour and its cost, the last edge back to 0 included. */
  method Nearest(V: nat, dist: seq<seq<int>>) returns (tour: seq<nat>, cost: int)
    requires 1 <= V && Square(dist, V)
    requires forall i, j :: 0 <= i < V && 0 <= j < V ==> dist[i][j] < INT_MAX
    ensures NearestTour(dist, V, tour)
    ensures cost == CycleCost(dist, V, tour[..V])
  {
    var visited := new bool[V];
    for i := 0 to V
      invariant forall x :: 0 <= x < i ==> !visited[x]
    {
      visited[i] := false;
    }
    var cur: nat := 0;
    visited[0] := true;
    tour := [0];
    cost := 0;
    for i := 1 to V
      invariant Greedy(dist, V, tour, i, visited[..]) && cur == tour[i - 1]
      invariant cost == PathCost(dist, V, tour)
    {
      Unvisited(dist, V, tour, i, visited[..]);
      var next := Closest(V, dist, cur, visited);
      GreedyGrow(dist, V, tour, i, visited[..], next);
      visited[next] := true;
      cost := cost + dist[cur][next];
      cur := next;
      tour := tour + [next];
    }
    Closed(dist, V, tour);
    cost := cost + dist[cur][0];
    tour := tour + [0];
  }

  /** The state of `tsp_nearest` after i cities: the greedy steps so far and the visited marks. */
  ghost predicate Greedy(dist: seq<seq<int>>, V: nat, tour: seq<nat>, i: nat, visited: seq<bool>)
    requires Square(dist, V)
  {
    |tour| == i && 1 <= i <= V && |visited| == V && tour[0] == 0 &&
    (forall k :: 0 <= k < i ==> tour[k] < V) &&
    (forall x :: 0 <= x < V ==> (visited[x] <==> x in tour)) &&
    forall s :: 1 <= s < i ==> NearestStep(dist, V, tour, s)
  }

  /** The loop body keeps the state: the city `Closest` picks is the next greedy step. */
  lemma GreedyGrow(dist: seq<seq<int>>, V: nat, tour: seq<nat>, i: nat, visited: seq<bool>, next: int)
    requires Square(dist, V) && Greedy(dist, V, tour, i, visited) && i < V
    requires 0 <= next < V && !visited[next]
    requires forall j :: 0 <= j < V && !visited[j] ==>
               dist[tour[i - 1]][next] <= dist[tour[i - 1]][j] && (j < next ==> dist[tour[i - 1]][next] < dist[tour[i - 1]][j])
    ensures Greedy(dist, V, tour + [next], i + 1, visited[next := true])
    ensures PathCost(dist, V, tour + [next]) == PathCost(dist, V, tour) + dist[tour[i - 1]][next]
  {
    var t := tour + [next];
    assert t[..i] == tour;
    StepsKept(dist, V, tour, next);
    forall x | 0 <= x < V ensures (visited[next := true][x] <==> x in t) {
      assert x in t <==> x in tour || x == next;
    }
  }

  /** While cities remain, `Closest` has an unvisited city to find. */
  lemma Unvisited(dist: seq<seq<int>>, V: nat, tour: seq<nat>, i: nat, visited: seq<bool>)
    requires Square(dist, V) && Greedy(dist, V, tour, i, visited) && i < V
    ensures exists j :: 0 <= j < V && !visited[j]
  {
    var u := Missing(tour, V);
    assert !visited[u];
  }

  /** The return to 0 closes the tour without disturbing its greedy steps. */
  lemma Closed(dist: seq<seq<int>>, V: nat, tour: seq<nat>)
    requires 1 <= V && Square(dist, V) && |tour| == V && tour[0] == 0
    requires forall k :: 0 <= k < V ==> tour[k] < V
    requires forall s :: 1 <= s < V ==> NearestStep(dist, V, tour, s)
    ensures NearestTour(dist, V, tour + [0])
    ensures (tour + [0])[..V] == tour
    ensures PathCost(dist, V, tour) + dist[tour[V - 1]][0] == CycleCost(dist, V, (tour + [0])[..V])
  {
    var t := tour + [0];
    assert t[..V] == tour;
    forall s | 1 <= s < V ensures NearestStep(dist, V, t, s) {
      assert t[..s] == tour[..s];
      assert NearestStep(dist, V, tour, s);
    }
  }

  /** Appending a city keeps the earlier greedy steps (they only look at the prefix). */
  lemma StepsKept(dist: seq<seq<int>>, V: nat, tour: seq<nat>, next: nat)
    requires Square(dist, V) && 1 <= |tour| && next < V && forall k :: 0 <= k < |tour| ==> tour[k] < V
    requires forall s :: 1 <= s < |tour| ==> NearestStep(dist, V, tour, s)
    requires next !in tour
    requires forall j :: 0 <= j < V && j !in tour ==>
               dist[tour[|tour| - 1]][next] <= dist[tour[|tour| - 1]][j] &&
               (j < next ==> dist[tour[|tour| - 1]][next] < dist[tour[|tour| - 1]][j])
    ensures forall s :: 1 <= s < |tour| + 1 ==> NearestStep(dist, V, tour + [next], s)
  {
    var t := tour + [next];
    forall s | 1 <= s < |t| ensures NearestStep(dist, V, t, s) {
      assert t[..s] == tour[..s] by {
        assert tour[..s] == tour[..|tour|][..s];
      }
      if s < |tour| {
        assert NearestStep(dist, V, tour, s);
      } else {
        assert tour[..s] == tour;
      }
    }
  }

  /** The nearest-neighbour tour visits every city exactly once before returning to 0. */
  lemma NearestIsTour(dist: seq<seq<int>>, V: nat, tour: seq<nat>)
    requires 1 <= V && Square(dist, V) && NearestTour(dist, V, tour)
    ensures Tour(tour[..V], V)
    ensures forall x :: 0 <= x < V ==> x in tour[..V]
  {
    var t := tour[..V];
    forall i, j | 0 <= i < j < V ensures t[i] != t[j] {
      assert NearestStep(dist, V, tour, j);
      assert tour[..j][i] == t[i];
    }
    forall x | 0 <= x < V ensures x in t {
      DistinctCovers(t, V, x);
    }
  }

  /** The greedy rule leaves no choice: there is one nearest-neighbour tour. */
  lemma {:induction false} NearestUnique(dist: seq<seq<int>>, V: nat, a: seq<nat>, b: seq<nat>, n: nat)
    requires Square(dist, V) && NearestTour(dist, V, a) && NearestTour(dist, V, b) && 1 <= n <= V
    ensures a[..n] == b[..n]
  {
    if n > 1 {
      NearestUnique(dist, V, a, b, n - 1);
      var i := n - 1;
      assert NearestStep(dist, V, a, i) && NearestStep(dist, V, b, i);
      assert a[..i] == b[..i];
      assert a[i - 1] == a[..i][i - 1] && b[i - 1] == b[..i][i - 1];
      assert a[..n] == a[..i] + [a[i]] && b[..n] == b[..i] + [b[i]];
    } else {
      assert a[..1] == [a[0]] && b[..1] == [b[0]];
    }
  }

  /** The brute-force optimum is never worse than the nearest-neighbour tour. */
  lemma BruteForceBeatsNearest(dist: seq<seq<int>>, V: nat, tour: seq<nat>)
    requires 1 <= V && Square(dist, V) && NearestTour(dist, V, tour)
    ensures Back(dist, V, [0], 0, Initial(V)).cost <= CycleCost(dist, V, tour[..V])
  {
    NearestIsTour(dist, V, tour);
    BruteForceOptimal(dist, V);
  }
}
