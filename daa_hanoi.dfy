/**
 * music/DAA/all.c, section "merge_sort" (which holds the Tower of Hanoi): the recursive
 * `hanoi(n, from, to, aux)` prints one line per disk move; the model returns those moves.
 */
module Hanoi {

  datatype Move = Move(disk: int, from: char, to: char)

  function Pow2(n: nat): nat {
    if n == 0 then 1 else 2 * Pow2(n - 1)
  }

  /**
   * The moves printed by `hanoi(n, from, to, aux)`: 2^n - 1 of them, each of a disk from 1 to n, with
   * the largest disk moving exactly once, from `from` to `to`, in the middle. The source recurses
   * without end for n <= 0, so callers must pass n >= 1.
   */
  function Moves(n: int, from: char, to: char, aux: char): (ms: seq<Move>)
    requires n >= 1
    ensures |ms| == Pow2(n) - 1
    ensures forall k :: 0 <= k < |ms| ==> 1 <= ms[k].disk <= n
    ensures ms[Pow2(n - 1) - 1] == Move(n, from, to)
    ensures forall k :: 0 <= k < |ms| && ms[k].disk == n ==> k == Pow2(n - 1) - 1
    decreases n
  {
    if n == 1 then [Move(1, from, to)]
    else
      var a, b := Moves(n - 1, from, aux, to), Moves(n - 1, aux, to, from);
      var ms := a + [Move(n, from, to)] + b;
      assert forall k :: |a| < k < |ms| ==> ms[k] == b[k - |a| - 1];
      ms
  }

  /** The section's `main`: three disks from A to C via B, the seven moves of its output. */
  lemma ThreeDisks()
    ensures Moves(3, 'A', 'C', 'B') ==
      [Move(1, 'A', 'C'), Move(2, 'A', 'B'), Move(1, 'C', 'B'), Move(3, 'A', 'C'),
       Move(1, 'B', 'A'), Move(2, 'B', 'C'), Move(1, 'A', 'C')]
  {
    assert Moves(2, 'A', 'B', 'C') == [Move(1, 'A', 'C'), Move(2, 'A', 'B'), Move(1, 'C', 'B')];
    assert Moves(2, 'B', 'C', 'A') == [Move(1, 'B', 'A'), Move(2, 'B', 'C'), Move(1, 'A', 'C')];
  }

  /** Each peg holds its disks bottom first, so the top disk is the last entry. */
  type Pegs = map<char, seq<int>>

  /** A move is legal when it takes the named disk off the top of one peg onto an empty peg or a larger disk. */
  predicate Legal(st: Pegs, m: Move) {
    m.from in st && m.to in st && m.from != m.to &&
    |st[m.from]| > 0 && st[m.from][|st[m.from]| - 1] == m.disk &&
    (|st[m.to]| == 0 || st[m.to][|st[m.to]| - 1] > m.disk)
  }

  /** The pegs after a sequence of moves, or None at the first illegal move. */
  function Apply(st: Pegs, ms: seq<Move>): (r: Option<Pegs>)
    ensures r.Some? ==> r.value.Keys == st.Keys
    decreases |ms|
  {
    if |ms| == 0 then Some(st)
    else if !Legal(st, ms[0]) then None
    else
      var m := ms[0];
      var f := st[m.from];
      Apply(st[m.from := f[..|f| - 1]][m.to := st[m.to] + [m.disk]], ms[1..])
  }

  datatype Option<T> = None | Some(value: T)

  lemma {:induction false} ApplyAppend(st: Pegs, a: seq<Move>, b: seq<Move>)
    ensures Apply(st, a + b) == match Apply(st, a) { case None => None case Some(s) => Apply(s, b) }
    decreases |a|
  {
    if |a| > 0 {
      assert (a + b)[0] == a[0] && (a + b)[1..] == a[1..] + b;
      if Legal(st, a[0]) {
        var m := a[0];
        var f := st[m.from];
        ApplyAppend(st[m.from := f[..|f| - 1]][m.to := st[m.to] + [m.disk]], a[1..], b);
      }
    } else {
      assert a + b == b;
    }
  }

  lemma ApplyThen(st: Pegs, a: seq<Move>, b: seq<Move>, s: Pegs, u: Pegs)
    requires Apply(st, a) == Some(s) && Apply(s, b) == Some(u)
    ensures Apply(st, a + b) == Some(u)
  {
    ApplyAppend(st, a, b);
  }

  /** The disks n, n-1, ..., 1 stacked bottom first. */
  function Tower(n: nat): (t: seq<int>)
    ensures |t| == n
  {
    if n == 0 then [] else [n] + Tower(n - 1)
  }

  /** Every disk on the peg is larger than n (an empty peg qualifies). */
  predicate Clear(s: seq<int>, n: int) {
    |s| == 0 || s[|s| - 1] > n
  }

  /** Moving the top disk n from one peg to a peg whose top is larger. */
  lemma MoveOne(st: Pegs, n: int, from: char, to: char, base: seq<int>)
    requires from in st && to in st && from != to
    requires st[from] == base + [n] && Clear(st[to], n)
    ensures Apply(st, [Move(n, from, to)]) == Some(st[from := base][to := st[to] + [n]])
  {
    assert (base + [n])[..|base|] == base;
    var m := Move(n, from, to);
    assert Legal(st, m);
    assert [m][1..] == [];
  }

  /**
   * Started with disks n..1 on top of `from` and larger disks on top of the other two pegs,
   * every move `hanoi` prints is legal and the n disks end on top of `to`, the rest unchanged.
   */
  lemma {:induction false} MovesLegal(n: int, from: char, to: char, aux: char, st: Pegs, base: seq<int>)
    requires n >= 1
    requires from in st && to in st && aux in st && from != to && to != aux && aux != from
    requires st[from] == base + Tower(n) && Clear(base, n) && Clear(st[to], n) && Clear(st[aux], n)
    ensures Apply(st, Moves(n, from, to, aux)) == Some(st[from := base][to := st[to] + Tower(n)])
    decreases n, 3
  {
    if n == 1 {
      MoveOne(st, 1, from, to, base);
    } else {
      LegalStep(n, from, to, aux, st, base);
    }
  }

  /** The recursive case: the two half towers around the move of disk n. */
  lemma LegalStep(n: int, from: char, to: char, aux: char, st: Pegs, base: seq<int>)
    requires n > 1
    requires from in st && to in st && aux in st && from != to && to != aux && aux != from
    requires st[from] == base + Tower(n) && Clear(base, n) && Clear(st[to], n) && Clear(st[aux], n)
    ensures Apply(st, Moves(n, from, to, aux)) == Some(st[from := base][to := st[to] + Tower(n)])
    decreases n, 2
  {
    var s2 := FirstHalf(n, from, to, aux, st, base);
    SecondHalf(n, from, to, aux, st, base, s2);
    ApplyThen(st, Moves(n - 1, from, aux, to) + [Move(n, from, to)], Moves(n - 1, aux, to, from), s2,
              st[from := base][to := st[to] + Tower(n)]);
  }

  /** The smaller tower moved from `aux` onto disk n, now on `to`. */
  lemma SecondHalf(n: int, from: char, to: char, aux: char, st: Pegs, base: seq<int>, s2: Pegs)
    requires n > 1
    requires from in st && to in st && aux in st && from != to && to != aux && aux != from
    requires st[from] == base + Tower(n) && Clear(base, n) && Clear(st[to], n) && Clear(st[aux], n)
    requires s2 == st[from := base + [n]][aux := st[aux] + Tower(n - 1)][from := base][to := st[to] + [n]]
    ensures Apply(s2, Moves(n - 1, aux, to, from)) == Some(st[from := base][to := st[to] + Tower(n)])
    decreases n, 1
  {
    MovesLegal(n - 1, aux, to, from, s2, st[aux]);
    Compose(st, s2, n, from, to, aux, base);
  }

  /** The smaller tower parked on `aux`, then disk n moved to `to`. */
  lemma FirstHalf(n: int, from: char, to: char, aux: char, st: Pegs, base: seq<int>) returns (s2: Pegs)
    requires n > 1
    requires from in st && to in st && aux in st && from != to && to != aux && aux != from
    requires st[from] == base + Tower(n) && Clear(base, n) && Clear(st[to], n) && Clear(st[aux], n)
    ensures s2 == st[from := base + [n]][aux := st[aux] + Tower(n - 1)][from := base][to := st[to] + [n]]
    ensures Apply(st, Moves(n - 1, from, aux, to) + [Move(n, from, to)]) == Some(s2)
    decreases n, 1
  {
    var s1 := Park(n, from, to, aux, st, base);
    MoveOne(s1, n, from, to, base);
    s2 := s1[from := base][to := st[to] + [n]];
    ApplyThen(st, Moves(n - 1, from, aux, to), [Move(n, from, to)], s1, s2);
  }

  /** The n-1 disks above disk n moved from `from` to `aux`, leaving n on top of `from`. */
  lemma Park(n: int, from: char, to: char, aux: char, st: Pegs, base: seq<int>) returns (s1: Pegs)
    requires n > 1
    requires from in st && to in st && aux in st && from != to && to != aux && aux != from
    requires st[from] == base + Tower(n) && Clear(base, n) && Clear(st[to], n) && Clear(st[aux], n)
    ensures s1 == st[from := base + [n]][aux := st[aux] + Tower(n - 1)]
    ensures Apply(st, Moves(n - 1, from, aux, to)) == Some(s1)
    ensures from in s1 && to in s1 && s1[from] == base + [n] && s1[to] == st[to]
    decreases n, 0
  {
    var mid := base + [n];
    assert st[from] == mid + Tower(n - 1);
    assert Clear(mid, n - 1) && Clear(st[to], n - 1) && Clear(st[aux], n - 1);
    MovesLegal(n - 1, from, aux, to, st, mid);
    s1 := st[from := mid][aux := st[aux] + Tower(n - 1)];
  }

  lemma Compose(st: Pegs, s2: Pegs, n: nat, from: char, to: char, aux: char, base: seq<int>)
    requires n >= 1 && from in st && to in st && aux in st && from != to && to != aux && aux != from
    requires s2 == st[from := base + [n]][aux := st[aux] + Tower(n - 1)][from := base][to := st[to] + [n]]
    ensures s2[aux := st[aux]][to := s2[to] + Tower(n - 1)] == st[from := base][to := st[to] + Tower(n)]
  {
    assert st[to] + [n] + Tower(n - 1) == st[to] + Tower(n);
  }

  /** With the n-disk tower on A and both B and C empty, `hanoi(n, 'A', 'C', 'B')` legally moves the whole tower to C. */
  lemma WholeTower(n: int)
    requires n >= 1
    ensures Apply(map['A' := Tower(n), 'B' := [], 'C' := []], Moves(n, 'A', 'C', 'B')) ==
            Some(map['A' := [], 'B' := [], 'C' := Tower(n)])
  {
    var st: Pegs := map['A' := Tower(n), 'B' := [], 'C' := []];
    assert st['A'] == [] + Tower(n);
    MovesLegal(n, 'A', 'C', 'B', st, []);
    assert st['A' := []]['C' := st['C'] + Tower(n)] == map['A' := [], 'B' := [], 'C' := Tower(n)];
  }
}
