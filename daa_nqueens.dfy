/**
 * music/DAA/all.c, section "nqueens.c": backtracking N-queens. Row r tries every column
 * c in order; a column is free when `cols[c]`, `d1[r + c]` and `d2[r - c + N - 1]` are all
 * zero. The flags are set before recursing into row r + 1 and cleared afterwards, and every
 * full board is printed with a running solution number.
 */
module NQueens {

  /** Every placed queen's column lies in [0, n). */
  predicate InRange(n: int, p: seq<int>) {
    forall i :: 0 <= i < |p| ==> 0 <= p[i] < n
  }

  /** Queen (|p|, c) shares no column and no diagonal with the queens of `p`. */
  predicate Safe(p: seq<int>, c: int) {
    forall i :: 0 <= i < |p| ==> p[i] != c && i + p[i] != |p| + c && i - p[i] != |p| - c
  }

  /** No two queens of `p` (queen i in row i, column p[i]) attack each other. */
  ghost predicate Placement(n: int, p: seq<int>) {
    |p| <= n && InRange(n, p) &&
    forall i, j :: 0 <= i < j < |p| ==> p[i] != p[j] && i + p[i] != j + p[j] && i - p[i] != j - p[j]
  }

  lemma PlacementExtend(n: int, p: seq<int>, c: int)
    requires Placement(n, p) && |p| < n && 0 <= c < n && Safe(p, c)
    ensures Placement(n, p + [c])
  {
  }

  lemma PlacementPrefix(n: int, p: seq<int>, k: nat)
    requires Placement(n, p) && k <= |p|
    ensures Placement(n, p[..k])
  {
  }

  /** The `cols` flags after the queens of `p` were placed from row 0 on. */
  function ColFlags(n: nat, p: seq<int>): (f: seq<int>)
    requires |p| <= n && InRange(n, p)
    ensures |f| == n
  {
    if |p| == 0 then seq(n, _ => 0) else ColFlags(n, p[..|p| - 1])[p[|p| - 1] := 1]
  }

  /** The `d1` flags: entry r + c for every queen (r, c). */
  function D1Flags(n: nat, p: seq<int>): (f: seq<int>)
    requires |p| <= n && InRange(n, p)
    ensures |f| == 2 * n
  {
    if |p| == 0 then seq(2 * n, _ => 0) else D1Flags(n, p[..|p| - 1])[|p| - 1 + p[|p| - 1] := 1]
  }

  /** The `d2` flags: entry r - c + n - 1 for every queen (r, c). */
  function D2Flags(n: nat, p: seq<int>): (f: seq<int>)
    requires |p| <= n && InRange(n, p)
    ensures |f| == 2 * n
  {
    if |p| == 0 then seq(2 * n, _ => 0) else D2Flags(n, p[..|p| - 1])[|p| - 1 - p[|p| - 1] + n - 1 := 1]
  }

  /** A column flag is set exactly when some queen stands in that column. */
  lemma {:induction false} ColFlag(n: nat, p: seq<int>, c: int)
    requires |p| <= n && InRange(n, p) && 0 <= c < n
    ensures ColFlags(n, p)[c] == if exists i :: 0 <= i < |p| && p[i] == c then 1 else 0
    decreases |p|
  {
    if |p| > 0 {
      var q := p[..|p| - 1];
      ColFlag(n, q, c);
      if exists i :: 0 <= i < |p| && p[i] == c {
        var i :| 0 <= i < |p| && p[i] == c;
        if i < |q| { assert q[i] == c; }
      }
    }
  }

  lemma {:induction false} D1Flag(n: nat, p: seq<int>, k: int)
    requires |p| <= n && InRange(n, p) && 0 <= k < 2 * n
    ensures D1Flags(n, p)[k] == if exists i :: 0 <= i < |p| && i + p[i] == k then 1 else 0
    decreases |p|
  {
    if |p| > 0 {
      var q := p[..|p| - 1];
      D1Flag(n, q, k);
      if exists i :: 0 <= i < |p| && i + p[i] == k {
        var i :| 0 <= i < |p| && i + p[i] == k;
        if i < |q| { assert i + q[i] == k; }
      }
    }
  }

  lemma {:induction false} D2Flag(n: nat, p: seq<int>, k: int)
    requires |p| <= n && InRange(n, p) && 0 <= k < 2 * n
    ensures D2Flags(n, p)[k] == if exists i :: 0 <= i < |p| && i - p[i] + n - 1 == k then 1 else 0
    decreases |p|
  {
    if |p| > 0 {
      var q := p[..|p| - 1];
      D2Flag(n, q, k);
      if exists i :: 0 <= i < |p| && i - p[i] + n - 1 == k {
        var i :| 0 <= i < |p| && i - p[i] + n - 1 == k;
        if i < |q| { assert i - q[i] + n - 1 == k; }
      }
    }
  }

  /** Placing queen (|p|, c) sets one flag in each array. */
  lemma FlagsPlace(n: nat, p: seq<int>, c: int, p2: seq<int>)
    requires |p| < n && InRange(n, p) && 0 <= c < n && p2 == p + [c]
    ensures InRange(n, p2)
    ensures ColFlags(n, p2) == ColFlags(n, p)[c := 1]
    ensures D1Flags(n, p2) == D1Flags(n, p)[|p| + c := 1]
    ensures D2Flags(n, p2) == D2Flags(n, p)[|p| - c + n - 1 := 1]
  {
    assert p2[..|p2| - 1] == p;
  }

  /** The flag test of `solve_row` accepts column c exactly when the queen is safe there. */
  lemma FlagsTest(n: nat, p: seq<int>, c: int)
    requires |p| < n && InRange(n, p) && 0 <= c < n
    ensures (ColFlags(n, p)[c] == 0 && D1Flags(n, p)[|p| + c] == 0 && D2Flags(n, p)[|p| - c + n - 1] == 0)
            <==> Safe(p, c)
  {
    ColFlag(n, p, c);
    D1Flag(n, p, |p| + c);
    D2Flag(n, p, |p| - c + n - 1);
  }

  /**
   * The boards `solve_row` prints once the queens of `p` are placed: its full boards in
   * the order the column loops reach them.
   */
  function Completions(n: nat, p: seq<int>): seq<seq<int>>
    requires |p| <= n
    decreases n - |p|, 1, 0
  {
    if |p| == n then [p] else Upto(n, p, n)
  }

  /** The boards found by trying columns 0 .. c-1 in row |p|. */
  function Upto(n: nat, p: seq<int>, c: nat): seq<seq<int>>
    requires |p| < n && c <= n
    decreases n - |p|, 0, c
  {
    if c == 0 then []
    else Upto(n, p, c - 1) + (if Safe(p, c - 1) then Completions(n, p + [c - 1]) else [])
  }

  /** One more column tried: the boards it leads to come after those of the earlier columns. */
  lemma UptoStep(n: nat, p: seq<int>, c: nat, found: seq<seq<int>>, start: seq<seq<int>>, before: seq<seq<int>>)
    requires |p| < n && c < n
    requires found == if Safe(p, c) then Completions(n, p + [c]) else []
    requires before == start + Upto(n, p, c)
    ensures before + found == start + Upto(n, p, c + 1)
    ensures |Upto(n, p, c + 1)| == |Upto(n, p, c)| + |found|
  {
  }

  /** Every printed board is a full non-attacking placement extending the queens already placed. */
  lemma {:induction false} CompletionsSound(n: nat, p: seq<int>, q: seq<int>)
    requires Placement(n, p) && q in Completions(n, p)
    ensures |q| == n && q[..|p|] == p && Placement(n, q)
    decreases n - |p|, 1, 0
  {
    if |p| < n {
      UptoSound(n, p, n, q);
    }
  }

  lemma {:induction false} UptoSound(n: nat, p: seq<int>, c: nat, q: seq<int>)
    requires Placement(n, p) && |p| < n && c <= n && q in Upto(n, p, c)
    ensures |q| == n && q[..|p|] == p && q[|p|] < c && Placement(n, q)
    decreases n - |p|, 0, c
  {
    if c > 0 {
      if q in Upto(n, p, c - 1) {
        UptoSound(n, p, c - 1, q);
      } else {
        ColumnSound(n, p, c - 1, q);
      }
    }
  }

  /** A board found through column c of row |p| has c there. */
  lemma {:induction false} ColumnSound(n: nat, p: seq<int>, c: nat, q: seq<int>)
    requires Placement(n, p) && |p| < n && c < n && Safe(p, c) && q in Completions(n, p + [c])
    ensures |q| == n && q[..|p|] == p && q[|p|] == c && Placement(n, q)
    decreases n - |p|, 0, 0
  {
    var p2 := p + [c];
    PlacementExtend(n, p, c);
    CompletionsSound(n, p2, q);
    assert q[..|p|] == q[..|p2|][..|p|];
    assert q[|p|] == q[..|p2|][|p|];
  }

  /** Every full non-attacking placement extending the queens already placed is printed. */
  lemma {:induction false} CompletionsComplete(n: nat, p: seq<int>, q: seq<int>)
    requires |p| <= n && |q| == n && q[..|p|] == p && Placement(n, q)
    ensures q in Completions(n, p)
    decreases n - |p|, 1, 0
  {
    if |p| == n {
      assert q == q[..|p|];
    } else {
      UptoComplete(n, p, n, q);
    }
  }

  lemma {:induction false} UptoComplete(n: nat, p: seq<int>, c: nat, q: seq<int>)
    requires |p| < n && c <= n && |q| == n && q[..|p|] == p && Placement(n, q) && q[|p|] < c
    ensures q in Upto(n, p, c)
    decreases n - |p|, 0, c
  {
    if q[|p|] == c - 1 {
      var p2 := p + [c - 1];
      assert q[..|p2|] == p2;
      assert Safe(p, c - 1) by {
        forall i | 0 <= i < |p| ensures p[i] != c - 1 && i + p[i] != |p| + c - 1 && i - p[i] != |p| - (c - 1) {
          assert p[i] == q[i];
        }
      }
      CompletionsComplete(n, p2, q);
    } else {
      UptoComplete(n, p, c - 1, q);
    }
  }

  /** No board is printed twice: two boards found from the same queens first differ in row |p|. */
  lemma {:induction false} CompletionsDistinct(n: nat, p: seq<int>)
    requires Placement(n, p)
    ensures Distinct(Completions(n, p))
    decreases n - |p|, 1, 0
  {
    if |p| < n {
      UptoDistinct(n, p, n);
    }
  }

  ghost predicate Distinct(s: seq<seq<int>>) {
    forall i, j :: 0 <= i < j < |s| ==> s[i] != s[j]
  }

  lemma {:induction false} UptoDistinct(n: nat, p: seq<int>, c: nat)
    requires Placement(n, p) && |p| < n && c <= n
    ensures Distinct(Upto(n, p, c))
    decreases n - |p|, 0, c
  {
    if c > 0 {
      UptoDistinct(n, p, c - 1);
      if Safe(p, c - 1) {
        ColumnDistinct(n, p, c - 1, p + [c - 1]);
      }
    }
  }

  /** The boards through column c are distinct among themselves and from those of earlier columns. */
  lemma ColumnDistinct(n: nat, p: seq<int>, c: nat, p2: seq<int>)
    requires Placement(n, p) && |p| < n && c < n && Safe(p, c) && p2 == p + [c]
    requires Distinct(Upto(n, p, c))
    ensures Distinct(Upto(n, p, c) + Completions(n, p2))
    decreases n - |p|, 0, 0
  {
    PlacementExtend(n, p, c);
    CompletionsDistinct(n, p2);
    var a, b := Upto(n, p, c), Completions(n, p2);
    forall x, y | x in a && y in b ensures x != y {
      Apart(n, p, c, x, y);
    }
    DistinctAppend(a, b);
  }

  lemma Apart(n: nat, p: seq<int>, c: nat, x: seq<int>, y: seq<int>)
    requires Placement(n, p) && |p| < n && c < n && Safe(p, c)
    requires x in Upto(n, p, c) && y in Completions(n, p + [c])
    ensures x != y
  {
    UptoSound(n, p, c, x);
    ColumnSound(n, p, c, y);
  }

  lemma DistinctAppend(a: seq<seq<int>>, b: seq<seq<int>>)
    requires Distinct(a) && Distinct(b) && forall x, y :: x in a && y in b ==> x != y
    ensures Distinct(a + b)
  {
    forall i, j | 0 <= i < j < |a + b| ensures (a + b)[i] != (a + b)[j] {
      if j < |a| {
      } else if i < |a| {
        assert (a + b)[i] in a && (a + b)[j] in b;
      } else {
        assert (a + b)[i] == b[i - |a|] && (a + b)[j] == b[j - |a|];
      }
    }
  }

  /** From the empty board, exactly the full non-attacking placements are printed, each once. */
  lemma Solutions(n: nat, q: seq<int>)
    ensures q in Completions(n, []) <==> |q| == n && Placement(n, q)
    ensures Distinct(Completions(n, []))
  {
    assert Placement(n, []);
    if q in Completions(n, []) {
      CompletionsSound(n, [], q);
    }
    if |q| == n && Placement(n, q) {
      assert q[..0] == [];
      CompletionsComplete(n, [], q);
    }
    CompletionsDistinct(n, []);
  }

  /** The globals of the section: N, the three flag arrays, the board and the solution counter. */
  class Board {
    const n: nat
    const cols: array<int>
    const d1: array<int>
    const d2: array<int>
    const board: array<int>
    var solutions: int
    /** The boards `print_board` has printed, in order (their rendering is not modelled). */
    var printed: seq<seq<int>>

    ghost predicate Valid()
      reads this
    {
      cols.Length == n && d1.Length == 2 * n && d2.Length == 2 * n && board.Length == n &&
      cols != d1 && cols != d2 && d1 != d2 &&
      board != cols && board != d1 && board != d2
    }

    /** `main`'s `calloc`s: every flag and board entry zero, no solution yet. */
    constructor (size: nat)
      ensures n == size && Valid() && fresh(cols) && fresh(d1) && fresh(d2) && fresh(board)
      ensures cols[..] == ColFlags(n, []) && d1[..] == D1Flags(n, []) && d2[..] == D2Flags(n, [])
      ensures solutions == 0 && printed == []
    {
      n := size;
      cols := new int[size](_ => 0);
      d1 := new int[2 * size](_ => 0);
      d2 := new int[2 * size](_ => 0);
      board := new int[size](_ => 0);
      solutions := 0;
      printed := [];
    }

    /** `print_board`: bumps the solution number and emits the board. */
    method PrintBoard()
      modifies this
      ensures solutions == old(solutions) + 1 && printed == old(printed) + [board[..]]
    {
      solutions := solutions + 1;
      printed := printed + [board[..]];
    }

    /** The flags describe exactly the queens of rows 0 .. r-1. */
    ghost predicate FlagsFor(p: seq<int>)
      requires Valid()
      reads this, cols, d1, d2
    {
      |p| <= n && InRange(n, p) &&
      cols[..] == ColFlags(n, p) && d1[..] == D1Flags(n, p) && d2[..] == D2Flags(n, p)
    }

    /**
     * `solve_row(r)`: prints every completion of the queens already on rows 0 .. r-1, in
     * order, counting each, and leaves the flags and those rows as it found them.
     */
    method SolveRow(r: int)
      requires Valid() && 0 <= r <= n && FlagsFor(board[..r])
      modifies this, cols, d1, d2, board
      ensures Valid() && board[..r] == old(board[..r])
      ensures cols[..] == old(cols[..]) && d1[..] == old(d1[..]) && d2[..] == old(d2[..])
      ensures printed == old(printed) + Completions(n, old(board[..r]))
      ensures solutions == old(solutions) + |Completions(n, old(board[..r]))|
      decreases n - r
    {
      if r == n {
        assert board[..] == board[..r];
        PrintBoard();
        return;
      }
      ghost var b0 := board[..r];
      for c := 0 to n
        invariant board[..r] == b0 && FlagsFor(b0)
        invariant printed == old(printed) + Upto(n, b0, c)
        invariant solutions == old(solutions) + |Upto(n, b0, c)|
      {
        FlagsTest(n, b0, c);
        ghost var before := printed;
        ghost var found: seq<seq<int>> := [];
        var free := cols[c] == 0 && d1[r + c] == 0 && d2[r - c + n - 1] == 0;
        assert free <==> Safe(b0, c);
        if free {
          TryColumn(r, c, b0);
          found := Completions(n, b0 + [c]);
        }
        assert printed == before + found;
        UptoStep(n, b0, c, found, old(printed), before);
      }
    }

    /** The body of the column loop for a free column: place, recurse, clear. */
    method TryColumn(r: int, c: int, ghost b0: seq<int>)
      requires Valid() && 0 <= r < n && 0 <= c < n && board[..r] == b0 && FlagsFor(b0)
      requires cols[c] == 0 && d1[r + c] == 0 && d2[r - c + n - 1] == 0
      modifies this, cols, d1, d2, board
      ensures Valid() && board[..r] == b0 && FlagsFor(b0)
      ensures printed == old(printed) + Completions(n, b0 + [c])
      ensures solutions == old(solutions) + |Completions(n, b0 + [c])|
      decreases n - r, 0
    {
      ghost var p2 := b0 + [c];
      FlagsPlace(n, b0, c, p2);
      ghost var f1, f2, f3, bd := cols[..], d1[..], d2[..], board[..];
      Place(r, c);
      assert board[..r + 1] == bd[r := c][..r + 1] == p2;
      SolveRow(r + 1);
      ghost var bd2 := board[..];
      Unplace(r, c);
      Reset(f1, c);
      Reset(f2, r + c);
      Reset(f3, r - c + n - 1);
      assert board[..r] == bd2[..r + 1][..r];
    }

    /** `cols[c] = d1[r+c] = d2[r-c+N-1] = 1; board[r] = c;` */
    method Place(r: int, c: int)
      requires Valid() && 0 <= r < n && 0 <= c < n
      modifies cols, d1, d2, board
      ensures cols[..] == old(cols[..])[c := 1] && d1[..] == old(d1[..])[r + c := 1]
      ensures d2[..] == old(d2[..])[r - c + n - 1 := 1] && board[..] == old(board[..])[r := c]
    {
      cols[c], d1[r + c], d2[r - c + n - 1] := 1, 1, 1;
      board[r] := c;
    }

    /** `cols[c] = d1[r+c] = d2[r-c+N-1] = 0;` */
    method Unplace(r: int, c: int)
      requires Valid() && 0 <= r < n && 0 <= c < n
      modifies cols, d1, d2
      ensures cols[..] == old(cols[..])[c := 0] && d1[..] == old(d1[..])[r + c := 0]
      ensures d2[..] == old(d2[..])[r - c + n - 1 := 0]
    {
      cols[c], d1[r + c], d2[r - c + n - 1] := 0, 0, 0;
    }
  }

  /** Clearing the flag that placing a queen had set gives back the flags from before. */
  lemma Reset(f: seq<int>, k: int)
    requires 0 <= k < |f| && f[k] == 0
    ensures f[k := 1][k := 0] == f
  {
  }

  /**
   * `main`'s `solve_row(0)` from the freshly zeroed globals: the printed boards are all the
   * solutions, and "No solutions" is printed exactly when there are none.
   */
  method Solve(b: Board) returns (noSolutions: bool)
    requires b.Valid() && b.FlagsFor([])
    modifies b, b.cols, b.d1, b.d2, b.board
    ensures b.printed == old(b.printed) + Completions(b.n, [])
    ensures b.solutions == old(b.solutions) + |Completions(b.n, [])|
    ensures noSolutions <==> b.solutions == 0
  {
    assert b.board[..0] == [];
    b.SolveRow(0);
    noSolutions := b.solutions == 0;
  }
}
