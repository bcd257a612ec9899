/** Pure logic over the value of an N×N tic-tac-toe grid: cells, legal
    placements, the win and fullness tests, and the row-major enumeration of
    empty cells and successor grids. The Board class (board.dfy) stores a grid
    in an array and is specified through these functions. */
module Grids {

  /** A cell: 0 is empty, 1 and 2 are the two players' marks. */
  type Cell = c: int | 0 <= c <= 2

  /** A player identity, the value a move writes into a cell. */
  type Player = c: int | c == 1 || c == 2 witness 1

  /** The other player. */
  function Other(p: Player): (q: Player)
    ensures q != p
  {
    if p == 1 then 2 else 1
  }

  /** Rows of cells; a board's grid is square (see Square). */
  type Grid = seq<seq<Cell>>

  /** A proposed move (row, col); it need not be on the grid. */
  datatype Action = Action(row: int, col: int)

  /** A successor: the action taken and the grid it leads to. */
  datatype Candidate = Candidate(action: Action, grid: Grid)

  predicate Square(g: Grid) {
    forall i :: 0 <= i < |g| ==> |g[i]| == |g|
  }

  predicate InRange(g: Grid, a: Action) {
    0 <= a.row < |g| && 0 <= a.col < |g|
  }

  /** The guard of a move: on the grid and on an empty cell. */
  predicate Legal(g: Grid, a: Action)
    requires Square(g)
  {
    InRange(g, a) && g[a.row][a.col] == 0
  }

  /** The grid with cell `a` set to `p`, every other cell as it was. */
  function Place(g: Grid, a: Action, p: Cell): (h: Grid)
    requires Square(g) && InRange(g, a)
    ensures Square(h) && |h| == |g|
    ensures h[a.row][a.col] == p
    ensures forall i, j :: 0 <= i < |g| && 0 <= j < |g| && (i != a.row || j != a.col) ==> h[i][j] == g[i][j]
  {
    var row: seq<Cell> := g[a.row][a.col := p];
    g[a.row := row]
  }

  /** One step of a product: (k + 1)·w = k·w + w. */
  lemma MulSucc(k: nat, w: nat)
    ensures (k + 1) * w == k * w + w
  {
  }

  /** Square grids of one size with the same cells are equal. */
  lemma SameCells(g: Grid, h: Grid)
    requires Square(g) && Square(h) && |g| == |h|
    requires forall i, j :: 0 <= i < |g| && 0 <= j < |g| ==> g[i][j] == h[i][j]
    ensures g == h
  {
    assert forall i :: 0 <= i < |g| ==> g[i] == h[i];
  }

  // ---------------------------------------------------------------------------
  // Winning: a full row, a full column, or either full diagonal.

  predicate RowOf(g: Grid, r: int, p: Cell)
    requires Square(g) && 0 <= r < |g|
  {
    forall c :: 0 <= c < |g| ==> g[r][c] == p
  }

  predicate ColOf(g: Grid, c: int, p: Cell)
    requires Square(g) && 0 <= c < |g|
  {
    forall r :: 0 <= r < |g| ==> g[r][c] == p
  }

  /** The main diagonal (i, i). */
  predicate DiagOf(g: Grid, p: Cell)
    requires Square(g)
  {
    forall i :: 0 <= i < |g| ==> g[i][i] == p
  }

  /** The anti-diagonal: the cells (i, j) with i + j == N - 1. */
  predicate AntiOf(g: Grid, p: Cell)
    requires Square(g)
  {
    forall i, j :: 0 <= i < |g| && 0 <= j < |g| && i + j == |g| - 1 ==> g[i][j] == p
  }

  /** The win test, clause by clause as the source evaluates it. On a 0×0
      grid both diagonal tests hold vacuously, so every player "wins". */
  predicate Wins(g: Grid, p: Cell)
    requires Square(g)
  {
    || (exists r :: 0 <= r < |g| && RowOf(g, r, p))
    || (exists c :: 0 <= c < |g| && ColOf(g, c, p))
    || DiagOf(g, p)
    || AntiOf(g, p)
  }

  /** Line k of an N×N grid as a list of cells: rows 0..N-1, then columns
      0..N-1, then the main diagonal, then the anti-diagonal. */
  function Line(n: nat, k: nat): (l: seq<Action>)
    requires k < 2 * n + 2
    ensures |l| == n
  {
    if k < n then seq(n, c => Action(k, c))
    else if k < 2 * n then seq(n, r => Action(r, k - n))
    else if k == 2 * n then seq(n, i => Action(i, i))
    else seq(n, i => Action(n - 1 - i, i))
  }

  /** The 2N+2 lines of an N×N grid. This is an independent account of what
      a line is, also used to explain the legacy heuristic table. */
  function Lines(n: nat): (ls: seq<seq<Action>>)
    ensures |ls| == 2 * n + 2
    ensures forall k :: 0 <= k < |ls| ==> ls[k] == Line(n, k)
  {
    seq(2 * n + 2, k requires 0 <= k < 2 * n + 2 => Line(n, k))
  }

  /** Every cell of `line` is on the grid and holds p. */
  predicate Owns(g: Grid, line: seq<Action>, p: Cell)
    requires Square(g)
  {
    forall k :: 0 <= k < |line| ==> InRange(g, line[k]) && g[line[k].row][line[k].col] == p
  }

  /** A line owned by p makes p win. */
  lemma OwnedLineWins(g: Grid, p: Cell, k: nat)
    requires Square(g) && k < 2 * |g| + 2 && Owns(g, Line(|g|, k), p)
    ensures Wins(g, p)
  {
    var n := |g|;
    var l := Line(n, k);
    if k < n {
      forall c | 0 <= c < n ensures g[k][c] == p {
        assert l[c] == Action(k, c);
      }
      assert RowOf(g, k, p);
    } else if k < 2 * n {
      forall r | 0 <= r < n ensures g[r][k - n] == p {
        assert l[r] == Action(r, k - n);
      }
      assert ColOf(g, k - n, p);
    } else if k == 2 * n {
      forall i | 0 <= i < n ensures g[i][i] == p {
        assert l[i] == Action(i, i);
      }
    } else {
      forall i, j | 0 <= i < n && 0 <= j < n && i + j == n - 1 ensures g[i][j] == p {
        assert l[j] == Action(i, j);
      }
      assert AntiOf(g, p);
    }
  }

  /** A win names a line p owns. */
  lemma WinningLine(g: Grid, p: Cell) returns (k: nat)
    requires Square(g) && Wins(g, p)
    ensures k < 2 * |g| + 2 && Owns(g, Line(|g|, k), p)
  {
    var n := |g|;
    if exists r :: 0 <= r < n && RowOf(g, r, p) {
      var r :| 0 <= r < n && RowOf(g, r, p);
      k := r;
    } else if exists c :: 0 <= c < n && ColOf(g, c, p) {
      var c :| 0 <= c < n && ColOf(g, c, p);
      k := n + c;
    } else if DiagOf(g, p) {
      k := 2 * n;
    } else {
      k := 2 * n + 1;
      var l := Line(n, k);
      forall i | 0 <= i < n ensures InRange(g, l[i]) && g[l[i].row][l[i].col] == p {
        assert l[i] == Action(n - 1 - i, i);
      }
    }
  }

  /** The win test agrees with "p owns one of the lines", both ways. */
  lemma WinsIffOwnsLine(g: Grid, p: Cell)
    requires Square(g)
    ensures Wins(g, p) <==> exists k :: 0 <= k < |Lines(|g|)| && Owns(g, Lines(|g|)[k], p)
  {
    var ls := Lines(|g|);
    if Wins(g, p) {
      var k := WinningLine(g, p);
      assert Owns(g, ls[k], p);
    }
    if exists k :: 0 <= k < |ls| && Owns(g, ls[k], p) {
      var k :| 0 <= k < |ls| && Owns(g, ls[k], p);
      OwnedLineWins(g, p, k);
    }
  }

  /** A line p owns stays owned after a legal placement elsewhere, so a win,
      once there, survives every later legal move. */
  lemma WinPersists(g: Grid, a: Action, p: Cell, q: Player)
    requires Square(g) && Legal(g, a) && p != 0 && Wins(g, p)
    ensures Wins(Place(g, a, q), p)
  {
    var h := Place(g, a, q);
    var n := |g|;
    WinsIffOwnsLine(g, p);
    var k :| 0 <= k < |Lines(n)| && Owns(g, Lines(n)[k], p);
    assert Owns(h, Lines(n)[k], p);
    WinsIffOwnsLine(h, p);
  }

  // ---------------------------------------------------------------------------
  // Fullness and the empty cells.

  /** No cell is empty. Says nothing about winners. */
  predicate Full(g: Grid)
    requires Square(g)
  {
    forall r, c :: 0 <= r < |g| && 0 <= c < |g| ==> g[r][c] != 0
  }

  predicate AllEmpty(g: Grid)
    requires Square(g)
  {
    forall r, c :: 0 <= r < |g| && 0 <= c < |g| ==> g[r][c] == 0
  }

  /** Strict row-major order on cells. */
  predicate Before(a: Action, b: Action) {
    a.row < b.row || (a.row == b.row && a.col < b.col)
  }

  /** `a` is (r, c) or comes after it in row-major order. */
  predicate AtOrAfter(a: Action, r: int, c: int) {
    a.row > r || (a.row == r && a.col >= c)
  }

  /** The empty cells from (r, c) on, in row-major order: the nested loops
      over rows and columns of the candidate enumeration. */
  function EmptyCellsFrom(g: Grid, r: nat, c: nat): (e: seq<Action>)
    requires Square(g) && r <= |g| && c <= |g|
    decreases |g| - r, |g| - c
    ensures forall k :: 0 <= k < |e| ==> Legal(g, e[k]) && AtOrAfter(e[k], r, c)
    ensures forall a :: Legal(g, a) && AtOrAfter(a, r, c) ==> a in e
    ensures forall i, j :: 0 <= i < j < |e| ==> Before(e[i], e[j])
  {
    if r == |g| then []
    else if c == |g| then EmptyCellsFrom(g, r + 1, 0)
    else if g[r][c] == 0 then [Action(r, c)] + EmptyCellsFrom(g, r, c + 1)
    else EmptyCellsFrom(g, r, c + 1)
  }

  function EmptyCells(g: Grid): seq<Action>
    requires Square(g)
  {
    EmptyCellsFrom(g, 0, 0)
  }

  /** The number of empty cells: the termination measure of every search.
      It is the length of EmptyCells (EmptiesLength). */
  function Empties(g: Grid): nat
    requires Square(g)
  {
    CountFrom(g, 0, 0)
  }

  lemma EmptiesLength(g: Grid)
    requires Square(g)
    ensures |EmptyCells(g)| == Empties(g)
  {
    CountFromLength(g, 0, 0);
  }

  /** The empty cells, exactly: each listed cell is legal, each legal cell is
      listed, and the list is strictly row-major (so no cell twice). */
  lemma EmptyCellsExact(g: Grid)
    requires Square(g)
    ensures forall a :: a in EmptyCells(g) <==> Legal(g, a)
    ensures forall i, j :: 0 <= i < j < |EmptyCells(g)| ==> Before(EmptyCells(g)[i], EmptyCells(g)[j])
  {
    var e := EmptyCells(g);
    forall a | Legal(g, a) ensures a in e {
      assert AtOrAfter(a, 0, 0);
    }
  }

  /** There is nothing left to enumerate exactly when the grid is full. */
  lemma NoEmptyCellsIffFull(g: Grid)
    requires Square(g)
    ensures EmptyCells(g) == [] <==> Full(g)
    ensures Empties(g) == 0 <==> Full(g)
  {
    EmptiesLength(g);
    if !Full(g) {
      var r, c :| 0 <= r < |g| && 0 <= c < |g| && g[r][c] == 0;
      assert Legal(g, Action(r, c)) && AtOrAfter(Action(r, c), 0, 0);
    }
    if EmptyCells(g) != [] {
      assert Legal(g, EmptyCells(g)[0]);
    }
  }

  lemma EmptyCellsStep(g: Grid, r: nat, c: nat)
    requires Square(g) && r < |g| && c <= |g|
    ensures |EmptyCellsFrom(g, r, c)| ==
      if c == |g| then |EmptyCellsFrom(g, r + 1, 0)|
      else (if g[r][c] == 0 then 1 else 0) + |EmptyCellsFrom(g, r, c + 1)|
  {
  }

  /** The number of empty cells from (r, c) on, counted in the same order
      as EmptyCellsFrom lists them. */
  function CountFrom(g: Grid, r: nat, c: nat): nat
    requires Square(g) && r <= |g| && c <= |g|
    decreases |g| - r, |g| - c
  {
    if r == |g| then 0
    else if c == |g| then CountFrom(g, r + 1, 0)
    else (if g[r][c] == 0 then 1 else 0) + CountFrom(g, r, c + 1)
  }

  lemma {:induction false} CountFromLength(g: Grid, r: nat, c: nat)
    requires Square(g) && r <= |g| && c <= |g|
    decreases |g| - r, |g| - c
    ensures |EmptyCellsFrom(g, r, c)| == CountFrom(g, r, c)
  {
    if r < |g| {
      EmptyCellsStep(g, r, c);
      if c == |g| {
        CountFromLength(g, r + 1, 0);
      } else {
        CountFromLength(g, r, c + 1);
      }
    }
  }

  /** h is g with the empty cell a filled and nothing else changed. */
  predicate FilledAt(g: Grid, h: Grid, a: Action)
    requires Square(g) && Square(h) && |h| == |g| && InRange(g, a)
  {
    h[a.row][a.col] != 0 &&
    forall i, j :: 0 <= i < |g| && 0 <= j < |g| && (i != a.row || j != a.col) ==> h[i][j] == g[i][j]
  }

  lemma {:induction false} CountFromFill(g: Grid, h: Grid, a: Action, r: nat, c: nat)
    requires Square(g) && Square(h) && |h| == |g| && Legal(g, a) && FilledAt(g, h, a)
    requires r <= |g| && c <= |g|
    decreases |g| - r, |g| - c
    ensures CountFrom(h, r, c) == CountFrom(g, r, c) - (if AtOrAfter(a, r, c) && r < |g| then 1 else 0)
  {
    if r < |g| {
      if c == |g| {
        CountFromFill(g, h, a, r + 1, 0);
      } else {
        assert h[r][c] == 0 <==> g[r][c] == 0 && (r != a.row || c != a.col);
        CountFromFill(g, h, a, r, c + 1);
      }
    }
  }

  /** A legal placement uses up exactly one empty cell. */
  lemma EmptiesAfterPlace(g: Grid, a: Action, p: Player)
    requires Square(g) && Legal(g, a)
    ensures Empties(Place(g, a, p)) == Empties(g) - 1
  {
    CountFromFill(g, Place(g, a, p), a, 0, 0);
  }

  lemma {:induction false} CountFromBound(g: Grid, r: nat, c: nat)
    requires Square(g) && r < |g| && c <= |g|
    decreases |g| - r, |g| - c
    ensures CountFrom(g, r, c) <= (|g| - r) * |g| - c
  {
    if c == |g| {
      if r + 1 < |g| {
        MulSucc(|g| - r - 1, |g|);
        CountFromBound(g, r + 1, 0);
      }
    } else {
      CountFromBound(g, r, c + 1);
    }
  }

  /** At most N·N cells can be empty. */
  lemma EmptiesBound(g: Grid)
    requires Square(g)
    ensures Empties(g) <= |g| * |g|
  {
    if |g| > 0 {
      CountFromBound(g, 0, 0);
    }
  }

  lemma {:induction false} AllEmptyFrom(g: Grid, r: nat, c: nat)
    requires Square(g) && AllEmpty(g) && r < |g| && c <= |g|
    decreases |g| - r, |g| - c
    ensures CountFrom(g, r, c) == (|g| - r) * |g| - c
  {
    if c == |g| {
      if r + 1 < |g| {
        MulSucc(|g| - r - 1, |g|);
        AllEmptyFrom(g, r + 1, 0);
      }
    } else {
      AllEmptyFrom(g, r, c + 1);
    }
  }

  /** On an empty N×N grid all N·N cells are open. */
  lemma AllEmptyCount(g: Grid)
    requires Square(g) && AllEmpty(g)
    ensures Empties(g) == |g| * |g|
  {
    if |g| > 0 {
      AllEmptyFrom(g, 0, 0);
    }
  }

  // ---------------------------------------------------------------------------
  // Successors.

  /** One successor per empty cell, in row-major order, each the grid with
      only that cell set to p. */
  function Candidates(g: Grid, p: Player): (cs: seq<Candidate>)
    requires Square(g)
    ensures |cs| == |EmptyCells(g)| == Empties(g)
    ensures forall k :: 0 <= k < |cs| ==> cs[k].action == EmptyCells(g)[k] && Legal(g, cs[k].action)
    ensures forall k :: 0 <= k < |cs| ==> cs[k].grid == Place(g, cs[k].action, p)
  {
    EmptiesLength(g);
    var e := EmptyCells(g);
    seq(|e|, k requires 0 <= k < |e| => Candidate(e[k], Place(g, e[k], p)))
  }

  /** What the successor list promises: each successor is square, has one
      empty cell fewer, and the list is empty exactly when the grid is full. */
  lemma CandidatesShrink(g: Grid, p: Player)
    requires Square(g)
    ensures forall k :: 0 <= k < |Candidates(g, p)| ==>
      Square(Candidates(g, p)[k].grid) && Empties(Candidates(g, p)[k].grid) == Empties(g) - 1
    ensures Candidates(g, p) == [] <==> Full(g)
  {
    var cs := Candidates(g, p);
    forall k | 0 <= k < |cs| ensures Empties(cs[k].grid) == Empties(g) - 1 {
      EmptiesAfterPlace(g, cs[k].action, p);
    }
    NoEmptyCellsIffFull(g);
  }

  /** Every legal action has its successor in the list. */
  lemma CandidateFor(g: Grid, p: Player, a: Action) returns (k: nat)
    requires Square(g) && Legal(g, a)
    ensures k < |Candidates(g, p)| && Candidates(g, p)[k].action == a
  {
    EmptyCellsExact(g);
    var e := EmptyCells(g);
    k :| 0 <= k < |e| && e[k] == a;
  }

  /** `h` is `g` with some empty cells filled in: cells never become empty
      again and never change owner. */
  predicate Extends(g: Grid, h: Grid)
    requires Square(g) && Square(h)
  {
    |g| == |h| && forall r, c :: 0 <= r < |g| && 0 <= c < |g| && g[r][c] != 0 ==> h[r][c] == g[r][c]
  }

  /** A legal placement only fills an empty cell. */
  lemma PlaceExtends(g: Grid, a: Action, p: Player)
    requires Square(g) && Legal(g, a)
    ensures Extends(g, Place(g, a, p))
  {
  }

  lemma ExtendsTrans(g: Grid, h: Grid, k: Grid)
    requires Square(g) && Square(h) && Square(k) && Extends(g, h) && Extends(h, k)
    ensures Extends(g, k)
  {
  }
}
