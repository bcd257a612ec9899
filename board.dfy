/** The board object: N and an N×N array of cells that `Move` updates in
    place. Its value is `Contents()`, and every query is specified through
    the pure functions of Grids, GridState and GridText. */
module Boards {
  import opened Grids
  import opened GridState
  import opened GridText

  class Board {
    const N: nat
    const cells: array2<Cell>

    predicate Valid() {
      cells.Length0 == N && cells.Length1 == N
    }

    /** The grid the array currently holds. */
    function Contents(): (g: Grid)
      requires Valid()
      reads cells
      ensures Square(g) && |g| == N
    {
      seq(N, i requires 0 <= i < N reads cells =>
        seq(N, j requires 0 <= j < N reads cells => cells[i, j]))
    }

    /** Cell (i, j) of the grid is the array's entry (i, j). */
    lemma ContentsAt()
      requires Valid()
      ensures forall i, j :: 0 <= i < N && 0 <= j < N ==> Contents()[i][j] == cells[i, j]
    {
    }

    /** A board built without a grid: N×N, every cell empty. */
    constructor Empty(n: nat)
      ensures Valid() && N == n && fresh(cells)
      ensures AllEmpty(Contents()) && Empties(Contents()) == n * n
    {
      N := n;
      cells := new Cell[n, n]((i, j) => 0);
      new;
      AllEmptyCount(Contents());
    }

    /** A board over a given square array (shared, not copied); N is its
        first dimension. */
    constructor Of(a: array2<Cell>)
      requires a.Length0 == a.Length1
      ensures Valid() && cells == a && N == a.Length0
    {
      N := a.Length0;
      cells := a;
    }

    /** The guarded move: it succeeds exactly when (row, col) is on the
        board and empty; then that cell alone becomes p, otherwise nothing
        changes. */
    method Move(row: int, col: int, p: Player) returns (ok: bool)
      requires Valid()
      modifies cells
      ensures ok <==> Legal(old(Contents()), Action(row, col))
      ensures Contents() == if ok then Place(old(Contents()), Action(row, col), p) else old(Contents())
    {
      ghost var g := Contents();
      ok := false;
      if 0 <= row < N && 0 <= col < N && cells[row, col] == 0 {
        cells[row, col] := p;
        ok := true;
        SameCells(Contents(), Place(g, Action(row, col), p));
      } else {
        SameCells(Contents(), g);
      }
    }

    /** The win test as the source writes it, and its meaning: p owns one
        of the 2N+2 lines of the board. */
    predicate IsWinner(p: Cell)
      requires Valid()
      reads cells
      ensures IsWinner(p) <==> exists k :: 0 <= k < |Lines(N)| && Owns(Contents(), Lines(N)[k], p)
    {
      WinsIffOwnsLine(Contents(), p);
      Wins(Contents(), p)
    }

    /** No cell is empty, equivalently no move is left to enumerate. */
    predicate IsFinished()
      requires Valid()
      reads cells
      ensures IsFinished() <==> EmptyCells(Contents()) == []
      ensures IsFinished() <==> forall r, c :: 0 <= r < N && 0 <= c < N ==> cells[r, c] != 0
    {
      ContentsAt();
      NoEmptyCellsIffFull(Contents());
      Full(Contents())
    }

    /** The state key: the cells in row-major order. */
    function GetState(): (s: seq<Cell>)
      requires Valid()
      reads cells
      ensures |s| == N * N
      ensures forall r, c :: 0 <= r < N && 0 <= c < N ==> Index(N, r, c) < |s| && s[Index(N, r, c)] == cells[r, c]
    {
      StateLayout(Contents());
      State(Contents())
    }

    /** The layout of the rendering, read off the cells: TextLayout with the
        grid's entries replaced by the cells they copy. */
    lemma TextOfCells()
      requires Valid() && N > 0
      ensures |Text(Contents())| == 4 * N * N - 2 * N - 1
      ensures forall r, c :: 0 <= r < N && 0 <= c < N ==>
        CellPos(N, r, c) < |Text(Contents())| && Text(Contents())[CellPos(N, r, c)] == Symbols[cells[r, c]]
      ensures forall r, c :: 0 <= r < N && 0 <= c < N - 1 ==>
        CellPos(N, r, c) + 1 < |Text(Contents())| && Text(Contents())[CellPos(N, r, c) + 1] == '|'
      ensures forall r, j :: 0 <= r < N - 1 && 0 <= j < |Rule(N)| ==>
        0 <= RulePos(N, r, j) < |Text(Contents())| && Text(Contents())[RulePos(N, r, j)] == Rule(N)[j]
    {
      var g := Contents();
      assert |g| == N;
      TextLength(g);
      forall r, c | 0 <= r < N && 0 <= c < N
        ensures CellPos(N, r, c) < |Text(g)| && Text(g)[CellPos(N, r, c)] == Symbols[cells[r, c]]
        ensures c + 1 < N ==> CellPos(N, r, c) + 1 < |Text(g)| && Text(g)[CellPos(N, r, c) + 1] == '|'
      {
        TextAt(g, r, c);
        assert g[r][c] == cells[r, c];
      }
      forall r, j | 0 <= r < N - 1 && 0 <= j < |Rule(N)|
        ensures 0 <= RulePos(N, r, j) < |Text(g)| && Text(g)[RulePos(N, r, j)] == Rule(N)[j]
      {
        RuleAt(g, r, j);
      }
    }

    /** The text rendering: for N ≥ 1, 4N²-2N-1 characters; the symbol of
        cell (r, c) at position 4N·r + 2c, followed by '|' unless c is the
        last column; and below every row but the last, the rule (newline, N
        dashes joined by '+', newline). The 0×0 board renders as the empty
        string, a join over no rows. */
    function GetText(): (t: string)
      requires Valid()
      reads cells
      ensures N > 0 ==> |t| == 4 * N * N - 2 * N - 1
      ensures N > 0 ==> forall r, c :: 0 <= r < N && 0 <= c < N ==>
        CellPos(N, r, c) < |t| && t[CellPos(N, r, c)] == Symbols[cells[r, c]]
      ensures N > 0 ==> forall r, c :: 0 <= r < N && 0 <= c < N - 1 ==>
        CellPos(N, r, c) + 1 < |t| && t[CellPos(N, r, c) + 1] == '|'
      ensures N > 0 ==> forall r, j :: 0 <= r < N - 1 && 0 <= j < |Rule(N)| ==>
        0 <= RulePos(N, r, j) < |t| && t[RulePos(N, r, j)] == Rule(N)[j]
      ensures N == 0 ==> t == ""
    {
      if N > 0 then TextOfCells(); Text(Contents()) else Text(Contents())
    }

    /** A deep copy: an equal grid in fresh storage, so that later writes to
        either board leave the other unchanged. */
    method Copy() returns (b: Board)
      requires Valid()
      ensures fresh(b) && fresh(b.cells) && b.Valid() && b.N == N
      ensures b.Contents() == Contents()
    {
      var a := new Cell[N, N]((i, j) reads cells requires 0 <= i < N && 0 <= j < N => cells[i, j]);
      b := new Board.Of(a);
      SameCells(b.Contents(), Contents());
    }

    /** A copy of this board with (row, col) set to p. */
    method Successor(row: nat, col: nat, p: Player) returns (b: Board)
      requires Valid() && row < N && col < N
      ensures fresh(b.cells) && b.Valid()
      ensures b.Contents() == Place(Contents(), Action(row, col), p)
    {
      b := Copy();
      b.cells[row, col] := p;
      SameCells(b.Contents(), Place(Contents(), Action(row, col), p));
    }

    /** The inner loop of the enumeration: the successors for the empty
        cells of one row of g, the grid this board holds, appended in column
        order, each in fresh storage. */
    method AppendRow(ghost g: Grid, row: nat, p: Player, cands: seq<(Action, Board)>) returns (cands': seq<(Action, Board)>)
      requires Valid() && g == Contents() && row < N
      requires Enumerated(g, row, 0, Actions(cands))
      requires Built(g, p, cands)
      ensures Enumerated(g, row + 1, 0, Actions(cands'))
      ensures Built(g, p, cands')
      ensures |cands| <= |cands'| && cands'[..|cands|] == cands
      ensures forall k :: |cands| <= k < |cands'| ==> fresh(cands'[k].1.cells)
    {
      cands' := cands;
      for col := 0 to N
        invariant Enumerated(g, row, col, Actions(cands'))
        invariant Built(g, p, cands')
        invariant |cands| <= |cands'| && cands'[..|cands|] == cands
        invariant forall k :: |cands| <= k < |cands'| ==> fresh(cands'[k].1.cells)
      {
        cands' := Visit(g, row, col, p, cands');
      }
    }

    /** One step of the inner loop: a successor is appended exactly when
        (row, col) is empty. */
    method Visit(ghost g: Grid, row: nat, col: nat, p: Player, cands: seq<(Action, Board)>) returns (cands': seq<(Action, Board)>)
      requires Valid() && g == Contents() && row < N && col < N
      requires Enumerated(g, row, col, Actions(cands))
      requires Built(g, p, cands)
      ensures Enumerated(g, row, col + 1, Actions(cands'))
      ensures Built(g, p, cands')
      ensures |cands| <= |cands'| && cands'[..|cands|] == cands
      ensures forall k :: |cands| <= k < |cands'| ==> fresh(cands'[k].1.cells)
    {
      EnumerateStep(g, p, row, col, Actions(cands));
      cands' := cands;
      if cells[row, col] == 0 {
        var b := Successor(row, col, p);
        assert Actions(cands + [(Action(row, col), b)]) == Actions(cands) + [Action(row, col)];
        cands' := cands + [(Action(row, col), b)];
      }
    }

    /** The successors for p: one entry per empty cell, in row-major order,
        each a board equal to this one with that cell set to p, held in
        storage other than this board's (new arrays, by AppendRow). This
        board is left as it was. */
    method GetCandidates(p: Player) returns (cands: seq<(Action, Board)>)
      requires Valid()
      ensures |cands| == |Candidates(Contents(), p)|
      ensures forall k :: 0 <= k < |cands| ==>
        cands[k].0 == Candidates(Contents(), p)[k].action && cands[k].1.cells != cells &&
        cands[k].1.Valid() && cands[k].1.Contents() == Candidates(Contents(), p)[k].grid
    {
      ghost var g := Contents();
      cands := [];
      for row := 0 to N
        invariant Enumerated(g, row, 0, Actions(cands))
        invariant Built(g, p, cands)
        invariant forall k :: 0 <= k < |cands| ==> cands[k].1.cells != cells
      {
        cands := AppendRow(g, row, p, cands);
      }
      EnumerationDone(g, p, cands);
    }
  }

  /** Each listed board is the candidate grid of g at its position. */
  ghost predicate Built(g: Grid, p: Player, cands: seq<(Action, Board)>)
    requires Square(g)
    reads set k | 0 <= k < |cands| :: cands[k].1, set k | 0 <= k < |cands| :: cands[k].1.cells
  {
    forall k :: 0 <= k < |cands| ==>
      k < |Candidates(g, p)| && cands[k].1.Valid() && cands[k].1.Contents() == Candidates(g, p)[k].grid
  }

  function Actions(cands: seq<(Action, Board)>): (acts: seq<Action>)
    ensures |acts| == |cands| && forall k :: 0 <= k < |cands| ==> acts[k] == cands[k].0
  {
    seq(|cands|, k requires 0 <= k < |cands| => cands[k].0)
  }

  /** `acts` lists the empty cells of g before (row, col), in row-major
      order; the cells from (row, col) on are still to come. */
  ghost predicate Enumerated(g: Grid, row: nat, col: nat, acts: seq<Action>)
    requires Square(g) && row <= |g| && col <= |g|
  {
    acts + EmptyCellsFrom(g, row, col) == EmptyCells(g)
  }

  /** The whole grid enumerated: the listed actions are the candidates'. */
  lemma EnumerationDone(g: Grid, p: Player, cands: seq<(Action, Board)>)
    requires Square(g) && Enumerated(g, |g|, 0, Actions(cands))
    ensures |cands| == |Candidates(g, p)|
    ensures forall k :: 0 <= k < |cands| ==> cands[k].0 == Candidates(g, p)[k].action
  {
    assert Actions(cands) == EmptyCells(g);
  }

  /** One cell of the enumeration: an empty cell is the next candidate and
      joins the listed actions; a filled one is skipped. */
  lemma EnumerateStep(g: Grid, p: Player, row: nat, col: nat, acts: seq<Action>)
    requires Square(g) && row < |g| && col < |g| && Enumerated(g, row, col, acts)
    ensures g[row][col] == 0 ==>
      |acts| < |Candidates(g, p)| &&
      Candidates(g, p)[|acts|].grid == Place(g, Action(row, col), p) &&
      Enumerated(g, row, col + 1, acts + [Action(row, col)])
    ensures g[row][col] != 0 ==> Enumerated(g, row, col + 1, acts)
  {
    if g[row][col] == 0 {
      assert EmptyCellsFrom(g, row, col) == [Action(row, col)] + EmptyCellsFrom(g, row, col + 1);
      assert EmptyCells(g)[|acts|] == Action(row, col);
      assert (acts + [Action(row, col)]) + EmptyCellsFrom(g, row, col + 1) == EmptyCells(g);
    }
  }
}
