/** The legacy heuristic player, in its deterministic mode: a board is
    scored 100 when the player has a line and otherwise by a fixed 3×3
    weight table summed over the player's cells; a move is valued by a
    two-ply lookahead, its own score less nine tenths of the opponent's best
    reply score, and the move of the greatest (value, move) pair is played.
    Values are kept scaled by 10, as integers: 10·score - 9·reply. */
module Heuristic {
  import opened Grids
  import opened Boards
  import Search

  /** The weight of each cell of a 3×3 board. */
  const H: seq<seq<int>> := [[3, 2, 3], [2, 4, 2], [3, 2, 3]]

  /** The weight of cell (r, c) if p holds it, else 0. */
  function Weight(g: Grid, p: Cell, r: nat, c: nat): int
    requires Square(g) && |g| <= 3 && r < |g| && c < |g|
  {
    if g[r][c] == p then H[r][c] else 0
  }

  /** The weights of p's cells from (r, c) on, in row-major order. */
  function HeldFrom(g: Grid, p: Cell, r: nat, c: nat): int
    requires Square(g) && |g| <= 3 && r <= |g| && c <= |g|
    decreases |g| - r, |g| - c
  {
    if r == |g| then 0
    else if c == |g| then HeldFrom(g, p, r + 1, 0)
    else Weight(g, p, r, c) + HeldFrom(g, p, r, c + 1)
  }

  /** The weights of every cell of an n×n board from (r, c) on. */
  function AllFrom(n: nat, r: nat, c: nat): int
    requires n <= 3 && r <= n && c <= n
    decreases n - r, n - c
  {
    if r == n then 0
    else if c == n then AllFrom(n, r + 1, 0)
    else H[r][c] + AllFrom(n, r, c + 1)
  }

  /** The score of p on g: 100 for a line of p, else the weights of p's
      cells, which sum to at most 24; so it lies in 0..100. */
  function Score(g: Grid, p: Cell): (r: int)
    requires Square(g) && |g| <= 3
    ensures 0 <= r <= 100
  {
    if Wins(g, p) then 100
    else
      HeldBound(g, p, 0, 0);
      assert AllFrom(|g|, 0, 0) <= 100 by {
        assert |g| == 0 || |g| == 1 || |g| == 2 || |g| == 3;
      }
      HeldFrom(g, p, 0, 0)
  }

  // ---------------------------------------------------------------------------
  // The table counts lines.

  /** Cell (r, c) lies on line k of an n×n board (rows, then columns, then
      the main diagonal, then the anti-diagonal). */
  predicate OnLine(n: nat, k: nat, r: nat, c: nat) {
    if k < n then r == k
    else if k < 2 * n then c == k - n
    else if k == 2 * n then r == c
    else r + c == n - 1
  }

  lemma OnLineIff(n: nat, k: nat, r: nat, c: nat)
    requires k < 2 * n + 2 && r < n && c < n
    ensures OnLine(n, k, r, c) <==> Action(r, c) in Lines(n)[k]
  {
    var l := Line(n, k);
    if OnLine(n, k, r, c) {
      if k < n {
        assert l[c] == Action(r, c);
      } else if k < 2 * n {
        assert l[r] == Action(r, c);
      } else if k == 2 * n {
        assert l[r] == Action(r, c);
      } else {
        assert l[c] == Action(r, c);
      }
    }
  }

  /** The number of lines j with k <= j < 2n + 2 through (r, c). */
  function Through(n: nat, r: nat, c: nat, k: nat): nat
    requires k <= 2 * n + 2
    decreases 2 * n + 2 - k
  {
    if k == 2 * n + 2 then 0 else (if OnLine(n, k, r, c) then 1 else 0) + Through(n, r, c, k + 1)
  }

  /** The lines of an n×n board through (r, c), as the line list of the
      win test has them. */
  function LinesThrough(n: nat, r: nat, c: nat): (ks: set<nat>)
    requires r < n && c < n
  {
    set k | 0 <= k < 2 * n + 2 && Action(r, c) in Lines(n)[k]
  }

  lemma {:induction false} ThroughCounts(n: nat, r: nat, c: nat, k: nat)
    requires k <= 2 * n + 2
    decreases 2 * n + 2 - k
    ensures Through(n, r, c, k) == |set j | k <= j < 2 * n + 2 && OnLine(n, j, r, c)|
  {
    var later := set j | k <= j < 2 * n + 2 && OnLine(n, j, r, c);
    if k < 2 * n + 2 {
      ThroughCounts(n, r, c, k + 1);
      var rest := set j | k + 1 <= j < 2 * n + 2 && OnLine(n, j, r, c);
      if OnLine(n, k, r, c) {
        assert later == rest + {k};
      } else {
        assert later == rest;
      }
    } else {
      assert later == {};
    }
  }

  /** The lines through (r, c) are the ones OnLine names. */
  lemma LinesThroughOnLine(n: nat, r: nat, c: nat)
    requires r < n && c < n
    ensures LinesThrough(n, r, c) == set j | 0 <= j < 2 * n + 2 && OnLine(n, j, r, c)
  {
    forall j | 0 <= j < 2 * n + 2 {
      OnLineIff(n, j, r, c);
    }
  }

  /** The table's weight of each cell is the number of lines (rows,
      columns, diagonals) of the 3×3 board through it. */
  lemma WeightsCountLines()
    ensures forall r, c :: 0 <= r < 3 && 0 <= c < 3 ==> H[r][c] == |LinesThrough(3, r, c)|
  {
    forall r, c | 0 <= r < 3 && 0 <= c < 3 ensures H[r][c] == |LinesThrough(3, r, c)| {
      ThroughCounts(3, r, c, 0);
      LinesThroughOnLine(3, r, c);
      assert Through(3, r, c, 0) == H[r][c] by {
        assert r == 0 || r == 1 || r == 2;
        assert c == 0 || c == 1 || c == 2;
      }
    }
  }

  // ---------------------------------------------------------------------------
  // Bounds.

  lemma {:induction false} HeldBound(g: Grid, p: Cell, r: nat, c: nat)
    requires Square(g) && |g| <= 3 && r <= |g| && c <= |g|
    decreases |g| - r, |g| - c
    ensures 0 <= HeldFrom(g, p, r, c) <= AllFrom(|g|, r, c)
  {
    if r < |g| {
      if c == |g| {
        HeldBound(g, p, r + 1, 0);
      } else {
        HeldBound(g, p, r, c + 1);
      }
    }
  }

  /** A score without a line lies in 0..24, the sum of the table, so a
      board with a line of its player outscores every board without one. */
  lemma ScoreBounds(g: Grid, p: Cell)
    requires Square(g) && |g| <= 3
    ensures !Wins(g, p) ==> 0 <= Score(g, p) <= 24
    ensures Wins(g, p) ==> Score(g, p) == 100
  {
    HeldBound(g, p, 0, 0);
    assert AllFrom(|g|, 0, 0) <= 24 by {
      assert |g| == 0 || |g| == 1 || |g| == 2 || |g| == 3;
    }
  }

  lemma LineOutscores(g: Grid, p: Cell, h: Grid, q: Cell)
    requires Square(g) && |g| <= 3 && Square(h) && |h| <= 3
    requires Wins(g, p) && !Wins(h, q)
    ensures Score(h, q) < Score(g, p)
  {
    ScoreBounds(h, q);
  }

  // ---------------------------------------------------------------------------
  // The two-ply choice.

  /** Python's order on (value, (row, col)) pairs: by value, then by row,
      then by column. */
  predicate PairLe(x: (int, Action), y: (int, Action)) {
    || x.0 < y.0
    || (x.0 == y.0 && x.1.row < y.1.row)
    || (x.0 == y.0 && x.1.row == y.1.row && x.1.col <= y.1.col)
  }

  /** The greatest pair, as a left-to-right max keeps it. */
  function Best(s: seq<(int, Action)>): (b: (int, Action))
    requires |s| > 0
    ensures b in s && forall k :: 0 <= k < |s| ==> PairLe(s[k], b)
  {
    if |s| == 1 then s[0]
    else
      var b := Best(s[..|s| - 1]);
      assert forall k :: 0 <= k < |s| - 1 ==> s[k] == s[..|s| - 1][k];
      if PairLe(s[|s| - 1], b) then b else s[|s| - 1]
  }

  /** The scores for q of the successors of g for q. */
  function ReplyScores(g: Grid, q: Player): (s: seq<int>)
    requires Square(g) && |g| <= 3
    ensures |s| == |Candidates(g, q)|
  {
    var cs := Candidates(g, q);
    CandidatesShrink(g, q);
    seq(|cs|, k requires 0 <= k < |cs| => Score(cs[k].grid, q))
  }

  /** The scaled value of p's successor h: 10·(p's score) less 9·(the best
      score of o's replies), or 10·(p's score) when h leaves no reply. A
      successor with a line of p is valued at least 100 (a reply scores at
      most 100) and any other at most 240 (a score without a line is at most
      24). */
  function Value(h: Grid, p: Player, o: Player): (v: int)
    requires Square(h) && |h| <= 3
    ensures Wins(h, p) ==> v >= 100
    ensures !Wins(h, p) ==> v <= 240
  {
    var s := ReplyScores(h, o);
    ScoreBounds(h, p);
    if |s| == 0 then 10 * Score(h, p) else 10 * Score(h, p) - 9 * Search.SeqMax(s)
  }

  /** A successor with a line of p, on which no reply of o completes a
      line of o, is valued above every successor without a line of p. */
  lemma WinOutvalues(h: Grid, h': Grid, p: Player, o: Player)
    requires Square(h) && |h| <= 3 && Square(h') && |h'| <= 3
    requires Wins(h, p) && !Wins(h', p)
    requires forall k :: 0 <= k < |Candidates(h, o)| ==> !Wins(Candidates(h, o)[k].grid, o)
    ensures Value(h', p, o) < Value(h, p, o)
  {
    var s := ReplyScores(h, o);
    CandidatesShrink(h, o);
    forall k | 0 <= k < |s| ensures s[k] <= 24 {
      ScoreBounds(Candidates(h, o)[k].grid, o);
    }
    ScoreBounds(h, p);
  }

  /** The (value, move) pairs of p's moves on g, in row-major order. */
  function Ranked(g: Grid, p: Player, o: Player): (s: seq<(int, Action)>)
    requires Square(g) && |g| <= 3
    ensures |s| == |Candidates(g, p)| && (|s| == 0 <==> Full(g))
    ensures forall k :: 0 <= k < |s| ==> s[k].1 == Candidates(g, p)[k].action
  {
    var cs := Candidates(g, p);
    CandidatesShrink(g, p);
    seq(|cs|, k requires 0 <= k < |cs| => (Value(cs[k].grid, p, o), cs[k].action))
  }

  /** The deterministic choice is a legal move of the greatest value, and
      among the moves of that value the last in row-major order. */
  lemma BestIsLegalAndMaximal(g: Grid, p: Player, o: Player)
    requires Square(g) && |g| <= 3 && !Full(g)
    ensures |Ranked(g, p, o)| > 0
    ensures var s := Ranked(g, p, o); var b := Best(s);
      && Legal(g, b.1)
      && forall k :: 0 <= k < |s| ==> s[k].0 <= b.0 && (s[k].0 == b.0 ==> !Before(b.1, s[k].1))
  {
    var s := Ranked(g, p, o);
    var b := Best(s);
    var k :| 0 <= k < |s| && s[k] == b;
    assert Legal(g, Candidates(g, p)[k].action);
  }

  class LegacyMinimax {
    var player: Player
    var opponent: Player

    /** The deterministic mode only. */
    constructor (p: Player)
      ensures player == p && opponent == Other(p)
    {
      player := p;
      opponent := Other(p);
    }

    /** The score of p on the board: 100 for a line of p, otherwise the
        table's weights summed over p's cells, row by row. */
    method ScoreBoard(board: Board, p: Cell) returns (score: int)
      requires board.Valid() && board.N <= 3
      ensures score == Score(board.Contents(), p)
    {
      ghost var g := board.Contents();
      board.ContentsAt();
      score := 0;
      if board.IsWinner(p) {
        score := 100;
      } else {
        for row := 0 to board.N
          invariant score + HeldFrom(g, p, row, 0) == HeldFrom(g, p, 0, 0)
        {
          for col := 0 to board.N
            invariant score + HeldFrom(g, p, row, col) == HeldFrom(g, p, 0, 0)
          {
            if board.cells[row, col] == p {
              score := score + H[row][col];
            }
          }
        }
      }
    }

    /** The scores for p of the candidate boards, which hold the grids gs. */
    method ScoreEach(ghost gs: seq<Grid>, cands: seq<(Action, Board)>, p: Cell) returns (scores: seq<int>)
      requires |gs| == |cands| && forall k :: 0 <= k < |gs| ==> Square(gs[k]) && |gs[k]| <= 3
      requires forall k :: 0 <= k < |cands| ==>
        cands[k].1.Valid() && cands[k].1.N <= 3 && cands[k].1.Contents() == gs[k]
      ensures |scores| == |gs| && forall k :: 0 <= k < |gs| ==> scores[k] == Score(gs[k], p)
    {
      scores := [];
      for i := 0 to |cands|
        invariant |scores| == i && forall k :: 0 <= k < i ==> scores[k] == Score(gs[k], p)
      {
        var s := ScoreBoard(cands[i].1, p);
        scores := scores + [s];
      }
    }

    /** The value of the player's successor board: its own score scaled by
        10, less 9 times the opponent's best reply score when a reply is
        left. */
    method Evaluate(b: Board, pScore: int) returns (v: int)
      requires b.Valid() && b.N <= 3 && pScore == Score(b.Contents(), player)
      ensures v == Value(b.Contents(), player, opponent)
    {
      ghost var h := b.Contents();
      ghost var o := opponent;
      var oMoves := b.GetCandidates(opponent);
      CandidatesShrink(h, o);
      ghost var hs := seq(|oMoves|, k requires 0 <= k < |oMoves| => Candidates(h, o)[k].grid);
      if |oMoves| > 0 {
        var scores := ScoreEach(hs, oMoves, opponent);
        assert scores == ReplyScores(h, opponent);
        v := 10 * pScore - 9 * Search.SeqMax(scores);
      } else {
        v := 10 * pScore;
      }
    }

    /** The (value, move) pairs of the candidate boards, which hold the
        grids gs and have the scores pScores. */
    method ValueEach(ghost gs: seq<Grid>, cands: seq<(Action, Board)>, pScores: seq<int>) returns (oCands: seq<(int, Action)>)
      requires |gs| == |cands| == |pScores| && forall k :: 0 <= k < |gs| ==> Square(gs[k]) && |gs[k]| <= 3
      requires forall k :: 0 <= k < |cands| ==>
        cands[k].1.Valid() && cands[k].1.N <= 3 && cands[k].1.Contents() == gs[k] && pScores[k] == Score(gs[k], player)
      ensures |oCands| == |gs| && forall k :: 0 <= k < |gs| ==> oCands[k] == (Value(gs[k], player, opponent), cands[k].0)
    {
      oCands := [];
      for i := 0 to |cands|
        invariant |oCands| == i && forall k :: 0 <= k < i ==> oCands[k] == (Value(gs[k], player, opponent), cands[k].0)
      {
        var v := Evaluate(cands[i].1, pScores[i]);
        oCands := oCands + [(v, cands[i].0)];
      }
    }

    /** The deterministic move on a board of side at most 3 with an empty
        cell: the player's candidates are scored, each is valued by the
        opponent's replies, and the move of the greatest (value, move) pair
        is returned. The board is not changed. */
    method GetMove(board: Board) returns (a: Action)
      requires board.Valid() && board.N <= 3 && !Full(board.Contents())
      ensures a == Best(Ranked(board.Contents(), player, opponent)).1
    {
      var cands := board.GetCandidates(player);
      ghost var g := board.Contents();
      ghost var cs := Candidates(g, player);
      CandidatesShrink(g, player);
      ghost var gs := seq(|cands|, k requires 0 <= k < |cands| => cs[k].grid);
      var pScores := ScoreEach(gs, cands, player);
      var oCands := ValueEach(gs, cands, pScores);
      assert oCands == Ranked(g, player, opponent);
      a := Best(oCands).1;
    }
  }
}
