/** The game loop: two players take turns on a board, player 1 first; a
    player whose proposal is rejected by the guarded move is asked again
    (it is not trusted), the game ends when the mover completes a line or,
    at the start of a turn, the board is full. */
module Games {
  import opened Grids
  import opened Boards
  import opened Players

  /** One move of a game: who made it and where. */
  datatype Turn = Turn(mover: Player, action: Action)

  /** The player of turn k (from 0): player 1 on even turns, player 2 on odd. */
  function Mover(p1: Agent, p2: Agent, k: nat): (p: Agent)
    ensures p == p1 || p == p2
  {
    if k % 2 == 0 then p1 else p2
  }

  lemma Parity(n: nat)
    ensures (n + 1) % 2 == 1 <==> n % 2 == 0
  {
  }

  /** The attempt at which p first proposes a legal move on g, counting
      from k. */
  function FirstLegal(p: Agent, g: Grid, k: nat): (j: nat)
    requires Square(g) && exists i :: k <= i < p.patience && Legal(g, p.propose(g, i))
    decreases p.patience - k
    ensures k <= j < p.patience && Legal(g, p.propose(g, j))
    ensures forall i :: k <= i < j ==> !Legal(g, p.propose(g, i))
  {
    if Legal(g, p.propose(g, k)) then k else FirstLegal(p, g, k + 1)
  }

  /** The move p ends its turn on g with: its first legal proposal. */
  function Choice(p: Agent, g: Grid): (a: Action)
    requires Square(g) && Eventually(p, g)
    ensures Legal(g, a)
  {
    p.propose(g, FirstLegal(p, g, 0))
  }

  /** Turn t of p leads from g to h: it is p's choice on g, and sets that
      one empty cell to p's mark. */
  ghost predicate TurnOf(p: Agent, g: Grid, t: Turn, h: Grid) {
    && Square(g) && t.mover == p.id && Eventually(p, g)
    && t.action == Choice(p, g) && h == Place(g, t.action, t.mover)
  }

  /** `grids` are the grids before each turn and after the last one: each
      turn is a turn of its player, alternating from player 1. */
  ghost predicate Played(p1: Agent, p2: Agent, grids: seq<Grid>, turns: seq<Turn>) {
    && |grids| == |turns| + 1
    && (forall k :: 0 <= k < |grids| ==> Square(grids[k]))
    && forall k :: 0 <= k < |turns| ==> TurnOf(Mover(p1, p2, k), grids[k], turns[k], grids[k + 1])
  }

  /** Appending a turn to a play. */
  lemma PlayedAppend(p1: Agent, p2: Agent, grids: seq<Grid>, turns: seq<Turn>, t: Turn, h: Grid)
    requires Played(p1, p2, grids, turns) && TurnOf(Mover(p1, p2, |turns|), grids[|turns|], t, h)
    ensures Played(p1, p2, grids + [h], turns + [t])
  {
    var gs, ts := grids + [h], turns + [t];
    forall k | 0 <= k < |ts| ensures TurnOf(Mover(p1, p2, k), gs[k], ts[k], gs[k + 1]) {
      if k < |turns| {
        assert ts[k] == turns[k] && gs[k] == grids[k] && gs[k + 1] == grids[k + 1];
      } else {
        assert ts[k] == t && gs[k] == grids[|turns|] && gs[k + 1] == h;
      }
    }
  }

  /** Every turn fills one empty cell, so a play of n turns leaves n fewer
      empty cells, lasts at most N·N turns, and no mark is ever overwritten. */
  lemma {:induction false} PlayedProgress(p1: Agent, p2: Agent, grids: seq<Grid>, turns: seq<Turn>)
    requires Played(p1, p2, grids, turns)
    ensures Empties(grids[|turns|]) + |turns| == Empties(grids[0])
    ensures Extends(grids[0], grids[|turns|])
    ensures |turns| <= |grids[0]| * |grids[0]|
    decreases |turns|
  {
    if |turns| > 0 {
      var n := |turns| - 1;
      PlayedProgress(p1, p2, grids[..n + 1], turns[..n]);
      assert grids[..n + 1][n] == grids[n];
      assert TurnOf(Mover(p1, p2, n), grids[n], turns[n], grids[n + 1]);
      EmptiesAfterPlace(grids[n], turns[n].action, turns[n].mover);
      PlaceExtends(grids[n], turns[n].action, turns[n].mover);
      ExtendsTrans(grids[0], grids[n], grids[n + 1]);
    }
    EmptiesBound(grids[0]);
  }

  /** One turn of p on a board with an empty cell: p is asked for a move on
      the board's grid (a copy: the proposal cannot touch the board),
      attempt after attempt, until the guarded move accepts one; p's first
      legal proposal is then played. */
  method TakeTurn(p: Agent, board: Board) returns (a: Action)
    requires board.Valid() && Eventually(p, board.Contents())
    modifies board.cells
    ensures board.Valid()
    ensures a == Choice(p, old(board.Contents()))
    ensures board.Contents() == Place(old(board.Contents()), a, p.id)
  {
    ghost var g := board.Contents();
    var attempt := 0;
    var ok := false;
    a := p.propose(board.Contents(), 0);
    while !ok
      invariant board.Valid()
      invariant !ok ==> board.Contents() == g && forall i :: 0 <= i < attempt ==> !Legal(g, p.propose(g, i))
      invariant ok ==> 0 < attempt && Legal(g, a) && a == p.propose(g, attempt - 1)
      invariant ok ==> forall i :: 0 <= i < attempt - 1 ==> !Legal(g, p.propose(g, i))
      invariant ok ==> board.Contents() == Place(g, a, p.id)
      decreases p.patience - attempt
    {
      ghost var w :| 0 <= w < p.patience && Legal(g, p.propose(g, w));
      assert attempt <= w;
      a := p.propose(board.Contents(), attempt);
      ok := board.Move(a.row, a.col, p.id);
      attempt := attempt + 1;
    }
    assert FirstLegal(p, g, 0) == attempt - 1;
  }

  /** The verdict so far on a play from g0: 0 while the game goes on; a
      mark only as the one of the last mover, who completed a line; -1 only
      on a full grid. No earlier turn completed a line of its mover. */
  ghost predicate Verdict(p1: Agent, p2: Agent, g0: Grid, grids: seq<Grid>, turns: seq<Turn>, winner: int) {
    && Played(p1, p2, grids, turns) && grids[0] == g0
    && (winner == 0 || winner == p1.id || winner == p2.id || winner == -1)
    && (winner > 0 ==> |turns| > 0 && winner == turns[|turns| - 1].mover && Wins(grids[|turns|], winner))
    && (winner == -1 ==> Full(grids[|turns|]))
    && forall k :: 0 <= k < |turns| && (winner <= 0 || k < |turns| - 1) ==> !Wins(grids[k + 1], turns[k].mover)
  }

  /** A verdict other than 0, spelled out. */
  lemma VerdictFinal(p1: Agent, p2: Agent, g0: Grid, grids: seq<Grid>, turns: seq<Turn>, winner: int)
    requires Verdict(p1, p2, g0, grids, turns, winner) && winner != 0
    ensures Played(p1, p2, grids, turns) && grids[0] == g0
    ensures winner == p1.id || winner == p2.id || winner == -1
    ensures winner != -1 ==> |turns| > 0 && winner == turns[|turns| - 1].mover && Wins(grids[|turns|], winner)
    ensures winner == -1 ==> Full(grids[|turns|])
    ensures forall k :: 0 <= k < |turns| && (winner == -1 || k < |turns| - 1) ==> !Wins(grids[k + 1], turns[k].mover)
  {
  }

  /** A turn of the mover appended to an undecided play: the verdict is
      the mover's mark if the turn completed a line, 0 otherwise, and an
      empty cell was used up. */
  lemma VerdictStep(p1: Agent, p2: Agent, g0: Grid, grids: seq<Grid>, turns: seq<Turn>, a: Action, h: Grid, w: int)
    requires Verdict(p1, p2, g0, grids, turns, 0)
    requires var g := grids[|turns|]; var p := Mover(p1, p2, |turns|);
      Eventually(p, g) && a == Choice(p, g) && h == Place(g, a, p.id)
    requires w == (if Wins(h, Mover(p1, p2, |turns|).id) then Mover(p1, p2, |turns|).id else 0)
    ensures Verdict(p1, p2, g0, grids + [h], turns + [Turn(Mover(p1, p2, |turns|).id, a)], w)
    ensures Empties(h) < Empties(grids[|turns|])
  {
    var p := Mover(p1, p2, |turns|);
    PlayedAppend(p1, p2, grids, turns, Turn(p.id, a), h);
    EmptiesAfterPlace(grids[|turns|], a, p.id);
  }

  /** One pass of the game loop with p to move: a full board is a draw;
      otherwise p takes its turn, and wins if it completed a line. */
  method Round(p1: Agent, p2: Agent, p: Agent, board: Board, ghost g0: Grid, ghost grids: seq<Grid>, ghost turns: seq<Turn>)
    returns (winner: int, ghost grids': seq<Grid>, ghost turns': seq<Turn>)
    requires board.Valid() && Patient(p) && p == Mover(p1, p2, |turns|)
    requires Verdict(p1, p2, g0, grids, turns, 0) && grids[|turns|] == board.Contents()
    modifies board.cells
    ensures board.Valid()
    ensures Verdict(p1, p2, g0, grids', turns', winner) && grids'[|turns'|] == board.Contents()
    ensures winner == 0 ==> |turns'| == |turns| + 1
    ensures winner == -1 ==> board.Contents() == old(board.Contents())
    ensures winner != -1 ==> Empties(board.Contents()) < Empties(old(board.Contents()))
  {
    if !board.IsFinished() {
      ghost var g := board.Contents();
      var a := TakeTurn(p, board);
      winner := if board.IsWinner(p.id) then p.id else 0;
      VerdictStep(p1, p2, g0, grids, turns, a, board.Contents(), winner);
      grids', turns' := grids + [board.Contents()], turns + [Turn(p.id, a)];
    } else {
      winner, grids', turns' := -1, grids, turns;
    }
  }

  /** A game between p1 and p2 on the board, which plays on while neither
      has won: at each turn a full board ends the game in a draw (-1);
      otherwise the mover plays its first legal proposal, and a line of its
      mark ends the game with its mark as the winner. `grids` and `turns`
      record the play. */
  method PlayGame(p1: Agent, p2: Agent, board: Board) returns (winner: int, ghost grids: seq<Grid>, ghost turns: seq<Turn>)
    requires board.Valid() && Patient(p1) && Patient(p2)
    modifies board.cells
    ensures board.Valid()
    ensures Played(p1, p2, grids, turns) && grids[0] == old(board.Contents()) && grids[|turns|] == board.Contents()
    ensures winner == p1.id || winner == p2.id || winner == -1
    ensures winner != -1 ==> |turns| > 0 && winner == turns[|turns| - 1].mover && Wins(board.Contents(), winner)
    ensures winner == -1 ==> Full(board.Contents())
    ensures forall k :: 0 <= k < |turns| && (winner == -1 || k < |turns| - 1) ==> !Wins(grids[k + 1], turns[k].mover)
  {
    ghost var g0 := board.Contents();
    winner := 0;
    var iter := 0;
    grids := [g0];
    turns := [];
    while winner == 0
      invariant board.Valid()
      invariant Verdict(p1, p2, g0, grids, turns, winner) && grids[|turns|] == board.Contents()
      invariant winner == 0 ==> iter == |turns|
      decreases Empties(board.Contents()), if winner == 0 then 1 else 0
    {
      iter := iter + 1;
      var p := if iter % 2 == 1 then p1 else p2;
      Parity(|turns|);
      winner, grids, turns := Round(p1, p2, p, board, g0, grids, turns);
    }
    VerdictFinal(p1, p2, g0, grids, turns, winner);
  }
}
