/** The minimax player: a plain minimax game value as the specification, and
    the source's fail-soft alpha-beta search over Board objects proved
    against it. */
module Search {
  import opened Grids
  import opened Boards

  /** The sentinel the search starts from; every game value lies far inside it. */
  const INFINITE: int := 1000000

  function Max(x: int, y: int): int {
    if x >= y then x else y
  }

  function Min(x: int, y: int): int {
    if x <= y then x else y
  }

  /** The largest element, folding from the end so that the value of a
      prefix extends by one element at a time. */
  function SeqMax(s: seq<int>): (m: int)
    requires |s| > 0
    ensures m in s && forall k :: 0 <= k < |s| ==> s[k] <= m
  {
    if |s| == 1 then s[0] else Max(SeqMax(s[..|s| - 1]), s[|s| - 1])
  }

  function SeqMin(s: seq<int>): (m: int)
    requires |s| > 0
    ensures m in s && forall k :: 0 <= k < |s| ==> m <= s[k]
  {
    if |s| == 1 then s[0] else Min(SeqMin(s[..|s| - 1]), s[|s| - 1])
  }

  lemma SeqMaxExtend(s: seq<int>, i: nat)
    requires 0 < i < |s|
    ensures SeqMax(s[..i + 1]) == Max(SeqMax(s[..i]), s[i])
  {
    assert s[..i + 1][..i] == s[..i];
  }

  lemma SeqMinExtend(s: seq<int>, i: nat)
    requires 0 < i < |s|
    ensures SeqMin(s[..i + 1]) == Min(SeqMin(s[..i]), s[i])
  {
    assert s[..i + 1][..i] == s[..i];
  }

  // ---------------------------------------------------------------------------
  // The game value without pruning: `me` maximises, `opp` minimises, a win
  // for `me` is 1, a win for `opp` is -1, a draw 0.

  /** The value of g with `me` to move. The opponent moved last, so only an
      opponent win is tested before fullness, which is written as "no empty
      cell left" (the same test as Full, by NoEmptyCellsIffFull and
      EmptiesLength). */
  function MaxValue(g: Grid, me: Player, opp: Player): (v: int)
    requires Square(g)
    decreases Empties(g), 1
    ensures -1 <= v <= 1
  {
    if Wins(g, opp) then -1
    else if Empties(g) == 0 then 0
    else SeqMax(MinValues(SuccessorGrids(g, me), Empties(g), me, opp))
  }

  /** The value of g with `opp` to move. */
  function MinValue(g: Grid, me: Player, opp: Player): (v: int)
    requires Square(g)
    decreases Empties(g), 1
    ensures -1 <= v <= 1
  {
    if Wins(g, me) then 1
    else if Empties(g) == 0 then 0
    else SeqMin(MaxValues(SuccessorGrids(g, opp), Empties(g), me, opp))
  }

  /** The successor grids after each move of p, in candidate order. */
  function SuccessorGrids(g: Grid, p: Player): (gs: seq<Grid>)
    requires Square(g)
    ensures |gs| == Empties(g)
    ensures forall k :: 0 <= k < |gs| ==> Square(gs[k]) && Empties(gs[k]) < Empties(g)
  {
    CandidatesShrink(g, p);
    var cs := Candidates(g, p);
    seq(|cs|, k requires 0 <= k < |cs| => cs[k].grid)
  }

  /** The values, opponent to move, of grids that each have fewer than e
      empty cells. */
  function MinValues(gs: seq<Grid>, e: nat, me: Player, opp: Player): (vs: seq<int>)
    requires forall k :: 0 <= k < |gs| ==> Square(gs[k]) && Empties(gs[k]) < e
    decreases e, 0
    ensures |vs| == |gs|
  {
    seq(|gs|, k requires 0 <= k < |gs| => MinValue(gs[k], me, opp))
  }

  /** The values, `me` to move, of grids that each have fewer than e empty cells. */
  function MaxValues(gs: seq<Grid>, e: nat, me: Player, opp: Player): (vs: seq<int>)
    requires forall k :: 0 <= k < |gs| ==> Square(gs[k]) && Empties(gs[k]) < e
    decreases e, 0
    ensures |vs| == |gs|
  {
    seq(|gs|, k requires 0 <= k < |gs| => MaxValue(gs[k], me, opp))
  }

  /** Entry k of the values the player's move choice ranks is the value of
      candidate k, which has fewer empty cells than g. */
  lemma SuccessorMinValues(g: Grid, me: Player, opp: Player)
    requires Square(g)
    ensures forall k :: 0 <= k < |Candidates(g, me)| ==>
      Square(Candidates(g, me)[k].grid) && Empties(Candidates(g, me)[k].grid) < Empties(g) &&
      MinValues(SuccessorGrids(g, me), Empties(g), me, opp)[k] == MinValue(Candidates(g, me)[k].grid, me, opp)
  {
    CandidatesShrink(g, me);
  }

  /** Fail-soft alpha-beta: a value strictly inside the window is exact, a
      value at or below alpha gives a result at or below alpha, and one at or
      above beta a result at or above beta. */
  predicate FailSoft(r: int, v: int, alpha: int, beta: int) {
    && (alpha < v < beta ==> r == v)
    && (v <= alpha ==> r <= alpha)
    && (v >= beta ==> r >= beta)
  }

  /** With the full window, fail-soft is exactness. */
  lemma FullWindowExact(r: int, v: int)
    requires -1 <= v <= 1 && FailSoft(r, v, -INFINITE, INFINITE)
    ensures r == v
  {
  }

  // ---------------------------------------------------------------------------
  // The loop of the maximising search, as a state over the child values vs:
  // after i children, `score` is the running maximum of the returned scores
  // (or -INFINITE before the first) and `a` the raised alpha.

  predicate MaxLoop(vs: seq<int>, i: nat, alpha: int, beta: int, score: int, a: int)
    requires i <= |vs|
  {
    && (i == 0 ==> score == -INFINITE && a == alpha)
    && (i > 0 ==>
         && -1 <= score <= 1 && score < beta && a == Max(alpha, score)
         && (SeqMax(vs[..i]) > alpha ==> score == SeqMax(vs[..i]))
         && (SeqMax(vs[..i]) <= alpha ==> score <= alpha))
  }

  /** One child: its fail-soft score c either makes the running maximum reach
      beta, in which case the final value is at least beta too, or keeps the
      loop state for one more child. */
  lemma MaxLoopStep(vs: seq<int>, i: nat, alpha: int, beta: int, score: int, a: int, c: int)
    requires alpha < beta && i < |vs| && MaxLoop(vs, i, alpha, beta, score, a)
    requires -1 <= c <= 1 && FailSoft(c, vs[i], a, beta)
    ensures Max(score, c) >= beta ==> -1 <= Max(score, c) <= 1 && FailSoft(Max(score, c), SeqMax(vs), alpha, beta)
    ensures Max(score, c) < beta ==> MaxLoop(vs, i + 1, alpha, beta, Max(score, c), Max(a, Max(score, c)))
  {
    if i > 0 {
      SeqMaxExtend(vs, i);
    } else {
      assert vs[..1] == [vs[0]];
    }
  }

  /** All children seen: the running maximum is the fail-soft value. */
  lemma MaxLoopDone(vs: seq<int>, alpha: int, beta: int, score: int, a: int)
    requires alpha < beta && |vs| > 0 && MaxLoop(vs, |vs|, alpha, beta, score, a)
    ensures -1 <= score <= 1 && FailSoft(score, SeqMax(vs), alpha, beta)
  {
    assert vs[..|vs|] == vs;
  }

  predicate MinLoop(vs: seq<int>, i: nat, alpha: int, beta: int, score: int, b: int)
    requires i <= |vs|
  {
    && (i == 0 ==> score == INFINITE && b == beta)
    && (i > 0 ==>
         && -1 <= score <= 1 && score > alpha && b == Min(beta, score)
         && (SeqMin(vs[..i]) < beta ==> score == SeqMin(vs[..i]))
         && (SeqMin(vs[..i]) >= beta ==> score >= beta))
  }

  lemma MinLoopStep(vs: seq<int>, i: nat, alpha: int, beta: int, score: int, b: int, c: int)
    requires alpha < beta && i < |vs| && MinLoop(vs, i, alpha, beta, score, b)
    requires -1 <= c <= 1 && FailSoft(c, vs[i], alpha, b)
    ensures Min(score, c) <= alpha ==> -1 <= Min(score, c) <= 1 && FailSoft(Min(score, c), SeqMin(vs), alpha, beta)
    ensures Min(score, c) > alpha ==> MinLoop(vs, i + 1, alpha, beta, Min(score, c), Min(b, Min(score, c)))
  {
    if i > 0 {
      SeqMinExtend(vs, i);
    } else {
      assert vs[..1] == [vs[0]];
    }
  }

  lemma MinLoopDone(vs: seq<int>, alpha: int, beta: int, score: int, b: int)
    requires alpha < beta && |vs| > 0 && MinLoop(vs, |vs|, alpha, beta, score, b)
    ensures -1 <= score <= 1 && FailSoft(score, SeqMin(vs), alpha, beta)
  {
    assert vs[..|vs|] == vs;
  }

  class Minimax {
    var player: Player
    var opponent: Player

    constructor (p: Player)
      ensures player == p && opponent == Other(p)
    {
      player := p;
      opponent := Other(p);
    }

    /** The opponent is 2 for player 1 and 1 otherwise. */
    method SetPlayer(p: Player)
      modifies this
      ensures player == p && opponent == Other(p)
      ensures opponent == (if p == 1 then 2 else 1)
    {
      player := p;
      opponent := if p == 1 then 2 else 1;
    }

    /** The search with this player to move. The board is only read; the
        recursion works on fresh candidate boards. */
    method MaxScore(board: Board, alpha: int, beta: int) returns (score: int)
      requires board.Valid() && alpha < beta
      decreases Empties(board.Contents()), 2
      ensures -1 <= score <= 1
      ensures FailSoft(score, MaxValue(board.Contents(), player, opponent), alpha, beta)
    {
      if board.IsWinner(opponent) {
        score := -1;
      } else if board.IsFinished() {
        score := 0;
      } else {
        ghost var g := board.Contents();
        var cands := board.GetCandidates(player);
        ghost var gs := SuccessorGrids(g, player);
        score := MaxOver(gs, Empties(g), cands, alpha, beta);
      }
    }

    /** The loop of the maximising search over the candidate boards, which
        hold the grids gs, each with fewer than e empty cells; it stops early
        once the running maximum reaches beta. */
    method MaxOver(ghost gs: seq<Grid>, ghost e: nat, cands: seq<(Action, Board)>, alpha: int, beta: int)
      returns (score: int)
      requires |gs| == |cands| > 0 && alpha < beta
      requires forall k :: 0 <= k < |gs| ==> Square(gs[k]) && Empties(gs[k]) < e
      requires forall k :: 0 <= k < |cands| ==> cands[k].1.Valid() && cands[k].1.Contents() == gs[k]
      decreases e, 1
      ensures -1 <= score <= 1
      ensures FailSoft(score, SeqMax(MinValues(gs, e, player, opponent)), alpha, beta)
    {
      ghost var vs := MinValues(gs, e, player, opponent);
      score := -INFINITE;
      var a := alpha;
      var i := 0;
      while i < |cands|
        invariant 0 <= i <= |cands|
        invariant MaxLoop(vs, i, alpha, beta, score, a)
      {
        var cut;
        score, a, cut := MaxStep(gs, e, cands[i].1, i, alpha, beta, score, a);
        if cut {
          break;
        }
        i := i + 1;
      }
      if i == |cands| {
        MaxLoopDone(vs, alpha, beta, score, a);
      }
    }

    /** One pass of the maximising loop: the opponent's search on candidate
        board i, the running maximum, and either the cut (maximum at or above
        beta) or alpha raised to the maximum. */
    method MaxStep(ghost gs: seq<Grid>, ghost e: nat, board: Board, i: nat,
                   alpha: int, beta: int, score: int, a: int)
      returns (score': int, a': int, cut: bool)
      requires i < |gs| && alpha < beta
      requires forall k :: 0 <= k < |gs| ==> Square(gs[k]) && Empties(gs[k]) < e
      requires board.Valid() && board.Contents() == gs[i]
      requires MaxLoop(MinValues(gs, e, player, opponent), i, alpha, beta, score, a)
      decreases e, 0
      ensures cut <==> score' >= beta
      ensures cut ==> -1 <= score' <= 1 && FailSoft(score', SeqMax(MinValues(gs, e, player, opponent)), alpha, beta)
      ensures !cut ==> MaxLoop(MinValues(gs, e, player, opponent), i + 1, alpha, beta, score', a')
    {
      ghost var vs := MinValues(gs, e, player, opponent);
      var c := MinScore(board, a, beta);
      MaxLoopStep(vs, i, alpha, beta, score, a, c);
      score' := Max(score, c);
      cut := score' >= beta;
      a' := a;
      if !cut {
        a' := Max(a, score');
      }
    }

    /** The search with the opponent to move. */
    method MinScore(board: Board, alpha: int, beta: int) returns (score: int)
      requires board.Valid() && alpha < beta
      decreases Empties(board.Contents()), 2
      ensures -1 <= score <= 1
      ensures FailSoft(score, MinValue(board.Contents(), player, opponent), alpha, beta)
    {
      if board.IsWinner(player) {
        score := 1;
      } else if board.IsFinished() {
        score := 0;
      } else {
        ghost var g := board.Contents();
        var cands := board.GetCandidates(opponent);
        ghost var gs := SuccessorGrids(g, opponent);
        score := MinOver(gs, Empties(g), cands, alpha, beta);
      }
    }

    /** The loop of the minimising search; it stops early once the running
        minimum falls to alpha. */
    method MinOver(ghost gs: seq<Grid>, ghost e: nat, cands: seq<(Action, Board)>, alpha: int, beta: int)
      returns (score: int)
      requires |gs| == |cands| > 0 && alpha < beta
      requires forall k :: 0 <= k < |gs| ==> Square(gs[k]) && Empties(gs[k]) < e
      requires forall k :: 0 <= k < |cands| ==> cands[k].1.Valid() && cands[k].1.Contents() == gs[k]
      decreases e, 1
      ensures -1 <= score <= 1
      ensures FailSoft(score, SeqMin(MaxValues(gs, e, player, opponent)), alpha, beta)
    {
      ghost var vs := MaxValues(gs, e, player, opponent);
      score := INFINITE;
      var b := beta;
      var i := 0;
      while i < |cands|
        invariant 0 <= i <= |cands|
        invariant MinLoop(vs, i, alpha, beta, score, b)
      {
        var cut;
        score, b, cut := MinStep(gs, e, cands[i].1, i, alpha, beta, score, b);
        if cut {
          break;
        }
        i := i + 1;
      }
      if i == |cands| {
        MinLoopDone(vs, alpha, beta, score, b);
      }
    }

    /** One pass of the minimising loop. */
    method MinStep(ghost gs: seq<Grid>, ghost e: nat, board: Board, i: nat,
                   alpha: int, beta: int, score: int, b: int)
      returns (score': int, b': int, cut: bool)
      requires i < |gs| && alpha < beta
      requires forall k :: 0 <= k < |gs| ==> Square(gs[k]) && Empties(gs[k]) < e
      requires board.Valid() && board.Contents() == gs[i]
      requires MinLoop(MaxValues(gs, e, player, opponent), i, alpha, beta, score, b)
      decreases e, 0
      ensures cut <==> score' <= alpha
      ensures cut ==> -1 <= score' <= 1 && FailSoft(score', SeqMin(MaxValues(gs, e, player, opponent)), alpha, beta)
      ensures !cut ==> MinLoop(MaxValues(gs, e, player, opponent), i + 1, alpha, beta, score', b')
    {
      ghost var vs := MaxValues(gs, e, player, opponent);
      var c := MaxScore(board, alpha, b);
      MinLoopStep(vs, i, alpha, beta, score, b, c);
      score' := Min(score, c);
      cut := score' <= alpha;
      b' := b;
      if !cut {
        b' := Min(b, score');
      }
    }
 
    /** The exact value, opponent to move, of every candidate board: the
        search with the full window (-INFINITE, INFINITE). */
    method ScoreAll(ghost gs: seq<Grid>, ghost e: nat, cands: seq<(Action, Board)>) returns (scores: seq<int>)
      requires |gs| == |cands|
      requires forall k :: 0 <= k < |gs| ==> Square(gs[k]) && Empties(gs[k]) < e
      requires forall k :: 0 <= k < |cands| ==> cands[k].1.Valid() && cands[k].1.Contents() == gs[k]
      ensures scores == MinValues(gs, e, player, opponent)
    {
      ghost var vs := MinValues(gs, e, player, opponent);
      scores := [];
      for i := 0 to |cands|
        invariant scores == vs[..i]
      {
        var s := MinScore(cands[i].1, -INFINITE, INFINITE);
        FullWindowExact(s, vs[i]);
        scores := scores + [s];
      }
      assert vs[..|cands|] == vs;
    }

    /** The move of this player. On an empty board it is the random opening
        `first` (the source draws each coordinate from 0..2). Otherwise it is
        a candidate of greatest exact value, opponent to move; `tie` stands
        for the shuffle that picks among equal values. The source needs a
        legal move to exist on a board that is not empty. */
    method GetMove(board: Board, first: Action, tie: nat) returns (move: Action)
      requires board.Valid()
      requires 0 <= first.row <= 2 && 0 <= first.col <= 2
      requires AllEmpty(board.Contents()) || !Full(board.Contents())
      ensures AllEmpty(board.Contents()) ==> move == first
      ensures !AllEmpty(board.Contents()) ==> Legal(board.Contents(), move)
      ensures !AllEmpty(board.Contents()) ==> forall a :: Legal(board.Contents(), a) ==>
        MinValue(Place(board.Contents(), a, player), player, opponent) <=
        MinValue(Place(board.Contents(), move, player), player, opponent)
    {
      if AllEmpty(board.Contents()) {
        move := first;
      } else {
        ghost var g := board.Contents();
        var cands := board.GetCandidates(player);
        var scores := ScoreAll(SuccessorGrids(g, player), Empties(g), cands);
        CandidatesShrink(g, player);
        SuccessorMinValues(g, player, opponent);
        var best := MaxIndex(scores, tie);
        move := cands[best].0;
        BestCandidate(g, player, opponent, scores, best);
      }
    }
  }

  /** A candidate of greatest value is a best legal move: every legal
      action leads to a value no greater. */
  lemma BestCandidate(g: Grid, me: Player, opp: Player, scores: seq<int>, best: nat)
    requires Square(g) && |scores| == |Candidates(g, me)| && best < |scores|
    requires forall k :: 0 <= k < |scores| ==> scores[k] == MinValue(Candidates(g, me)[k].grid, me, opp)
    requires forall j :: 0 <= j < |scores| ==> scores[j] <= scores[best]
    ensures Legal(g, Candidates(g, me)[best].action)
    ensures forall a :: Legal(g, a) ==>
      MinValue(Place(g, a, me), me, opp) <= MinValue(Place(g, Candidates(g, me)[best].action, me), me, opp)
  {
    forall a | Legal(g, a)
      ensures MinValue(Place(g, a, me), me, opp) <= MinValue(Place(g, Candidates(g, me)[best].action, me), me, opp)
    {
      var k := CandidateFor(g, me, a);
    }
  }

  /** An index of a greatest element; `tie` selects among the indices that
      share the greatest value, standing for the random shuffle before the
      maximum. */
  function MaxIndex(s: seq<int>, tie: nat): (k: nat)
    requires |s| > 0
    ensures k < |s| && forall j :: 0 <= j < |s| ==> s[j] <= s[k]
  {
    var m := SeqMax(s);
    var ties := Ties(s, m, 0);
    assert |ties| > 0 by {
      var j :| 0 <= j < |s| && s[j] == m;
      TiesComplete(s, m, 0, j);
    }
    ties[tie % |ties|]
  }

  /** The indices from i on whose element is m, in order. */
  function Ties(s: seq<int>, m: int, i: nat): (ks: seq<nat>)
    requires i <= |s|
    decreases |s| - i
    ensures forall k :: 0 <= k < |ks| ==> i <= ks[k] < |s| && s[ks[k]] == m
  {
    if i == |s| then []
    else if s[i] == m then [i] + Ties(s, m, i + 1)
    else Ties(s, m, i + 1)
  }

  lemma {:induction false} TiesComplete(s: seq<int>, m: int, i: nat, j: nat)
    requires i <= j < |s| && s[j] == m
    ensures j in Ties(s, m, i)
    decreases |s| - i
  {
    if i < j {
      TiesComplete(s, m, i + 1, j);
    }
  }
}

