/** The reward-lookup player: it moves to the first successor, in row-major
    order, whose state key is a key of its reward table, and to any
    successor when there is none. */
module RewardLookup {
  import opened Grids
  import opened GridState
  import opened Boards

  /** Rewards by state key; the player only asks whether a key is present. */
  type Rewards = map<seq<Cell>, real>

  /** The position of the first successor whose state has a reward, or
      |cs| when none has. */
  function FirstRewarded(cs: seq<Candidate>, rewards: Rewards): (i: nat)
    ensures i <= |cs|
    ensures forall j :: 0 <= j < i ==> State(cs[j].grid) !in rewards
    ensures i < |cs| ==> State(cs[i].grid) in rewards
  {
    if cs == [] then 0
    else if State(cs[0].grid) in rewards then 0
    else
      var i := FirstRewarded(cs[1..], rewards);
      assert forall j :: 1 <= j < |cs| ==> cs[j] == cs[1..][j - 1];
      1 + i
  }

  /** The first rewarded position is unique: any position whose state has a
      reward, with none before it, is that position. */
  lemma {:induction false} FirstRewardedUnique(cs: seq<Candidate>, rewards: Rewards, k: nat)
    requires k < |cs| && State(cs[k].grid) in rewards
    requires forall j :: 0 <= j < k ==> State(cs[j].grid) !in rewards
    ensures FirstRewarded(cs, rewards) == k
  {
  }

  class IRLFinite {
    var player: Player
    var R: Rewards

    /** A player with its reward table (which the source reads from a file). */
    constructor (p: Player, rewards: Rewards)
      ensures player == p && R == rewards
    {
      player := p;
      R := rewards;
    }

    method SetPlayer(p: Player)
      modifies this
      ensures player == p && R == old(R)
    {
      player := p;
    }

    /** The move on a board with an empty cell: the candidates are visited
        in row-major order and the first whose successor state has a reward
        is taken; when none has, any candidate action. The board is not
        changed. */
    method GetMove(board: Board) returns (a: Action)
      requires board.Valid() && !Full(board.Contents())
      ensures Legal(board.Contents(), a)
      ensures var cs := Candidates(board.Contents(), player);
        var i := FirstRewarded(cs, R);
        if i < |cs| then a == cs[i].action else a in EmptyCells(board.Contents())
    {
      var cands := board.GetCandidates(player);
      CandidatesShrink(board.Contents(), player);
      a := Choose(Candidates(board.Contents(), player), cands);
    }

    /** The loop of the move choice over the candidate boards, which hold
        the grids of cs: the first action whose successor state has a
        reward, else any of the actions collected on the way. */
    method Choose(ghost cs: seq<Candidate>, cands: seq<(Action, Board)>) returns (a: Action)
      requires |cands| == |cs| > 0
      requires forall k :: 0 <= k < |cands| ==>
        cands[k].0 == cs[k].action && cands[k].1.Valid() && cands[k].1.Contents() == cs[k].grid
      ensures exists k :: 0 <= k < |cands| && a == cands[k].0
      ensures var i := FirstRewarded(cs, R);
        if i < |cs| then a == cs[i].action else exists k :: 0 <= k < |cs| && a == cs[k].action
    {
      var actions: seq<Action> := [];
      for i := 0 to |cands|
        invariant |actions| == i && forall j :: 0 <= j < i ==> actions[j] == cs[j].action
        invariant forall j :: 0 <= j < i ==> State(cs[j].grid) !in R
      {
        var s := cands[i].1.GetState();
        if s in R {
          FirstRewardedUnique(cs, R, i);
          return cands[i].0;
        }
        actions := actions + [cands[i].0];
      }
      assert actions[0] in actions;
      a :| a in actions;
      assert exists k :: 0 <= k < |actions| && a == actions[k];
    }
  }
}
