/** Players as the game loop and the trainers see them: the mark a player
    writes and what it proposes. A player's own state and its randomness are
    folded into the proposal function, which sees a grid value (a copy, so
    it cannot change the board) and how many proposals it has already made
    in this turn. */
module Players {
  import opened Grids

  datatype Agent = Agent(id: Player, propose: (Grid, nat) -> Action, patience: nat)

  /** Among the first `patience` proposals on g, one is a legal move. */
  ghost predicate Eventually(p: Agent, g: Grid)
    requires Square(g)
  {
    exists k :: 0 <= k < p.patience && Legal(g, p.propose(g, k))
  }

  /** On every grid with an empty cell the player proposes a legal move
      within its patience: the assumption under which a turn ends. */
  ghost predicate Patient(p: Agent) {
    forall g: Grid :: Square(g) && !Full(g) ==> Eventually(p, g)
  }
}
