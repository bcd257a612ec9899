/** The tabular Q-learning player: a table from state keys to (action ->
    value) rows that its move choice fills on the first visit of a state and
    that the one-step update rewrites, trained by playing one game against
    an opponent or against itself. */
module QLearning {
  import opened Grids
  import opened GridState
  import opened Boards
  import opened QTables
  import opened Players

  /** One update as the learner's trace records it: the state key and
      action written, the reward, rate and discount used, and the change
      (old value minus new) the update returned. */
  datatype Step = Step(state: Key, action: Action, reward: real, lr: real, df: real, diff: real)

  /** What changes the table: the move choice's visit of a state, which
      writes the first-visit row of candidate actions `acts` when the state
      has no row, and an update. */
  datatype Event = Visit(key: Key, acts: seq<Action>) | Write(step: Step)

  /** The table after one event. */
  function Apply(t: Table, e: Event): Table {
    match e
    case Visit(s, acts) => if RowAt(t, s) == [] then t[s := InitRow(acts)] else t
    case Write(st) => Updated(t, st.state, st.action, st.reward, st.lr, st.df).0
  }

  /** The table after a sequence of events, oldest first. */
  function Replay(t: Table, es: seq<Event>): Table
    decreases |es|
  {
    if es == [] then t else Apply(Replay(t, es[..|es| - 1]), es[|es| - 1])
  }

  /** The updates among the events, oldest first. */
  function Writes(es: seq<Event>): seq<Step>
    decreases |es|
  {
    if es == [] then []
    else Writes(es[..|es| - 1]) + (if es[|es| - 1].Write? then [es[|es| - 1].step] else [])
  }

  /** An update records the change it made to table t. */
  predicate Agrees(t: Table, e: Event) {
    e.Write? ==> e.step.diff == Updated(t, e.step.state, e.step.action, e.step.reward, e.step.lr, e.step.df).1
  }

  /** Every update in es, replayed from t, records the change it made. */
  predicate Consistent(t: Table, es: seq<Event>)
    decreases |es|
  {
    es == [] || (Consistent(t, es[..|es| - 1]) && Agrees(Replay(t, es[..|es| - 1]), es[|es| - 1]))
  }

  /** The events es take table t0 to t, their updates are `steps`, and
      each update records the change it made. */
  predicate Traced(t0: Table, es: seq<Event>, steps: seq<Step>, t: Table) {
    Writes(es) == steps && Replay(t0, es) == t && Consistent(t0, es)
  }

  /** Replaying two runs of events one after the other. */
  lemma {:induction false} ReplayAppend(t: Table, a: seq<Event>, b: seq<Event>)
    ensures Replay(t, a + b) == Replay(Replay(t, a), b)
    decreases |b|
  {
    if b == [] {
      assert a + b == a;
    } else {
      var b' := b[..|b| - 1];
      ReplayAppend(t, a, b');
      assert (a + b)[..|a + b| - 1] == a + b';
    }
  }

  /** The updates of two runs of events are those of each, in order. */
  lemma {:induction false} WritesAppend(a: seq<Event>, b: seq<Event>)
    ensures Writes(a + b) == Writes(a) + Writes(b)
    decreases |b|
  {
    if b == [] {
      assert a + b == a;
    } else {
      var b' := b[..|b| - 1];
      WritesAppend(a, b');
      assert (a + b)[..|a + b| - 1] == a + b';
    }
  }

  /** Two runs of events record their changes when each run does, the
      second replayed from where the first leaves the table. */
  lemma {:induction false} ConsistentAppend(t: Table, a: seq<Event>, b: seq<Event>)
    ensures Consistent(t, a + b) <==> Consistent(t, a) && Consistent(Replay(t, a), b)
    decreases |b|
  {
    if b == [] {
      assert a + b == a;
    } else {
      var b' := b[..|b| - 1];
      ConsistentAppend(t, a, b');
      ReplayAppend(t, a, b');
      assert (a + b)[..|a + b| - 1] == a + b';
    }
  }

  /** A single event. */
  lemma ReplayOne(t: Table, e: Event)
    ensures Replay(t, [e]) == Apply(t, e)
    ensures Writes([e]) == if e.Write? then [e.step] else []
    ensures Consistent(t, [e]) <==> Agrees(t, e)
  {
    assert [e][..0] == [];
  }

  /** No events leave the table as it is. */
  lemma TracedNone(t: Table)
    ensures Traced(t, [], [], t)
  {
  }

  /** The visit of a level's state followed by the events of the levels
      below it. */
  lemma TracedVisit(t0: Table, v: Event, ies: seq<Event>, inner: seq<Step>, t2: Table)
    requires v.Visit? && Traced(Apply(t0, v), ies, inner, t2)
    ensures Traced(t0, [v] + ies, inner, t2)
  {
    ReplayOne(t0, v);
    ReplayAppend(t0, [v], ies);
    WritesAppend([v], ies);
    ConsistentAppend(t0, [v], ies);
  }

  /** Events followed by an update that records the change it made. */
  lemma TracedWrite(t0: Table, es: seq<Event>, inner: seq<Step>, t2: Table, st: Step)
    requires Traced(t0, es, inner, t2) && Agrees(t2, Write(st))
    ensures Traced(t0, es + [Write(st)], inner + [st], Apply(t2, Write(st)))
  {
    ReplayOne(t2, Write(st));
    ReplayAppend(t0, es, [Write(st)]);
    WritesAppend(es, [Write(st)]);
    ConsistentAppend(t0, es, [Write(st)]);
  }

  /** One level of a game: the visit of its state, the events of the levels
      below, then its update, which records the change it made. */
  lemma TracedLevel(t0: Table, v: Event, ies: seq<Event>, inner: seq<Step>, t2: Table, st: Step)
    requires v.Visit? && Traced(Apply(t0, v), ies, inner, t2) && Agrees(t2, Write(st))
    ensures Traced(t0, [v] + ies + [Write(st)], inner + [st], Apply(t2, Write(st)))
  {
    TracedVisit(t0, v, ies, inner, t2);
    TracedWrite(t0, [v] + ies, inner, t2, st);
  }

  /** The running average the trainers return: the change of each step
      divided by its depth, the last step at depth d, the one before at
      d - 1, and so on. */
  function Average(steps: seq<Step>, d: nat): real
    requires |steps| <= d
  {
    if steps == [] then 0.0
    else AvgStep(Average(steps[..|steps| - 1], d - 1), steps[|steps| - 1].diff, d)
  }

  /** The average after a level at depth d whose update changed by diff. */
  function AvgStep(avg: real, diff: real, d: nat): real
    requires d > 0
  {
    avg + diff / (d as real)
  }

  /** The updates of one training game against an opponent, oldest first:
      the update at the end of the game comes first and every level above it
      adds one. All carry the game's reward and rate; the last move is at
      depth 1 when the learner ended the game (win or draw) and at depth 2
      when the opponent did (loss or draw), and each level is one deeper,
      with the discount of its depth; every action is a legal move of its
      state. */
  predicate Updates(steps: seq<Step>, reward: int, depth: nat, lr: real, df: nat -> real) {
    && |steps| > 0 && (depth == |steps| || depth == |steps| + 1)
    && (reward == 1 ==> depth == |steps|)
    && (reward == -1 ==> depth == |steps| + 1)
    && forall j :: 0 <= j < |steps| ==>
         && steps[j].reward == reward as real && steps[j].lr == lr
         && steps[j].df == df(depth - |steps| + 1 + j)
         && LegalKey(steps[j].state, steps[j].action)
  }

  /** The updates of one game of self-play, oldest first: the update of the
      last move comes first, with reward 1 (a win) or 0 (a draw), and each
      level above negates its reward, as the player alternates; the update
      of level j is at depth j + 1 with its discount, all at rate lr. */
  predicate SelfUpdates(steps: seq<Step>, reward: int, lr: real, df: nat -> real) {
    && |steps| > 0
    && (steps[0].reward == 1.0 || steps[0].reward == 0.0)
    && steps[|steps| - 1].reward == reward as real
    && (forall j :: 1 <= j < |steps| ==> steps[j].reward == -steps[j - 1].reward)
    && forall j :: 0 <= j < |steps| ==>
         steps[j].lr == lr && steps[j].df == df(j + 1) && LegalKey(steps[j].state, steps[j].action)
  }

  /** What a game's reward says about the final grid: 1 is a win of `me`,
      -1 a win of `them`, 0 a full grid. */
  predicate Ended(g: Grid, reward: int, me: Player, them: Player)
    requires Square(g)
  {
    && (reward == 1 ==> Wins(g, me))
    && (reward == -1 ==> Wins(g, them))
    && (reward == 0 ==> Full(g))
  }

  /** The game on the final grid g ended at a move of `mover`: it has a line
      of `mover` or no empty cell, and the reward is `win` for the line and
      0 for a draw. */
  predicate EndedAt(g: Grid, reward: int, mover: Player, win: int)
    requires Square(g)
  {
    (Wins(g, mover) || Full(g)) && reward == (if Wins(g, mover) then win else 0)
  }

  /** Who ended a game against an opponent, read off the depth of the
      learner's first move below n further updates: depth n + 1 when the
      learner's move ended it, n + 2 when the opponent's did. */
  predicate Outcome(g: Grid, reward: int, depth: nat, n: int, me: Player, them: Player)
    requires Square(g)
  {
    && (depth == n + 1 ==> EndedAt(g, reward, me, 1))
    && (depth == n + 2 ==> EndedAt(g, reward, them, -1))
  }

  /** Who ended a game of self-play, read off the depth of the learner's
      first move as `me`: the moves alternate, so the last one is `me`'s at
      an odd depth and the other player's at an even one, and the reward of
      that last move (1 for a line, 0 for a draw) is negated once per level
      above it. */
  predicate SelfEndedAt(g: Grid, reward: int, depth: nat, me: Player)
    requires Square(g)
  {
    if depth % 2 == 1 then EndedAt(g, reward, me, 1) else EndedAt(g, reward, Other(me), -1)
  }

  /** A level's game was over when the level began on grid g0 (a line of
      `mover`, else no empty cell): the level returns `win` (for the line)
      or 0 at depth d with no update and the grid unchanged. */
  predicate Terminal(g0: Grid, g: Grid, mover: Player, win: int, d: nat, reward: int, depth: nat, inner: seq<Step>)
    requires Square(g0)
  {
    && (Wins(g0, mover) ==> reward == win && depth == d && inner == [] && g == g0)
    && (!Wins(g0, mover) && Full(g0) ==> reward == 0 && depth == d && inner == [] && g == g0)
  }

  /** The grid after the opponent's turn in training on g: its first
      proposal, placed when it is a legal move, else g as it was. */
  function Answered(g: Grid, opponent: Agent): Grid
    requires Square(g)
  {
    var b := opponent.propose(g, 0);
    if Legal(g, b) then Place(g, b, opponent.id) else g
  }

  /** The final move was `mover`'s move of step st (its state key and
      action), a legal move on `last` that gave g. */
  predicate MovedTo(last: Grid, g: Grid, st: Step, mover: Player) {
    Square(last) && st.state == State(last) && Legal(last, st.action) && g == Place(last, st.action, mover)
  }

  /** The final move was the opponent's turn on `last`, a grid on which the
      learner's move had not ended the game, and it gave g. */
  predicate AnsweredTo(last: Grid, g: Grid, me: Player, opponent: Agent) {
    Square(last) && !Wins(last, me) && !Full(last) && g == Answered(last, opponent)
  }

  /** Who made the final move of a game against an opponent: the learner,
      by the move of the deepest update `first`, when the learner ended the
      game; otherwise the opponent. */
  predicate LastMove(last: Grid, g: Grid, first: Step, learnerEnded: bool, me: Player, opponent: Agent) {
    if learnerEnded then MovedTo(last, g, first, me) else AnsweredTo(last, g, me, opponent)
  }

  /** The mover of the last move of a self-play game whose first move, by
      `me`, is at depth d: `me` at odd depths, the other player at even ones. */
  function SelfMover(d: nat, me: Player): Player {
    if d % 2 == 1 then me else Other(me)
  }

  /** A game's outcome, read off who ended it, is what its reward says. */
  lemma OutcomeEnded(g: Grid, reward: int, depth: nat, steps: seq<Step>, lr: real, df: nat -> real, me: Player, them: Player)
    requires Square(g) && Updates(steps, reward, depth, lr, df) && Outcome(g, reward, depth, |steps| - 1, me, them)
    ensures reward in {-1, 0, 1} && Ended(g, reward, me, them)
  {
  }

  /** The same for self-play, the other side being the other player. */
  lemma SelfOutcomeEnded(g: Grid, reward: int, depth: nat, me: Player)
    requires Square(g) && SelfEndedAt(g, reward, depth, me)
    ensures reward in {-1, 0, 1} && Ended(g, reward, me, Other(me))
  {
  }

  /** One self-play level up: the player swaps back, the depth grows by one
      and the reward is negated, and the same move still ended the game. */
  lemma SelfEndedUp(g: Grid, reward: int, depth: nat, me: Player)
    requires Square(g) && SelfEndedAt(g, reward, depth, Other(me))
    ensures SelfEndedAt(g, -reward, depth + 1, me)
    ensures SelfMover(depth + 1, me) == SelfMover(depth, Other(me))
  {
  }

  /** A level above a game adds its update at the next depth. */
  lemma UpdatesExtend(steps: seq<Step>, reward: int, depth: nat, lr: real, df: nat -> real, st: Step)
    requires Updates(steps, reward, depth, lr, df)
    requires st.reward == reward as real && st.lr == lr && st.df == df(depth + 1) && LegalKey(st.state, st.action)
    ensures Updates(steps + [st], reward, depth + 1, lr, df)
    ensures Average(steps + [st], depth + 1) == AvgStep(Average(steps, depth), st.diff, depth + 1)
  {
    assert (steps + [st])[..|steps|] == steps;
  }

  /** The last move's update alone. */
  lemma UpdatesLast(reward: int, depth: nat, lr: real, df: nat -> real, st: Step)
    requires reward in {-1, 0, 1} && (depth == 1 || depth == 2)
    requires reward == 1 ==> depth == 1
    requires reward == -1 ==> depth == 2
    requires st.reward == reward as real && st.lr == lr && st.df == df(depth) && LegalKey(st.state, st.action)
    ensures Updates([st], reward, depth, lr, df)
    ensures Average([st], depth) == AvgStep(0.0, st.diff, depth)
  {
    assert [st][..0] == [];
  }

  /** A level of self-play above a game adds its update with the negated reward. */
  lemma SelfUpdatesExtend(steps: seq<Step>, reward: int, lr: real, df: nat -> real, st: Step)
    requires SelfUpdates(steps, reward, lr, df)
    requires st.reward == -reward as real && st.lr == lr && st.df == df(|steps| + 1) && LegalKey(st.state, st.action)
    ensures SelfUpdates(steps + [st], -reward, lr, df)
    ensures Average(steps + [st], |steps| + 1) == AvgStep(Average(steps, |steps|), st.diff, |steps| + 1)
  {
    assert (steps + [st])[..|steps|] == steps;
  }

  /** The last self-play move's update alone. */
  lemma SelfUpdatesLast(reward: int, lr: real, df: nat -> real, st: Step)
    requires reward == 1 || reward == 0
    requires st.reward == reward as real && st.lr == lr && st.df == df(1) && LegalKey(st.state, st.action)
    ensures SelfUpdates([st], reward, lr, df)
    ensures Average([st], 1) == AvgStep(0.0, st.diff, 1)
  {
    assert [st][..0] == [];
  }

  /** What the rest of a game hands back to the level of the learner's
      move: no update, and the reward at depth 1 or 2, when the game ended
      there; otherwise the updates of the levels below at depth - 1 and
      their average. */
  predicate Below(inner: seq<Step>, reward: int, depth: nat, lr: real, df: nat -> real, avg: real) {
    if inner == [] then
      && reward in {-1, 0, 1} && (depth == 1 || depth == 2)
      && (reward == 1 ==> depth == 1) && (reward == -1 ==> depth == 2) && avg == 0.0
    else
      depth >= 1 && Updates(inner, reward, depth - 1, lr, df) && avg == Average(inner, depth - 1)
  }

  /** What the rest of a self-play game hands back: no update, and the
      reward 1 or 0 at depth 1, when the game ended at the learner's move;
      otherwise the updates of the levels below, whose last reward is the
      negation of this level's, one per depth below this one, and their
      average. */
  predicate SelfBelow(inner: seq<Step>, reward: int, depth: nat, lr: real, df: nat -> real, avg: real) {
    && depth == |inner| + 1
    && if inner == [] then (reward == 1 || reward == 0) && avg == 0.0
       else SelfUpdates(inner, -reward, lr, df) && avg == Average(inner, depth - 1)
  }

  /** A level's update above what the rest of the game handed back. */
  lemma UpdatesAbove(inner: seq<Step>, reward: int, depth: nat, lr: real, df: nat -> real, avg0: real, st: Step)
    requires Below(inner, reward, depth, lr, df, avg0)
    requires st.reward == reward as real && st.lr == lr && st.df == df(depth) && LegalKey(st.state, st.action)
    ensures Updates(inner + [st], reward, depth, lr, df)
    ensures depth > 0 && Average(inner + [st], depth) == AvgStep(avg0, st.diff, depth)
  {
    if inner == [] {
      UpdatesLast(reward, depth, lr, df, st);
    } else {
      UpdatesExtend(inner, reward, depth - 1, lr, df, st);
    }
  }

  /** A self-play level's update above what the rest of the game handed back. */
  lemma SelfUpdatesAbove(inner: seq<Step>, reward: int, depth: nat, lr: real, df: nat -> real, avg0: real, st: Step)
    requires SelfBelow(inner, reward, depth, lr, df, avg0)
    requires st.reward == reward as real && st.lr == lr && st.df == df(depth) && LegalKey(st.state, st.action)
    ensures SelfUpdates(inner + [st], reward, lr, df)
    ensures depth > 0 && Average(inner + [st], depth) == AvgStep(avg0, st.diff, depth)
  {
    if inner == [] {
      SelfUpdatesLast(reward, lr, df, st);
    } else {
      SelfUpdatesExtend(inner, -reward, lr, df, st);
    }
  }

  /** The final move of a self-play level whose move st took g0 to g1: that
      move itself when the game ended there (depth 1), otherwise the final
      move of the levels below. */
  lemma SelfFinalMove(g0: Grid, g1: Grid, fin: Grid, st: Step, inner: seq<Step>, reward: int, depth: nat, me: Player, last: Grid)
    returns (last': Grid)
    requires MovedTo(g0, g1, st, me) && Square(fin) && SelfEndedAt(fin, reward, depth, me)
    requires inner == [] ==> depth == 1 && fin == g1
    requires inner != [] ==> MovedTo(last, fin, inner[0], SelfMover(depth, me))
    ensures reward in {-1, 0, 1} && Ended(fin, reward, me, Other(me))
    ensures SelfEndedAt(fin, reward, depth, me)
    ensures MovedTo(last', fin, (inner + [st])[0], SelfMover(depth, me))
  {
    SelfOutcomeEnded(fin, reward, depth, me);
    last' := if inner == [] then g0 else last;
  }

  lemma TraceAppend(tr: seq<Event>, v: Event, ies: seq<Event>, w: Event)
    ensures tr + [v] + ies + [w] == tr + ([v] + ies + [w])
  {
  }

  /** The opponent's turn in training: its first proposal on the board's
      grid, played through the guarded move, so an illegal proposal leaves
      the board as it was. */
  method Reply(board: Board, opponent: Agent)
    requires board.Valid()
    modifies board.cells
    ensures board.Valid()
    ensures board.Contents() == Answered(old(board.Contents()), opponent)
    ensures Extends(old(board.Contents()), board.Contents())
    ensures Empties(board.Contents()) <= Empties(old(board.Contents()))
  {
    ghost var g := board.Contents();
    var b := opponent.propose(board.Contents(), 0);
    var moved := board.Move(b.row, b.col, opponent.id);
    if moved {
      EmptiesAfterPlace(g, b, opponent.id);
      PlaceExtends(g, b, opponent.id);
    }
  }

  /** Every row is a function (no action twice) whose actions are empty
      cells of the grid its key flattens. */
  ghost predicate LegalTable(t: Table) {
    forall s :: s in t ==> Distinct(t[s]) && forall k :: 0 <= k < |t[s]| ==> LegalKey(s, t[s][k].0)
  }

  /** The first-visit row of a grid is a legal row. */
  lemma InitRowLegal(g: Grid)
    requires Square(g)
    ensures Distinct(InitRow(EmptyCells(g)))
    ensures forall k :: 0 <= k < |EmptyCells(g)| ==> LegalKey(State(g), EmptyCells(g)[k])
  {
    var e := EmptyCells(g);
    forall k | 0 <= k < |e| ensures LegalKey(State(g), e[k]) {
      LegalKeyIff(g, e[k]);
    }
    assert forall i, j :: 0 <= i < j < |e| ==> Before(e[i], e[j]);
  }

  /** A row whose actions are distinct legal keys of s stays so after a
      read and a write of the legal key a. */
  lemma RowLegal(s: Key, row: Row, a: Action, v: real)
    requires Distinct(row) && LegalKey(s, a)
    requires forall k :: 0 <= k < |row| ==> LegalKey(s, row[k].0)
    ensures Distinct(Set(Touch(row, a), a, v))
    ensures forall k :: 0 <= k < |Set(Touch(row, a), a, v)| ==> LegalKey(s, Set(Touch(row, a), a, v)[k].0)
  {
    var r1 := Touch(row, a);
    var r2 := Set(r1, a, v);
    TouchKeys(row, a);
    SetKeys(r1, a, v);
    assert forall k :: 0 <= k < |r1| ==> LegalKey(s, Keys(r1)[k]);
    forall k | 0 <= k < |r2| ensures LegalKey(s, r2[k].0) {
      assert r2[k].0 == Keys(r2)[k];
    }
  }

  /** An update of a legal key keeps the table legal. */
  lemma UpdatedLegal(t: Table, s: Key, a: Action, reward: real, lr: real, df: real)
    requires LegalTable(t) && LegalKey(s, a)
    ensures LegalTable(Updated(t, s, a, reward, lr, df).0)
  {
    var row := Touch(RowAt(t, s), a);
    var v := Target(Get(row, a), RowMax(row), reward, lr, df);
    RowLegal(s, RowAt(t, s), a, v);
    assert Updated(t, s, a, reward, lr, df).0 == t[s := Set(row, a, v)];
  }

  /** Writing the first-visit row of a grid keeps a table legal. */
  lemma InitLegal(t: Table, g: Grid)
    requires Square(g) && LegalTable(t)
    ensures LegalTable(t[State(g) := InitRow(EmptyCells(g))])
  {
    InitRowLegal(g);
  }

  /** A stored action of a legal table is a legal move on the grid of its key. */
  lemma StoredLegal(t: Table, g: Grid, a: Action)
    requires Square(g) && LegalTable(t) && State(g) in t && a in Keys(t[State(g)])
    ensures Legal(g, a)
  {
    var k :| 0 <= k < |t[State(g)]| && Keys(t[State(g)])[k] == a;
    LegalKeyIff(g, a);
  }

  class QLearner {
    var player: Player
    var Q: Table
    /** What changed the table so far, oldest first. */
    ghost var trace: seq<Event>

    ghost predicate Valid()
      reads this
    {
      LegalTable(Q)
    }

    /** A learner with an empty table (the Qfile branch is a stub). */
    constructor (p: Player)
      ensures player == p && Q == map[] && trace == [] && Valid()
    {
      player := p;
      Q := map[];
      trace := [];
    }

    method SetPlayer(p: Player)
      modifies this
      ensures player == p && Q == old(Q) && trace == old(trace)
    {
      player := p;
    }

    /** The learner's move on a board with an empty cell. On the first visit
        of its state (an empty row), the row becomes every candidate action
        at 0, in row-major order, and the move is one of them; otherwise the
        table is unchanged and the move is a stored action: any of them when
        sampling, one of greatest value when greedy. The move is legal, and
        the trace records the visit. */
    method GetMove(board: Board, sample: bool) returns (a: Action)
      requires board.Valid() && !Full(board.Contents()) && Valid()
      modifies this
      ensures Valid() && player == old(player)
      ensures trace == old(trace) + [Visit(State(board.Contents()), EmptyCells(board.Contents()))]
      ensures Legal(board.Contents(), a)
      ensures old(RowAt(Q, State(board.Contents()))) == [] ==>
        Q == old(Q)[State(board.Contents()) := InitRow(EmptyCells(board.Contents()))] &&
        a in EmptyCells(board.Contents())
      ensures old(RowAt(Q, State(board.Contents()))) != [] ==>
        Q == old(Q) && a in Keys(Q[State(board.Contents())]) &&
        (!sample ==> Get(Q[State(board.Contents())], a) == RowMax(Q[State(board.Contents())]))
    {
      ghost var g := board.Contents();
      var s := board.GetState();
      var row := RowAt(Q, s);
      if row == [] {
        var acts := FirstVisit(board, s);
        NoEmptyCellsIffFull(g);
        assert acts[0] in acts;
        a :| a in acts;
      } else if sample {
        assert Keys(row)[0] in Keys(row);
        a :| a in Keys(row);
        StoredLegal(Q, g, a);
      } else {
        var best := GreedyActions(row, RowMax(row));
        GreedyOfMax(row);
        assert best[0] in best;
        a :| a in best;
        StoredLegal(Q, g, a);
      }
      trace := trace + [Visit(s, EmptyCells(g))];
    }

    /** The first visit of the board's state s: its row is written one
        candidate action at a time, each at 0. */
    method FirstVisit(board: Board, s: Key) returns (acts: seq<Action>)
      requires board.Valid() && s == State(board.Contents()) && Valid()
      modifies this
      ensures acts == EmptyCells(board.Contents())
      ensures Q == old(Q)[s := InitRow(acts)]
      ensures Valid() && player == old(player) && trace == old(trace)
    {
      ghost var g := board.Contents();
      var cands := board.GetCandidates(player);
      acts := Actions(cands);
      assert acts == EmptyCells(g);
      InitRowLegal(g);
      assert forall i, j :: 0 <= i < j < |acts| ==> acts[i] != acts[j] by {
        assert forall i, j :: 0 <= i < j < |acts| ==> InitRow(acts)[i].0 != InitRow(acts)[j].0;
      }
      WriteRow(s, acts);
      InitLegal(old(Q), g);
    }

    /** The row of s written one action at a time, each at 0, after the read
        that inserted it empty. */
    method WriteRow(s: Key, acts: seq<Action>)
      requires forall i, j :: 0 <= i < j < |acts| ==> acts[i] != acts[j]
      modifies this
      ensures Q == old(Q)[s := InitRow(acts)]
      ensures player == old(player) && trace == old(trace)
    {
      Q := Q[s := []];
      for i := 0 to |acts|
        invariant Q == old(Q)[s := InitRow(acts[..i])]
        invariant player == old(player) && trace == old(trace)
      {
        InitRowStep(acts, i);
        Q := Q[s := Set(Q[s], acts[i], 0.0)];
      }
      assert acts[..|acts|] == acts;
    }

    /** The learner's sampled move on the board, made: s is the state key
        before it and a the legal action taken, an action of the row of s
        after the visit, which the trace records. */
    method Ply(board: Board) returns (s: Key, a: Action)
      requires board.Valid() && !Full(board.Contents()) && Valid()
      modifies this, board.cells
      ensures Valid() && player == old(player) && board.Valid()
      ensures s == State(old(board.Contents())) && LegalKey(s, a)
      ensures Q == Apply(old(Q), Visit(s, EmptyCells(old(board.Contents()))))
      ensures trace == old(trace) + [Visit(s, EmptyCells(old(board.Contents())))]
      ensures s in Q && a in Keys(Q[s])
      ensures Legal(old(board.Contents()), a)
      ensures board.Contents() == Place(old(board.Contents()), a, player)
      ensures Empties(board.Contents()) == Empties(old(board.Contents())) - 1
      ensures Extends(old(board.Contents()), board.Contents())
    {
      ghost var g := board.Contents();
      a := GetMove(board, true);
      s := board.GetState();
      var ok := board.Move(a.row, a.col, player);
      LegalKeyIff(g, a);
      EmptiesAfterPlace(g, a, player);
      PlaceExtends(g, a, player);
    }

    /** The update of one level of a game against an opponent: (s, a) with
        the game's reward, the rate and the discount of this level's depth,
        recorded as st with the change it made; the change divided by the
        depth is added to the average of the levels below, whose updates are
        `inner`. */
    method Close(s: Key, a: Action, reward: int, lr: real, df: nat -> real, depth: nat,
                 ghost inner: seq<Step>, avg0: real) returns (avg: real, ghost st: Step)
      requires Valid() && LegalKey(s, a) && Below(inner, reward, depth, lr, df, avg0)
      modifies this
      ensures Valid() && player == old(player) && trace == old(trace) + [Write(st)]
      ensures st == Step(s, a, reward as real, lr, df(depth), st.diff)
      ensures (Q, st.diff) == Updated(old(Q), s, a, reward as real, lr, df(depth))
      ensures Updates(inner + [st], reward, depth, lr, df)
      ensures avg == Average(inner + [st], depth)
    {
      var diff := UpdateQ(s, a, reward as real, lr, df(depth));
      st := Step(s, a, reward as real, lr, df(depth), diff);
      UpdatesAbove(inner, reward, depth, lr, df, avg0, st);
      avg := AvgStep(avg0, diff, depth);
    }

    /** Close, seen from the level that began with table t0 and trace tr0
        and visited its state (v): the level's events are the visit, those
        below and its update, and they take t0 to the new table. */
    method Finish(s: Key, a: Action, reward: int, lr: real, df: nat -> real, depth: nat,
                  ghost inner: seq<Step>, avg0: real, ghost t0: Table, ghost tr0: seq<Event>,
                  ghost v: Event, ghost ies: seq<Event>) returns (avg: real, ghost st: Step, ghost evs: seq<Event>)
      requires Valid() && LegalKey(s, a) && Below(inner, reward, depth, lr, df, avg0)
      requires v.Visit? && trace == tr0 + [v] + ies && Traced(Apply(t0, v), ies, inner, Q)
      modifies this
      ensures Valid() && player == old(player)
      ensures trace == tr0 + evs && Traced(t0, evs, inner + [st], Q) && |evs| > 0 && evs[0] == v
      ensures st.state == s && st.action == a
      ensures Updates(inner + [st], reward, depth, lr, df) && avg == Average(inner + [st], depth)
    {
      ghost var t2 := Q;
      avg, st := Close(s, a, reward, lr, df, depth, inner, avg0);
      evs := [v] + ies + [Write(st)];
      TracedLevel(t0, v, ies, inner, t2, st);
      TraceAppend(tr0, v, ies, Write(st));
    }

    /** One game against `opponent`, the learner to move on a board with an
        empty cell: the learner's sampled move, the rest of the game, then
        this level's update with the game's reward and the discount of its
        depth, its change divided by the depth added to the average. The
        events are `evs` and the updates among them `steps`; the newest
        update is of this level's state and move. */
    method Train(lr: real, df: nat -> real, board: Board, opponent: Agent)
      returns (reward: int, avg: real, depth: nat, ghost steps: seq<Step>, ghost evs: seq<Event>, ghost last: Grid)
      requires board.Valid() && !Full(board.Contents()) && Valid()
      modifies this, board.cells
      decreases Empties(board.Contents()), 0
      ensures Valid() && player == old(player) && board.Valid()
      ensures Extends(old(board.Contents()), board.Contents())
      ensures reward in {-1, 0, 1} && Ended(board.Contents(), reward, player, opponent.id)
      ensures Outcome(board.Contents(), reward, depth, |steps| - 1, player, opponent.id)
      ensures trace == old(trace) + evs && Traced(old(Q), evs, steps, Q)
      ensures |evs| > 0 && evs[0] == Visit(State(old(board.Contents())), EmptyCells(old(board.Contents())))
      ensures |steps| <= Empties(old(board.Contents()))
      ensures Updates(steps, reward, depth, lr, df) && avg == Average(steps, depth)
      ensures LastMove(last, board.Contents(), steps[0], depth == |steps|, player, opponent)
      ensures steps[|steps| - 1].state == State(old(board.Contents()))
      ensures Legal(old(board.Contents()), steps[|steps| - 1].action)
    {
      ghost var g0 := board.Contents();
      ghost var t0, tr0 := Q, trace;
      var s, a := Ply(board);
      ghost var v := Visit(s, EmptyCells(g0));
      ghost var g1 := board.Contents();
      ghost var inner, ies;
      reward, avg, depth, inner, ies, last := Rest(lr, df, board, opponent);
      ExtendsTrans(g0, g1, board.Contents());
      ghost var fin := board.Contents();
      ghost var st;
      avg, st, evs := Finish(s, a, reward, lr, df, depth, inner, avg, t0, tr0, v, ies);
      steps := inner + [st];
      assert board.Contents() == fin;
      if depth == 1 {
        last := g0;
      }
      OutcomeEnded(fin, reward, depth, steps, lr, df, player, opponent.id);
    }

    /** The game after the learner's move: over when that move won or
        filled the board (depth 1); otherwise the opponent's proposal, played
        without a legality check (an illegal one leaves the board as it
        was), and what follows it. */
    method Rest(lr: real, df: nat -> real, board: Board, opponent: Agent)
      returns (reward: int, avg: real, depth: nat, ghost inner: seq<Step>, ghost evs: seq<Event>, ghost last: Grid)
      requires board.Valid() && Valid()
      modifies this, board.cells
      decreases Empties(board.Contents()), 2
      ensures Valid() && player == old(player) && board.Valid()
      ensures Extends(old(board.Contents()), board.Contents())
      ensures Terminal(old(board.Contents()), board.Contents(), player, 1, 1, reward, depth, inner)
      ensures !Wins(old(board.Contents()), player) && !Full(old(board.Contents())) ==> depth >= 2
      ensures depth >= 2 && inner == [] ==> AnsweredTo(last, board.Contents(), player, opponent)
      ensures inner != [] ==> LastMove(last, board.Contents(), inner[0], depth == |inner| + 1, player, opponent)
      ensures Outcome(board.Contents(), reward, depth, |inner|, player, opponent.id)
      ensures trace == old(trace) + evs && Traced(old(Q), evs, inner, Q)
      ensures |inner| <= Empties(old(board.Contents()))
      ensures Below(inner, reward, depth, lr, df, avg)
    {
      last := board.Contents();
      if board.IsWinner(player) {
        reward, avg, depth, inner, evs := 1, 0.0, 1, [], [];
        TracedNone(Q);
      } else if board.IsFinished() {
        reward, avg, depth, inner, evs := 0, 0.0, 1, [], [];
        TracedNone(Q);
      } else {
        ghost var g1 := board.Contents();
        Reply(board, opponent);
        ghost var g2 := board.Contents();
        ghost var deeper;
        reward, avg, depth, inner, evs, deeper := Answer(lr, df, board, opponent);
        ExtendsTrans(g1, g2, board.Contents());
        if inner != [] {
          last := deeper;
        }
      }
    }

    /** The game after the opponent's turn: over when it won or filled the
        board (depth 2); otherwise a further game, one level deeper. */
    method Answer(lr: real, df: nat -> real, board: Board, opponent: Agent)
      returns (reward: int, avg: real, depth: nat, ghost inner: seq<Step>, ghost evs: seq<Event>, ghost last: Grid)
      requires board.Valid() && Valid()
      modifies this, board.cells
      decreases Empties(board.Contents()), 1
      ensures Valid() && player == old(player) && board.Valid()
      ensures Extends(old(board.Contents()), board.Contents())
      ensures Terminal(old(board.Contents()), board.Contents(), opponent.id, -1, 2, reward, depth, inner)
      ensures !Wins(old(board.Contents()), opponent.id) && !Full(old(board.Contents())) ==> inner != []
      ensures inner != [] ==> LastMove(last, board.Contents(), inner[0], depth == |inner| + 1, player, opponent)
      ensures Outcome(board.Contents(), reward, depth, |inner|, player, opponent.id)
      ensures trace == old(trace) + evs && Traced(old(Q), evs, inner, Q)
      ensures |inner| <= Empties(old(board.Contents()))
      ensures Below(inner, reward, depth, lr, df, avg)
    {
      last := board.Contents();
      if board.IsWinner(opponent.id) {
        reward, avg, depth, inner, evs := -1, 0.0, 2, [], [];
        TracedNone(Q);
      } else if board.IsFinished() {
        reward, avg, depth, inner, evs := 0, 0.0, 2, [], [];
        TracedNone(Q);
      } else {
        reward, avg, depth, inner, evs, last := Train(lr, df, board, opponent);
        depth := depth + 1;
      }
    }

    /** The update of one level of self-play: (s, a) with this level's
        reward, the rate and the discount of its depth, recorded as st with
        the change it made, above the levels whose updates are `inner`. */
    method CloseSelf(s: Key, a: Action, reward: int, lr: real, df: nat -> real, depth: nat,
                     ghost inner: seq<Step>, avg0: real) returns (avg: real, ghost st: Step)
      requires Valid() && LegalKey(s, a) && SelfBelow(inner, reward, depth, lr, df, avg0)
      modifies this
      ensures Valid() && player == old(player) && trace == old(trace) + [Write(st)]
      ensures st == Step(s, a, reward as real, lr, df(depth), st.diff)
      ensures (Q, st.diff) == Updated(old(Q), s, a, reward as real, lr, df(depth))
      ensures SelfUpdates(inner + [st], reward, lr, df)
      ensures avg == Average(inner + [st], depth)
    {
      var diff := UpdateQ(s, a, reward as real, lr, df(depth));
      st := Step(s, a, reward as real, lr, df(depth), diff);
      SelfUpdatesAbove(inner, reward, depth, lr, df, avg0, st);
      avg := AvgStep(avg0, diff, depth);
    }

    /** CloseSelf, seen from the level that began with table t0 and trace
        tr0 and visited its state (v), as Finish states it for Close. */
    method FinishSelf(s: Key, a: Action, reward: int, lr: real, df: nat -> real, depth: nat,
                      ghost inner: seq<Step>, avg0: real, ghost t0: Table, ghost tr0: seq<Event>,
                      ghost v: Event, ghost ies: seq<Event>) returns (avg: real, ghost st: Step, ghost evs: seq<Event>)
      requires Valid() && LegalKey(s, a) && SelfBelow(inner, reward, depth, lr, df, avg0)
      requires v.Visit? && trace == tr0 + [v] + ies && Traced(Apply(t0, v), ies, inner, Q)
      modifies this
      ensures Valid() && player == old(player)
      ensures trace == tr0 + evs && Traced(t0, evs, inner + [st], Q) && |evs| > 0 && evs[0] == v
      ensures st.state == s && st.action == a
      ensures SelfUpdates(inner + [st], reward, lr, df) && avg == Average(inner + [st], depth)
    {
      ghost var t2 := Q;
      avg, st := CloseSelf(s, a, reward, lr, df, depth, inner, avg0);
      evs := [v] + ies + [Write(st)];
      TracedLevel(t0, v, ies, inner, t2, st);
      TraceAppend(tr0, v, ies, Write(st));
    }

    /** One game of self-play: the learner's sampled move, the rest of the
        game, then this level's update with its reward and the discount of
        its depth. The events are `evs` and the updates among them `steps`;
        the newest update is of this level's state and move. */
    method AutoTrain(lr: real, df: nat -> real, board: Board)
      returns (reward: int, avg: real, depth: nat, ghost steps: seq<Step>, ghost evs: seq<Event>, ghost last: Grid)
      requires board.Valid() && !Full(board.Contents()) && Valid()
      modifies this, board.cells
      decreases Empties(board.Contents()), 0
      ensures Valid() && player == old(player) && board.Valid()
      ensures Extends(old(board.Contents()), board.Contents())
      ensures reward in {-1, 0, 1} && Ended(board.Contents(), reward, player, Other(player))
      ensures SelfEndedAt(board.Contents(), reward, depth, player)
      ensures trace == old(trace) + evs && Traced(old(Q), evs, steps, Q)
      ensures |evs| > 0 && evs[0] == Visit(State(old(board.Contents())), EmptyCells(old(board.Contents())))
      ensures depth == |steps| && depth <= Empties(old(board.Contents()))
      ensures SelfUpdates(steps, reward, lr, df) && avg == Average(steps, depth)
      ensures MovedTo(last, board.Contents(), steps[0], SelfMover(depth, player))
      ensures steps[|steps| - 1].state == State(old(board.Contents()))
      ensures Legal(old(board.Contents()), steps[|steps| - 1].action)
    {
      ghost var g0 := board.Contents();
      ghost var t0, tr0 := Q, trace;
      var s, a := Ply(board);
      reward, avg, depth, steps, evs, last := SelfTail(lr, df, board, s, a, g0, t0, tr0);
    }

    /** A self-play level after its move a on the grid g0 (state key s),
        which began with table t0 and trace tr0: the rest of the game, then
        the level's update of (s, a). */
    method SelfTail(lr: real, df: nat -> real, board: Board, s: Key, a: Action, ghost g0: Grid, ghost t0: Table, ghost tr0: seq<Event>)
      returns (reward: int, avg: real, depth: nat, ghost steps: seq<Step>, ghost evs: seq<Event>, ghost last: Grid)
      requires board.Valid() && Valid() && Square(g0)
      requires s == State(g0) && LegalKey(s, a) && Legal(g0, a) && board.Contents() == Place(g0, a, player)
      requires Extends(g0, board.Contents()) && Empties(board.Contents()) == Empties(g0) - 1
      requires Q == Apply(t0, Visit(s, EmptyCells(g0))) && trace == tr0 + [Visit(s, EmptyCells(g0))]
      modifies this, board.cells
      decreases Empties(board.Contents()), 2
      ensures Valid() && player == old(player) && board.Valid()
      ensures Extends(g0, board.Contents())
      ensures reward in {-1, 0, 1} && Ended(board.Contents(), reward, player, Other(player))
      ensures SelfEndedAt(board.Contents(), reward, depth, player)
      ensures trace == tr0 + evs && Traced(t0, evs, steps, Q)
      ensures |evs| > 0 && evs[0] == Visit(s, EmptyCells(g0))
      ensures depth == |steps| && depth <= Empties(g0)
      ensures SelfUpdates(steps, reward, lr, df) && avg == Average(steps, depth)
      ensures MovedTo(last, board.Contents(), steps[0], SelfMover(depth, player))
      ensures steps[|steps| - 1].state == s && steps[|steps| - 1].action == a
    {
      ghost var v := Visit(s, EmptyCells(g0));
      ghost var g1 := board.Contents();
      ghost var inner, ies;
      reward, avg, depth, inner, ies, last := SelfRest(lr, df, board);
      ExtendsTrans(g0, g1, board.Contents());
      ghost var fin := board.Contents();
      ghost var st;
      avg, st, evs := FinishSelf(s, a, reward, lr, df, depth, inner, avg, t0, tr0, v, ies);
      steps := inner + [st];
      assert board.Contents() == fin;
      last := SelfFinalMove(g0, g1, fin, st, inner, reward, depth, player, last);
    }

    /** The self-play game after the learner's move: over when that move
        won or filled the board (depth 1); otherwise the rest is played as
        the other player, whose reward is negated on the way back, one level
        deeper, and the player is restored. */
    method SelfRest(lr: real, df: nat -> real, board: Board)
      returns (reward: int, avg: real, depth: nat, ghost inner: seq<Step>, ghost evs: seq<Event>, ghost last: Grid)
      requires board.Valid() && Valid()
      modifies this, board.cells
      decreases Empties(board.Contents()), 1
      ensures Valid() && player == old(player) && board.Valid()
      ensures Extends(old(board.Contents()), board.Contents())
      ensures Terminal(old(board.Contents()), board.Contents(), player, 1, 1, reward, depth, inner)
      ensures !Wins(old(board.Contents()), player) && !Full(old(board.Contents())) ==> inner != []
      ensures SelfEndedAt(board.Contents(), reward, depth, player)
      ensures inner != [] ==> MovedTo(last, board.Contents(), inner[0], SelfMover(depth, player))
      ensures trace == old(trace) + evs && Traced(old(Q), evs, inner, Q)
      ensures |inner| <= Empties(old(board.Contents()))
      ensures SelfBelow(inner, reward, depth, lr, df, avg)
    {
      last := board.Contents();
      if board.IsWinner(player) {
        reward, avg, depth, inner, evs := 1, 0.0, 1, [], [];
        TracedNone(Q);
      } else if board.IsFinished() {
        reward, avg, depth, inner, evs := 0, 0.0, 1, [], [];
        TracedNone(Q);
      } else {
        var me := player;
        player := Other(player);
        reward, avg, depth, inner, evs, last := AutoTrain(lr, df, board);
        SelfEndedUp(board.Contents(), reward, depth, me);
        depth := depth + 1;
        player := Other(player);
        reward := -reward;
      }
    }

    /** The one-step update of (s, a) with reward, rate lr and discount df,
        as the function Updated states it; the trace gains the step with the
        change it made. */
    method UpdateQ(s: Key, a: Action, reward: real, lr: real, df: real) returns (diff: real)
      modifies this
      ensures player == old(player)
      ensures (Q, diff) == Updated(old(Q), s, a, reward, lr, df)
      ensures trace == old(trace) + [Write(Step(s, a, reward, lr, df, diff))]
      ensures old(Valid()) && LegalKey(s, a) ==> Valid()
    {
      ghost var t := Q;
      var row := Touch(RowAt(Q, s), a);
      var q := Get(row, a);
      var v := Target(q, RowMax(row), reward, lr, df);
      Q := Q[s := Set(row, a, v)];
      diff := q - v;
      trace := trace + [Write(Step(s, a, reward, lr, df, diff))];
      if LegalTable(t) && LegalKey(s, a) {
        UpdatedLegal(t, s, a, reward, lr, df);
      }
    }
  }
}
