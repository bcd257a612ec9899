# Tic-tac-toe decision engine, modelled in Dafny

This project models the decision engine of an N×N tic-tac-toe game, in which a full line wins. It covers:

- the board object;
- the game loop;
- four automated players:
  - an alpha-beta minimax player;
  - a tabular Q-learner with its two training routines;
  - a reward-lookup player;
  - a legacy heuristic player.

Properties of each are proved.

The model is layered like the program:

- `grids.dfy` (module `Grids`) holds the pure logic over the VALUE of a grid:
  - cells 0 (empty), 1 and 2;
  - legal placements;
  - the win test;
  - fullness;
  - the row-major enumeration of empty cells and successor grids.

  It also gives an independent account of the 2N+2 lines of a board.
- `state.dfy` holds the flattened state key (`GridState`) and `text.dfy` the text rendering (`GridText`).
- `board.dfy` (module `Boards`) is the board as a class. It has an N×N `array2` that the guarded `Move` writes in place. Every query is specified through the functions above, via `Contents()`.
- `minimax.dfy` (module `Search`) specifies the game value by plain, unpruned minimax (`MaxValue`, `MinValue`). The source's fail-soft alpha-beta search runs over candidate boards held in storage apart from the one searched, and is proved against that value. With the full window the result is exact, so its move choice is a best legal move.
- `qtable.dfy` (module `QTables`) and `qlearner.dfy` (module `QLearning`) cover the Q-learner.
  - The table maps a state key to a row of (action, value) pairs in insertion order, as a Python dict iterates them.
  - A read of a missing entry gives 0.0 and inserts the entry, as a `defaultdict` does.
  - The learner is a class whose `GetMove`, update and two trainers change the table in place.
  - A ghost `trace` of events records every visit of a state and every update. The trainers' table is the replay of that trace, so their bookkeeping of reward, depth, discount and average, and the table they leave, can be stated exactly.
- `players.dfy` (module `Players`) abstracts a player as the game loop sees it: a mark, and a proposal function of the grid and the attempt number.
- `game.dfy` (module `Games`) is the game loop, with its outer turn loop and its inner retry loop.
- `irl_finite.dfy` (module `RewardLookup`) is the reward-lookup player.
- `minimax_old.dfy` (module `Heuristic`) is the legacy heuristic player in its deterministic mode.

Where the code and its documentation differ, the model follows the code. The win test is `any` over four clauses, so a full main diagonal or a full anti-diagonal alone wins (`Grids.Wins`). It is not a requirement that both diagonals be full.

## Model

| member | source | states |
|---|---|---|
| Boards.Board.Empty | ai_games/tictactoe/board.py:14-18 | a board built without a grid is N×N with every cell empty (so N·N empty cells), in fresh storage |
| Boards.Board.Of | ai_games/tictactoe/board.py:16-18 | a board built over a given array holds that array, and N is its first dimension |
| Boards.Board.Move | ai_games/tictactoe/board.py:45-49 | the move succeeds iff (row, col) is on the board and empty; on success only that cell becomes p, on failure the grid is unchanged |
| Boards.Board.IsWinner | ai_games/tictactoe/board.py:29-34 | p wins iff p owns one of the 2N+2 lines (rows, columns, either diagonal) |
| Boards.Board.IsFinished | ai_games/tictactoe/board.py:92-95 | finished iff no cell is 0, equivalently iff no empty cell is left to enumerate |
| Boards.Board.GetCandidates | ai_games/tictactoe/board.py:59-66 | one entry per empty cell in row-major order; each board holds the original grid with only that cell set to p, in other storage; the original is unchanged |
| Boards.Board.Copy | ai_games/tictactoe/board.py:69-72 | the copy has an equal grid in fresh storage, so later writes to either leave the other as it was |
| Boards.Board.Successor | ai_games/tictactoe/board.py:63-64 | a copy with the one cell set to p, in fresh storage |
| Boards.Board.GetState | ai_games/tictactoe/board.py:87-89 | the key has N·N entries, with cell (r, c) at r·N + c |
| Boards.Board.TextOfCells | ai_games/tictactoe/board.py:78-84 | the layout of the rendering, read off the board's cells |
| Boards.Board.GetText | ai_games/tictactoe/board.py:78-84 | the 0×0 board renders as ""; for N ≥ 1 the rendering has 4N²-2N-1 characters: the symbol ' XO'[cell] of (r, c) at 4N·r + 2c, a '\|' after it unless c is the last column, and below every row but the last the rule, character j of it at 4N·r + 2N-1 + j; this fixes every character |
| Boards.Board.Visit | ai_games/tictactoe/board.py:62-65 | one cell of the inner loop: an empty cell appends its action and a board in fresh storage with that cell set to p; a filled cell appends nothing |
| Boards.Board.AppendRow | ai_games/tictactoe/board.py:61-65 | the inner loop over one row extends the candidates with that row's empty cells, in column order, each with a fresh board |
| Boards.EnumerateStep | ai_games/tictactoe/board.py:60-65 | one cell of the nested loops: an empty cell is the next candidate, a filled one is skipped |
| Grids.Place | ai_games/tictactoe/board.py:46-47 | the placed cell holds p and every other cell is as it was |
| Grids.WinsIffOwnsLine | ai_games/tictactoe/board.py:29-34 | the four-clause win test holds iff p owns one of the lines of Grids.Lines |
| Grids.OwnedLineWins | ai_games/tictactoe/board.py:29-34 | an owned line makes the win test true |
| Grids.WinningLine | ai_games/tictactoe/board.py:29-34 | a win names a line that p owns |
| Grids.WinPersists | ai_games/tictactoe/board.py:29-34 | a win survives every later legal move |
| Grids.EmptyCellsFrom | ai_games/tictactoe/board.py:60-62 | the cells listed from (r, c) on are legal, every legal cell from there on is listed, and the list is strictly row-major |
| Grids.EmptyCellsExact | ai_games/tictactoe/board.py:60-62 | a cell is listed iff it is a legal move, and the list has no repeats |
| Grids.NoEmptyCellsIffFull | ai_games/tictactoe/board.py:62 | the empty-cell list is empty, and the count is 0, iff the grid is full |
| Grids.EmptiesAfterPlace | ai_games/tictactoe/board.py:46-47 | a legal placement uses up exactly one empty cell |
| Grids.EmptiesBound | ai_games/tictactoe/board.py:14-18 | at most N·N cells are empty |
| Grids.AllEmptyCount | ai_games/tictactoe/board.py:14-15 | an all-zero N×N grid has N·N empty cells |
| Grids.Candidates | ai_games/tictactoe/board.py:59-66 | the successors are, in order, the empty cells, each with the grid that sets only that cell to p |
| Grids.CandidatesShrink | ai_games/tictactoe/board.py:62-64 | each successor has one empty cell fewer, and the list is empty iff the grid is full |
| Grids.CandidateFor | ai_games/tictactoe/board.py:59-66 | every legal action has its successor in the list |
| Grids.PlaceExtends | ai_games/tictactoe/board.py:46-47 | a legal placement never clears or changes an owned cell |
| GridState.StateLayout | ai_games/tictactoe/board.py:87-89 | the key is the row-major flattening, with N·N entries and cell (r, c) at r·N + c |
| GridState.StateInjective | ai_games/tictactoe/board.py:87-89 | two square grids with equal keys are equal, so the key identifies the board |
| GridState.LegalKeyIff | ai_games/tictactoe/board.py:87-89 | the legality of a move can be read back from the key |
| GridText.RowTextLayout | ai_games/tictactoe/board.py:80-82 | a row renders as 2N-1 characters: symbols at even positions, '\|' between them |
| GridText.RuleLayout | ai_games/tictactoe/board.py:78 | the row separator is a newline, N dashes joined by '+', and a newline |
| GridText.TextAt | ai_games/tictactoe/board.py:78-84 | cell (r, c)'s symbol is at 4N·r + 2c, with a '\|' after it unless c is the last column |
| GridText.RuleAt | ai_games/tictactoe/board.py:78-84 | below row r (not the last), character j of the rule is at 4N·r + 2N-1 + j |
| GridText.TextLayout | ai_games/tictactoe/board.py:78-84 | the whole rendering: its length 4N²-2N-1, every symbol, every '\|' and every rule character in place |
| Search.Minimax.constructor | ai_games/tictactoe/players/minimax.py:12-13 | the player and its opponent are set |
| Search.Minimax.SetPlayer | ai_games/tictactoe/players/minimax.py:16-18 | the opponent is 2 for player 1 and 1 otherwise |
| Search.MaxValue | ai_games/tictactoe/players/minimax.py:24-35 | the reference game value with the player to move (unpruned minimax: an opponent line -1, else a full grid 0, else the best reply) lies in -1..1 |
| Search.MinValue | ai_games/tictactoe/players/minimax.py:47-58 | the reference game value with the opponent to move (a player line 1, else a full grid 0, else the worst reply) lies in -1..1 |
| Search.Minimax.MaxScore | ai_games/tictactoe/players/minimax.py:21-36 | the result is in -1..1 and is fail-soft with respect to MaxValue: exact strictly inside (alpha, beta), at most alpha below it, at least beta above it; the board is not modified |
| Search.Minimax.MaxOver | ai_games/tictactoe/players/minimax.py:29-35 | the candidate loop with its beta cut is fail-soft for the maximum of the children's values |
| Search.Minimax.MaxStep | ai_games/tictactoe/players/minimax.py:31-35 | one candidate: the cut happens iff the running maximum reaches beta; otherwise alpha is raised |
| Search.Minimax.MinScore | ai_games/tictactoe/players/minimax.py:39-59 | the result is in -1..1 and is fail-soft with respect to MinValue |
| Search.Minimax.MinOver | ai_games/tictactoe/players/minimax.py:52-58 | the candidate loop with its alpha cut is fail-soft for the minimum of the children's values |
| Search.Minimax.MinStep | ai_games/tictactoe/players/minimax.py:54-58 | one candidate: the cut happens iff the running minimum falls to alpha; otherwise beta is lowered |
| Search.MaxLoopStep | ai_games/tictactoe/players/minimax.py:31-35 | a child's fail-soft score either ends the loop with a fail-soft result or keeps the loop state |
| Search.MaxLoopDone | ai_games/tictactoe/players/minimax.py:30-36 | after all children, the running maximum is fail-soft for their maximum |
| Search.MinLoopStep | ai_games/tictactoe/players/minimax.py:54-58 | the same step for the minimising loop |
| Search.MinLoopDone | ai_games/tictactoe/players/minimax.py:53-59 | after all children, the running minimum is fail-soft for their minimum |
| Search.FullWindowExact | ai_games/tictactoe/players/minimax.py:69 | with the window (-INFINITE, INFINITE), fail-soft means exact |
| Search.Minimax.ScoreAll | ai_games/tictactoe/players/minimax.py:68-72 | the full-window search scores every candidate with its exact value |
| Search.Minimax.GetMove | ai_games/tictactoe/players/minimax.py:62-75 | on an all-zero board the random opening in 0..2 × 0..2; otherwise a legal move whose value is at least that of every legal move |
| Search.BestCandidate | ai_games/tictactoe/players/minimax.py:68-74 | a candidate of greatest value is a best legal move |
| Search.MaxIndex | ai_games/tictactoe/players/minimax.py:73-74 | whichever tie is picked, the index holds a greatest value |
| QTables.Set | ai_games/tictactoe/players/qlearner.py:77-81 | the store of a value: a stored action keeps its place and the row its length; a missing action is appended at the end |
| QTables.Get | ai_games/tictactoe/players/qlearner.py:19 | an entry never written reads 0.0, and a stored entry reads its value |
| QTables.LookupUnwritten | ai_games/tictactoe/players/qlearner.py:19 | a (state, action) never written reads 0.0 |
| QTables.Touch | ai_games/tictactoe/players/qlearner.py:19 | a read through the defaultdict leaves the action stored |
| QTables.TouchKeys | ai_games/tictactoe/players/qlearner.py:76 | a read changes no value, appends the action when it is missing, and keeps keys distinct |
| QTables.SetKeys | ai_games/tictactoe/players/qlearner.py:77-80 | a write keeps the key order (a new key is appended), keeps keys distinct and leaves other entries alone |
| QTables.GetSet | ai_games/tictactoe/players/qlearner.py:77-81 | after a write the action reads the new value, and every other action reads as before |
| QTables.RowMax | ai_games/tictactoe/players/qlearner.py:58 | the maximum is a stored value, and no stored value exceeds it |
| QTables.GreedyActions | ai_games/tictactoe/players/qlearner.py:59-64 | the greedy list holds exactly the actions whose value is m |
| QTables.GreedyOfMax | ai_games/tictactoe/players/qlearner.py:57-64 | the greedy list at the maximum is non-empty and holds only stored actions |
| QTables.InitRow | ai_games/tictactoe/players/qlearner.py:49-50 | the first-visit row has exactly the given actions, in order, each at 0 |
| QTables.InitRowStep | ai_games/tictactoe/players/qlearner.py:49-50 | writing the actions one at a time builds that row |
| QTables.Updated | ai_games/tictactoe/players/qlearner.py:76-81 | the update: the state gains a row holding the action; (s, a) then reads (1-lr)·old + lr·(reward + df·m), m the row maximum after the read inserted the entry; the result is old - new |
| QTables.UpdatedEffect | ai_games/tictactoe/players/qlearner.py:76-81 | an update writes (1-lr)·old + lr·(reward + df·m), with m the row maximum after the read and before the write; it returns old - new and changes no other entry |
| QTables.UpdatedAtRateZero | ai_games/tictactoe/players/qlearner.py:76-81 | with lr = 0 no value changes and the result is 0 |
| QTables.TargetRates | ai_games/tictactoe/players/qlearner.py:77-80 | rate 0 keeps the value; rate 1 gives reward + df·m |
| QTables.TargetBetween | ai_games/tictactoe/players/qlearner.py:77-80 | for a rate in [0, 1] the new value lies between the old value and the target |
| QLearning.InitRowLegal | ai_games/tictactoe/players/qlearner.py:43-50 | the first-visit row has distinct actions that are empty cells of the keyed grid |
| QLearning.RowLegal | ai_games/tictactoe/players/qlearner.py:76-80 | a read and a write of a legal action keep a row distinct and legal |
| QLearning.UpdatedLegal | ai_games/tictactoe/players/qlearner.py:76-80 | an update of a legal action keeps the table legal |
| QLearning.InitLegal | ai_games/tictactoe/players/qlearner.py:49-50 | a first-visit write keeps the table legal |
| QLearning.StoredLegal | ai_games/tictactoe/players/qlearner.py:40 | in a legal table, a stored action is a legal move on its grid |
| QLearning.ReplayAppend | ai_games/tictactoe/players/qlearner.py:84-136 | replaying two runs of events one after the other is replaying their concatenation |
| QLearning.WritesAppend | ai_games/tictactoe/players/qlearner.py:84-136 | the updates of two runs of events are those of the first, then those of the second |
| QLearning.ConsistentAppend | ai_games/tictactoe/players/qlearner.py:84-136 | two runs record the changes they made iff each does, the second replayed from where the first leaves the table |
| QLearning.TracedLevel | ai_games/tictactoe/players/qlearner.py:106-135 | one level of a game (the visit of its state by the move choice, the events of the levels below, its own update recording its change) takes the table from where the level began to where it ends |
| QLearning.UpdatesLast | ai_games/tictactoe/players/qlearner.py:110-116 | the last move's single update, at depth 1 or 2 with the matching reward, is a well-formed training record with average diff/depth |
| QLearning.UpdatesExtend | ai_games/tictactoe/players/qlearner.py:131-135 | one level up adds an update at depth + 1 with the same reward and its discount, and adds diff/depth to the average |
| QLearning.SelfUpdatesLast | ai_games/tictactoe/players/qlearner.py:151-157 | the last self-play move's single update, reward 1 or 0 at depth 1, is a well-formed record |
| QLearning.SelfUpdatesExtend | ai_games/tictactoe/players/qlearner.py:159-166 | one self-play level up adds an update with the negated reward at the next depth |
| QLearning.UpdatesAbove | ai_games/tictactoe/players/qlearner.py:114-135 | a level's update above what the rest of the game handed back completes the record at this depth, and its diff/depth completes the average |
| QLearning.SelfUpdatesAbove | ai_games/tictactoe/players/qlearner.py:155-166 | the same for a self-play level |
| QLearning.OutcomeEnded | ai_games/tictactoe/players/qlearner.py:110-126 | once who ended the game is known from the depth, the reward is -1, 0 or 1 and says it: 1 a line of the learner, -1 a line of the opponent, 0 a full board |
| QLearning.SelfOutcomeEnded | ai_games/tictactoe/players/qlearner.py:151-163 | the same for self-play, the other side being the other mark |
| QLearning.SelfEndedUp | ai_games/tictactoe/players/qlearner.py:159-163 | one self-play level up (player swapped back, depth one more, reward negated) the same final move ended the game, made by the mover of that depth |
| QLearning.SelfFinalMove | ai_games/tictactoe/players/qlearner.py:146-163 | the final move of a self-play level is the level's own move when the game ended there, else the final move of the levels below; it was a legal move of the mover of the depth's parity, keyed by the deepest update |
| QLearning.Reply | ai_games/tictactoe/players/qlearner.py:120-121 | the opponent's first proposal goes through the guarded move: the grid becomes Answered (placed when legal, unchanged otherwise), and marks are only added |
| QLearning.QLearner.constructor | ai_games/tictactoe/players/qlearner.py:12-19 | an empty table, which is legal |
| QLearning.QLearner.SetPlayer | ai_games/tictactoe/players/qlearner.py:22-23 | only the player changes |
| QLearning.QLearner.GetMove | ai_games/tictactoe/players/qlearner.py:26-65 | first visit: the row becomes every candidate action at 0 and the move is one of them; otherwise the table is unchanged and the move is a stored action, of greatest value when greedy; always a legal move; the table stays legal |
| QLearning.QLearner.FirstVisit | ai_games/tictactoe/players/qlearner.py:42-50 | the row of the state becomes the candidate actions in row-major order, each at 0 |
| QLearning.QLearner.WriteRow | ai_games/tictactoe/players/qlearner.py:49-50 | the loop of writes leaves exactly that row |
| QLearning.QLearner.Ply | ai_games/tictactoe/players/qlearner.py:106-108 | the learner's sampled move, made: the table becomes the one after the visit (the first-visit row added when the state had none), which the trace records; s is the key before the move; the action is stored in its row, legal, and placed, using one empty cell |
| QLearning.QLearner.UpdateQ | ai_games/tictactoe/players/qlearner.py:69-81 | the table and the result are those of the update function; the trace gains the update with the change it made; the table stays legal |
| QLearning.QLearner.Close | ai_games/tictactoe/players/qlearner.py:134-136 | this level's update is exactly (s, a) with the game's reward, the rate and f_df(depth); the new table and the recorded change are those of the update function on the old table; the record and the average are extended |
| QLearning.QLearner.Finish | ai_games/tictactoe/players/qlearner.py:131-136 | the level's events (its visit, the events below, its update) take the table it began with to the new table, and the trace grows by exactly them |
| QLearning.QLearner.Train | ai_games/tictactoe/players/qlearner.py:84-136 | the reward is -1, 0 or 1 and says how the final grid ended; the learner made the final move (keyed by the deepest update) iff depth equals the number of updates, else the opponent did; the new table is the replay of the game's visits and updates on the old one, each update recording its change; one update per level with the game's reward and f_df of its depth; the newest update is of the starting state and the move made; the average is the sum of diff/depth; at most one level per empty cell; the player is unchanged |
| QLearning.QLearner.Rest | ai_games/tictactoe/players/qlearner.py:110-131 | after the learner's move: a line of the learner gives reward 1 at depth 1 with no update and the board as it was; else a full board gives 0 at depth 1 likewise; otherwise depth ≥ 2, the opponent's turn is played, and the final move is the opponent's or the one a deeper level records |
| QLearning.QLearner.Answer | ai_games/tictactoe/players/qlearner.py:123-132 | after the opponent's turn: a line of the opponent gives -1 at depth 2 with no update and the board as it was; else a full board gives 0 at depth 2 likewise; otherwise a further game one level deeper, with at least one update |
| QLearning.QLearner.CloseSelf | ai_games/tictactoe/players/qlearner.py:165-167 | this self-play level's update is exactly (s, a) with the level's reward, the rate and f_df(depth); the new table and the recorded change are those of the update function; the record and the average are extended |
| QLearning.QLearner.FinishSelf | ai_games/tictactoe/players/qlearner.py:164-167 | the self-play level's events take the table it began with to the new table, as Finish states it |
| QLearning.QLearner.AutoTrain | ai_games/tictactoe/players/qlearner.py:140-167 | the reward is -1, 0 or 1 and says how the final grid ended for the returning player; the final move was a legal move, keyed by the deepest update, of the returning player at odd depths and of the other mark at even ones; the first update has reward 1 or 0 and each level above negates it; the update at level j has depth j + 1 and f_df(j + 1); the new table is the replay of the game's visits and updates; depth is at most the number of empty cells; the player is the same on return |
| QLearning.QLearner.SelfTail | ai_games/tictactoe/players/qlearner.py:147-167 | a self-play level after its move (s, a) on g0: the rest of the game, then the level's update of (s, a), with the contract of AutoTrain stated from g0 |
| QLearning.QLearner.SelfRest | ai_games/tictactoe/players/qlearner.py:151-163 | after the move: a line gives 1 at depth 1 with no update and the board as it was; else a full board gives 0 at depth 1 likewise; otherwise the player is swapped, the rest is played with at least one update, the player is swapped back, and the reward is negated |
| Games.Mover | ai_games/tictactoe/game.py:26 | the mover of each turn is one of the two players |
| Games.FirstLegal | ai_games/tictactoe/game.py:29-31 | the first attempt, within the player's patience, whose proposal is legal |
| Games.Choice | ai_games/tictactoe/game.py:29-31 | the move a turn ends with is legal |
| Games.TakeTurn | ai_games/tictactoe/game.py:28-31 | illegal proposals leave the board unchanged and the player is asked again; the first legal proposal is placed, and nothing else changes |
| Games.PlayedAppend | ai_games/tictactoe/game.py:25-31 | a turn of the right mover extends the recorded play |
| Games.PlayedProgress | ai_games/tictactoe/game.py:24-35 | each turn fills one empty cell, so a play lasts at most N·N turns and never overwrites a mark |
| Games.VerdictStep | ai_games/tictactoe/game.py:30-33 | a turn's verdict is the mover's mark if it completed a line, else the game goes on; an empty cell is used up |
| Games.VerdictFinal | ai_games/tictactoe/game.py:32-35 | a final verdict, spelled out |
| Games.Round | ai_games/tictactoe/game.py:25-35 | one pass: a full board is a draw and leaves the board as it was; otherwise a turn is taken, and a line of the mover's mark sets the winner |
| Games.PlayGame | ai_games/tictactoe/game.py:9-36 | player 1 moves on even turns from 0, player 2 on odd ones; each turn is the mover's first legal proposal; the result is player 1's mark, player 2's mark or -1; a winner made the last move and owns a line, even if that move filled the grid; -1 only on a full grid; no earlier turn completed its mover's line |
| RewardLookup.FirstRewarded | ai_games/tictactoe/players/irl_finite.py:32-34 | the first position whose successor state has a reward, or the length when none has |
| RewardLookup.FirstRewardedUnique | ai_games/tictactoe/players/irl_finite.py:32-34 | a rewarded position with none rewarded before it is that first position |
| RewardLookup.IRLFinite.constructor | ai_games/tictactoe/players/irl_finite.py:10-13 | the player and its reward table are set |
| RewardLookup.IRLFinite.SetPlayer | ai_games/tictactoe/players/irl_finite.py:16-17 | only the player changes |
| RewardLookup.IRLFinite.GetMove | ai_games/tictactoe/players/irl_finite.py:20-38 | the first row-major candidate whose successor has a reward, else some empty cell; always a legal move; the board is not modified |
| RewardLookup.IRLFinite.Choose | ai_games/tictactoe/players/irl_finite.py:31-38 | the loop with its early return yields the first rewarded action, or one of the collected actions |
| Heuristic.WeightsCountLines | ai_games/tictactoe/players/minimax_old.py:11-18 | each weight H[r][c] is the number of rows, columns and diagonals of a 3×3 board through (r, c) |
| Heuristic.OnLineIff | ai_games/tictactoe/players/minimax_old.py:11-13 | a cell is on line k exactly when the win test's line k contains it |
| Heuristic.ThroughCounts | ai_games/tictactoe/players/minimax_old.py:11-13 | the line count through a cell is the size of the set of those lines |
| Heuristic.LinesThroughOnLine | ai_games/tictactoe/players/minimax_old.py:11-13 | the lines through a cell are the ones OnLine names |
| Heuristic.Score | ai_games/tictactoe/players/minimax_old.py:31-40 | a board's score for p lies in 0..100 |
| Heuristic.HeldBound | ai_games/tictactoe/players/minimax_old.py:36-39 | the weights summed over p's cells lie between 0 and the sum of all weights |
| Heuristic.ScoreBounds | ai_games/tictactoe/players/minimax_old.py:31-40 | a score without a line lies in 0..24; a line scores 100 |
| Heuristic.LineOutscores | ai_games/tictactoe/players/minimax_old.py:31-40 | any board with a line outscores any board without one |
| Heuristic.LegacyMinimax.constructor | ai_games/tictactoe/players/minimax_old.py:20-28 | the player is set, and the opponent is the other mark |
| Heuristic.LegacyMinimax.ScoreBoard | ai_games/tictactoe/players/minimax_old.py:31-40 | the nested loops compute the score: 100 for a line, else the summed weights of p's cells |
| Heuristic.LegacyMinimax.ScoreEach | ai_games/tictactoe/players/minimax_old.py:50-53 | each candidate board is scored |
| Heuristic.LegacyMinimax.Evaluate | ai_games/tictactoe/players/minimax_old.py:56-67 | a successor's value is 10·score - 9·(best reply score), or 10·score when no reply is left |
| Heuristic.LegacyMinimax.ValueEach | ai_games/tictactoe/players/minimax_old.py:55-67 | the (value, move) pairs of every candidate, in order |
| Heuristic.Value | ai_games/tictactoe/players/minimax_old.py:56-67 | a successor with a line of p is valued at least 100 (scaled by 10), any other at most 240 |
| Heuristic.WinOutvalues | ai_games/tictactoe/players/minimax_old.py:56-67 | a successor with a line of p, on which the opponent cannot complete a line in reply, is valued above every successor without a line of p |
| Heuristic.Ranked | ai_games/tictactoe/players/minimax_old.py:50-67 | one (value, move) pair per candidate, in row-major order; the list is empty iff the board is full |
| Heuristic.Best | ai_games/tictactoe/players/minimax_old.py:74 | the greatest pair under Python's tuple order, and one of the list's pairs |
| Heuristic.BestIsLegalAndMaximal | ai_games/tictactoe/players/minimax_old.py:50-75 | the chosen move is legal and of greatest value, and among equal values it is the last in row-major order |
| Heuristic.LegacyMinimax.GetMove | ai_games/tictactoe/players/minimax_old.py:43-75 | the move of the greatest (value, move) pair of the candidates; the board is not modified |

## Left out

- Randomness is modelled as a set:
  - the learner's sampling and its random choice between equal maxima are `:|` choices;
  - the minimax player's random opening is the parameter `first`, and its shuffle before `max` is the parameter `tie`;
  - the reward-lookup player's fallback `random.choice` is a `:|` choice.

  Distributions and fairness are not modelled.
- QLearning.QLearner.GetMove: the softmax sampling (`np.exp(values*5)`, normalisation, `np.random.choice`) is kept only as membership: the move is some stored action of the state.
- QLearner's `Qfile` branch is a stub in the source and is not modelled. The constructor always builds an empty table.
- RewardLookup.IRLFinite.constructor: the pickle file is not read. Its reward table is a parameter, fixed by the source to a file name that ignores its argument.
- The legacy player's `human=True` mode is not modelled: random sampling over shifted, normalised scores.
- Floating point is not modelled.
  - The learning rate, the discounts, the Q-values and the averages are `real`.
  - The legacy player's values are integers scaled by 10 (10·score - 9·reply).
  - Python floats could order values differently that are equal as reals.
- Cells are integers 0..2, not the numpy `uint8` storage.
- Heuristic.LegacyMinimax.GetMove requires N ≤ 3 because its weight table is 3×3.
  - On a larger board the source fails with an index error whenever it scores a board on which the scored player holds a cell outside rows and columns 0..2 without owning a line, as on any opening of a larger board.
  - The few larger boards it does handle are excluded as well, for instance a 4×4 board whose only empty cell completes the player's line, which scores 100 and leaves no reply to score.
  - It also requires a cell to be empty: on a full board the source's `max` of an empty list fails.
- RewardLookup.IRLFinite.GetMove requires a cell to be empty: on a full board the source's `random.choice([])` fails.
- QLearning.QLearner.GetMove requires a cell to be empty. On a full board the source's read of the table stores an empty row for the state (qlearner.py:39), the first-visit branch finds no candidate (qlearner.py:42-50), and `random.choice([])` fails (qlearner.py:65). No caller asks on a full board: the trainers call it only after checking that the game goes on.
- Search.Minimax.GetMove takes the opening move as a parameter in 0..2 × 0..2, as the source hard-codes it. On boards other than 3×3 that move need not be legal. The precondition "an empty board, or one with an empty cell" is what the source needs to find a candidate.
- Boards.Board.Of requires a square array. The board's documentation promises N×N, and a non-square array is outside this model.
- Players are an `Agent` datatype in which the player's state and randomness are folded into a proposal function of the grid and the attempt number.
  - The proposal sees the grid value and cannot touch the board. In the game loop this models the `board.copy()` each player is given.
  - Games.PlayGame assumes each player is `Patient`: on every non-full grid it proposes a legal move within a finite number of attempts. Without it the source's retry loop need not end.
- QLearning.Reply: the training opponent is asked once, through this proposal function at attempt 0. Its own state is not modelled. The source hands it the live training board, not a copy (qlearner.py:120); the model's pure proposal assumes the opponent does not change that board.
- Boards.Board.GetCandidates states that each candidate's storage differs from this board's, not that it is fresh. Each candidate is built fresh (`Successor`, `Copy`).
- The game's `__main__` block and the console output are not modelled.
- The human and random players are not modelled: one is console input, the other a single `random.choice`.
- The time-driven training and testing loops of `utils.py` are not modelled.
