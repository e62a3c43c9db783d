# 2048 expectimax agent in Dafny

A model of the game engine and the search of a 2048-playing agent.

- The engine is `src/board.rs`: the 4x4 board of tile exponents, the four moves, the random spawn of a 2 or a 4, and the two turn roles `PlayableBoard` and `RandableBoard`.
- The search is `src/search.rs`: depth-limited expectimax with a memo table keyed by chance node, plus the greedy and random selectors.

A cell holds an exponent: 0 is empty, `n > 0` is the tile `2^n`.

## Modules

- `Optional` (`optional.dfy`) is the `Option` type.
- `Row` (`row.dfy`) is the row primitive `push_left`.
  - The reference definition is `PushLeft`: take the tiles, merge equal neighbours in one left-to-right pass (`Merge`), then pad with zeros.
  - `PushLeftInPlace` is the source's read/write-index loop, proved equal to it.
- `Grid` (`grid.dfy`) has the board, `Action`, `ALL_ACTIONS` and `Board::apply`.
  - Every move is `PushLeft` applied under the two self-inverse symmetries, transpose and left/right mirror, exactly as the source composes them.
  - The in-place `transpose`, `swap_lr` and `push_left` loops are modelled as methods.
  - `Line(b, a, k)` reads the k-th line of the board in the direction of action `a`. A move slides every line independently with `PushLeft`.
- `Chance` (`chance.dfy`) has `num_empty`, `random_successors` and `add_random`. The two random draws of `add_random` (the empty-cell index and the 0.9 coin) are parameters.
- `Roles` (`roles.dfy`) has `PlayableBoard` and `RandableBoard` as the datatypes `Playable` and `Randable`.
- `Search` (`search.dfy`) has the expectimax values and the selectors.
  - The cache-free values are `Expectation` (chance node) and `Decision` (move node).
  - The memoised `evaluate_randable` / `evaluate_playable` are proved to return exactly those values.
  - The search is written against a record `Game(eval, play, spawn)`. The agent plays `Agent(h)`, whose `play` is `ApplyAction` and whose `spawn` is `Successors`. The heuristic of `src/eval.rs` is the parameter `h`, because that file is not part of this model.

## Model

| member | source | states |
|---|---|---|
| Row.PushLeft | src/board.rs:333-367 | the pushed row is packed (no empty cell before a tile) and has no tile beyond the number of tiles of the input |
| Row.PushLeftInPlace | src/board.rs:333-367 | the read/write-index loop with its zero fill computes exactly the reference push: tiles merged pairwise left to right, then zeros |
| Row.TakeTile | src/board.rs:339-360 | one outer step reads the next tile, skips the empty cells after it, and consumes the neighbour only when it is equal; the merged output starts with that value |
| Row.FillEmpty | src/board.rs:366 | cells from the write index on become 0 and the prefix is kept |
| Row.TilesOfPushLeft | src/board.rs:333-367 | the tiles of the pushed row are the one-pass merge of the tiles of the input |
| Row.PushLeftMass | src/board.rs:333-367 | pushing conserves the sum of tile values (2^n + 2^n = 2^(n+1)) |
| Row.PushLeftCount | src/board.rs:333-367 | pushing never increases the number of tiles |
| Row.PushLeftBound | src/board.rs:353 | a push raises no cell above the largest input exponent plus one |
| Row.PushLeftChangeLeavesGap | src/board.rs:333-367 | a push that changes the row leaves its last cell empty |
| Row.PushLeftBlocked | src/board.rs:333-367 | a full row with no equal neighbours is left unchanged |
| Row.PushLeftSlides | src/board.rs:380-384 | the unit-test rows that only slide give the expected results |
| Row.PushLeftMerges | src/board.rs:385-388 | the unit-test rows that merge give the expected results |
| Row.PushLeftSinglePass | src/board.rs:348-357 | a merged tile is never merged again in the same push, and three equal tiles merge the leftmost pair |
| Row.PushLeftNotIdempotent | src/board.rs:333-367 | pushing twice can differ from pushing once: [1,1,2,0] gives [2,2,0,0] and then [3,0,0,0] |
| Grid.Index | src/board.rs:329-330 | every action has a position in ALL_ACTIONS, and that position holds it |
| Grid.Apply | src/board.rs:188-221 | the move's board when it differs from the input, None exactly when the move changes nothing |
| Grid.Transposed | src/board.rs:306-310 | cell (i, j) of the result is cell (j, i) of the input; `Grid.TransposeInvolution` shows that transposing twice gives back the board |
| Grid.Mirrored | src/board.rs:282-292 | cell (i, j) of the result is cell (i, 3 - j) of the input; `Grid.MirrorInvolution` shows that mirroring twice gives back the board |
| Grid.PushLeftAll | src/board.rs:313-317 | every row pushed left; `Grid.PushLeftRows` proves the source's loop computes it, and `Grid.MoveSlidesLines` specifies it as the Left move |
| Grid.Move | src/board.rs:188-213 | the board after the action, moved or not; `Grid.MoveSlidesLines` specifies it: every line in the action's direction is the push of that line |
| Grid.TransposeInvolution | src/board.rs:295-303 | transposing twice gives back the board |
| Grid.MirrorInvolution | src/board.rs:282-292 | mirroring twice gives back the board |
| Grid.SwapRow | src/board.rs:284-290 | the two-index swap loop reverses one row |
| Grid.SwapLr | src/board.rs:282-292 | the in-place loop mirrors every row |
| Grid.Transpose | src/board.rs:295-303 | the lower-triangle swap loop produces the transposed board |
| Grid.PushLeftRows | src/board.rs:313-317 | the loop pushes every row left |
| Grid.ApplyInPlace | src/board.rs:188-221 | the sequence of in-place symmetries and pushes for each action equals Apply |
| Grid.LinesDetermineBoard | src/board.rs:192-213 | two boards with the same lines in one direction are equal |
| Grid.MoveSlidesLines | src/board.rs:192-213 | every line of the moved board, read in the move's direction, is the push of the same line before the move |
| Grid.MovePacksLines | src/board.rs:192-213 | after a move every line is packed toward the move's direction |
| Grid.FlattenAt | src/board.rs:252-254 | the flattened board lists cell (i, j) at position 4i + j (row-major order) |
| Grid.ApplyLeavesEmptyCell | src/board.rs:214-220 | a board produced by an applicable move has an empty cell |
| Grid.BlockedHasNoMove | src/board.rs:188-221 | on a full board with no equal orthogonal neighbours no action applies |
| Grid.MoveRaisesByAtMostOne | src/board.rs:188-213 | a move raises the largest exponent on the board by at most one |
| Grid.ApplyFitsByte | src/board.rs:180 | with every exponent at most 254 the result of a move stays within the u8 cell, so value + 1 never wraps |
| Grid.MoveMass | src/board.rs:188-213 | a move conserves the sum of tile values on the board |
| Grid.MassByLines | src/board.rs:192-213 | the board's tile mass is the sum of the masses of its lines in any direction |
| Grid.FullLinesStay | src/board.rs:188-221 | when every line in an action's direction is full with no equal neighbours, the action does not apply |
| Grid.StallMoves | src/board.rs:188-221 | on the board [[3,3,5,6],[7,8,7,8],[8,7,8,7],[7,8,7,8]] Left gives [4,5,6,0] and Right gives [0,4,5,6] in the top row, the other rows unchanged; Up and Down do not apply |
| Grid.StallTopBlocks | src/board.rs:188-221 | any full top row with no equal neighbours that differs from [7,8,7,8] in every column completes the lower three rows of that board to a blocked board |
| Grid.ApplyDownExample | src/board.rs:391-401 | the unit test's board moved Down gives the expected board |
| Chance.NumEmpty | src/board.rs:251-257 | at most 16; `Chance.EmptyCellsCount` shows it equals the number of enumerated empty cells |
| Chance.RandomSuccessors | src/board.rs:260-279 | two outcomes per empty cell; `Chance.RandomSuccessorsShape` and `Chance.RandomSuccessorsTotal` give each outcome and the total probability |
| Chance.EmptyCellsExact | src/board.rs:263-267 | the enumerated cells are exactly the empty cells, each once, in strictly increasing row-major order |
| Chance.EmptyCellsCount | src/board.rs:251-257 | there are as many enumerated empty cells as num_empty counts |
| Chance.RandomSuccessorsShape | src/board.rs:260-279 | two outcomes per empty cell: outcome m puts a 2 (m even) or a 4 (m odd) on the (m/2)-th empty cell, changes nothing else, with probability 0.9/n or 0.1/n |
| Chance.RandomSuccessorsTotal | src/board.rs:260-279 | the outcome probabilities sum to 1 whenever there is an empty cell |
| Chance.RandomSuccessorsNonnegative | src/board.rs:270-276 | every outcome probability is non-negative |
| Chance.SpawnsAt | src/board.rs:269-278 | the m-th outcome for a cell list has the stated tile, cell and probability |
| Chance.SpawnPicked | src/board.rs:269-278 | outcome 2*picked (a 2) or 2*picked+1 (a 4) writes that tile on the picked empty cell, with probability 0.9/n or 0.1/n |
| Chance.SpawnedIsPlace | src/board.rs:273-274 | an outcome that changes only one cell, to v, is the input with that cell set to v |
| Chance.SingleGapSpawns | src/board.rs:260-279 | on a board with exactly one empty cell every outcome puts a 2 or a 4 on that cell |
| Chance.StallLeftSpawnsBlock | src/board.rs:260-279 | every outcome after Left on the stall board of `Grid.StallMoves` is a blocked board |
| Chance.StallRightSpawnsBlock | src/board.rs:260-279 | every outcome after Right on the stall board is a blocked board |
| Chance.EmptyCellCounts | src/board.rs:251-257 | a board with an empty cell has a positive num_empty |
| Chance.ApplyLeavesRoomToSpawn | src/board.rs:224-230 | after an applicable move num_empty is positive, so the draw from 0..n never sees n = 0 |
| Chance.AddRandom | src/board.rs:224-248 | placing the drawn tile fills exactly one empty cell |
| Chance.AddRandomIsSuccessor | src/board.rs:224-248 | the draw (picked, coin) gives outcome 2*picked (a 2) or 2*picked+1 (a 4) of random_successors, with probability 0.9/n or 0.1/n |
| Chance.PlaceCount | src/board.rs:247 | writing a tile into an empty cell lowers num_empty by one |
| Roles.EmptyBoardCount | src/board.rs:185 | the empty board has 16 empty cells |
| Roles.Init | src/board.rs:23-27 | the initial board has exactly one tile |
| Roles.ApplyAction | src/board.rs:30-35 | an applicable action hands a changed board to the chance turn; None exactly when the move changes nothing |
| Roles.BlockedIsTerminal | src/board.rs:30-35 | a full board with no equal orthogonal neighbours is game over |
| Roles.Successors | src/board.rs:157-161 | the outcomes of random_successors, in the same order with the same probabilities, each handed to the move turn |
| Roles.Evaluate | src/board.rs:164-166 | the heuristic on the board; the heuristic is the parameter `h` because src/eval.rs is not part of this model |
| Roles.AnyAtLeast | src/board.rs:39 | true exactly when some element reaches the exponent |
| Roles.HasAtLeastTile | src/board.rs:38-40 | true exactly when some cell holds exponent i or more |
| Roles.FlattenCovers | src/board.rs:39 | flattening lists every cell exactly once, row-major |
| Roles.WithRandomTile | src/board.rs:149-153 | the chance turn fills exactly one empty cell and hands the board back |
| Search.AgentStuck | src/search.rs:119-136 | in the agent's game a node has no playable action exactly when it is game over |
| Search.Expectation | src/search.rs:91-95 | the cache-free chance-node value: the heuristic at depth 0, otherwise the probability-weighted sum over the outcomes; `Search.EvaluateRandable` proves the memoised function returns it and `Search.ExpectationWithin` bounds it |
| Search.Decision | src/search.rs:114-117 | the cache-free move-node value; `Search.DecisionIsMax` shows it is the larger of 0 and the best applicable action's value |
| Search.BestOfIsMax | src/search.rs:123-134 | after the first k actions the running best is at least 0, at least every playable action's value, and either 0 or one of those values |
| Search.DecisionIsMax | src/search.rs:119-136 | a move node is worth the larger of 0 and the best value over the playable actions, and 0 when none is playable |
| Search.SuccessorProbabilities | src/board.rs:260-279 | the probabilities of a chance node's outcomes are non-negative and sum to at most 1 |
| Search.SuccessorsAreDistribution | src/board.rs:157-161 | the agent's spawn function is a probability distribution at every chance node |
| Search.ProbabilitySumIsTotal | src/board.rs:157-161 | the outcomes as move-turn boards carry the same total probability as random_successors |
| Search.ExpectationWithin | src/search.rs:97-136 | with a heuristic in [0, m] and spawns forming a distribution, every chance-node value lies in [0, m] |
| Search.DecisionWithin | src/search.rs:119-136 | under the same conditions every move-node value lies in [0, m] |
| Search.AverageWithin | src/search.rs:106-108 | the probability-weighted sum lies between 0 and m times the total probability |
| Search.AgentWithin | src/search.rs:97-136 | with a heuristic in [0, m] every value the agent computes lies in [0, m] |
| Search.EvaluateRandable | src/search.rs:97-112 | the memoised value equals the cache-free expectation; a hit needs the same depth; the table stays exact; new entries have depth between 1 and d; the node ends up stored with its full sum |
| Search.AddOutcome | src/search.rs:106-108 | one loop step adds the outcome's probability times its move-node value to the running sum, and stores the partial sum under the node at this depth |
| Search.EvaluatePlayable | src/search.rs:119-136 | the memoised value equals the cache-free best-of-actions value; 0 and an untouched table when no action applies; the table stays exact |
| Search.AverageOfStuck | src/search.rs:106-108 | a chance node whose outcomes are all game over sums to exactly 0 |
| Search.StalledMoveScoresZero | src/search.rs:76-78 | an action that leads to a chance node whose outcomes are all game over scores exactly 0 |
| Search.BlockedSpawnsAreStuck | src/board.rs:157-161 | in the agent's game, outcomes that are blocked boards are move nodes with no applicable action |
| Search.StalledSidesChooseNothing | src/search.rs:74-87 | when only Left and Right apply and every outcome after either is game over, the game is not over yet the rule chooses nothing |
| Search.StallEndsTheGame | src/search.rs:69-88 | on the stall board, for every heuristic, the game is not over yet the selection rule at depth 3 chooses nothing |
| Search.ChoiceIsUnique | src/search.rs:74-86 | the selection rule determines at most one action |
| Search.RunningStep | src/search.rs:75-86 | one loop step keeps the state: the first strictly greater score replaces the running best |
| Search.RunningDone | src/search.rs:74-87 | after all four actions the loop state is the choice the source's rule describes |
| Search.SelectExpectimax | src/search.rs:69-88 | the result is the first action in ALL_ACTIONS order with the largest expectimax score among applicable actions, provided it is above 0; any result is applicable; nothing on a terminal board |
| Search.SelectGreedily | src/search.rs:46-64 | the same rule over the one-ply heuristic scores; any result is applicable; nothing on a terminal board |
| Search.GreedyIsDepthOne | src/search.rs:46-88 | the greedy selector and expectimax with max_actions = 1 pick the same action |
| Search.ZeroScoresEndTheGame | src/search.rs:74-82 | with every score 0 the rule chooses nothing on a board that still has a legal move |
| Search.BestChoiceEndsOnlyWhenTerminal | src/search.rs:40-45 | the documented rule chooses nothing exactly when no action applies |
| Search.BestChoiceAgrees | src/search.rs:74-82 | whenever the source's rule picks an action, the documented rule picks the same one |
| Search.RunningBestTake | src/search.rs:76-82 | under the documented rule, an applicable action that beats the running best (or is the first applicable one) becomes the first-largest so far |
| Search.RunningBestKeep | src/search.rs:76-85 | an action that does not apply, or does not beat the running best, leaves the documented loop state valid for one more action |
| Search.RunningBestDone | src/search.rs:40-45 | after all four actions the documented loop state is the documented choice, and it is empty exactly when the game is over |
| Search.ExamineBest | src/search.rs:76-85 | one pass of the corrected selection loop scores the action with the cache and keeps the loop state and the table sound |
| Search.SelectBest | src/search.rs:69-88 | expectimax selection under the documented rule: first largest score among applicable actions, nothing exactly when the game is over |
| Search.SelectAction | src/search.rs:9-13 | expectimax at depth 3 with the source's rule: the choice is the first largest depth-3 score among applicable actions when that score is above 0; any choice is applicable; nothing on a terminal board |
| Search.ApplicableAmong | src/search.rs:17-25 | keeps exactly the applicable actions of the list |
| Search.ApplicableAmongInOrder | src/search.rs:17-25 | when the list is in ALL_ACTIONS order, so is the result: earlier kept actions have smaller positions |
| Search.ApplicableActions | src/search.rs:15-32 | exactly the applicable actions, in strictly increasing ALL_ACTIONS position (so each once); empty exactly when the game is over |
| Search.SelectRandomly | src/search.rs:15-38 | nothing exactly when no action applies; otherwise the index-th applicable action, which is applicable |

## Left out

- Rendering is not modelled: `draw`, `get_tile_position`, `get_tile_colors`, the Macroquad constants and the `Debug` impls. It has no effect on the game.
- `src/main.rs` (the game loop and the human mode) is not part of this model.
- `src/eval.rs` is not part of this model. Its heuristic is the parameter `h: Board -> real`.
- Randomness is not modelled. `random_range` and `random_bool` in `add_random`, and `random_range` in `select_action_randomly`, become parameters. The distribution itself is `random_successors`.
- Floating point is not modelled. Scores and probabilities are exact reals, so f32 rounding of 0.9 / n and of the running sums is not captured.
- The `hashbrown` table is a Dafny `map`, threaded through the memoised methods.
- `Stats` is left out. It is never incremented and only instruments the search.
- Cells are unbounded naturals rather than `u8`. `Grid.ApplyFitsByte` shows that no move overflows while every exponent stays at most 254; a board holding exponent 255 is not considered.
- `transposed()` (src/board.rs:306-310) is the function `Grid.Transposed`. The in-place version is `Grid.Transpose`.
- `evaluate_playable` keeps a `best_action` it never returns. The model drops it.
- `max_actions - 1` and `remaining_actions - 1` underflow `usize` at depth 0 when an action applies. `Search.EvaluatePlayable` and `Search.SelectExpectimax` require depth at least 1 unless the board is game over. The agent always calls with depth 3.
- `Search.SuccessorProbabilities`: states that the probabilities sum to at most 1 rather than exactly 1. The sum is 0 on a full board, which has no outcomes.
- `push_left` is not idempotent: [1,1,2,0] gives [2,2,0,0] and then [3,0,0,0] (`Row.PushLeftNotIdempotent`).

## Findings

| source | as written | input that shows it | evidently intended | confidence | as-written member | corrected member |
|---|---|---|---|---|---|---|
| src/search.rs:74-82 | the running best starts at 0.0, so an applicable action is chosen only when its score is strictly above 0; with every score at or below 0 the selector returns None, and src/main.rs:88-93 then reports game over | the board [[3,3,5,6],[7,8,7,8],[8,7,8,7],[7,8,7,8]] (exponents): Left and Right apply, but every tile spawned after either leaves a blocked board, so both scores are exactly 0 whatever the heuristic, and nothing is chosen | None only when no action applies, as the comment at src/search.rs:40-45 says; the first applicable action is always a candidate | high: the scores are 0 for every heuristic, so src/eval.rs does not matter; not executed | Search.SelectExpectimax, Search.StallEndsTheGame | Search.SelectBest, Search.BestChoiceEndsOnlyWhenTerminal |

`select_action_greedily` (src/search.rs:49-58) follows the same rule, as `Search.SelectGreedily` shows. `Search.SelectAction` is the source's entry point and keeps its rule; `Search.SelectBest` is the same search under the documented rule. `Search.ZeroScoresEndTheGame` shows the same effect with a heuristic that is 0 everywhere, on the unit-test board of src/board.rs:393-395.
