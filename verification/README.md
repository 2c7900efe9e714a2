# Qawale engine model

A Dafny model of the game engine of qawale-bot, a player for the 4x4 stacking game Qawale.

The board has sixteen cells. Each cell holds a pile of at most eight stones, which are neutral, red or white. A move lifts a whole pile and puts the player's new stone on top of it. The lifted stones are then dropped one per cell along a path that never doubles straight back on itself. A player wins when one row, column or diagonal shows that player's stone on all four pile tops.

The model covers:

- **Grid** (`grid.dfy`): cell addressing (`x + 4*y`), the four directions with `reverse`, the bounds check and the step.
- **Piles** (`piles.dfy`): stones, pile tops and the bounded pile.
- **Paths** (`paths.dfy`): a start cell, steps and the cached end cell. Pushing and popping steps keep the end consistent. The position iterator is included.
- **PathGen** (`path_gen.dfy`): the depth-first path enumerator. It is an explicit state record advanced by a pure `Next`. It is proved to yield exactly the valid paths of the requested length, in strictly increasing lexicographic order under Right < Down < Left < Up. `Lex` (`lex.dfy`) holds that order and a numeric rank used for termination.
- **Players** (`players.dfy`): the two colours and a move.
- **MoveGen** (`move_gen.dfy`): the move enumerator. It runs one path enumerator per non-empty pile, in ascending cell order.
- **Boards** (`boards.dfy`): the starting layout, the projection onto pile tops, and the move transition.
- **Winning** (`winning.dfy`): the win check, which scans rows, then columns, then the two diagonals.

Modelling choices:

- Everything is an immutable value. The two iterators are records plus a pure step function, and `Yields` / `Moves` collect their output up to the first `None`.
- Fixed-capacity buffers are `seq`s. A push onto a full buffer panics in the original, so the model turns it into a precondition.
- The other panics become preconditions too: a step off the board, popping a step from an empty path, a move from an empty pile, and a path whose length does not match the hand.
- The stone colour enum in `src/stone.rs` spells its third variant `Orange`. Every use site (`src/stone_pile.rs`, `src/game_state.rs`) writes `White`, so the model uses {Neutral, Red, White}.

## Model

| member | source | states |
|---|---|---|
| Grid.FromCoord | src/position.rs:17-19 | For coordinates below 4, the cell's column and row read back as the given coordinates. |
| Grid.X | src/position.rs:37-39 | The column of any cell is below the board size. |
| Grid.Y | src/position.rs:41-43 | The row of any cell is below the board size. |
| Grid.CoordRoundTrip | src/position.rs:17-19 | Rebuilding a cell from its column and row gives the same cell. |
| Grid.TopLeft | src/position.rs:21-23 | "Top left" has column 0 and row 0. |
| Grid.CornersAreTheFourCorners | src/position.rs:21-35 | The corner constructors give cells 0, 12, 3 and 15, which are exactly the four corners. "Top right" is the cell (0,3). |
| Grid.TopRight | src/position.rs:25-27 | "Top right" has column 0 and row 3. |
| Grid.BottomLeft | src/position.rs:29-31 | "Bottom left" has column 3 and row 0. |
| Grid.BottomRight | src/position.rs:33-35 | "Bottom right" has column 3 and row 3. |
| Grid.CanStep | src/position.rs:54-61 | A step may be taken exactly when adding the direction's column and row offsets keeps both coordinates within 0..3. |
| Grid.CanStepIffNoPanic | src/position.rs:54-82 | The bounds check holds exactly when the step does not reach its panic guard. |
| Grid.Step | src/position.rs:63-82 | A step changes exactly one coordinate, by one, in the named direction. |
| Grid.Succ | src/position.rs:91-99 | The next direction in enumeration order is one rank higher. There is none after Up. |
| Grid.Reverse | src/position.rs:102-109 | The reverse of a direction lies on the same axis, horizontal or vertical, and differs from it. StepReverse shows that it undoes a step. |
| Grid.ReverseInvolution | src/position.rs:102-109 | Reversing twice gives back the direction, and no direction is its own reverse. |
| Grid.StepReverse | src/position.rs:63-82 | After a step, stepping in the reverse direction is allowed and returns to the original cell. |
| Grid.TwoExits | src/position.rs:54-61 | Every cell has at least two directions in which a step stays on the board. |
| Piles.Top | src/stone_pile.rs:11-18 | The top is Empty exactly when the pile is empty. Otherwise it names the colour of the last stone added. |
| Piles.Height | src/stone_pile.rs:20-22 | The height never exceeds the capacity of 8. It is 0 exactly when the top is Empty. |
| Piles.StoneTop | src/stone_pile.rs:14-16 | A stone seen from above is never Empty and shows its own colour: red as RedStone, white as WhiteStone, neutral as NeutralStone. |
| Piles.AddStone | src/stone_pile.rs:24-26 | On a pile below capacity, the height rises by one and the new stone becomes the top. The stones below are unchanged. |
| Piles.TakePile | src/stone_pile.rs:28-32 | The former contents come back bottom to top, and the pile left behind is empty. |
| Paths.NewPath | src/path.rs:16-22 | Builds a well-formed path whose end is the walk of its steps from the start. |
| Paths.EmptyPath | src/path.rs:24-26 | The empty path has no steps and ends at its start. |
| Paths.PushStep | src/path.rs:44-47 | Appending an on-board step keeps the path well formed, and the end follows the steps. |
| Paths.PopStep | src/path.rs:49-53 | Removing the last step keeps the path well formed. It returns that step, and the end moves back. |
| Paths.PushThenPop | src/path.rs:44-53 | Popping right after pushing d returns d and the original path. |
| Paths.PopThenPush | src/path.rs:44-53 | Pushing back the popped step is allowed and restores the path. |
| Paths.IterPositions | src/path.rs:59-62 | The iterator yields one cell per step, not the start. Each cell is one step on from the previous one, and the last is the end. |
| Paths.Positions | src/path.rs:107-118 | The visited cells are the successive steps from the start, one per step. |
| PathGen.FirstAllowed | src/path.rs:139-147 | Picks an allowed direction (on board and not a U-turn) such that no earlier direction is allowed. |
| PathGen.Complete | src/path.rs:137-150 | Greedy completion terminates with exactly the requested length. It keeps the prefix and the path stays valid. |
| PathGen.CompleteIsLeast | src/path.rs:137-150 | No valid path that extends the current prefix sorts before the greedy completion. |
| PathGen.Advance | src/path.rs:167-193 | The backtracking loop terminates. It yields a well-formed path of full length, or reports exhaustion with an empty path. |
| PathGen.NewGenerator | src/path.rs:130-135 | A fresh generator meets the generator invariant. It starts at the given cell with no steps yet and keeps the requested length. |
| PathGen.AdvanceIsSuccessor | src/path.rs:167-193 | The backtracking loop yields the least valid path beyond the current branch, or None when there is none. |
| PathGen.Next | src/path.rs:157-194 | Each call keeps the generator's invariant. A yielded path is the new state and has full length; None leaves the path empty. |
| PathGen.NextIsSuccessor | src/path.rs:167-193 | After a yield, the next result is the least valid path lexicographically after the current one, or None if none exists. |
| PathGen.FirstIsLeast | src/path.rs:161-164 | The first call yields the greedy path, which is the least valid path of the requested length. |
| PathGen.NextDecreases | src/path.rs:157-194 | Each yield strictly lowers a natural-number measure, so the enumeration terminates. |
| PathGen.ZeroLengthYieldsNothing | src/path.rs:158-160 | A generator of length 0 yields nothing. |
| PathGen.YieldsAllPathsInOrder | src/path.rs:127-194 | Yields every path of the requested length that stays on the board and makes no U-turn. They come in strictly increasing lexicographic order, so there are no duplicates, and the greedy path comes first. |
| Players.FromPileTop | src/game_state.rs:14-21 | No owner exactly for an empty pile or a neutral top. Otherwise the owner's stone is the top. |
| Players.FromPileTopOfStoneColor | src/game_state.rs:14-35 | A player's own stone on top is recognised as that player's. |
| Players.Opponent | src/game_state.rs:23-28 | The opponent differs from the player and places a different stone. |
| Players.OpponentInvolution | src/game_state.rs:23-28 | The opponent's opponent is the player. |
| Players.StoneColor | src/game_state.rs:30-35 | A player's stone is never neutral. |
| MoveGen.FirstNonEmpty | src/game_state.rs:57-63 | The first non-empty pile at or after the index, or 0 when every pile is empty. |
| MoveGen.NewMoveGenerator | src/game_state.rs:52-69 | Starts on the first non-empty pile with paths of its height plus one. It starts on cell 0 when every pile is empty. |
| MoveGen.Continue | src/game_state.rs:76-87 | The refill loop only moves forward. On a yield after exhaustion it has moved to a later pile, and the state stays valid. |
| MoveGen.ContinueFindsNextPile | src/game_state.rs:78-85 | After a pile's run is exhausted, the loop stops on the next non-empty pile and skips only empty piles. Its result is the first call of that pile's fresh generator. It comes back with None only when no later pile is non-empty. |
| MoveGen.NextMove | src/game_state.rs:76-87 | While the current pile's generator yields, the move is that path and the iterator stays on the cell. Once the generator is exhausted, the iterator moves to the next non-empty pile, skipping exactly the empty ones. The move is then the first path of a fresh generator for that pile, of length height + 1. In both cases the yielded path is the new generator's state. None comes only when no later pile is non-empty. |
| MoveGen.NextMoveDecreases | src/game_state.rs:76-87 | Each yield moves to a later pile or lowers the current generator's measure, so the enumeration terminates. |
| MoveGen.MovesFrom | src/game_state.rs:76-87 | From any state, the remaining output is the rest of the current run followed by the runs of the later non-empty piles. |
| MoveGen.MovesAreThePileRuns | src/game_state.rs:52-87 | With a non-empty pile, the output is the concatenation, in ascending cell order over the non-empty piles, of the path enumerator for length height + 1. |
| MoveGen.MovesOnEmptyBoard | src/game_state.rs:57-67 | When every pile is empty, the enumerator stays on cell 0 and still yields the length-1 paths from it. |
| MoveGen.MovesAreLegal | src/game_state.rs:57-87 | Every yielded path starts on a non-empty pile and has length height + 1, so it passes the move's checks. Start cells never decrease. |
| Boards.StartingBoard | src/board.rs:17-25 | Cells 0, 3, 12 and 15 hold two neutral stones each, and every other pile is empty. |
| Boards.Tops | src/board.rs:27-33 | Cell by cell, the board top is the top of that pile. |
| Boards.Drop | src/board.rs:48-50 | Dropping the hand along the visited cells adds to each cell the hand stones aimed at it, in order. The stone count grows by the hand size. |
| Boards.ApplyMove | src/board.rs:39-51 | The start pile is emptied, and each cell receives, in order, the hand stones whose visit lands on it. The hand is the old start pile followed by the new stone. The total stone count grows by one. |
| Boards.ApplyMoveEndTop | src/board.rs:39-51 | After a move, the new stone is the top of the pile at the path's end. |
| Boards.ApplyMoveDropsInOrder | src/board.rs:44-50 | If a cell is last visited at step i, its new top is hand stone i. |
| Boards.ApplyMoveFrame | src/board.rs:48-50 | Cells that are neither the start nor on the path are left unchanged. |
| Boards.ReceivedLastVisit | src/board.rs:48-50 | The topmost stone a cell receives is the one dropped on its last visit. |
| Winning.ScanOrder | src/board.rs:84-139 | Ten lines of four cells: four rows, four columns, the main diagonal, then the anti-diagonal from (0,3) to (3,0). |
| Winning.AntiDiagonal | src/board.rs:126-138 | The k-th cell of the anti-diagonal is (k, 3 - k). |
| Winning.LineWinner | src/board.rs:85-95 | A line reported for player c is owned by c: every top on it is c's stone. LineWinnerIffOwns gives the converse. |
| Winning.LineWinnerIffOwns | src/board.rs:84-96 | One scan of a line reports player c exactly when every top on the line is c's stone. |
| Winning.Winner | src/board.rs:82-140 | Reports c only if some line is all c's stone and no earlier line in scan order is owned by anyone. Reports None when no line is owned. |
| Winning.OwnedLinesArePlayerStones | src/board.rs:82-140 | An owned line never consists of neutral stones or empty piles. |

## Left out

- Display implementations, `next_on_new_row`, `main.rs` (the search driver, timing and printing), and the derived Hash, Debug and Copy behaviour: they are formatting, I/O and benchmarking, not engine logic.
- `from_index`, `to_index` and `iter_piles`: in the model a cell already is its index, and a board is its sequence of piles.
- Calling either iterator again after it returned None: the path generator would restart from its first path. The model only describes the output up to the first None.
- Atomicity of `apply_move`: the original empties the start pile before checking the path length. The model states the checks as preconditions and makes no claim about a board after a failed move.
- PathGen.NewGenerator: requires a length of at most 8. A longer path overflows the eight-slot step buffer, and the original panics there.
- MoveGen.NewMoveGenerator: requires every pile to be below full height, so boards holding a full pile (8 stones) are excluded entirely. In the original, the enumeration panics when it reaches the full pile, whose generator pushes a ninth step into the eight-slot step buffer. If the full pile is the first non-empty pile, this happens on the first call, before anything is yielded (src/game_state.rs:77). Otherwise the earlier non-empty piles' paths are yielded first, and the panic comes in the refill loop (src/game_state.rs:83-84). The model leaves out both the moves yielded before the panic and the panic itself.
- Boards.ApplyMove: requires every visited pile to have room for the stones it receives, because the original panics when a pile overflows. The precondition is stated through a per-cell visit count rather than by simulating the panic.
- Integer widths: the original keeps heights and indices in `u8`/`usize`. Every value stays below 16 here, so wrap-around never happens and is not modelled.
