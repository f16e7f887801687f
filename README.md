# Match-3 engine

A model of the game engine of a browser match-3 puzzle (`script.js`). The
board has 8 by 8 cells, and each cell holds one of six fruit candies. A
player selects a cell, then clicks an adjacent one to swap the two. A swap
that lines up three or more equal candies in a row or column starts a cascade:

- the matched cells score ten points each and are cleared;
- the candies above them fall down, and new candies drop in at the top;
- the board is checked again.

Every later step of the cascade that finds matches earns a flat 50-point
bonus. A swap that makes no match is undone. Each successful swap costs one
of 30 moves, and the game-over dialog is scheduled once none are left.

The project has six modules:

- `Board`: candies, cells (a candy or `null`), positions and board
  snapshots. It also holds the random source behind `getRandomCandy`,
  adjacency and the two-cell exchange. The truthiness test `candy && ...` of
  the scans is `Board.Truthy`: a cell that is neither `null` nor the empty
  string.
- `Matching`: what counts as a run of three or more, per row and per column.
  It holds the set of matched cells behind `findMatches` and the test behind
  `hasMatches`, with the reasoning that shows both scans find exactly those
  runs.
- `Gravity`: what `dropCandies` does to each column. The candies keep their
  order and settle at the bottom, and the top is refilled with the next
  draws.
- `Cascade`: the clearing of matched cells and the score law.
- `Rules` and `RulesLaws`: the game state as a value. They define what
  `initGame`, `checkMatches`, `swapCandies` and `handleCandyClick` do to it,
  and prove the game's properties. These include the score law of a
  cascade, the move accounting, when the game ends, and that the state stays
  well formed.
- `Game`: the class `GameState`, holding the mutable `gameState`. The board
  is a two-dimensional array, updated in place by the same loops as the
  source. Each method is proved against the functions of `Rules`,
  `Cascade`, `Gravity` and `Matching`. The constructor takes a `Config`
  (`Rules.DEFAULT_CONFIG` is the shipped 8 by 8 board, six kinds and 30
  moves) and runs `initGame`, as the page load does.

`Math.random` is a parameter: a sequence of rolls. The k-th call of
`getRandomCandy` picks the kind at index `roll % types.length`, and the
state counts the calls made so far. This makes every refill of the board
exact.

The timers of the source (the 300 ms and 500 ms `setTimeout` calls) are
flattened. The re-check that `checkMatches` schedules runs at once, and so
does the rest of `swapCandies`. The loops that the source does not bound
carry a `fuel` parameter: re-dealing a board that has a match, and the
cascade.

The model follows these choices of the code:

- The code never blocks input after the game ends. `endGame` only opens a
  dialog, and `handleCandyClick` does not look at the moves. So the moves
  can go below zero.
- The game ends when `moves <= 0`, not when `moves == 0`. It is scheduled
  only after a swap that matched.
- A swap that matched clears `isSwapping` and the selection while the
  cascade may still be running, with `isChecking` still set.

## Model

| member | source | states |
|---|---|---|
| Board.Draw | script.js:62-65 | a draw is always one of the configured candy kinds |
| Board.IsAdjacent | script.js:126-131 | two cells are adjacent exactly when their Manhattan distance is 1 |
| Board.AdjacencySymmetricIrreflexive | script.js:126-131 | adjacency is symmetric, and no cell is adjacent to itself |
| Board.Swapped | script.js:138-140 | the exchange puts each cell's candy in the other's place and changes no third cell |
| Board.SwapTwice | script.js:157-160 | exchanging the same two cells back restores the board exactly |
| Board.SwapKeepsFull | script.js:138-140 | after an exchange every cell still holds a candy of the configured kinds |
| Board.RowSpanMembers | script.js:234-242 | the cells pushed for a row run are exactly its cells from the first to the last |
| Board.ColumnSpanMembers | script.js:256-263 | the cells pushed for a column run are exactly its cells from the first to the last |
| Matching.InRunIffInSomeRun | script.js:227-243 | a cell is marked exactly when some line of three or more equal candies contains it |
| Matching.ThreeFromInRun | script.js:229-236 | a successful three-cell test marks each of the three cells |
| Matching.RunStart | script.js:227-236 | every cell of a run is reached from the run's first cell, where the three-cell test succeeds |
| Matching.ExtendInRun | script.js:239-243 | the cells the inner while loop adds, equal to the first candy, all lie in a run |
| Matching.RunCovered | script.js:239-243 | the inner while loop reaches every cell of the run that starts where the test succeeded |
| Matching.ScanMiss | script.js:227-232 | a start where the three-cell test fails begins no run |
| Matching.ScanHit | script.js:229-243 | a start where the test succeeds lists exactly the cells of the run that starts there |
| Matching.ScanDone | script.js:227 | once every start up to `cols - 3` is tried, every run cell is listed |
| Matching.HasMatchIffMatched | script.js:302-328 | the board has three equal candies in a line exactly when some cell lies in a run |
| Matching.HasMatchIffSomeCell | script.js:175-177 | `findMatches` returns a non-empty list exactly when `hasMatches` holds |
| Matching.HasMatchIffSomeThree | script.js:302-328 | testing every start of every row and column is the `hasMatches` test |
| Matching.MatchSetAtLeastThree | script.js:229-236 | a board with a match has at least three matched cells |
| Matching.Dedup | script.js:270-272 | the de-duplicated list has each cell once, the same cells, and is no longer |
| Matching.DistinctCount | script.js:270-272 | a list without repeats has as many entries as its set of cells |
| Gravity.NonNullIn | script.js:282-288 | the candies kept by the scan all come from the column |
| Gravity.NonNullLength | script.js:282-288 | every cell of a column is either kept or counted as empty |
| Gravity.ScanFrom | script.js:282-288 | the upward scan from a row computes the candies and empty cells below it |
| Gravity.SettleStep | script.js:283-288 | one step of the scan keeps the rows above untouched and fills the bottom with the candies scanned so far, in order |
| Gravity.FallSettles | script.js:280-294 | after gravity no cell is empty, the candies fill the bottom in their order, and the top holds the next draws |
| Gravity.FallOfFull | script.js:280-294 | a column without empty cells is left as it is and makes no draw |
| Gravity.FallAt | script.js:280-294 | each row after gravity is a fresh draw above the kept candies, or the kept candy that lands there |
| Gravity.NullsBeforeBound | script.js:278-294 | the columns left of column `c` make at most one draw per cell |
| Gravity.NullsBeforeZero | script.js:278-294 | the columns left of column `c` make no draw exactly when none of their cells is empty |
| Gravity.DropDrawsBounds | script.js:276-299 | `dropCandies` advances the draw counter by at most one per cell of the board, and leaves it unchanged exactly when no cell is empty |
| Gravity.DroppedCell | script.js:278-295 | each cell of the dropped board is its column after gravity |
| Gravity.DroppedColumn | script.js:278-295 | columns are independent: each column of the result is its own column after gravity |
| Gravity.DroppedFull | script.js:276-299 | gravity leaves no empty cell and only candies of the configured kinds |
| Cascade.ClearedCell | script.js:196-198 | clearing empties exactly the matched cells and keeps every other cell |
| Cascade.ClearedDrawn | script.js:196-198 | every candy left on the board after clearing is still one of the configured kinds |
| Cascade.ScoreCons | script.js:186-207 | a step of k cells before later steps adds 10 per cell, plus 50 when later steps follow |
| Cascade.StepKeepsFull | script.js:194-201 | after one step of the cascade every cell still holds a candy of the configured kinds |
| Rules.DealCell | script.js:50-59 | cell (r, c) of a new board holds draw number `d + r * cols + c` |
| Rules.DealFull | script.js:50-59 | a new board holds a candy of the configured kinds in every cell |
| Rules.DealsKept | script.js:39-44 | between 1 and `fuel + 1` boards are dealt, and the board kept is a deal of its own draws |
| Rules.DealsExhausted | script.js:42-44 | the board kept has a match only when every deal allowed had one |
| RulesLaws.InitState | script.js:28-47 | `initGame` leaves a full board, score 0, the full move allowance, no selection and both flags cleared; its board has no match unless every deal had one |
| RulesLaws.CheckFrame | script.js:170-219 | the cascade changes only the board, score, draws and `isChecking`, and never lowers the score |
| RulesLaws.CheckSteps | script.js:170-219 | the cascade steps exactly when the board has a match; the first step clears every matched cell; each step clears at least three |
| RulesLaws.CheckScore | script.js:181-211 | the cascade scores 10 per cleared cell over all steps plus 50 for each step after the first |
| RulesLaws.CheckSettled | script.js:204-216 | once `isChecking` is cleared, the board has no run of three left |
| RulesLaws.CheckOutOfFuel | script.js:204-212 | `isChecking` stays set only when every re-check allowed found matches |
| RulesLaws.CheckKeepsFull | script.js:194-212 | after the whole cascade every cell still holds a candy of the configured kinds |
| RulesLaws.SwapWithoutMatch | script.js:156-165 | a swap without a match puts the cells back and changes only the selection and the two flags |
| RulesLaws.SwapWithMatch | script.js:146-166 | a swap with a match spends one move, scores exactly what its cascade scores and at least 30, drops the selection, clears `isSwapping` and leaves no run once settled |
| RulesLaws.SwapEndsGameIff | script.js:146-155 | `endGame` is scheduled exactly when the swap spent a move and left none |
| RulesLaws.ClickWithoutSwap | script.js:96-123 | a click during a swap or cascade does nothing; a click that does not swap only selects the clicked cell |
| RulesLaws.ClickKeepsWf | script.js:96-123 | every click keeps the board full and the selection on it |
| RulesLaws.ClickScoreAndMoves | script.js:96-123 | a click never lowers the score, spends at most one move, and never moves the draws backwards |
| Game.GameState.constructor | script.js:10-25 | the page load fixes the configuration and, by the call of `initGame` at script.js:361, builds the state that `initGame` leaves |
| Game.GameState.GetRandomCandy | script.js:62-65 | returns the next draw of the stream, one of the configured kinds |
| Game.GameState.CreateBoard | script.js:50-59 | builds a fresh `rows` by `cols` board with the next draws, row by row |
| Game.GameState.InitGame | script.js:28-47 | resets the state to what `Rules.Init` gives; `settled` tells whether the board kept has no match |
| Game.GameState.DealUntilSettled | script.js:39-44 | deals boards while they have a match and keeps the one `Rules.Deals` describes |
| Game.GameState.HasMatches | script.js:302-328 | returns true exactly when the board has three equal candies in a line |
| Game.GameState.FindRowMatches | script.js:226-246 | lists exactly the cells that lie in a horizontal run |
| Game.GameState.ScanRow | script.js:227-245 | one row adds exactly its cells in a horizontal run |
| Game.GameState.CollectRowRun | script.js:234-243 | pushes the three cells and the equal cells after them, up to the first that differs |
| Game.GameState.FindColumnMatches | script.js:249-267 | lists exactly the cells that lie in a vertical run |
| Game.GameState.ScanColumn | script.js:250-266 | one column adds exactly its cells in a vertical run |
| Game.GameState.CollectColumnRun | script.js:256-264 | pushes the three cells and the equal cells below them, up to the first that differs |
| Game.GameState.FindMatches | script.js:222-273 | returns each matched cell once and nothing else |
| Game.GameState.SettleColumn | script.js:280-289 | counts the empty cells, moves the column's candies, in order, to its bottom rows, and leaves the cells above them as they were |
| Game.GameState.SettleCell | script.js:283-288 | one step of the scan: an empty cell is counted, a candy moves down by the count so far; other columns are untouched |
| Game.GameState.RefillColumn | script.js:292-294 | fills the top `emptySpaces` cells with the next draws and changes nothing else |
| Game.GameState.DropColumn | script.js:279-294 | one column ends up as gravity leaves it; other columns are untouched |
| Game.GameState.DropColumns | script.js:278-295 | every cell ends up as gravity leaves it; draws go to the columns left to right |
| Game.GameState.DropCandies | script.js:276-299 | the board becomes `Gravity.Dropped` of the old board, with one draw per empty cell |
| Game.GameState.ScoreMatches | script.js:181-188 | adds ten points per listed cell |
| Game.GameState.ClearCells | script.js:196-198 | sets exactly the listed cells to `null` |
| Game.GameState.ClearMatches | script.js:196-198 | the board becomes `Cascade.Cleared` of the old board |
| Game.GameState.ClearMatched | script.js:170-201 | with a match: one scored, cleared and dropped step; without: only clears `isChecking`; returns whether there was a match |
| Game.GameState.CheckMatches | script.js:170-219 | the state becomes `Rules.AfterCheck` of the old one; returns whether the first check found matches |
| Game.GameState.ExchangeCells | script.js:138-140 | the board becomes the exchange of the two cells |
| Game.GameState.FinishSwap | script.js:147-165 | with a match spends a move, otherwise exchanges back; clears the selection and `isSwapping`; tells whether `endGame` is due |
| Game.GameState.SwapCandies | script.js:134-167 | the state becomes `Rules.AfterSwap` of the old one; `endGame` is due exactly as `Rules.SwapEndsGame` says |
| Game.GameState.HandleCandyClick | script.js:96-123 | the state becomes `Rules.AfterClick` of the old one and stays well formed |

## Left out

- Rendering is not modelled: `renderBoard`, `getColorHue`, `updateUI`, the CSS classes for selected and matched cells, and the game-over and help dialogs (`endGame`, and the listeners at script.js:352-358). `endGame` being scheduled is returned as a boolean.
- The `new-game` and `restart` buttons (script.js:343-350) both run `initGame`, modelled as `Game.GameState.InitGame`. Hiding the dialog is not modelled.
- Timer pacing is not modelled. The `setTimeout` delays are flattened and a click runs to completion, so interleavings where an event lands while a timer is pending are not modelled. A candy click in that window is rejected by `isSwapping` and `isChecking` (script.js:97).
- Game.GameState.InitGame: runs only between completed clicks. In the source the `new-game` and `restart` buttons (script.js:343-350) call `initGame` with no gate, and `initGame` clears both flags (script.js:29-36). A swap or cascade callback still pending then acts on the fresh game: the swap-back (script.js:158-160) can exchange two cells of the new board and leave a run on it, and the old cascade's cleared cells, `moves--` and bonus (script.js:149, 194-213) land on the new game. The model does not capture this.
- `Math.random` is not modelled as a distribution: it is a given sequence of rolls, each reduced modulo the number of kinds. Past the end of the sequence the roll is 0.
- Rules.Deals: `while (hasMatches()) createBoard();` may loop forever. The model throws away at most `fuel` boards.
- Game.GameState.InitGame: the source promises a board without a match on exit. The model promises one only when the fuel was not used up, and reports which case happened.
- Rules.AfterCheck: the cascade of re-checks may in principle never end. The model runs at most `fuel` re-checks and then leaves `isChecking` set.
- Game.GameState.FindMatches: states which cells are listed, and that each is listed once. It does not state their order. Only the count (for the score) and the set (for clearing) are used.
- Game.GameState.HandleCandyClick: the clicked cell comes as two integers on the board, not as `parseInt` of the element's data attributes.
- The board of arrays of rows is a two-dimensional array, so aliasing between rows is not modelled. The snapshot `grid` is a ghost copy used only for the proofs.
- Game.GameState.SwapCandies: the source decrements `moves`, clears `isSwapping` and drops the selection while the re-checks are still pending. The model does these after the whole cascade. The final state is the same because the cascade does not touch those fields.
