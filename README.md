# Tic Tac Toe engine — a verified Dafny model

This project models the engine of a browser Tic Tac Toe game (`script.js`). The game has a two-player mode and a mode against an unbeatable computer that plays O. The model covers these parts:

- **Cells** (`cells.dfy`): the players X and O, cells, the nine-cell board, and counts of the cells holding a given value. The number of empty cells is the measure that bounds the search.
- **Evaluator** (`evaluator.dfy`): the table `wins` of eight winning lines and `checkGame`. `checkGame` returns the first won line in table order with its symbol. Otherwise it reports a tie when every cell is filled, and "continue" when not.
- **MoveSelector** (`selector.dfy`): `bestMove` and its nested `minimax`.
  - Both are methods over an `array<Cell>`. They place a hypothetical mark, recurse and clear the mark again, as the source does.
  - They are proved equal to pure functions of the board: `Minimax`, `Best` and `BestMoveSpec`.
  - The lemmas about those functions give the score bounds, the lowest-index tie-break and the preference for an immediate win.
- **Controller** (`controller.dfy`): the mutable game state `board`, `currentPlayer`, `playing` and `mode`.
  - The class `Game` holds it. Its methods are `playMove`, `reset`, the mode switch, the CPU's reply and `Click`.
  - `Click` is the corrected click handler, with one CPU reply per human move. The handler as written, which replies twice, exists only as the function `HandleClickAsWritten` (see "## Findings").
  - The same transitions also exist as functions on a `GameState` value. The alternation and consistency invariants are proved about those functions.

The `-Infinity` and `Infinity` start values of `minimax` become the integers -11 and 11. `MinimaxBounds` proves that they never escape. The `-Infinity`/`null` pair in `bestMove`'s scan becomes an `Option` that is "none yet".

## Model

| member | source | states |
|---|---|---|
| Cells.Other | script.js:59 | the other symbol differs from the player |
| Cells.CountUpdate | script.js:49 | writing one cell changes a count by what was removed and what was written |
| Cells.FillDecreasesEmptyCount | script.js:111-112 | placing a mark on an empty cell leaves exactly one fewer empty cell, which is why `minimax` terminates |
| Evaluator.LinesIncreasing | script.js:13-17 | every line of `wins` names three distinct cells in increasing order |
| Evaluator.FirstWon | script.js:83-88 | the scan from line k returns the first won line at or after k, and none only when no line from k on is won |
| Evaluator.CheckGame | script.js:82-91 | a winner exactly when some line holds three equal marks; the reported line is the first won one in table order and its cells hold the winner's mark; no winner means no line; tie exactly when no line is won and every cell is filled; never both a winner and a tie; a full board never continues |
| Evaluator.NoRepeatNoWinner | script.js:85 | a board on which no mark occurs twice has no winner |
| Evaluator.EmptyBoardContinues | script.js:89-90 | the empty board is neither won nor tied |
| MoveSelector.AvailFrom | script.js:106 | the candidate list from cell i on holds exactly the empty cells from i on, in increasing order |
| MoveSelector.Avail | script.js:106 | `avail` holds exactly the empty cells, in increasing order |
| MoveSelector.AvailGap | script.js:106-110 | no empty cell lies between two consecutive candidates or after the last one |
| MoveSelector.BestSkip | script.js:110-115 | occupied cells leave the loop's `best` unchanged |
| MoveSelector.MinimaxBounds | script.js:100-126 | a search started at depth d scores within [d - 10, 10 - d], hence within [-10, 10], so the sentinels never escape |
| MoveSelector.BestBounds | script.js:108-125 | once one empty cell has been tried, `best` lies within [d + 1 - 10, 10 - (d + 1)] |
| MoveSelector.BestBoundsStep | script.js:112-114 | folding a child's score into `best`, whether `best` is still the sentinel or already bounded, gives a bounded value |
| MoveSelector.TopScoreIffWon | script.js:102 | `minimax` returns its top score 10 - depth exactly when the searching player has already won |
| MoveSelector.MinimaxSearch | script.js:100-126 | the in-place search returns the score of the position and leaves the board as it found it |
| MoveSelector.SearchMoves | script.js:106-125 | the loops over `avail` return the maximum (or minimum) of the children's scores and leave the board as they found it |
| MoveSelector.TryCandidate | script.js:110-115 | one turn of the loop folds the next candidate's score into `best` and restores the board |
| MoveSelector.ScanSkip | script.js:106-110 | the cells the loop passes over before the next candidate do not change `best` |
| MoveSelector.ScanStep | script.js:110-115 | after k candidates, folding in the next one's score gives `best` up to and including that cell |
| MoveSelector.ScanDone | script.js:110-116 | after the last candidate, `best` is the value over the whole board |
| MoveSelector.TryMove | script.js:111-113 | placing a mark, scoring the position and clearing the cell returns the child's score and restores the board |
| MoveSelector.Choose | script.js:129-141 | after scanning cells 0..n-1 the pick is none exactly when none of them is empty; otherwise it is an empty cell whose score is the maximum over the empty cells, and every earlier empty cell scores strictly less |
| MoveSelector.BestMoveSpec | script.js:94-143 | 4 on an empty board; none exactly on a full board; otherwise an empty cell with the highest score and the lowest index among those |
| MoveSelector.BestMove | script.js:94-143 | the in-place scan returns the move of `BestMoveSpec` and leaves the board as it found it |
| MoveSelector.NoWinOnEmptyBoard | script.js:85 | a single mark on an empty board wins nothing |
| MoveSelector.ScoreTen | script.js:102-104 | a move scores at most 10, and exactly 10 when it wins at once |
| MoveSelector.ImmediateWinChosen | script.js:102-104 | when some empty cell wins at once, `bestMove` returns a winning cell and no lower empty cell wins at once |
| Controller.NewGameSettled | script.js:145-148 | the reset state has an empty board, X to move, play going on, and it is consistent and balanced |
| Controller.Play | script.js:47-60 | an occupied cell or a finished game changes nothing; otherwise only that cell takes the mark, `playing` becomes false on a win or tie, and the turn passes to the other player when play goes on; exactly one empty cell is filled |
| Controller.PlayKeepsConsistent | script.js:50-58 | `playing` stays true exactly while the board is undecided |
| Controller.PlayKeepsBalance | script.js:49-59 | a move by the player to move keeps X's count equal to O's or one above it, with X to move exactly when they are equal |
| Controller.CpuStep | script.js:64-67 | the CPU's reply fills exactly one cell while the game is live and changes nothing once it is over |
| Controller.CpuStepAddsO | script.js:64-67 | on an undecided board the reply adds one O and no X |
| Controller.CpuStepKeepsBalance | script.js:64-67 | after X's move the reply keeps the game consistent and balanced and gives the turn back to X |
| Controller.ClickAsWrittenTwoReplies | script.js:36-44 | as written, in any live CPU game where neither X's move nor the first reply ends the game, one click adds one X and two O, so the marks no longer alternate |
| Controller.ClickAsWrittenRepliesTwice | script.js:36-44 | as written, the first click of a CPU game leaves one X and two O on the board, which breaks alternation |
| Controller.FirstMove | script.js:36 | X's opening move leaves the game live with one X, no O and O to move |
| Controller.ClickOneReplyAlways | script.js:36-44 | with the correction, in any live CPU game every click adds one X and, unless that move ends the game, exactly one O |
| Controller.ClickKeepsSettled | script.js:32-45 | the corrected handler keeps the game consistent and balanced, with X to move in CPU mode |
| Controller.ClickRepliesOnce | script.js:36-44 | with the correction, the first click of a CPU game leaves one X and one O |
| Controller.Game.constructor | script.js:7-10 | start-up: an empty board, X to move, playing, two-player mode |
| Controller.Game.Reset | script.js:145-148 | a fresh empty board, X to move, playing, mode kept |
| Controller.Game.SelectMode | script.js:155-158 | sets the mode, then resets |
| Controller.Game.PlayMove | script.js:47-69 | the object's new state is `Play` of the old one; a CPU reply is scheduled exactly when the move applied, play goes on, the mode is CPU and O is to move |
| Controller.Game.CpuReply | script.js:64-67 | `bestMove(board, 'O')` followed by `playMove`: the new state is `CpuStep` of the old one |
| Controller.Game.Click | script.js:32-45 | the corrected click handler: the new state is `HandleClick` of the old one |

## Left out

- Rendering and status text are not modelled: `renderBoard`, `highlightWinning`, `statusEl.innerText` and the `document` lookups. They only display state.
- The 200 ms `setTimeout` delays are not modelled. The CPU's reply runs as a direct call right after the click. Events that could happen during the delay are not modelled either, for example a second click while O is to move or a restart before the timer fires.
- The event wiring (`addEventListener`) and the start-up rendering (lines 153-162) are not modelled. The handlers they install are modelled as methods.
- `mode` values other than 'pvp' and 'cpu' are not modelled: the selector offers only those two.
- Whole-game optimality is not proved, for example that the CPU never loses or that self-play ends in a tie. Proving it would mean evaluating the full game tree.
- MoveSelector.MinimaxBounds: the bounds are stated for searches where the depth plus the number of empty cells is at most 9. Every call `bestMove` makes is of this kind. For deeper starting depths the bounds in the source would not hold either.

## Findings

| source | as written | input that shows it | evidently intended | confidence | as-written member | corrected member |
|---|---|---|---|---|---|---|
| script.js:38-44, 62-68 | in CPU mode, X's move schedules the CPU's reply twice: once inside `playMove` and again in `onCellClick` under the same condition; `playMove` does not check whose turn it is, so O moves twice | CPU mode, new game, X clicks any cell | one CPU reply per human move (one O after each X) | high (not executed) | Controller.HandleClickAsWritten, Controller.ClickAsWrittenTwoReplies, Controller.ClickAsWrittenRepliesTwice | Controller.HandleClick, Controller.ClickOneReplyAlways, Controller.ClickKeepsSettled |
