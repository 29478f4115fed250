# Tic-tac-toe game logic, modelled in Dafny

This project models the game logic of a browser tic-tac-toe game in which a
human (playing X) faces the computer (playing O). The core is one library,
`src/TicTacToe.lib.ts`. It covers:

- the empty board and copy-on-write placement of a mark;
- the scan for a completed row, column or diagonal, and the winner it names;
- the check for remaining moves;
- the depth-weighted minimax search that picks the computer's next square.

Modules, one per concern:

- `BoardModel` (`board.dfy`) has marks, players, the 3x3 board, placing a mark, the line scan, the winner and the open squares. It also defines a geometric reference for "three in a row" that does not depend on the scan.
- `MoveSearch` (`search.dfy`) holds the minimax search, split into the score of each open square (`ScoreAll`) and the strict comparison that keeps the best one (`PickBest`).
- `SearchFacts` (`search_facts.dfy`) has what the search returns: terminal scores, the first best square in row-by-row order, and the step to the chosen child.
- `Outcomes` (`outcomes.dfy`) bounds the score and relates its sign to an independent game-theoretic definition: a player can force a win (`CanForceWin`).
- `NextMove` (`next_move.dfy`) holds the computer's move and its guarantees: the square is open, the play is optimal, the computer takes an immediate win, and it blocks the human's only threat.
- `Scenarios` (`scenarios.dfy`) holds the positions of the library's test suite, plus a drawn full board.

A board is a value, so writing a mark yields a new board. The caller's board
never changes, which is what the library's row copies achieve. The library's
`null` square is `None`. Its `[-1, -1]` "no move" answer is a `None` move.

## Model

| member | source | states |
|---|---|---|
| BoardModel.OtherPlayer | src/TicTacToe.lib.ts:126-128 | The other player differs from the given one and, by the fixed mark of each player, plays the other mark. |
| BoardModel.EmptyBoard | src/TicTacToe.lib.ts:41-43 | Every one of the nine squares of a new board is open. |
| BoardModel.GetUpdatedBoard | src/TicTacToe.lib.ts:51-64 | The chosen square holds the new mark and every other square keeps its state. The open-square count drops by one when the square was open and is unchanged when it is overwritten. |
| BoardModel.MarksAfterWrite | src/TicTacToe.lib.ts:51-64 | Writing on an open square keeps every existing mark and adds no mark of another kind. |
| BoardModel.IsWinningLine | src/TicTacToe.lib.ts:67-72 | A line is winning exactly when its three squares hold one and the same mark; an open first square never wins. |
| BoardModel.ScanFromFindsFirst | src/TicTacToe.lib.ts:78-106 | From loop iteration i on (row i, then column i, ..., then the two diagonals), the scan returns nothing exactly when no later line is complete. Otherwise it returns the first complete line in that order. |
| BoardModel.WinningSquaresFirstComplete | src/TicTacToe.lib.ts:78-106 | The reported line is complete and no line before it in scan order is. Nothing is reported exactly when no line is complete. |
| BoardModel.ScanCoversAllLines | src/TicTacToe.lib.ts:78-106 | The eight scanned lines are exactly the three rows, three columns and two diagonals: one of them is filled with a mark iff that mark has three in a row. |
| BoardModel.GetBoardWinner | src/TicTacToe.lib.ts:112-124 | There is a winner exactly when the scan reports a line, and that line is filled with the winner's mark. |
| BoardModel.WinnerMatchesThreeInARow | src/TicTacToe.lib.ts:112-124 | There is no winner iff neither mark has three in a row. A reported winner has three in a row. When only one mark has a line, its owner is the winner. |
| BoardModel.MovesRemainingIffOpenSquare | src/TicTacToe.lib.ts:131-140 | Moves remain exactly when some square is open. |
| BoardModel.EmptiesListsOpenSquares | src/TicTacToe.lib.ts:166-168 | The squares the search loops visit are exactly the open ones, each once, in row-by-row order. |
| SearchFacts.PickBestIsFirstBest | src/TicTacToe.lib.ts:162-186 | Starting from the unset best value, the comparison loop keeps the first entry that no other entry beats. Every entry before it is strictly worse for the player to move. |
| SearchFacts.ScoreAllScoresEach | src/TicTacToe.lib.ts:166-176 | Each open square is paired with the score of the position after the player marks it, searched one level deeper with the other player to move. |
| SearchFacts.MinimaxScores | src/TicTacToe.lib.ts:149-160 | A computer win scores 10 minus the depth and a human win scores minus 10 plus the depth, a draw scores 0, and none of them carries a move. |
| SearchFacts.MinimaxPick | src/TicTacToe.lib.ts:162-186 | On an open position the result is the i-th open square with its score. No open square scores better and every earlier one scores strictly worse. |
| SearchFacts.MinimaxChoice | src/TicTacToe.lib.ts:162-186 | On an open position the chosen square is open and its score is the result. No open square is better for the player to move, and every open square earlier in row-by-row order is strictly worse. |
| SearchFacts.MinimaxStep | src/TicTacToe.lib.ts:172-179 | The score of an open position is the score of the child reached by the chosen move, which has one open square fewer. |
| SearchFacts.MinimaxMoveIsOpen | src/TicTacToe.lib.ts:148-187 | The search returns a square iff there is no winner and a move remains, and that square is open. |
| Outcomes.MinimaxBounds | src/TicTacToe.lib.ts:150-156 | The score at depth d lies between -(10 - d) and 10 - d, and between -(9 - d) and 9 - d when the position has no winner yet. |
| Outcomes.MinimaxSign | src/TicTacToe.lib.ts:142-147 | The score is positive iff the computer can force a win, and negative iff the human can force a win, with the given player to move. |
| NextMove.GetNextMove | src/TicTacToe.lib.ts:190-192 | The computer gets a square exactly when the game is undecided and a square is open, and that square is open. |
| NextMove.NextMoveIsOptimal | src/TicTacToe.lib.ts:142-147 | After the chosen move, the computer can still force a win if it could before. The human still cannot force a win if they could not before. |
| NextMove.WinnerAfterPlay | src/TicTacToe.lib.ts:112-124 | On an undecided board, a move makes its player the winner iff it completes a line of that player's mark. Otherwise there is still no winner. |
| NextMove.TakesImmediateWin | src/TicTacToe.lib.ts:152-154 | When the computer can complete a line, it does, at the first such square in row-by-row order. |
| NextMove.UnblockedThreatLoses | src/TicTacToe.lib.ts:177-182 | A computer move that neither wins nor blocks the human's threat scores at most -8. |
| NextMove.BlockingHolds | src/TicTacToe.lib.ts:177-182 | Blocking the human's only threat, when the computer cannot win at once, scores at least -7. |
| NextMove.BlocksOnlyThreat | src/TicTacToe.lib.ts:142-147 | When the computer cannot win at once and the human threatens a line at a single square, the computer plays that square. |
| Scenarios.WinnerScenarios | src/TicTacToe.lib.test.ts:3-56 | No winner on the empty and the incomplete board. The human wins the row board, and the computer wins the column and both diagonal boards. |
| Scenarios.BlocksTheThreat | src/TicTacToe.lib.test.ts:60-69 | On `[x,o,x]/[.,o,.]/[o,x,x]` the computer plays row 1, column 2. |
| Scenarios.TakesTheWin | src/TicTacToe.lib.test.ts:82-91 | On `[x,o,x]/[.,o,.]/[o,.,x]` the computer plays row 2, column 1. |
| Scenarios.DrawScenario | src/TicTacToe.lib.ts:157-160 | A full board with no line has no winner, no remaining move and no next move. |

## Left out

- `src/App.tsx` and the `src/templates/` components are the rendering and interaction layer, not game logic.
- The lodash helpers (`_.times`, `_.uniqBy`) are replaced by direct definitions with the same meaning.
- Boards of another shape and paths outside 0..2 are not modelled. The board is a 3x3 type and a path has coordinates 0..2, because the game never builds anything else.
- The `Infinity`/`-Infinity` start of the best value (lib.ts:162-165) is a best result without a square. The first open square always replaces it, as any finite score does in the library.
- The `null` branch of getBoardWinner (lib.ts:117-121) is unreachable, because a reported line always has a mark on its first square. The model asserts this instead of returning a value.
- The test at lib.test.ts:71-80 (`[x,.,.]/...` answered by the center square) is not proved. Its search tree has eight open squares, which is too large to unfold in a proof.
- The move chosen on an empty board is not proved either, for the same reason. The model follows the code, whose strict comparison keeps the first best square in row-by-row order.
- BlocksOnlyThreat: proved only when the human threatens a single square and the computer has no immediate win. With two threats every move loses and the search picks by tie-break.
- The search depth is an unbounded integer. The library's floating-point `number` is exact for the depths that occur (0..9).
