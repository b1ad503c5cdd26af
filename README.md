# Tic-tac-toe with time travel: a verified model of its game logic

The repository is a React tic-tac-toe game whose logic fits in one file,
`src/App.js`. This project models that logic in Dafny:

- the **win evaluator** `calculateWinner`, which scans eight lines in a fixed
  order (three rows, three columns, the main diagonal, the anti-diagonal) and
  returns the first complete line with its mark, or `null`;
- the **`Board` component's logic**: the status line ("Winner: …",
  "Next player: …", "It is a draw!") and `handleSquareClick`, which ignores
  a click on an occupied square or on a decided board and otherwise copies the
  board, writes the mark of the player to move and hands the copy to `onPlay`;
- the **`Game` component's state**: the `history` list of snapshots, the
  cursor `currentMove` and the `sortAsc` flag, with `handlePlay` (truncate
  after the cursor, append, move the cursor to the end), `jumpTo`,
  `handleSortAsc`, the derived `xIsNext`, `getMoveCoord` and the labels of
  the move list.

Layout, one module per concern:

| file | module | contents |
|---|---|---|
| `wrappers.dfy` | `Wrappers` | `Option`, standing for JavaScript's `null` results |
| `decimal.dfy` | `Decimal` | how JavaScript renders a number inside a string, with its inverse |
| `board_state.dfy` | `BoardState` | marks, cells (`Empty` is `null`), the 9-cell board, the empty board |
| `evaluator.dfy` | `Evaluator` | the line catalogue, the scan as a function `WinnerFrom`, the loop `CalculateWinner` |
| `board_component.dfy` | `BoardComponent` | `Status` and the method `HandleSquareClick` |
| `history.dfy` | `History` | turn parity, legal moves, reachable histories, `getMoveCoord`'s scan, move labels |
| `game.dfy` | `GameComponent` | the class `Game` holding the three pieces of state, its handlers, and a client scenario |

The loops of the source (`calculateWinner`, `getMoveCoord`) are methods
proved equal to recursive specification functions; the lemmas about those
functions state what the scans mean. The state of `Game` is a class whose
fields the handlers overwrite, as the React setters do. `ClickSquare`
wires the `Board` click to `handlePlay`, the way `Game` passes
`onPlay={handlePlay}`, `squares={currentSquares}` and `xIsNext`. The ghost
predicate `History.Reachable` describes the histories that legal play
builds. `ClickSquare`, `JumpTo` and `HandleSortAsc` preserve it;
`HandlePlay` on its own does not check its argument, just like the source.

`TimeTravelScenario` plays a short game: X takes the centre and O a corner.
The player then jumps back to move 1, twice, which changes nothing the
second time. O then plays another corner. The scenario asserts that the
first branch has gone from the history and that toggling the sort order
leaves the game alone.

`handleSortAsc` toggles `sortAsc` (src/App.js:167-169); there is no setter
taking a direction, and the model has none either.

## Model

| member | source | states |
|---|---|---|
| Evaluator.CalculateWinner | src/App.js:15-33 | the loop's result is the first-match scan over the catalogue, in catalogue order |
| Evaluator.Winner | src/App.js:15-33 | `calculateWinner`'s value as a function; characterised by WinnerNoneIff, WinnerIsCompleteLine, WinnerIsFirstCompleteLine, LoneLineWins and EmptyBoardHasNoWinner |
| Evaluator.WinnerNoneIff | src/App.js:26-32 | `calculateWinner` returns `null` exactly when no catalogue line has the same non-null mark in all three cells |
| Evaluator.WinnerIsCompleteLine | src/App.js:16-29 | a reported `[mark, line]` has `line` in the catalogue and `mark` in each of its three cells |
| Evaluator.WinnerIsFirstCompleteLine | src/App.js:16-30 | the reported line is catalogue entry `j` if and only if line `j` is complete and no earlier line (rows, then columns, then diagonals) is |
| Evaluator.LoneLineWins | src/App.js:16-30 | a board holding one mark on the three cells of catalogue line `j` and nothing else reports exactly that mark and that line |
| Evaluator.EmptyBoardHasNoWinner | src/App.js:115 | the starting all-`null` board has no winner |
| BoardComponent.NextMark | src/App.js:51 | `xIsNext ? "X" : "O"`, the mark of the player to move; HandleSquareClick and StatusNextPlayerIff state where it is used |
| BoardComponent.Status | src/App.js:36-44 | the status string; characterised by StatusWinner, StatusNextPlayerIff and StatusDrawIff |
| BoardComponent.StatusWinner | src/App.js:36-39 | with a complete line, the status is "Winner: " followed by the mark of the first complete line |
| BoardComponent.StatusNextPlayerIff | src/App.js:36-41 | the status is "Next player: " with X when `xIsNext` and O otherwise, exactly when no line is complete and some cell is `null` |
| BoardComponent.StatusDrawIff | src/App.js:36-44 | the status is "It is a draw!" exactly when no line is complete and no cell is `null` |
| BoardComponent.HandleSquareClick | src/App.js:46-53 | the click is ignored exactly when the square is occupied or the board has a winner; otherwise the new board equals the old one except at `i`, which holds X when `xIsNext` and O when not |
| History.XIsNextAt | src/App.js:118 | `xIsNext` as derived from the cursor (even move: X to move); ReachableCounts ties it to the marks on the board |
| History.ReachableCounts | src/App.js:116-118 | after `k` legal moves the board holds `(k+1)/2` X, `k/2` O and `9-k` empty cells, so `xIsNext` (cursor even) holds exactly when both players have placed equally many marks |
| History.ReachableLength | src/App.js:46-53 | since a click needs an empty square, a history of legal play has at most ten snapshots |
| History.PlayKeepsReachable | src/App.js:121-125 | truncating after the cursor and appending a legal move from the snapshot under the cursor yields a history of legal play again |
| History.FirstPlacedIff | src/App.js:130-135 | `getMoveCoord`'s scan stops at cell `p` exactly when `p` is the smallest cell that was `null` before and holds a mark after |
| History.MoveCoord | src/App.js:127-136 | `getMoveCoord` as a function of two snapshots; characterised by FirstPlacedIff, MoveCoordOfClick, MoveCoordUnchanged and CoordLabelRoundTrip |
| History.MoveCoordOfClick | src/App.js:127-136 | between a board and the board a click on empty cell `i` produces, `getMoveCoord` names cell `i` |
| History.MoveCoordUnchanged | src/App.js:135 | between two equal snapshots `getMoveCoord` returns `""` |
| History.CoordLabel | src/App.js:132 | the `"(row,col)"` text of a cell; characterised by CoordLabelRoundTrip |
| History.CoordLabelRoundTrip | src/App.js:132 | the label is `"(r,c)"` with 1-based digits `r = i/3+1`, `c = i%3+1`, from which the cell `3(r-1)+(c-1)` is recovered |
| History.MoveLabel | src/App.js:139-144 | the description of one move-list entry; characterised by ReachableMoveLabels |
| History.MoveLabels | src/App.js:138-150 | `history.map(...)`, one description per snapshot in history order; characterised by ReachableMoveLabels |
| History.ReachableMoveLabels | src/App.js:138-144 | there is one label per snapshot; label 0 is "Go to game start" and label `k` is "Go to move #k" followed by the coordinate of the cell move `k` filled |
| History.DisplayedMovesOrder | src/App.js:152 | the displayed list is the labels in history order when `sortAsc` holds and reversed otherwise, with the same labels |
| History.DisplayedMoves | src/App.js:152 | the move list after `if (!sortAsc) moves.reverse()`; characterised by DisplayedMovesOrder |
| Decimal.NatToString | src/App.js:141 | a number is rendered as a non-empty string of decimal digits without a leading zero |
| Decimal.DecimalRoundTrip | src/App.js:132 | reading back a rendered number gives the number, so the move number and coordinates in a label are unambiguous |
| Decimal.NatToStringInjective | src/App.js:141 | different move numbers are rendered as different strings |
| GameComponent.Game.constructor | src/App.js:115-119 | the game starts with one all-empty snapshot, the cursor at 0 and ascending order; that history is one of legal play |
| GameComponent.Game.CurrentSquares | src/App.js:117 | `currentSquares`, the snapshot under the cursor, defined whenever the history invariant holds |
| GameComponent.Game.XIsNext | src/App.js:118 | `xIsNext` of the game, the parity of its cursor; HandlePlay's contract states that each play flips it |
| GameComponent.Game.HandlePlay | src/App.js:121-125 | `history' == history[..currentMove+1] + [nextSquares]`, the cursor moves to the new last index `currentMove+1`, entries up to the old cursor and the sort flag are unchanged, and the player to move flips |
| GameComponent.Game.JumpTo | src/App.js:156-158 | only the cursor changes, to the given move, so a second identical jump changes nothing |
| GameComponent.Game.HandleSortAsc | src/App.js:167-169 | only the sort flag changes, to its negation |
| GameComponent.Game.Moves | src/App.js:138-152 | the rendered move list of the game, its history's labels in the order the sort flag selects; characterised by DisplayedMovesOrder |
| GameComponent.Game.GetMoveCoord | src/App.js:127-136 | the loop returns the coordinate label of the first cell placed between snapshots `move-1` and `move`, or `""` |
| GameComponent.Game.ClickSquare | src/App.js:46-53 | a click on an occupied square or a decided board leaves the game unchanged; otherwise the history is truncated after the cursor and extended with the clicked board; histories of legal play stay so |

## Left out

- Rendering: the `Square` buttons, the board layout, the highlight of the winning line and the `<ol reversed>` numbering (src/App.js:3-13, 55-111, 171-189) are presentation.
- The "You are at move #…" banner and the text of the sort toggle (src/App.js:154, 160-165) are display strings with no logic.
- React's `useState` mechanics (deferred, batched updates and re-rendering) are not modelled; each setter is a direct field assignment.
- Event wiring beyond the board click: the move-list buttons call `jumpTo` with their own index, so `JumpTo` requires an index inside the history instead of modelling a policy for bad indices, which the source does not have.
- JavaScript truthiness in general: cells only ever hold `null`, `"X"` or `"O"`, so "truthy" is modelled as "holds a mark".
