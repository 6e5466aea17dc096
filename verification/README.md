# Minesweeper board engine

This is a Dafny model of the game logic in the `MainActivity` of a small Android Minesweeper game. The board is a fixed 10×10 grid (`COLUMN_COUNT = 10`) with 5 bombs (`BOMB_COUNT = 5`). The model covers:

- the rejection sampling that places the bombs;
- the two-click cell state machine of `onClickTV`: a first click flags a hidden cell; a click on a flagged cell lifts the flag and either loses the game (a bomb) or reveals the cell (a safe cell);
- the recursive flood fill `revealSquare` / `revealEmptyNeighbors`;
- the neighbour count `countNeighborBombs`;
- the win check `checkWinCondition`.

The activity keeps each cell's state in the tag of its view. An absent tag means hidden, `1` means flagged, `2` means just unflagged, and `"revealed"` means revealed. The model lifts these tags into a datatype: `Hidden | Flagged | Unflagged | Revealed(count)`. The boolean `gameOver` becomes a status: `Playing`, `Won` or `Lost`. The three counters `revealedSafeSquares`, `correctlyFlaggedBombs` and `remainingFlags` are fields of an immutable `Game` record. Every operation is a pure function from a game to a game.

Modules, one per file:

- `Grid` (grid.dfy): index ↔ row/column arithmetic, the eight-direction table, and the neighbour mine count. The count is proved equal to the number of bombs in the edge-clipped Moore neighbourhood.
- `Placement` (placement.dfy): bomb placement from a sequence of draws that stands in for `java.util.Random`.
- `Board` (board.dfy): the cell, status and game datatypes. Also the invariant every reachable state keeps (`Inv`), and what the counters mean in terms of cells.
- `FloodFill` (floodfill.dfy): `revealSquare` and `revealEmptyNeighbors`, written as mutual recursion in the source's visiting order. Termination uses the set of unrevealed cells as its measure. This module also proves the flood-fill closure and that a reveal changes exactly the flood region of the cell.
- `Engine` (engine.dfy): `onClickTV` and `checkWinCondition`.
- `Invariants` (invariants.dfy): every click keeps `Inv`.
- `Session` (session.dfy): `setupBoard`, click sequences, monotonicity, absorbing end states, the absence of deadlock, and concrete scenarios.

Where the code differs from the usual Minesweeper rules, the model follows the code:

- Unflagging does not make a cell hidden again. It sets tag 2. A click on a cell with tag 2 falls through both branches of `onClickTV` and does nothing. On a safe cell the tag is replaced by `"revealed"` straight away. Only the bomb whose unflagging lost the game keeps it (`Inv`, `DoubleClickMineLoses`).
- The flood fill also reveals flagged safe cells. Their flags are not given back to `remainingFlags` (`FloodFillSwallowsFlags`).
- The cap on `remainingFlags` and the `correctlyFlaggedBombs > 0` guard in the unflag branch never change anything in a reachable state (`LiftFlagGuards`).
- There are no out-of-range coordinates. Clicks come from the 100 cell views, so the click index is always a valid cell.

## Model

| member | source | states |
|---|---|---|
| Grid.Index | app/src/main/java/com/example/gridlayout/MainActivity.java:145-147 | the index `row*10+col` of an on-board cell is in [0,100), and dividing it by 10 and taking it mod 10 give back row and column |
| Grid.PositionRoundTrip | app/src/main/java/com/example/gridlayout/MainActivity.java:146-147 | every index in [0,100) splits into an on-board (row, col) whose index is the same index again |
| Grid.Step | app/src/main/java/com/example/gridlayout/MainActivity.java:241-250 | a step along the direction table that stays on the board lands on a distinct touching cell |
| Grid.CountFrom | app/src/main/java/com/example/gridlayout/MainActivity.java:263-275 | the direction loop from direction k onward counts between 0 and 8-k bombs |
| Grid.CountFromIsSetCount | app/src/main/java/com/example/gridlayout/MainActivity.java:263-274 | the loop from direction k counts each bomb among the neighbours it visits exactly once |
| Grid.NeighbourMinesIsMooreCount | app/src/main/java/com/example/gridlayout/MainActivity.java:258-276 | countNeighborBombs equals the number of bombs in the edge-clipped Moore neighbourhood without the cell itself, and lies in 0..8 |
| Grid.NeighbourMines | app/src/main/java/com/example/gridlayout/MainActivity.java:258-276 | countNeighborBombs at (row, col) lies in 0..8; NeighbourMinesIsMooreCount gives its exact value |
| Grid.MineCount | app/src/main/java/com/example/gridlayout/MainActivity.java:222 | the number a revealed cell shows, computed from its index, lies in 0..8; MineCountIsMooreCount gives its exact value |
| Grid.MineCountIsMooreCount | app/src/main/java/com/example/gridlayout/MainActivity.java:222 | the number a revealed cell shows is the number of bombs among the on-board cells touching it |
| Placement.FirstOccurrences | app/src/main/java/com/example/gridlayout/MainActivity.java:80-85 | keeping each draw unless already chosen yields a duplicate-free list holding exactly the values drawn |
| Placement.FirstOccurrencesStep | app/src/main/java/com/example/gridlayout/MainActivity.java:81-83 | one more draw is appended to the chosen list exactly when it is not already in it |
| Placement.FirstOccurrencesPrefix | app/src/main/java/com/example/gridlayout/MainActivity.java:80-85 | later draws only append to the chosen list |
| Placement.PlaceMines | app/src/main/java/com/example/gridlayout/MainActivity.java:78-85 | placement succeeds exactly when the draws hold at least 5 distinct values; then it yields 5 pairwise distinct indices in [0,100), the first 5 distinct draws in order, and stops at the draw that completes them |
| Board.NewGame | app/src/main/java/com/example/gridlayout/MainActivity.java:73-76 | a fresh game on the given bombs has every cell hidden, all 5 flags in hand, play in progress, and satisfies the invariant |
| Board.CounterBounds | app/src/main/java/com/example/gridlayout/MainActivity.java:40-42 | in a state satisfying the invariant, revealedSafeSquares is in 0..95, correctlyFlaggedBombs in 0..5, remainingFlags in 0..5 |
| Board.AllSafeRevealedMeaning | app/src/main/java/com/example/gridlayout/MainActivity.java:293-295 | the reveal half of the win condition holds exactly when every safe cell is revealed |
| Board.AllMinesFlaggedMeaning | app/src/main/java/com/example/gridlayout/MainActivity.java:164-166 | the flag half of the win condition holds exactly when every bomb is flagged |
| FloodFill.Reveal | app/src/main/java/com/example/gridlayout/MainActivity.java:214-238 | revealSquare on a non-bomb cell leaves it revealed; it is a no-op on a revealed cell; it only turns unrevealed safe cells into revealed cells showing their count; it adds one to revealedSafeSquares per newly revealed cell; flags and status are untouched |
| FloodFill.RevealNeighbours | app/src/main/java/com/example/gridlayout/MainActivity.java:240-256 | revealEmptyNeighbors only turns unrevealed safe cells into revealed ones, counting each once, and changes nothing else |
| FloodFill.RevealKeepsClosed | app/src/main/java/com/example/gridlayout/MainActivity.java:235-256 | after a reveal on a closed board, every revealed cell showing 0 has all its on-board non-bomb neighbours revealed, flagged ones included |
| FloodFill.RevealWithinRegion | app/src/main/java/com/example/gridlayout/MainActivity.java:214-256 | every cell a reveal changes is reached from the clicked cell by a path of unrevealed safe cells through cells showing 0 |
| FloodFill.FloodFillRegion | app/src/main/java/com/example/gridlayout/MainActivity.java:214-256 | on a closed board a reveal changes exactly the cells of the flood region: the connected zero cells and the numbered cells bordering them |
| Engine.CheckWin | app/src/main/java/com/example/gridlayout/MainActivity.java:292-296 | the game becomes won exactly when 95 safe squares are revealed or 5 bombs correctly flagged; nothing else changes |
| Engine.PlaceFlag | app/src/main/java/com/example/gridlayout/MainActivity.java:154-170 | flagging a hidden cell changes only that cell, takes one flag from the hand, adds one correct flag exactly when the cell is a bomb, and then runs the win check |
| Engine.LiftFlag | app/src/main/java/com/example/gridlayout/MainActivity.java:172-209 | unflagging returns a flag, capped at 5; on a bomb the game is lost and no cell is revealed; on a safe cell that cell is revealed showing its neighbour bomb count, every other change is a newly revealed safe cell showing its count, revealedSafeSquares grows by the number of newly revealed cells, correct flags are unchanged, and the win check runs |
| Engine.Click | app/src/main/java/com/example/gridlayout/MainActivity.java:141-211 | a click on a finished game, on a revealed cell, on a cell with tag 2, or on a hidden cell with no flag in hand leaves the whole state unchanged |
| Invariants.LiftFlagGuards | app/src/main/java/com/example/gridlayout/MainActivity.java:174-181 | in a reachable state the cap on returned flags never applies and a flagged bomb is always counted, so unflagging adds exactly one flag and removes exactly one correct flag for a bomb |
| Invariants.PlaceFlagPreservesInv | app/src/main/java/com/example/gridlayout/MainActivity.java:154-170 | flagging keeps the invariant (counters agree with the cells, flags on board plus in hand at most 5, closure) |
| Invariants.LiftMinePreservesInv | app/src/main/java/com/example/gridlayout/MainActivity.java:172-202 | unflagging a bomb keeps the invariant, with tag 2 left on that bomb as the mark of the loss |
| Invariants.LiftFlagRegion | app/src/main/java/com/example/gridlayout/MainActivity.java:203-205 | on a closed board, unflagging a safe cell changes exactly the cells of its flood region: the cells reached from it by a path of unrevealed safe cells that moves on only from cells with no neighbouring bomb |
| Invariants.SameRegion | app/src/main/java/com/example/gridlayout/MainActivity.java:183 | tagging the unflagged cell with 2 before the reveal does not change its flood region, since it changes no mine and no revealed cell |
| Invariants.LiftSafeFlagged | app/src/main/java/com/example/gridlayout/MainActivity.java:205 | unflagging a safe cell can only remove flags from safe cells, never from bombs |
| Invariants.LiftSafePreservesInv | app/src/main/java/com/example/gridlayout/MainActivity.java:203-207 | unflagging a safe cell keeps the invariant |
| Invariants.ClickPreservesInv | app/src/main/java/com/example/gridlayout/MainActivity.java:141-211 | every click keeps the invariant |
| Session.SetupBoard | app/src/main/java/com/example/gridlayout/MainActivity.java:67-85 | setting up succeeds exactly when the draws hold 5 distinct values; the bombs are then the first 5 distinct draws, taken up to the draw that completes them, on a fresh board that satisfies the invariant with nothing revealed or flagged and 5 flags in hand |
| Session.ClickMonotone | app/src/main/java/com/example/gridlayout/MainActivity.java:142-150 | a click never un-reveals a cell or changes what a revealed cell shows, never lowers revealedSafeSquares, and never changes a finished game |
| Session.PlayPreservesInv | app/src/main/java/com/example/gridlayout/MainActivity.java:141-211 | the invariant holds after any sequence of clicks |
| Session.PlayMonotone | app/src/main/java/com/example/gridlayout/MainActivity.java:142 | across any click sequence revealed cells stay revealed and revealedSafeSquares never drops; Won and Lost are absorbing |
| Session.ReachableBounds | app/src/main/java/com/example/gridlayout/MainActivity.java:73-85 | in every state reachable from a fresh board the three counters stay in their ranges |
| Session.NoDeadlock | app/src/main/java/com/example/gridlayout/MainActivity.java:154-209 | while play is in progress some click still changes the state |
| Session.FloodFillSwallowsFlags | app/src/main/java/com/example/gridlayout/MainActivity.java:235-256 | lifting the flag of a safe zero cell reveals a flagged safe neighbour without giving its flag back, so flags on board plus in hand drop |
| Session.SwallowedFlag | app/src/main/java/com/example/gridlayout/MainActivity.java:203-205 | on the sample board, after flagging the safe cells 0 and 1, lifting the flag from corner 0, which touches no bomb, also reveals cell 1 and leaves no flag on the board, with only 4 flags in hand |
| Session.FlagAllMinesWins | app/src/main/java/com/example/gridlayout/MainActivity.java:164-167 | with bombs at 5, 17, 42, 73, 88, flagging them in turn wins on the fifth flag and not before |
| Session.DoubleClickMineLoses | app/src/main/java/com/example/gridlayout/MainActivity.java:185-202 | clicking bomb 5 twice loses with nothing revealed, tag 2 left on the cell, and any later click changes nothing |
| Session.DoubleClickNumberedCell | app/src/main/java/com/example/gridlayout/MainActivity.java:203-207 | clicking cell 4, next to bomb 5, twice reveals just that cell showing 1; the flag is back in hand and play goes on |

## Left out

- Android view plumbing is not modelled: view creation, layout parameters, text, text colours, `getNumberColor`, the status line, and the restart button's visibility. These are presentation only. This includes the display markers. On a win every bomb shows a flag. On a loss every bomb shows a black background, and that overwrites the red background set on the bomb clicked last, so no separate "exploded" marker survives.
- The timer `Handler`/`Runnable` and `secondsElapsed` are not modelled. They are asynchronous UI callbacks with no effect on the board.
- `dpToPixel` (floating-point display scaling) and the `Log.d` output of bomb positions are not modelled.
- `java.util.Random` is not modelled. It is replaced by the sequence of values `nextInt(100)` returns; the requires of `PlaceMines` is that function's range. The Java loop keeps drawing until 5 distinct values arrive. The model returns None when the given draws run out first.
- The background-colour test in the flag branch is not modelled. It is treated as "the cell is hidden". During play an untagged cell still has its green background, because only a reveal changes the background of a cell before the game ends. So the test always passes for an untagged cell, and the model drops it.
- `findIndexOfCellTextView` is not modelled. Clicks are given directly by cell index. Only cell views carry the click listener, so its -1 result cannot occur.
- `resetGame` just calls `setupBoard` again, which is `SetupBoard` on fresh draws.
- LoseActivity.java is not part of this model. It is a static "YOU LOSE" screen with no logic.
- Engine.LiftFlag: for a bomb, the contract does not state `correctlyFlaggedBombs` directly, because the source guards the decrement with `> 0`. `Invariants.LiftFlagGuards` states it exactly (one less) for every reachable state.
