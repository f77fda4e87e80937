# Sliding-tile puzzle engine

This project models the puzzle engine of the PuzzleGame Android app, a "15-puzzle" style game. The engine lives in
`PuzzleGameActivity.java`. It plays on a square board of `size x size` cells, and each cell holds a tile with an
order index and a blank flag. The engine covers:

- building the solved board;
- shuffling it into a solvable arrangement. The shuffle has three parts: an exchange loop driven by random choices,
  a scan that moves the blank to the bottom-right corner, and a parity correction based on the source's inversion sum;
- answering a click on a tile by sliding it into the blank when the two are neighbours;
- detecting a win and keeping the game state (`NONE`, `PLAYING`, `WON`) and the score;
- clamping the grid size entered in the new-game dialog into 2 .. 5.

The code is imperative, and the model follows it:

- `Board.PuzzleGameBoard` is a class over a row-major `array<Tile>`.
- `Activity.PuzzleGameActivity` is a class with the fields `boardSize`, `board`, `state` and `score`.
- The activity's scans and loops are Dafny methods with `while`/`for` loops. Each is proved against a pure
  specification function on the row-major sequence of tiles:
  - `Shuffle.Randomized`, `Shuffle.BlankToCorner` and `Shuffle.ForcedSolvable` for the shuffle;
  - `Play.Move` for a click;
  - `Play.WinCheck` and `PuzzleModel.InOrder` for the win test;
  - `Inversions.InversionSum` and `Inversions.InversionCount` for the solvability sum.
- Lemmas then prove what the source promises about those functions.

Modules:

- `PuzzleModel` (`puzzle_model.dfy`): tiles, game states, row-major cells, swaps, board invariants and the initial board.
- `Inversions` (`inversions.dfy`): the source's running inversion sum, the classic inversion count, and the proof that
  they agree on permutations.
- `Shuffle` (`shuffle.dfy`): the randomize loop, the blank-to-corner scan, the parity correction and the whole shuffle.
- `Play` (`play.dfy`): the move rule and the win check.
- `Board` (`board.dfy`): the board operations the activity calls.
- `Activity` (`activity.dfy`): the activity's state, its methods, the dialog clamp and the new-game flow.

Randomness is a parameter. `draws[k]` is the `j` that the k-th iteration of the randomize loop picks, and that
iteration handles position `i = N - 1 - k`. A valid sequence of draws has `0 <= j < i` for every iteration.

## Model

| member | source | states |
|---|---|---|
| PuzzleModel.InitialArrangement | app/src/main/java/com/mikeriv/ssui_2016/puzzlegame/PuzzleGameActivity.java:237-250 | The freshly built board is in play: its order indices are a permutation of 0..N-1 and exactly one tile, the bottom-right one, is blank. It is in solved order, so the win test holds on it. |
| PuzzleModel.LastCell | app/src/main/java/com/mikeriv/ssui_2016/puzzlegame/PuzzleGameActivity.java:244 | On an n x n board, cell (r, c) is the last row-major position exactly when r == n-1 and c == n-1. This is the cell the board builder marks blank. |
| PuzzleModel.CellOfIndex | app/src/main/java/com/mikeriv/ssui_2016/puzzlegame/PuzzleGameActivity.java:365-368 | Decoding a linear index k as (k / cols, k % cols) gives an in-bounds cell whose row-major position is k again. |
| PuzzleModel.IndexOfCell | app/src/main/java/com/mikeriv/ssui_2016/puzzlegame/PuzzleGameActivity.java:153-154 | Encoding cell (r, c) as r * cols + c and decoding it with / and % gives back r and c. |
| PuzzleModel.FindBlankAt | app/src/main/java/com/mikeriv/ssui_2016/puzzlegame/PuzzleGameActivity.java:383-385 | On a board with exactly one blank, the row-major scan meets that blank first. |
| PuzzleModel.SwapPermutes | app/src/main/java/com/mikeriv/ssui_2016/puzzlegame/PuzzleGameActivity.java:369 | Exchanging two cells only rearranges the tiles, so the multiset is unchanged. |
| PuzzleModel.SwapArrangement | app/src/main/java/com/mikeriv/ssui_2016/puzzlegame/PuzzleGameActivity.java:369 | Any exchange of two cells keeps the board in play, and the blank moves with its tile. |
| PuzzleModel.SetFlagUnchanged | app/src/main/java/com/mikeriv/ssui_2016/puzzlegame/PuzzleGameActivity.java:163-164 | Setting a tile's blank flag to the value it already holds leaves the board unchanged. |
| Inversions.CountLessPrefix | app/src/main/java/com/mikeriv/ssui_2016/puzzlegame/PuzzleGameActivity.java:404-407 | One more element read from the prefix list adds one to the count of smaller values exactly when it is smaller. |
| Inversions.CountLessMultiset | app/src/main/java/com/mikeriv/ssui_2016/puzzlegame/PuzzleGameActivity.java:404-407 | The count of earlier smaller ids depends only on the multiset of ids read so far. |
| Inversions.SourceTermOfPermutation | app/src/main/java/com/mikeriv/ssui_2016/puzzlegame/PuzzleGameActivity.java:401-409 | On a permutation of 0..N-1, the term a position adds to the sum equals the number of later positions that hold a smaller id. |
| Inversions.InversionSumUpToPermutation | app/src/main/java/com/mikeriv/ssui_2016/puzzlegame/PuzzleGameActivity.java:399-411 | On a permutation, the running sum after the first n positions equals the number of inverted pairs whose first position is below n. |
| Inversions.InversionSumIsInversionCount | app/src/main/java/com/mikeriv/ssui_2016/puzzlegame/PuzzleGameActivity.java:394-413 | On a permutation of 0..N-1, the source's inversion sum equals the classic count of pairs i < j with xs[i] > xs[j]. |
| Inversions.SwapFrontChangesSum | app/src/main/java/com/mikeriv/ssui_2016/puzzlegame/PuzzleGameActivity.java:419-423 | On a permutation, exchanging the first two ids changes the source's sum by exactly one, so its parity flips. |
| Shuffle.RandomizedSettlesSuffix | app/src/main/java/com/mikeriv/ssui_2016/puzzlegame/PuzzleGameActivity.java:362-371 | Each iteration exchanges position i with a j < i, so once the first m iterations have run, later iterations never touch the last m positions. |
| Shuffle.ValidDrawsPrefix | app/src/main/java/com/mikeriv/ssui_2016/puzzlegame/PuzzleGameActivity.java:364 | Every prefix of a valid sequence of draws is valid: each draw lies in [0, i) for its own iteration. |
| Shuffle.RandomizedPermutes | app/src/main/java/com/mikeriv/ssui_2016/puzzlegame/PuzzleGameActivity.java:362-371 | The randomize loop only rearranges the tiles, so the multiset of tiles is unchanged. |
| Shuffle.RandomizedArrangement | app/src/main/java/com/mikeriv/ssui_2016/puzzlegame/PuzzleGameActivity.java:362-371 | The randomize loop keeps the board in play. |
| Shuffle.BlankToCornerEffect | app/src/main/java/com/mikeriv/ssui_2016/puzzlegame/PuzzleGameActivity.java:379-392 | With exactly one blank, the scan leaves the blank in the bottom-right cell, puts the tile that was there into the blank's old cell, and changes nothing else. |
| Shuffle.ResetScanStep | app/src/main/java/com/mikeriv/ssui_2016/puzzlegame/PuzzleGameActivity.java:383-391 | Up to the blank's cell, the scan meets the blank exactly at that cell. Swapping it there gives the final board. In the later rows the only blank left is in the corner, and swapping the corner with itself changes nothing. |
| Shuffle.SwapFrontMakesEven | app/src/main/java/com/mikeriv/ssui_2016/puzzlegame/PuzzleGameActivity.java:419-423 | When the sum is odd, exchanging cells (0,0) and (0,1) changes the board and makes the sum even. |
| Shuffle.ForcedSolvableEffect | app/src/main/java/com/mikeriv/ssui_2016/puzzlegame/PuzzleGameActivity.java:415-423 | The parity correction changes the board exactly when the sum is odd. Afterwards the sum and the inversion count are even, the board is in play, and every position from the third on is untouched. |
| Shuffle.ShuffleGuarantees | app/src/main/java/com/mikeriv/ssui_2016/puzzlegame/PuzzleGameActivity.java:359-374 | After the shuffle the board holds exactly the original tiles and is in play. Its blank is in the bottom-right cell, and both the source's sum and the inversion count are even, so isSolvable holds. |
| Shuffle.ForcedSolvableRestoresOrder | app/src/main/java/com/mikeriv/ssui_2016/puzzlegame/PuzzleGameActivity.java:415-423 | The 3 x 3 board with its first two tiles exchanged has an odd sum, and the correction turns it back into the solved board. |
| Play.MoveEffect | app/src/main/java/com/mikeriv/ssui_2016/puzzlegame/PuzzleGameActivity.java:158-166 | A click moves a tile exactly when the clicked cell is an edge neighbour of the blank. The blank then sits in the clicked cell and the clicked tile in the blank's old cell, and nothing else changes. Otherwise the board is unchanged. |
| Play.MoveKeepsArrangement | app/src/main/java/com/mikeriv/ssui_2016/puzzlegame/PuzzleGameActivity.java:158-166 | A click keeps the board in play, with exactly one blank, whether or not a tile moves. |
| Play.ClickScanStep | app/src/main/java/com/mikeriv/ssui_2016/puzzlegame/PuzzleGameActivity.java:158-168 | Up to the blank's cell, the click scan meets the blank exactly at that cell, and there the neighbour test is the move rule. After a move the blank found in a later row is the clicked cell, which is never its own neighbour. |
| Play.MoveUndo | app/src/main/java/com/mikeriv/ssui_2016/puzzlegame/PuzzleGameActivity.java:158-166 | Clicking the cell the blank just left is again a legal move, and it restores the board. |
| Play.ClickBesideBlank | app/src/main/java/com/mikeriv/ssui_2016/puzzlegame/PuzzleGameActivity.java:144-172 | On the solved 3 x 3 board, a click on (2,1) slides tile 7 into the blank. The blank moves to (2,1) and the board is no longer in order. |
| Play.WinCheckSquare | app/src/main/java/com/mikeriv/ssui_2016/puzzlegame/PuzzleGameActivity.java:478-490 | On a square board, the test "every cell (r,c) holds r * rowCount + c" holds exactly when every position k holds order index k. |
| Play.WinCheckNeedsSquare | app/src/main/java/com/mikeriv/ssui_2016/puzzlegame/PuzzleGameActivity.java:485 | The test uses the row count where the column count belongs. On a 2 x 3 board in solved order it answers false, so its correctness depends on the board being square. |
| Board.PuzzleGameBoard.SetTile | app/src/main/java/com/mikeriv/ssui_2016/puzzlegame/PuzzleGameActivity.java:248 | Writes the tile into cell (r, c), and no other cell changes. |
| Board.PuzzleGameBoard.SwapTiles | app/src/main/java/com/mikeriv/ssui_2016/puzzlegame/PuzzleGameActivity.java:369 | Exchanges the two cells' tiles, blank flags included, and no other cell changes. |
| Board.PuzzleGameBoard.SetIsEmpty | app/src/main/java/com/mikeriv/ssui_2016/puzzlegame/PuzzleGameActivity.java:163-164 | Sets the blank flag of the tile in (r, c), keeps its order index, and no other cell changes. |
| Activity.ClampGridSize | app/src/main/java/com/mikeriv/ssui_2016/puzzlegame/PuzzleGameActivity.java:91-101 | The dialog's grid size always ends up in [2, 5], and a value already in range is kept. |
| Activity.ClampGridSizeNearest | app/src/main/java/com/mikeriv/ssui_2016/puzzlegame/PuzzleGameActivity.java:97-100 | No allowed size is closer to the entered value than the clamped one. |
| Activity.NewPuzzleBoard | app/src/main/java/com/mikeriv/ssui_2016/puzzlegame/PuzzleGameActivity.java:237-250 | The fill loop gives cell (r,c) order index r*size+c and blanks only the bottom-right cell. The result is the initial board, which is in play and in order. |
| Activity.PuzzleGameActivity.constructor | app/src/main/java/com/mikeriv/ssui_2016/puzzlegame/PuzzleGameActivity.java:214-250 | A new activity has size 4, state NONE, score 0 and the freshly built board in solved order. |
| Activity.PuzzleGameActivity.HasWonGame | app/src/main/java/com/mikeriv/ssui_2016/puzzlegame/PuzzleGameActivity.java:478-490 | Returns true exactly when every cell (r,c) holds r*rowCount+c. On the square board this means every position holds its own tile. |
| Activity.PuzzleGameActivity.UpdateGameState | app/src/main/java/com/mikeriv/ssui_2016/puzzlegame/PuzzleGameActivity.java:429-450 | A won board sets the state to WON and adds exactly one to the score. Otherwise neither changes. |
| Activity.PuzzleGameActivity.SumInversions | app/src/main/java/com/mikeriv/ssui_2016/puzzlegame/PuzzleGameActivity.java:394-413 | The nested loops compute the source's inversion sum. When the ids are a permutation, this is the number of inverted row-major pairs. |
| Activity.PuzzleGameActivity.IsSolvable | app/src/main/java/com/mikeriv/ssui_2016/puzzlegame/PuzzleGameActivity.java:415-417 | True exactly when the sum is even, which is exactly when the inversion count is even. |
| Activity.PuzzleGameActivity.ForceSolvable | app/src/main/java/com/mikeriv/ssui_2016/puzzlegame/PuzzleGameActivity.java:419-423 | The board becomes the parity-corrected board: cells (0,0) and (0,1) are exchanged exactly when the sum is odd. |
| Activity.PuzzleGameActivity.ResetEmptyTileLocation | app/src/main/java/com/mikeriv/ssui_2016/puzzlegame/PuzzleGameActivity.java:379-392 | The scan, whose break only leaves the inner loop, ends with the board that has the blank moved to the bottom-right corner. This covers the later self-swap of the corner. |
| Activity.PuzzleGameActivity.ShufflePuzzleTiles | app/src/main/java/com/mikeriv/ssui_2016/puzzlegame/PuzzleGameActivity.java:359-374 | Runs N-1 exchanges of position i with draws' j < i, for i = N-1 down to 1, then the reset and the correction. The result is the shuffled board, still in play. |
| Activity.PuzzleGameActivity.SlideTile | app/src/main/java/com/mikeriv/ssui_2016/puzzlegame/PuzzleGameActivity.java:161-165 | The clicked tile and the blank trade cells, with their flags reasserted, and the game state is updated from the new board. |
| Activity.PuzzleGameActivity.OnTileClick | app/src/main/java/com/mikeriv/ssui_2016/puzzlegame/PuzzleGameActivity.java:144-172 | The board becomes the move-rule result for the clicked cell (tileId / size, tileId % size). State and score change only when a tile moved and the board is then solved. The handler never checks the game state, so moves are still possible after WON. |
| Activity.PuzzleGameActivity.OnGlobalLayout | app/src/main/java/com/mikeriv/ssui_2016/puzzlegame/PuzzleGameActivity.java:295-298 | Shuffles, updates the game state, then sets PLAYING unconditionally. The score counts a win only if the shuffled board is already solved. |
| Activity.PuzzleGameActivity.StartNewGame | app/src/main/java/com/mikeriv/ssui_2016/puzzlegame/PuzzleGameActivity.java:504-587 | Builds a fresh board of the current size in solved order, shuffles it, updates the game state, then sets PLAYING unconditionally. |
| Activity.PuzzleGameActivity.ConfirmNewGame | app/src/main/java/com/mikeriv/ssui_2016/puzzlegame/PuzzleGameActivity.java:118-124 | A non-empty size field sets the size to the clamped value and an empty one keeps the size, then a new game starts. |

## Left out

- Android UI is not modelled. This covers views, tile views, dialogs, toasts, the score text, `refreshGameBoardView`, `createPuzzleTileViews` and the `mPuzzleTileViews` field. These are presentation and hold no engine state.
- Bitmap decoding, scaling and slicing, and the drawable a tile carries, are not modelled. This is foreign library code, and the payload is opaque to the engine.
- Floating-point layout weights are not modelled. They only size views.
- The timing of the layout callback is not modelled. `OnGlobalLayout` models only what the callback does to the game.
- `Math.random()` is replaced by the `draws` parameter, whose integer choices satisfy `0 <= j < i`.
- `Integer.parseInt` of the dialog text and its `NumberFormatException` are not modelled. `ConfirmNewGame` takes the field's value as an `Option<int>`, where `None` means an empty field.
- The image choice via `DRAWABLE_ID_MAP` is not modelled, because it only selects a picture.
- `PuzzleGameBoard`, `PuzzleGameTile`, `PuzzleGameTileView` and `PuzzleGameState` are not part of this model. The board is modelled by the operations the activity calls.
- `areTilesNeighbors` is assumed to be edge adjacency (|dr| + |dc| == 1). Its body is not part of this model.
- A new Java board holds null cells until the fill loop sets them. The model puts placeholder tiles there, and the fill loop overwrites every one.
- Tiles are values: the model does not track the aliasing of tile objects shared between the board and its views.
- The shuffle is Sattolo's variant, with `j < i` strictly, as the code does. A description of it as a Fisher–Yates shuffle, and the doc comment that promises only blank-adjacent swaps, do not match the code. The model follows the code.
- The model does not prove that an even inversion count with the blank in the corner makes the board reachable from the solved one. It proves the parity facts the code establishes.
- UpdateGameState: 32-bit wrap-around of `mScore` is not modelled, because it would take over two billion wins.
- Java's `%` truncates while Dafny's is Euclidean. Only `% 2 == 0` is tested, which agrees for negative values too, and on a permutation the sum is a count and never negative.
- The shuffle takes exactly N-1 valid draws. The randomize loop's iteration count is fixed by the board size, so this is what the source supplies rather than a restriction.
