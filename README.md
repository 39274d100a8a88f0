# Connect-Four engine

This project models the engine of a console Connect-Four game in which a human (`X`) plays against the computer (`O`) on a 6x7 board. The computer chooses its moves by bounded minimax over a positional heuristic. The model covers these parts of `connect4/Connect4.java`:

- **Board.** The board is a 6x7 array of cells (row 0 at the top). The class `Engine.Connect4` holds it together with the side flag `player`.
  - `fillBoard` empties the board.
  - `placePiece` drops a piece into the live board; `placeTmpPiece` drops one into a given array.
  - `copyArray` duplicates an array.
  - `filledColumnCheck` tests the top cell of a column of the live board.
- **Win detection.** The `checkFor*` scanners look at 4-cell windows: horizontal, vertical, up-right and up-left.
- **Run counters.** The `count*` methods count runs of two or three pieces. `countMiddle` totals a centre bonus.
- **Search.** This part holds `heuristic`, `getPossibleStates`, the recursive `minimax`, and the move-selection loop of `play`.

The project has four modules, one per file:

- `Board` (board.dfy) has the cell type, the `Grid` value (a 6x7 sequence of rows) and the drop of a piece into a column.
- `Lines` (lines.dfy) defines what the scanners and counters look for:
  - four in a row in each direction;
  - the windows each counting loop examines, with the loop bounds exactly as written;
  - the counts those windows add up to;
  - the centre bonus.
- `Search` (search.dfy) defines what the heuristic, the move generator, minimax and the root choice compute, as functions of grids.
- `Engine` (engine.dfy) is the class itself. Its invariant `Valid()` says the live board is 6x7 with no floating pieces. The constructor establishes the invariant and `placePiece`, the only other writer of the live board, keeps it. Every method keeps the Java loops and labelled breaks. Each is proved equal to its specification over the grid the array holds (`GridOf`).

The model follows the code where the program's own description of it differs:

- **Fullness comes from the live board.** The move generator asks whether a column is full on the live board (`filledColumnCheck` reads the field `board`), not on the board being searched. So deep in the search a column that is full on the searched board still yields a state. That state is the searched board unchanged (`Search.FullSearchedColumnYieldsSameGrid`).
- **The minimizing loop does not skip absent children.** `minimax` of an absent child is `Integer.MIN_VALUE`, so any absent child forces the minimizing value to `MIN_VALUE`. Because fullness is read from the live board, a full column on the live board gives every minimizing node below the root an absent child. So once any live column is full and the depth is at least 1, every root score is `MIN_VALUE` (`Search.RootAllMin`). The root loop then picks column 0, even when the computer could win at once. If column 0 is itself full, `placePiece` then places nothing. The lemma assumes that none of the computer's moves leaves the human with four in a row, since such a move ends the search at that state.
- **Some windows are never examined.** The counting loops do not examine every in-bounds window:
  - horizontal and up-right runs never use column 6;
  - up-left runs never use column 0;
  - vertical runs never use row 0.

  `Lines.Examined` states these bounds, and `Lines.CountsIgnoreBlindCells` proves that those cells never matter.
- **The heuristic and the centre bonus ignore their side arguments.** `heuristic` ignores `maximizingPlayer` and scores from the field `player`. `countMiddle` ignores its `player` argument and always looks for `O`.

## Model

| member | source | states |
|---|---|---|
| Board.Piece | connect4/Connect4.java:562-566 | the piece written for a side is never empty, and it is `O` exactly for the computer |
| Board.EmptyGrid | connect4/Connect4.java:605-609 | every cell of the starting board is empty |
| Board.DropRow | connect4/Connect4.java:560-561 | the scan up a column from row r stops at a row between -1 and r |
| Board.DropFromRow | connect4/Connect4.java:560-570 | scanning up from row r writes the piece into the cell DropRow finds; if there is none, the board is unchanged |
| Board.DropRowLowestEmpty | connect4/Connect4.java:560-561 | DropRow returns -1 exactly when rows 0..r of the column are all occupied; otherwise it returns an empty cell with only occupied cells between it and row r |
| Board.DropPlacesLowest | connect4/Connect4.java:559-586 | a drop writes the piece into the lowest empty cell of the column and changes no other cell; a column without an empty cell is left as it was |
| Board.FullTopMeansNoDrop | connect4/Connect4.java:551-556 | on a board without floating pieces, the top cell is occupied exactly when a drop finds no empty cell, so the fullness test agrees with the drop |
| Board.ColumnFullFrom | connect4/Connect4.java:551-556 | on a board without floating pieces, every cell below an occupied cell is occupied |
| Board.EmptyGridSettled | connect4/Connect4.java:605-609 | the starting board has no floating pieces |
| Board.FullColumnTop | connect4/Connect4.java:551-556 | on a board without floating pieces, the top cell of a column is occupied exactly when every cell of the column is |
| Board.DropKeepsSettled | connect4/Connect4.java:559-586 | dropping a piece never leaves a floating piece |
| Lines.FourOnBoard | connect4/Connect4.java:226-383 | a window of four of a side's pieces lies wholly on the board |
| Lines.RunPrefixAll | connect4/Connect4.java:226-383 | a run prefix of length m means each of the first m cells of the line holds the side's piece |
| Lines.RunStep | connect4/Connect4.java:397-417 | one step of a counting loop: after the step, the count equals the number of cells seen exactly when every cell seen so far matched |
| Lines.RowHitsAtMost | connect4/Connect4.java:470-527 | a row adds at most one run per anchor column |
| Lines.RowsAtMost | connect4/Connect4.java:425-531 | the vertical and diagonal counts are at most the number of anchors, 42 |
| Lines.RowsWithHitAtMost | connect4/Connect4.java:387-422 | countHorizontal adds at most one per row, so its result lies in [0, 6] |
| Lines.InARowCountAtMost | connect4/Connect4.java:544-548 | countInARow returns at most 132 |
| Lines.NoHitsBetween | connect4/Connect4.java:470-473 | anchor columns where the loop breaks out add no runs to the row |
| Lines.NoRowsBetween | connect4/Connect4.java:427-428 | rows that countVertical skips with `break` add no runs |
| Lines.SameHitsSameRows | connect4/Connect4.java:425-531 | two boards with the same runs give the same vertical and diagonal counts |
| Lines.SameHitsSameRowsWithHit | connect4/Connect4.java:387-422 | two boards with the same runs give the same horizontal count |
| Lines.SameHitsSameRowHasHit | connect4/Connect4.java:387-422 | two boards with the same runs have a run in the same rows |
| Lines.SameHitsSameRow | connect4/Connect4.java:429-527 | two boards with the same runs give the same count for each row |
| Lines.CountsIgnoreBlindCells | connect4/Connect4.java:387-531 | two boards that differ only in cells the loops never examine get the same counts |
| Lines.EmptyGridHasNoRuns | connect4/Connect4.java:226-548 | on the starting board neither side has four in a row, and every count is zero |
| Lines.NoRowsWithHit | connect4/Connect4.java:387-422 | a board without runs has a horizontal count of zero |
| Lines.MiddleScoreAtMost | connect4/Connect4.java:178-196 | the centre bonus is at most 128 |
| Lines.MiddleScoreLocal | connect4/Connect4.java:178-196 | the centre bonus depends only on which cells of rows 3..5 and columns 2..4 hold `O` |
| Lines.MiddleColsLocal | connect4/Connect4.java:181-193 | each row's part of the centre bonus depends only on those cells |
| Search.Max | connect4/Connect4.java:124 | Math.max is an upper bound of both arguments and equals one of them |
| Search.Min | connect4/Connect4.java:134 | Math.min is a lower bound of both arguments and equals one of them |
| Search.HeuristicCases | connect4/Connect4.java:142-174 | the heuristic is MAX_VALUE exactly when `player` has four in a row; it is MIN_VALUE exactly when only the other side has; otherwise it lies in [-14520, 165000] |
| Search.RunScoreRange | connect4/Connect4.java:153-173 | with each count at most 132 and the centre bonus at most 128, the score lies in [-14520, 165000] |
| Search.PossibleStates | connect4/Connect4.java:199-212 | definition of the generator's result over grids (its ensures says only that it has seven entries); what the generator promises is stated by `Engine.Connect4.GetPossibleStates` |
| Search.FullSearchedColumnYieldsSameGrid | connect4/Connect4.java:203-210 | a column open on the live board but full on the searched board yields the searched board unchanged |
| Search.MinimaxValue | connect4/Connect4.java:103-138 | minimax lies between MIN_VALUE and MAX_VALUE |
| Search.MaxChildren | connect4/Connect4.java:119-127 | the maximizing loop's value lies between MIN_VALUE and MAX_VALUE |
| Search.MinChildren | connect4/Connect4.java:130-136 | the minimizing loop's value lies between MIN_VALUE and MAX_VALUE |
| Search.MaxChildrenIsMax | connect4/Connect4.java:119-127 | the maximizing loop returns the largest score of a present child, or MIN_VALUE when no child is present |
| Search.MinChildrenIsMin | connect4/Connect4.java:130-136 | the minimizing loop returns the smallest score of all children; one absent child forces MIN_VALUE |
| Search.MinimaxNode | connect4/Connect4.java:103-138 | an absent state scores MIN_VALUE; depth 0 or a win for the side being evaluated scores the heuristic; otherwise the node scores the max of its present children, or the min of all its children |
| Search.FirstBestIsFirstMax | connect4/Connect4.java:68-77 | the root loop keeps the first strictly greatest score and its column; it keeps column 0 when no score exceeds MIN_VALUE |
| Search.RootScores | connect4/Connect4.java:71-72 | definition of the seven scores the root loop compares (its ensures says only that there are seven); what the loop does with them is stated by `Engine.Connect4.ChooseAIMove` |
| Search.RootAllMin | connect4/Connect4.java:68-77 | once the live board has a full column and depth >= 1, every root score is MIN_VALUE and the root loop picks column 0, provided no move of `player` leaves the other side with four in a row |
| Engine.Connect4.constructor | connect4/Connect4.java:18-24 | a new game has an empty board, free of floating pieces, and the human to move |
| Engine.Connect4.FillBoard | connect4/Connect4.java:605-609 | every cell of the live board becomes empty, so the board has no floating pieces |
| Engine.Connect4.FilledColumnCheck | connect4/Connect4.java:551-556 | true exactly when the live board's top cell of the column is occupied, which on the live board is exactly when the column has no empty cell |
| Engine.Connect4.PlacePiece | connect4/Connect4.java:559-571 | the live board becomes the drop of the piece into the column and keeps no floating pieces |
| Engine.Connect4.PlaceTmpPiece | connect4/Connect4.java:574-586 | the given array becomes the drop of the piece into the column and is returned |
| Engine.Connect4.CopyArray | connect4/Connect4.java:215-223 | a fresh 6x7 array holding the same cells |
| Engine.Connect4.PossibleState | connect4/Connect4.java:204-209 | one iteration of the generator: null when the live column is full, otherwise a fresh copy with the piece dropped |
| Engine.Connect4.GetPossibleStates | connect4/Connect4.java:199-212 | seven entries: entry k is null exactly when the live top cell of column k is occupied, otherwise a fresh array with the drop into column k; the entries are distinct and the input array is not modified |
| Engine.Connect4.CheckForHorizontal | connect4/Connect4.java:226-261 | true exactly when the side has four in a row horizontally |
| Engine.Connect4.CheckForVertical | connect4/Connect4.java:264-299 | true exactly when the side has four in a row vertically |
| Engine.Connect4.CheckForDiagonal | connect4/Connect4.java:302-307 | true exactly when the side has four in a row on either diagonal |
| Engine.Connect4.CheckForDiagonalRight | connect4/Connect4.java:310-345 | true exactly when the side has four in a row up and to the right |
| Engine.Connect4.CheckForDiagonalLeft | connect4/Connect4.java:348-383 | true exactly when the side has four in a row up and to the left |
| Engine.Connect4.CheckForWin | connect4/Connect4.java:535-541 | true exactly when the side has four in a row in some direction |
| Engine.Connect4.HorizontalRunAt | connect4/Connect4.java:396-417 | the inner loop reaches inARow exactly when the examined window at (i, j) holds inARow of the side's pieces |
| Engine.Connect4.CountHorizontal | connect4/Connect4.java:387-422 | the number of rows holding an examined horizontal run |
| Engine.Connect4.VerticalRunAt | connect4/Connect4.java:431-449 | the inner loop reaches inARow exactly when the examined vertical window at (i, j) is all the side's pieces |
| Engine.Connect4.VerticalRow | connect4/Connect4.java:429-450 | the number of examined vertical runs anchored in row i |
| Engine.Connect4.CountVertical | connect4/Connect4.java:425-453 | the number of examined vertical runs, overlapping runs counted separately |
| Engine.Connect4.CountDiagonal | connect4/Connect4.java:456-461 | the up-right count plus the up-left count |
| Engine.Connect4.DiagonalRightRunAt | connect4/Connect4.java:474-491 | the inner loop, which reads row `i - count`, reaches inARow exactly when the examined up-right window is all the side's pieces |
| Engine.Connect4.DiagonalRightRow | connect4/Connect4.java:470-492 | the number of examined up-right runs anchored in row i |
| Engine.Connect4.CountDiagonalRight | connect4/Connect4.java:464-496 | the number of examined up-right runs, overlapping runs counted separately |
| Engine.Connect4.DiagonalLeftRunAt | connect4/Connect4.java:509-526 | the inner loop, which reads row `i - count`, reaches inARow exactly when the examined up-left window is all the side's pieces |
| Engine.Connect4.DiagonalLeftRow | connect4/Connect4.java:505-527 | the number of examined up-left runs anchored in row i |
| Engine.Connect4.CountDiagonalLeft | connect4/Connect4.java:499-531 | the number of examined up-left runs, overlapping runs counted separately |
| Engine.Connect4.CountInARow | connect4/Connect4.java:544-548 | the sum of the four directional counts |
| Engine.Connect4.CountMiddle | connect4/Connect4.java:178-196 | the centre bonus of the board's `O` cells |
| Engine.Connect4.Heuristic | connect4/Connect4.java:142-174 | the heuristic value of the board for the field `player` |
| Engine.Connect4.Minimax | connect4/Connect4.java:103-138 | the minimax value of the state for the live board, the field `player`, the depth and the side to move |
| Engine.Connect4.MaxOverChildren | connect4/Connect4.java:119-127 | the maximizing loop returns the max over the present children, each searched with maximizing false |
| Engine.Connect4.MinOverChildren | connect4/Connect4.java:130-136 | the minimizing loop returns the min over all children, each searched with maximizing true |
| Engine.Connect4.ChooseAIMove | connect4/Connect4.java:62-77 | the chosen column lies in [0, 6]; it is 0 when no score exceeds MIN_VALUE; otherwise its score is the greatest and no earlier column has that score |

## Left out

- The console part of `play` is input and output and is not modelled. That covers the prompts, reading the human's column, rejecting bad columns and re-entering `play`, switching turns, and announcing the winner. `ChooseAIMove` models only the computer's move selection (lines 62-77); it leaves the board unchanged, and `placePiece` is modelled separately. `printBoard`, the `System.out.println()` inside `placePiece`, the constructor's calls to `printBoard` and `play`, and `main` only print or bootstrap.
- Java `int` overflow is not modelled. Every heuristic term is a small bounded count, so the heuristic lies in [-14520, 165000] away from the two extreme constants (`Search.HeuristicCases`).
- Engine.Connect4.Minimax: requires depth >= 0. With a negative depth the Java recursion never reaches depth 0 and may recurse without bound.
- Engine.Connect4.Minimax: takes the live board and the searched board's grid as extra ghost parameters, so that its contract can name them. They do not appear in the Java signature.
- Engine.Connect4.FilledColumnCheck: requires a column in [0, 6]. Java throws an array-index exception otherwise. The engine's own callers, `getPossibleStates` (line 205) and the root loop, pass only 0..6. The console shell can pass a bad column: after rejecting it, `play` calls itself, and when that nested call returns it goes on to `filledColumnCheck` and `placePiece` with the rejected column (lines 40-48). That path belongs to the shell and is left out. `PlacePiece`, `PlaceTmpPiece` and `PossibleState` have the same precondition.
- Some loops of the Java are separate methods in the model:
  - the innermost loop of each counter (the `*RunAt` members);
  - the column loop of the vertical and diagonal counters (the `*Row` members);
  - the two child loops of `minimax` (`MaxOverChildren` and `MinOverChildren`);
  - one iteration of the `getPossibleStates` loop (`PossibleState`).

  `countHorizontal` keeps its row and column loops inline. The statements and their order are those of the Java.
- `ArrayList` becomes a sequence grown by appending, and the cell strings `" "`, `"X"` and `"O"` become the datatype `Cell`.
- In `countHorizontal`, `j += inARow` runs just before the `break outerloop` that leaves the row. The model keeps it, but it has no effect on the result.
- The model fixes the board at 6x7, as the Java does. Lengths the Java reads from `board.length` are the constants 6 and 7.
