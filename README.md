# Connect Four engine and automated players, in Dafny

This project models the game engine of a Python Connect Four program and
three of its automated players, and proves what they compute.

- **Board engine** (`utils.py`, module `Utils` in `utils.dfy`). A board is a
  rows × cols grid of integers: 0 is an empty cell, and 1 or 2 is a disc of
  player one or two. Row 0 is the bottom row. The module covers the next
  available row of each column, the valid moves, the validity of a move,
  four-in-a-row detection, the game-over decision, the in-place drop of a
  disc into a 2-D array, the linear index of a cell, and the dimension check
  on the command-line arguments.
- **Minimax player** (`players/minimax.py`). The module `MinimaxTree` in
  `minimax_tree.dfy` holds:
  - the window heuristic (`evaluate_window`, `cost`);
  - the copied-board move simulation (`simulate_move`);
  - `Search`, the unpruned depth-limited minimax of the same tree.

  The module `MinimaxPlayer` in `minimax_player.dfy` holds the pruned
  alpha-beta search itself and `get_computer_move`. They are proved against
  `Search`: the pruned value agrees with the unpruned one in the alpha-beta
  sense, so at the root window (-inf, +inf) the pruned search plays exactly
  the unpruned search's move.
- **Middle-mike** (`players/middle-mike.py`, module `MiddleMike`). It plays a
  valid column closest to the middle. When two columns are equally close, a
  random draw picks one.
- **Lefty-lucy** (`players/lefty-lucy.py`, module `LeftyLucy`). It plays the
  leftmost valid column.

`wrappers.dfy` holds the `Option` and `Outcome` datatypes. The players'
`get_computer_move` raises an exception on a full or finished board. Each of
those error paths is modelled as `None`. `Fail` is used only by `check_args`,
for the exception it raises on a bad row or column count.

Where the code and its comments or its design description disagree, the
model follows the code:

- The first scan of `is_winner` (utils.py:176-182) is commented "vertically"
  but checks four in a row along a row, and the second scan is the other
  way round.
- `is_gameover` reports a full board as a tie before it looks for a winner
  (utils.py:123-125). A full board that holds four in a row is therefore a
  tie.
- `evaluate_window` scores the opponent's discs positively (+1e10, 10, 5) and
  `player`'s own negatively (-1e10, -15). It does not score the player's own
  two-disc windows at all.
- `cost` is called with the side to move at the leaf, and it scores only
  horizontal and vertical windows, never diagonal ones
  (players/minimax.py:64-73).
- The cutoffs are strict (`value > beta`, `value < alpha`), and alpha (or
  beta) is raised only after the cutoff test. This is not the textbook
  `alpha >= beta` test. The proved property (`MinimaxTree.Window`) is the one
  this variant satisfies: inside the window, bounds included, the value is
  exact.

## Model

| member | source | states |
|---|---|---|
| Utils.CheckArgs | utils.py:36-39 | the arguments pass iff both rows and cols are present and at least 4; a failure names the rows when the rows are missing or below 4, otherwise the columns |
| Utils.FirstEmptyFrom | utils.py:83-84 | the result is the lowest row at or above `r` whose cell in the column is 0, or -1 exactly when no such row exists |
| Utils.NextRow | utils.py:83-84 | the next available row of a column is the smallest row holding 0, and -1 iff the column has no 0 |
| Utils.ValidMovesBelow | utils.py:100-101 | the columns below `n` whose next row is at least 0, all of them, strictly ascending |
| Utils.ValidMoves | utils.py:100-101 | a column is a valid move iff it lies in the board and its next row is at least 0; the list is strictly ascending, so it has no duplicates |
| Utils.NoValidMovesIffFull | utils.py:100-101 | there are no valid moves iff no cell of the board is 0 |
| Utils.IsValid | utils.py:156-157 | for an in-range column, valid iff the column is among the valid moves, iff some cell of the column is 0 |
| Utils.IsWinner | utils.py:174-209 | the four nested scans return true iff some cell starts a run of four `p` discs along a row, a column, the up-right diagonal or the down-right anti-diagonal; every index read lies inside the grid whatever its shape |
| Utils.GameOutcome | utils.py:123-136 | when the game is not over, a valid move exists |
| Utils.GameOutcomeCases | utils.py:123-136 | gameover iff winner is not -1; winner 0 iff the board is full, even with four in a row; winner 1 iff not full and player 1 has four; winner 2 iff not full, player 1 has none and player 2 has four |
| Utils.IsGameover | utils.py:123-136 | the method returns exactly the ordered decision `GameOutcome` |
| Utils.DropRow | utils.py:57-66 | the row `drop` writes lies in the board; on a valid column it is the lowest empty cell of the column, and on a full column it is the top row, where numpy puts row index -1 |
| Utils.SetCell | utils.py:66 | the new board has the same shape, cell (r, c) holds `v` and every other cell is unchanged |
| Utils.Drop | utils.py:57-66 | the array afterwards is the old board with `player + 1` written at the column's next available row (the top row on a full column, where the row index is -1) and every other cell unchanged |
| Utils.DropKeepsGravity | utils.py:57-66 | on a valid column, a board without floating discs keeps that property after the drop: the disc lands on top of the column's discs |
| Utils.Sub2Ind | utils.py:357 | for a non-negative row and a column inside the row, the linear index is non-negative and dividing it by ncols gives back the row and the column |
| Utils.DivModOfRowMajor | utils.py:357 | dividing q·n + m by n, with 0 ≤ m < n, gives quotient q and remainder m |
| Utils.Sub2IndRoundTrip | utils.py:357 | for in-range subscripts the index lies in [0, nrows·ncols), and dividing by ncols recovers the row and the column |
| Utils.Sub2IndInjective | utils.py:357 | two in-range subscript pairs share an index only if they are equal |
| MinimaxTree.Max | players/minimax.py:47 | `max(alpha, value)` is at least both arguments and is one of them |
| MinimaxTree.Min | players/minimax.py:60 | `min(beta, value)` is at most both arguments and is one of them |
| MinimaxTree.Count | players/minimax.py:78 | a count of cells never exceeds the window's length |
| MinimaxTree.CountIsMultiplicity | players/minimax.py:78 | `window.count(x)` is the number of times x occurs in the window, its multiplicity |
| MinimaxTree.EvaluateWindow | players/minimax.py:76-89 | first matching case wins: opponent count 4, 3, 2 scores 1e10, 10, 5; otherwise own count 4, 3 scores -1e10, -15; otherwise 0 |
| MinimaxTree.RowWindow | players/minimax.py:68 | `board[r][c:c+4]` has four cells, the cells of row r from column c rightwards |
| MinimaxTree.ColumnWindow | players/minimax.py:71 | `board[:, c][r:r+4]` has four cells, the cells of column c from row r upwards |
| MinimaxTree.RowWindows | players/minimax.py:66-68 | a row has cols - 3 horizontal windows, none when cols ≤ 3 |
| MinimaxTree.ColumnWindows | players/minimax.py:69-71 | a column has rows - 3 vertical windows, none when rows ≤ 3 |
| MinimaxTree.ScoreSumSnoc | players/minimax.py:68 | adding one window to the list adds its score to the sum |
| MinimaxTree.ScoreSumAppend | players/minimax.py:64-73 | the sum over two lists of windows is the sum of their sums |
| MinimaxTree.Cost | players/minimax.py:64-73 | the loops return the sum of `evaluate_window` over every window, row windows first, then column windows |
| MinimaxTree.AddRowWindows | players/minimax.py:66-68 | the first loop nest adds the scores of the horizontal windows of every row |
| MinimaxTree.AddRowLine | players/minimax.py:67-68 | the inner loop adds the scores of the horizontal windows of one row |
| MinimaxTree.AddColumnWindows | players/minimax.py:69-71 | the second loop nest adds the scores of the vertical windows of every column |
| MinimaxTree.AddColumnLine | players/minimax.py:70-71 | the inner loop adds the scores of the vertical windows of one column |
| MinimaxTree.WindowsCount | players/minimax.py:64-73 | `cost` scores exactly rows·(cols-3) horizontal and cols·(rows-3) vertical windows (none along a dimension below 4) |
| MinimaxTree.RowWindowsBelowStep | players/minimax.py:66-68 | one more pass of the outer row loop appends that row's windows to those scored so far |
| MinimaxTree.ColumnWindowsBelowStep | players/minimax.py:69-71 | one more pass of the outer column loop appends that column's windows to those scored so far |
| MinimaxTree.ConcatLength | players/minimax.py:66-71 | a nested loop over lines of m items each visits (number of lines)·m items |
| MinimaxTree.ConcatMembers | players/minimax.py:66-71 | a nested loop over lines visits an item iff the item is in one of the lines |
| MinimaxTree.RowWindowsBelowCount | players/minimax.py:66-68 | the rows below `n` contribute n·(cols-3) windows |
| MinimaxTree.ColumnWindowsBelowCount | players/minimax.py:69-71 | the columns left of `n` contribute n·(rows-3) windows |
| MinimaxTree.RowLineMembers | players/minimax.py:67-68 | the windows of a row are exactly its four-cell horizontal runs |
| MinimaxTree.ColumnLineMembers | players/minimax.py:70-71 | the windows of a column are exactly its four-cell vertical runs |
| MinimaxTree.RowWindowsBelowMembers | players/minimax.py:66-68 | the horizontal windows scored are exactly the four-cell runs starting in the rows below `n` |
| MinimaxTree.ColumnWindowsBelowMembers | players/minimax.py:69-71 | the vertical windows scored are exactly the four-cell runs starting in the columns left of `n` |
| MinimaxTree.WindowsAreLines | players/minimax.py:64-73 | a list of four values is among the scored windows iff it equals the contents of some horizontal or some vertical run of four cells; diagonal runs are not scored |
| MinimaxTree.ColumnArgMin | players/minimax.py:95 | `np.argmin` of the column is a row holding its least value, and every lower row holds a strictly greater one |
| MinimaxTree.Simulate | players/minimax.py:93-96 | the copy keeps the board's shape |
| MinimaxTree.SimulateWritesOneCell | players/minimax.py:93-96 | the copy has `player` in the argmin cell of the column and every other cell as before |
| MinimaxTree.SimulateIsDrop | players/minimax.py:93-96 | on a non-full column without negative cells, the simulated move is the drop at the next available row |
| MinimaxTree.ValidMovesInColumns | utils.py:100-101 | every valid move names a column, and a board with a valid move has rows |
| MinimaxTree.ChildValues | players/minimax.py:39-41 | there is one child value per move |
| MinimaxTree.BestOf | players/minimax.py:37-57 | the scan from ±inf with no move holds a move among those scanned and a finite value once one child is scanned |
| MinimaxTree.BestOfIsFirstBest | players/minimax.py:42-57 | the scan ends on a move whose value no scanned move beats and which strictly beats every earlier move |
| MinimaxTree.BestOfIsLowestBest | players/minimax.py:42-57 | over ascending moves, the scan's move has the best value, and it is strictly better than that of every lower column |
| MinimaxTree.BestOfMaxStep | players/minimax.py:42-44 | a player-1 scan takes the next child exactly when its value is strictly greater than the best so far |
| MinimaxTree.BestOfMinStep | players/minimax.py:55-57 | a minimising scan takes the next child exactly when its value is strictly smaller than the best so far |
| MinimaxTree.BestOfBeatsAll | players/minimax.py:42-57 | no scanned child's value is preferred to the scan's value |
| MinimaxTree.MaxStep | players/minimax.py:40-47 | one child of a maximising node keeps the pruned and unpruned running values in step; when the cutoff fires, the child's true value lies above beta |
| MinimaxTree.MinStep | players/minimax.py:53-60 | the mirror image for a minimising node |
| MinimaxTree.MaxExit | players/minimax.py:39-48 | a maximising node that scanned every child returns a value that agrees with the unpruned value within the window |
| MinimaxTree.MaxCutoff | players/minimax.py:45-46 | a maximising node cut off above beta returns a lower bound above beta of its unpruned value |
| MinimaxTree.MinExit | players/minimax.py:52-61 | the mirror image of `MaxExit` |
| MinimaxTree.MinCutoff | players/minimax.py:58-59 | the mirror image of `MaxCutoff` |
| MinimaxTree.SearchShape | players/minimax.py:28-61 | the unpruned search returns a move iff plies are left and the game is not over, that move is a valid move, and without a move the value is `cost` of the board |
| MinimaxTree.ChildValueAt | players/minimax.py:40-54 | the i-th child value is the unpruned search of the board after the i-th move, with the other player to move and one ply less |
| MinimaxTree.SearchUnfold | players/minimax.py:30-34 | with plies left on a game that is not over, there are valid moves and the search is an inner node one ply less deep |
| MinimaxTree.NodeIsScan | players/minimax.py:34-61 | an inner node's move and value are those of the scan over its children's values, and its valid moves name columns of a board with rows |
| MinimaxTree.ChildValuesAreSearches | players/minimax.py:40-54 | each child value is the search of the child its move reaches |
| MinimaxTree.NodePicksFirstBest | players/minimax.py:34-61 | an inner node plays a valid move whose child value is best for the side to move and strictly better than that of every lower column, and that value is the node's value |
| MinimaxPlayer.Minimax | players/minimax.py:28-61 | the pruned value is exact inside (alpha, beta) bounds included, and stays on the same side as the unpruned value outside it; inside the window the move is the unpruned move; a move is returned iff depth > 0 and the game is not over, and it is a valid move; at a leaf the value is `cost` of the board |
| MinimaxPlayer.ChildSearch | players/minimax.py:40-41 | the searched child's pruned value relates to its unpruned value as `Window` says |
| MinimaxPlayer.MaxChildren | players/minimax.py:36-48 | the player-1 loop returns a finite value related to the unpruned scan as `Window` says, and its move is valid; inside the window it is the unpruned move |
| MinimaxPlayer.MinChildren | players/minimax.py:49-61 | the mirror image for the minimising loop |
| MinimaxPlayer.GetComputerMove | players/minimax.py:21-25 | searching three plies as player which_player+1 from (-inf, +inf), a move exists iff the game is not over; it lies in 1..cols and names a valid column, and it is exactly the unpruned search's best move plus one |
| MiddleMike.TwiceIdeal | players/middle-mike.py:30-33 | both parity branches put twice the ideal column at cols - 1, so the ideal column is the middle of columns 0 to cols - 1 |
| MiddleMike.DistanceFromMiddle | players/middle-mike.py:34 | doubled `abs(c - ideal)` is twice how far column c lies from the middle, on either side, and it is 0 exactly at the middle |
| MiddleMike.MinDistanceIsLeast | players/middle-mike.py:34-35 | `np.min(distance)` is the distance of some valid move and at most the distance of every one |
| MiddleMike.AtDistance | players/middle-mike.py:35 | the comprehension keeps only valid moves, in ascending order |
| MiddleMike.AtDistanceMembers | players/middle-mike.py:35 | the comprehension keeps exactly the moves at that distance |
| MiddleMike.Options | players/middle-mike.py:26-35 | there are options iff there are valid moves; every option is a valid move; options ascend |
| MiddleMike.OptionsAreClosest | players/middle-mike.py:34-35 | a column is an option iff it is a valid move and no valid move is closer to the middle |
| MiddleMike.OptionIsValid | players/middle-mike.py:35-38 | every option is an in-range column that is not full, so the board is not full |
| MiddleMike.SameDistanceSymmetric | players/middle-mike.py:30-34 | two different columns equally far from the middle sum to cols - 1 |
| MiddleMike.NoThreeEquidistant | players/middle-mike.py:30-34 | no three different columns are equally far from the middle |
| MiddleMike.AtMostTwoOptions | players/middle-mike.py:33-35 | there are at most two options, and two different ones sum to cols - 1 |
| MiddleMike.ZeroDistanceIsCentre | players/middle-mike.py:30-34 | with an odd number of columns, only the centre column is at distance 0 from the middle |
| MiddleMike.CentreIsOnlyOption | players/middle-mike.py:30-35 | with odd cols and the centre column not full, the centre is the only option |
| MiddleMike.GetComputerMove | players/middle-mike.py:26-40 | there is no move iff the board is full; otherwise the move lies in 1..cols, and the move minus one is an option and a valid column |
| MiddleMike.PlaysCentre | players/middle-mike.py:30-40 | with odd cols and the centre column not full, the move is cols//2 + 1 whatever the draw |
| LeftyLucy.GetComputerMove | players/lefty-lucy.py:22-23 | there is no move iff the board is full; otherwise the move lies in 1..cols, names a valid column, and every column left of it is full |

## Left out

- The graphics of `drop` (utils.py:61-63), and `setup`, `reset` and `status`, together with the colour and geometry constants. These are calls into a graphics library.
- `get_version` and `load_players` are not modelled. They run `git` in a subprocess and import modules at run time.
- `utils.test`, `test2.py` and all of `connect4.py`: argument parsing, board files, the keyboard-driven turn loop, sleeps and the exception handler that skips a turn. These are I/O and orchestration.
- `players/randy.py` is not modelled. It is one `random.choice` over the valid moves.
- The `print` of the chosen score in players/minimax.py:24. It is output only.
- Python floats. Every score is an exact integer, so scores are `int`. The infinite alpha and beta bounds and starting values are the `NegInf` and `PosInf` cases of `MinimaxTree.Bound`.
- Out-of-range columns. `Utils.IsValid` and `Utils.Drop` take 0 ≤ col < cols. A negative column wraps around in numpy. A column ≥ cols makes `rows[col]` raise `IndexError` (utils.py:58, utils.py:157). The game loop would pass such a column to `is_valid` (connect4.py:143) and swallow the error in its bare `except` (connect4.py:149), but `play` as written raises before that loop: connect4.py:71 indexes the `(players, ai)` tuple with `'name'`, and connect4.py:89 passes the board as `rows` to `setup`.
- A board with no rows has width 0 here. numpy would keep its column count. No code path reaches such a board: a board file with no rows loads as a 1-D array, and `board.shape[1]` (connect4.py:81) raises. The Python functions accept boards with 1 to 3 rows or columns, and the model covers them: they have no windows along the short dimension, and no four in a row along it.
- Utils.NextRow: the `invalid` parameter of `get_next_available_rows` (utils.py:68) is fixed at its default, -1. No caller passes another value.
- Utils.CheckArgs: the rows or cols argument being present but not a number is not modelled. An absent argument is `None`.
- MiddleMike.GetComputerMove: the random draw is the parameter `pick`, an index into the option list. On a full board the option list is empty, and `random.choice` of an empty list raises. That error is `None`. The argument `which_player` is ignored, as it is in players/middle-mike.py.
- LeftyLucy.GetComputerMove: indexing the empty move list of a full board raises `IndexError`. That error is `None`. The argument `which_player` is ignored, as it is in players/lefty-lucy.py.
- MinimaxPlayer.GetComputerMove: on a finished game `minimax` returns no move, and `None + 1` raises `TypeError`. That error is `None`. The score that players/minimax.py:24 prints is dropped.
- Aliasing of numpy arrays in `simulate_move`. It copies the board before writing, so the model passes boards as values. Only `drop` writes in place, on an `array2`.
