/** The Connect Four board engine of utils.py.

    A board is a rows × cols grid of integers, 0 for an empty cell and 1 or 2
    for a disc of player one or two. Row 0 is the bottom row, so a disc
    dropped into a column lands in the lowest row that still holds 0. */
module Utils {
  import opened Wrappers

  type Board = seq<seq<int>>

  /** The number of columns, `board.shape[1]`. */
  function Width(b: Board): nat {
    if |b| == 0 then 0 else |b[0]|
  }

  /** Every row has the same length: the board is a proper 2-D array. */
  predicate Rectangular(b: Board) {
    forall r :: 0 <= r < |b| ==> |b[r]| == Width(b)
  }

  /** No cell is empty. */
  ghost predicate Full(b: Board)
    requires Rectangular(b)
  {
    forall r, c :: 0 <= r < |b| && 0 <= c < Width(b) ==> b[r][c] != 0
  }

  /** Discs rest on discs: a non-empty cell has only non-empty cells below it. */
  ghost predicate Gravity(b: Board)
    requires Rectangular(b)
  {
    forall r, c :: 0 <= r < |b| && 0 <= c < Width(b) && b[r][c] != 0 ==>
      forall k :: 0 <= k < r ==> b[k][c] != 0
  }

  // ---------------------------------------------------------------- check_args

  const RowsMessage := "The number of rows must be at least 4. Check inputs."
  const ColsMessage := "The number of columns must be at least 4. Check inputs."

  /** The dimension check on the parsed arguments; a missing argument is `None`.
      The rows are checked before the columns. */
  function CheckArgs(rows: Option<int>, cols: Option<int>): (r: Outcome<string>)
    ensures r.Pass? <==> rows.Some? && rows.value >= 4 && cols.Some? && cols.value >= 4
    ensures r.Fail? ==> (r.error == RowsMessage <==> rows.None? || rows.value < 4)
    ensures r.Fail? ==> r.error in {RowsMessage, ColsMessage}
  {
    if rows.None? || rows.value < 4 then Fail(RowsMessage)
    else if cols.None? || cols.value < 4 then Fail(ColsMessage)
    else Pass
  }

  // ---------------------------------------------------- get_next_available_rows

  /** The lowest row at or above `r` whose cell in column `c` is empty, or -1. */
  function FirstEmptyFrom(b: Board, c: nat, r: nat): (k: int)
    requires Rectangular(b) && c < Width(b) && r <= |b|
    ensures k == -1 || r <= k < |b|
    ensures k == -1 <==> forall i {:trigger b[i][c]} :: r <= i < |b| ==> b[i][c] != 0
    ensures k != -1 ==> b[k][c] == 0 && forall i {:trigger b[i][c]} :: r <= i < k ==> b[i][c] != 0
    decreases |b| - r
  {
    if r == |b| then -1
    else if b[r][c] == 0 then r
    else FirstEmptyFrom(b, c, r + 1)
  }

  /** Entry `c` of `get_next_available_rows`: numpy's `argmax` of the column's
      empty-cell mask (its first True) when the mask has a True, else -1. */
  function NextRow(b: Board, c: nat): (k: int)
    requires Rectangular(b) && c < Width(b)
    ensures -1 <= k < |b|
    ensures k == -1 <==> forall i {:trigger b[i][c]} :: 0 <= i < |b| ==> b[i][c] != 0
    ensures k >= 0 ==> b[k][c] == 0 && forall i {:trigger b[i][c]} :: 0 <= i < k ==> b[i][c] != 0
  {
    FirstEmptyFrom(b, c, 0)
  }

  // ----------------------------------------------------------- get_valid_moves

  /** The columns below `n` that are not full, in ascending order. */
  function ValidMovesBelow(b: Board, n: nat): (cols: seq<int>)
    requires Rectangular(b) && n <= Width(b)
    ensures forall i :: 0 <= i < |cols| ==> 0 <= cols[i] < n && NextRow(b, cols[i]) >= 0
    ensures forall c {:trigger c in cols} :: 0 <= c < n && NextRow(b, c) >= 0 ==> c in cols
    ensures forall i, j :: 0 <= i < j < |cols| ==> cols[i] < cols[j]
  {
    if n == 0 then []
    else
      var front := ValidMovesBelow(b, n - 1);
      if NextRow(b, n - 1) >= 0 then front + [n - 1] else front
  }

  /** `get_valid_moves`: `flatnonzero(rows >= 0)` over the next available rows. */
  function ValidMoves(b: Board): (cols: seq<int>)
    requires Rectangular(b)
    ensures forall c {:trigger c in cols} :: c in cols <==> 0 <= c < Width(b) && NextRow(b, c) >= 0
    ensures forall i, j :: 0 <= i < j < |cols| ==> cols[i] < cols[j]
  {
    ValidMovesBelow(b, Width(b))
  }

  /** There is no valid move exactly when no cell is empty. */
  lemma NoValidMovesIffFull(b: Board)
    requires Rectangular(b)
    ensures ValidMoves(b) == [] <==> Full(b)
  {
    if ValidMoves(b) == [] {
      forall r, c | 0 <= r < |b| && 0 <= c < Width(b)
        ensures b[r][c] != 0
      {
        assert c !in ValidMoves(b);
        assert NextRow(b, c) == -1;
      }
    } else {
      var c := ValidMoves(b)[0];
      assert c in ValidMoves(b);
      var r := NextRow(b, c);
      assert 0 <= r && b[r][c] == 0;
    }
  }

  // ------------------------------------------------------------------ is_valid

  /** `is_valid`: the column's next available row is not -1. Negative column
      indices (numpy wrap-around) are excluded by the precondition. */
  function IsValid(b: Board, col: int): (ok: bool)
    requires Rectangular(b) && 0 <= col < Width(b)
    ensures ok <==> col in ValidMoves(b)
    ensures ok <==> exists r {:trigger b[r][col]} :: 0 <= r < |b| && b[r][col] == 0
  {
    NextRow(b, col) >= 0
  }

  // ----------------------------------------------------------------- is_winner

  /** Four `p` discs in row `r`, columns `c` to `c+3` (the first scan of
      `is_winner`, whose comment calls it vertical). */
  ghost predicate RowRun(b: Board, p: int, r: int, c: int)
    requires Rectangular(b)
  {
    0 <= r < |b| && 0 <= c && c + 3 < Width(b) &&
    b[r][c] == p && b[r][c + 1] == p && b[r][c + 2] == p && b[r][c + 3] == p
  }

  /** Four `p` discs in column `c`, rows `r` to `r+3` (the second scan, whose
      comment calls it horizontal). */
  ghost predicate ColumnRun(b: Board, p: int, r: int, c: int)
    requires Rectangular(b)
  {
    0 <= r && r + 3 < |b| && 0 <= c < Width(b) &&
    b[r][c] == p && b[r + 1][c] == p && b[r + 2][c] == p && b[r + 3][c] == p
  }

  /** Four `p` discs from (r, c) up and to the right. */
  ghost predicate DiagonalRun(b: Board, p: int, r: int, c: int)
    requires Rectangular(b)
  {
    0 <= r && r + 3 < |b| && 0 <= c && c + 3 < Width(b) &&
    b[r][c] == p && b[r + 1][c + 1] == p && b[r + 2][c + 2] == p && b[r + 3][c + 3] == p
  }

  /** Four `p` discs from (r, c) down and to the right. */
  ghost predicate AntiDiagonalRun(b: Board, p: int, r: int, c: int)
    requires Rectangular(b)
  {
    3 <= r < |b| && 0 <= c && c + 3 < Width(b) &&
    b[r][c] == p && b[r - 1][c + 1] == p && b[r - 2][c + 2] == p && b[r - 3][c + 3] == p
  }

  /** Some cell starts a run of four `p` discs in one of the four directions. */
  ghost predicate HasFour(b: Board, p: int)
    requires Rectangular(b)
  {
    exists r, c :: RowRun(b, p, r, c) || ColumnRun(b, p, r, c) ||
                   DiagonalRun(b, p, r, c) || AntiDiagonalRun(b, p, r, c)
  }

  /** `is_winner`: four nested scans with an early return. The Python function
      returns True or falls off the end (None); here that is true or false. Every index
      the scans read lies inside the grid, for any board shape. */
  method IsWinner(b: Board, p: int) returns (won: bool)
    requires Rectangular(b)
    ensures won <==> HasFour(b, p)
  {
    var rows: int, cols: int := |b|, Width(b);

    // same row, consecutive columns
    var row := 0;
    while row < rows
      invariant 0 <= row <= rows
      invariant forall r, c :: r < row ==> !RowRun(b, p, r, c)
    {
      var col := 0;
      while col < cols - 3
        invariant 0 <= col
        invariant forall c :: c < col ==> !RowRun(b, p, row, c)
      {
        if b[row][col] == p && b[row][col + 1] == p &&
           b[row][col + 2] == p && b[row][col + 3] == p {
          assert RowRun(b, p, row, col);
          return true;
        }
        col := col + 1;
      }
      row := row + 1;
    }

    // same column, consecutive rows
    row := 0;
    while row < rows - 3
      invariant 0 <= row
      invariant forall r, c :: r < row ==> !ColumnRun(b, p, r, c)
    {
      var col := 0;
      while col < cols
        invariant 0 <= col <= cols
        invariant forall c :: c < col ==> !ColumnRun(b, p, row, c)
      {
        if b[row][col] == p && b[row + 1][col] == p &&
           b[row + 2][col] == p && b[row + 3][col] == p {
          assert ColumnRun(b, p, row, col);
          return true;
        }
        col := col + 1;
      }
      row := row + 1;
    }

    // diagonal, up and to the right
    row := 0;
    while row < rows - 3
      invariant 0 <= row
      invariant forall r, c :: r < row ==> !DiagonalRun(b, p, r, c)
    {
      var col := 0;
      while col < cols - 3
        invariant 0 <= col
        invariant forall c :: c < col ==> !DiagonalRun(b, p, row, c)
      {
        if b[row][col] == p && b[row + 1][col + 1] == p &&
           b[row + 2][col + 2] == p && b[row + 3][col + 3] == p {
          assert DiagonalRun(b, p, row, col);
          return true;
        }
        col := col + 1;
      }
      row := row + 1;
    }

    // anti-diagonal, down and to the right
    row := 3;
    while row < rows
      invariant 3 <= row
      invariant forall r, c :: r < row ==> !AntiDiagonalRun(b, p, r, c)
    {
      var col := 0;
      while col < cols - 3
        invariant 0 <= col
        invariant forall c :: c < col ==> !AntiDiagonalRun(b, p, row, c)
      {
        if b[row][col] == p && b[row - 1][col + 1] == p &&
           b[row - 2][col + 2] == p && b[row - 3][col + 3] == p {
          assert AntiDiagonalRun(b, p, row, col);
          return true;
        }
        col := col + 1;
      }
      row := row + 1;
    }
    return false;
  }

  // ---------------------------------------------------------------- is_gameover

  /** What `is_gameover` decides, in its order: a full board is a tie (0) even
      when four in a row exists, then player 1 wins, then player 2, else the
      game goes on (-1). */
  ghost function GameOutcome(b: Board): (result: (bool, int))
    requires Rectangular(b)
    ensures !result.0 ==> ValidMoves(b) != []
  {
    if ValidMoves(b) == [] then (true, 0)
    else if HasFour(b, 1) then (true, 1)
    else if HasFour(b, 2) then (true, 2)
    else (false, -1)
  }

  /** The game is over exactly when there is a winner code; the code is 0
      for a full board (even one holding four in a row), else the first
      player in the order 1, 2 that has four in a row. */
  lemma GameOutcomeCases(b: Board)
    requires Rectangular(b)
    ensures GameOutcome(b).0 <==> GameOutcome(b).1 != -1
    ensures GameOutcome(b).1 == 0 <==> Full(b)
    ensures GameOutcome(b).1 == 1 <==> !Full(b) && HasFour(b, 1)
    ensures GameOutcome(b).1 == 2 <==> !Full(b) && !HasFour(b, 1) && HasFour(b, 2)
  {
    NoValidMovesIffFull(b);
  }

  /** `is_gameover`: returns (gameover, winner). */
  method IsGameover(b: Board) returns (gameover: bool, winner: int)
    requires Rectangular(b)
    ensures (gameover, winner) == GameOutcome(b)
  {
    if |ValidMoves(b)| == 0 {
      gameover, winner := true, 0;
    } else {
      var one := IsWinner(b, 1);
      if one {
        gameover, winner := true, 1;
      } else {
        var two := IsWinner(b, 2);
        if two {
          gameover, winner := true, 2;
        } else {
          gameover, winner := false, -1;
        }
      }
    }
  }

  // ---------------------------------------------------------------------- drop

  /** The board with cell (r, c) set to `v`, every other cell as before. */
  function SetCell(b: Board, r: nat, c: nat, v: int): (b': Board)
    requires Rectangular(b) && r < |b| && c < Width(b)
    ensures Rectangular(b') && |b'| == |b| && Width(b') == Width(b)
    ensures b'[r][c] == v
    ensures forall i, j :: 0 <= i < |b| && 0 <= j < Width(b) && (i != r || j != c) ==>
              b'[i][j] == b[i][j]
  {
    b[r := b[r][c := v]]
  }

  /** The contents of a 2-D array as a board. */
  function Cells(a: array2<int>): (b: Board)
    reads a
    ensures |b| == a.Length0 && Rectangular(b)
    ensures a.Length0 > 0 ==> Width(b) == a.Length1
    ensures forall r, c :: 0 <= r < a.Length0 && 0 <= c < a.Length1 ==> b[r][c] == a[r, c]
  {
    seq(a.Length0, r requires 0 <= r < a.Length0 reads a =>
      seq(a.Length1, c requires 0 <= c < a.Length1 reads a => a[r, c]))
  }

  /** The row `drop` writes: the next available row, or, on a full column,
      row -1, which numpy reads as the top row. */
  function DropRow(b: Board, col: nat): (r: nat)
    requires Rectangular(b) && 0 < |b| && col < Width(b)
    ensures r < |b|
    ensures IsValid(b, col) ==> b[r][col] == 0 && forall i {:trigger b[i][col]} :: 0 <= i < r ==> b[i][col] != 0
    ensures !IsValid(b, col) ==> r == |b| - 1
  {
    var k := NextRow(b, col);
    if k >= 0 then k else |b| - 1
  }

  /** The board update of `drop`: player `player` (0-indexed) puts disc
      `player + 1` into column `col`, in place. */
  method Drop(board: array2<int>, player: int, col: int)
    requires 0 < board.Length0 && 0 <= col < board.Length1
    modifies board
    ensures Cells(board) == SetCell(old(Cells(board)), DropRow(old(Cells(board)), col), col, player + 1)
  {
    ghost var before := Cells(board);
    var row := NextRow(Cells(board), col);
    if row < 0 {
      row := board.Length0 - 1;
    }
    board[row, col] := player + 1;
    ghost var after := SetCell(before, row, col, player + 1);
    assert Cells(board) == after by {
      forall i | 0 <= i < board.Length0
        ensures Cells(board)[i] == after[i]
      {
      }
    }
  }

  /** On a valid column, a drop of a disc keeps the gravity invariant. */
  lemma DropKeepsGravity(b: Board, col: nat, v: int)
    requires Rectangular(b) && Gravity(b) && col < Width(b) && IsValid(b, col) && v != 0
    ensures Gravity(SetCell(b, NextRow(b, col), col, v))
  {
    var k := NextRow(b, col);
    var b' := SetCell(b, k, col, v);
    forall r, c | 0 <= r < |b'| && 0 <= c < Width(b') && b'[r][c] != 0
      ensures forall i :: 0 <= i < r ==> b'[i][c] != 0
    {
    }
  }

  // ------------------------------------------------------------------- sub2ind

  /** `sub2ind`: the row-major linear index of (row, col). For a
      non-negative row and a column inside the row, the index is
      non-negative and division by `ncols` recovers the subscripts. */
  function Sub2Ind(ncols: int, row: int, col: int): (i: int)
    ensures 0 <= row && 0 <= col < ncols ==> 0 <= i && i / ncols == row && i % ncols == col
  {
    if 0 <= row && 0 <= col < ncols then
      DivModOfRowMajor(ncols, row, col);
      row * ncols + col
    else row * ncols + col
  }

  /** Division by `n` of `q * n + m`, with 0 <= m < n, gives `q` and `m`. */
  lemma DivModOfRowMajor(n: int, q: int, m: int)
    requires 0 <= q && 0 <= m < n
    ensures 0 <= q * n + m && (q * n + m) / n == q && (q * n + m) % n == m
  {
    MulLeft(0, q, n);
    var i := q * n + m;
    var q', m' := i / n, i % n;
    assert q' * n + m' == q * n + m && 0 <= m' < n;
    if q' > q {
      MulStep(q, q', n);
      assert false;
    } else if q' < q {
      MulStep(q', q, n);
      assert false;
    }
  }

  /** For in-range subscripts the index lies in [0, nrows*ncols) and division
      by `ncols` recovers the subscripts. */
  lemma Sub2IndRoundTrip(nrows: int, ncols: int, row: int, col: int)
    requires 0 <= row < nrows && 0 <= col < ncols
    ensures 0 <= Sub2Ind(ncols, row, col) < nrows * ncols
    ensures Sub2Ind(ncols, row, col) / ncols == row
    ensures Sub2Ind(ncols, row, col) % ncols == col
  {
    assert row * ncols <= (nrows - 1) * ncols by {
      MulLeft(row, nrows - 1, ncols);
    }
  }

  /** Two in-range subscript pairs share an index only if they are equal. */
  lemma Sub2IndInjective(nrows: int, ncols: int, r1: int, c1: int, r2: int, c2: int)
    requires 0 <= r1 < nrows && 0 <= c1 < ncols
    requires 0 <= r2 < nrows && 0 <= c2 < ncols
    ensures Sub2Ind(ncols, r1, c1) == Sub2Ind(ncols, r2, c2) ==> r1 == r2 && c1 == c2
  {
    Sub2IndRoundTrip(nrows, ncols, r1, c1);
    Sub2IndRoundTrip(nrows, ncols, r2, c2);
  }

  lemma MulLeft(x: int, y: int, n: int)
    requires x <= y && 0 <= n
    ensures x * n <= y * n
  {
  }

  /** A larger factor adds at least one more `n`. */
  lemma MulStep(x: int, y: int, n: int)
    requires x < y && 0 <= n
    ensures x * n + n <= y * n
  {
    MulLeft(x + 1, y, n);
  }
}
