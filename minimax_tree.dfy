/** The game tree behind players/minimax.py: the window heuristic that
    scores leaves (`evaluate_window`, `cost`), the move simulation on copied
    boards (`simulate_move`) and the unpruned depth-limited minimax value of
    a position, against which the pruned search is proved. Player 1 always
    maximises and every other player minimises. */
module MinimaxTree {
  import opened Wrappers
  import opened Utils

  // ------------------------------------------------------------------ bounds

  /** A search bound or running value: an integer score, or Python's
      float("-inf") / float("inf"). Every score `minimax.py` computes is an
      exact integer. */
  datatype Bound = NegInf | Fin(n: int) | PosInf

  /** Strictly less than. */
  predicate Below(x: Bound, y: Bound) {
    match x
    case NegInf => !y.NegInf?
    case Fin(a) => (y.Fin? && a < y.n) || y.PosInf?
    case PosInf => false
  }

  predicate AtMost(x: Bound, y: Bound) {
    !Below(y, x)
  }

  /** Python's `max(x, y)`. */
  function Max(x: Bound, y: Bound): (m: Bound)
    ensures AtMost(x, m) && AtMost(y, m) && (m == x || m == y)
  {
    if Below(x, y) then y else x
  }

  /** Python's `min(x, y)`. */
  function Min(x: Bound, y: Bound): (m: Bound)
    ensures AtMost(m, x) && AtMost(m, y) && (m == x || m == y)
  {
    if Below(y, x) then y else x
  }

  // ---------------------------------------------------------- evaluate_window

  /** The score of four of a kind, `1e10`. */
  const FourScore: int := 10000000000

  /** `np.count_nonzero(window == x)`. */
  function Count(w: seq<int>, x: int): (n: nat)
    ensures n <= |w|
  {
    if w == [] then 0 else Count(w[..|w| - 1], x) + (if w[|w| - 1] == x then 1 else 0)
  }

  /** `Count` is the number of cells of `w` equal to `x`. */
  lemma {:induction false} CountIsMultiplicity(w: seq<int>, x: int)
    ensures Count(w, x) == multiset(w)[x]
    decreases |w|
  {
    if w != [] {
      CountIsMultiplicity(w[..|w| - 1], x);
      assert w == w[..|w| - 1] + [w[|w| - 1]];
    }
  }

  /** `evaluate_window`: the first matching case wins. Opponent discs score
      positively, the discs of `player` negatively. */
  function EvaluateWindow(window: seq<int>, player: int): (score: int)
    ensures var opp, own := Count(window, 3 - player), Count(window, player);
      && (opp == 4 ==> score == FourScore)
      && (opp == 3 ==> score == 10)
      && (opp == 2 ==> score == 5)
      && (opp < 2 && own == 4 ==> score == -FourScore)
      && (opp < 2 && own == 3 ==> score == -15)
      && (opp < 2 && own < 3 ==> score == 0)
  {
    var opp := 3 - player;
    if Count(window, opp) == 4 then FourScore
    else if Count(window, opp) == 3 then 10
    else if Count(window, opp) == 2 then 5
    else if Count(window, player) == 4 then -FourScore
    else if Count(window, player) == 3 then -15
    else 0
  }

  // ------------------------------------------------------------------- cost

  /** `board[r][c : c + 4]`. */
  function RowWindow(b: Board, r: int, c: int): (w: seq<int>)
    requires Rectangular(b) && 0 <= r < |b| && 0 <= c && c + 3 < Width(b)
    ensures |w| == 4 && forall k :: 0 <= k < 4 ==> w[k] == b[r][c + k]
  {
    b[r][c..c + 4]
  }

  /** `board[:, c][r : r + 4]`. */
  function ColumnWindow(b: Board, r: int, c: int): (w: seq<int>)
    requires Rectangular(b) && 0 <= r && r + 3 < |b| && 0 <= c < Width(b)
    ensures |w| == 4 && forall k :: 0 <= k < 4 ==> w[k] == b[r + k][c]
  {
    [b[r][c], b[r + 1][c], b[r + 2][c], b[r + 3][c]]
  }

  /** The windows of row `r`, left to right (`range(cols - 3)`). */
  function RowWindows(b: Board, r: int): (ws: seq<seq<int>>)
    requires Rectangular(b) && 0 <= r < |b|
    ensures |ws| == if Width(b) <= 3 then 0 else Width(b) - 3
  {
    if Width(b) <= 3 then []
    else seq(Width(b) - 3, c requires 0 <= c < Width(b) - 3 => RowWindow(b, r, c))
  }

  /** The windows of column `c`, bottom to top (`range(rows - 3)`). */
  function ColumnWindows(b: Board, c: int): (ws: seq<seq<int>>)
    requires Rectangular(b) && 0 <= c < Width(b)
    ensures |ws| == if |b| <= 3 then 0 else |b| - 3
  {
    if |b| <= 3 then []
    else seq(|b| - 3, r requires 0 <= r < |b| - 3 => ColumnWindow(b, r, c))
  }

  /** The items of `lines`, line after line: what a loop over the lines
      with an inner loop over each line visits, in that order. */
  function Concat<T>(lines: seq<seq<T>>): seq<T> {
    if lines == [] then [] else Concat(lines[..|lines| - 1]) + lines[|lines| - 1]
  }

  /** The windows of the rows below `n`, one line per row. */
  function RowLines(b: Board, n: nat): seq<seq<seq<int>>>
    requires Rectangular(b) && n <= |b|
  {
    seq(n, r requires 0 <= r < n => RowWindows(b, r))
  }

  /** The windows of the columns left of `n`, one line per column. */
  function ColumnLines(b: Board, n: nat): seq<seq<seq<int>>>
    requires Rectangular(b) && n <= Width(b)
  {
    seq(n, c requires 0 <= c < n => ColumnWindows(b, c))
  }

  /** The horizontal windows of the rows below `n`, in the first loop's order. */
  function RowWindowsBelow(b: Board, n: nat): seq<seq<int>>
    requires Rectangular(b) && n <= |b|
  {
    Concat(RowLines(b, n))
  }

  /** The vertical windows of the columns left of `n`, in the second loop's order. */
  function ColumnWindowsBelow(b: Board, n: nat): seq<seq<int>>
    requires Rectangular(b) && n <= Width(b)
  {
    Concat(ColumnLines(b, n))
  }

  /** One more row of the first loop appends that row's windows. */
  lemma RowWindowsBelowStep(b: Board, n: nat)
    requires Rectangular(b) && n < |b|
    ensures RowWindowsBelow(b, n + 1) == RowWindowsBelow(b, n) + RowWindows(b, n)
  {
    assert RowLines(b, n + 1)[..n] == RowLines(b, n);
  }

  /** One more column of the second loop appends that column's windows. */
  lemma ColumnWindowsBelowStep(b: Board, n: nat)
    requires Rectangular(b) && n < Width(b)
    ensures ColumnWindowsBelow(b, n + 1) == ColumnWindowsBelow(b, n) + ColumnWindows(b, n)
  {
    assert ColumnLines(b, n + 1)[..n] == ColumnLines(b, n);
  }

  /** Every window `cost` scores, in the order it scores them. */
  function Windows(b: Board): seq<seq<int>>
    requires Rectangular(b)
  {
    RowWindowsBelow(b, |b|) + ColumnWindowsBelow(b, Width(b))
  }

  /** The sum of `evaluate_window` over a list of windows. */
  function ScoreSum(ws: seq<seq<int>>, player: int): int {
    if ws == [] then 0
    else ScoreSum(ws[..|ws| - 1], player) + EvaluateWindow(ws[|ws| - 1], player)
  }

  /** The heuristic value of a board, the spec of `cost`. */
  ghost function Heuristic(b: Board, player: int): int
    requires Rectangular(b)
  {
    ScoreSum(Windows(b), player)
  }

  /** Taking one more item of `s` appends that item. */
  lemma TakeSnoc<T>(s: seq<T>, k: nat)
    requires k < |s|
    ensures s[..k + 1] == s[..k] + [s[k]]
  {
  }

  lemma ScoreSumSnoc(ws: seq<seq<int>>, w: seq<int>, player: int)
    ensures ScoreSum(ws + [w], player) == ScoreSum(ws, player) + EvaluateWindow(w, player)
  {
    assert (ws + [w])[..|ws|] == ws;
  }

  /** The sum over two lists of windows is the sum of the two sums. */
  lemma {:induction false} ScoreSumAppend(x: seq<seq<int>>, y: seq<seq<int>>, player: int)
    ensures ScoreSum(x + y, player) == ScoreSum(x, player) + ScoreSum(y, player)
    decreases |y|
  {
    if y != [] {
      var y' := y[..|y| - 1];
      assert x + y == (x + y') + [y[|y| - 1]];
      assert y == y' + [y[|y| - 1]];
      ScoreSumSnoc(x + y', y[|y| - 1], player);
      ScoreSumSnoc(y', y[|y| - 1], player);
      ScoreSumAppend(x, y', player);
    } else {
      assert x + y == x;
    }
  }

  /** `cost`: the sum of `evaluate_window` over the horizontal windows, row by
      row, then over the vertical windows, column by column. */
  method Cost(b: Board, player: int) returns (value: int)
    requires Rectangular(b)
    ensures value == Heuristic(b, player)
  {
    value := 0;
    value := AddRowWindows(b, player, value);
    value := AddColumnWindows(b, player, value);
    ScoreSumAppend(RowWindowsBelow(b, |b|), ColumnWindowsBelow(b, Width(b)), player);
  }

  /** The outer loop of the first loop nest of `cost`, over the rows. */
  method AddRowWindows(b: Board, player: int, value: int) returns (total: int)
    requires Rectangular(b)
    ensures total == value + ScoreSum(RowWindowsBelow(b, |b|), player)
  {
    total := value;
    var row := 0;
    while row < |b|
      invariant 0 <= row <= |b|
      invariant total == value + ScoreSum(RowWindowsBelow(b, row), player)
    {
      RowWindowsBelowStep(b, row);
      ScoreSumAppend(RowWindowsBelow(b, row), RowWindows(b, row), player);
      total := AddRowLine(b, player, row, total);
      row := row + 1;
    }
  }

  /** The inner loop of the first loop nest of `cost`: the windows of one
      row, left to right. */
  method AddRowLine(b: Board, player: int, row: int, value: int) returns (total: int)
    requires Rectangular(b) && 0 <= row < |b|
    ensures total == value + ScoreSum(RowWindows(b, row), player)
  {
    ghost var line := RowWindows(b, row);
    total := value;
    var col := 0;
    while col < Width(b) - 3
      invariant 0 <= col <= |line|
      invariant total == value + ScoreSum(line[..col], player)
    {
      TakeSnoc(line, col);
      ScoreSumSnoc(line[..col], line[col], player);
      total := total + EvaluateWindow(RowWindow(b, row, col), player);
      col := col + 1;
    }
    assert line[..col] == line;
  }

  /** The outer loop of the second loop nest of `cost`, over the columns. */
  method AddColumnWindows(b: Board, player: int, value: int) returns (total: int)
    requires Rectangular(b)
    ensures total == value + ScoreSum(ColumnWindowsBelow(b, Width(b)), player)
  {
    total := value;
    var col := 0;
    while col < Width(b)
      invariant 0 <= col <= Width(b)
      invariant total == value + ScoreSum(ColumnWindowsBelow(b, col), player)
    {
      ColumnWindowsBelowStep(b, col);
      ScoreSumAppend(ColumnWindowsBelow(b, col), ColumnWindows(b, col), player);
      total := AddColumnLine(b, player, col, total);
      col := col + 1;
    }
  }

  /** The inner loop of the second loop nest of `cost`: the windows of one
      column, bottom to top. */
  method AddColumnLine(b: Board, player: int, col: int, value: int) returns (total: int)
    requires Rectangular(b) && 0 <= col < Width(b)
    ensures total == value + ScoreSum(ColumnWindows(b, col), player)
  {
    ghost var line := ColumnWindows(b, col);
    total := value;
    var row := 0;
    while row < |b| - 3
      invariant 0 <= row <= |line|
      invariant total == value + ScoreSum(line[..row], player)
    {
      TakeSnoc(line, row);
      ScoreSumSnoc(line[..row], line[row], player);
      total := total + EvaluateWindow(ColumnWindow(b, row, col), player);
      row := row + 1;
    }
    assert line[..row] == line;
  }

  /** How many windows of four fit along a line of `n` cells. */
  function Spans(n: int): nat {
    if n <= 3 then 0 else n - 3
  }

  /** `w` is the horizontal window of row `r` starting at column `c`. */
  predicate RowWindowAt(b: Board, w: seq<int>, r: int, c: int)
    requires Rectangular(b)
  {
    0 <= r < |b| && 0 <= c && c + 3 < Width(b) && w == RowWindow(b, r, c)
  }

  /** `w` is the vertical window of column `c` starting at row `r`. */
  predicate ColumnWindowAt(b: Board, w: seq<int>, r: int, c: int)
    requires Rectangular(b)
  {
    0 <= r && r + 3 < |b| && 0 <= c < Width(b) && w == ColumnWindow(b, r, c)
  }

  /** Lines of `m` items each hold `|lines| * m` items together. */
  lemma {:induction false} ConcatLength<T>(lines: seq<seq<T>>, m: nat)
    requires forall k :: 0 <= k < |lines| ==> |lines[k]| == m
    ensures |Concat(lines)| == |lines| * m
    decreases |lines|
  {
    if lines != [] {
      var k := |lines| - 1;
      ConcatLength(lines[..k], m);
      MulSucc(k, m);
    }
  }

  /** An item is in the concatenation iff it is in one of the lines. */
  lemma {:induction false} ConcatMembers<T>(lines: seq<seq<T>>, x: T)
    ensures x in Concat(lines) <==> exists k :: 0 <= k < |lines| && x in lines[k]
    decreases |lines|
  {
    if lines != [] {
      var k := |lines| - 1;
      var front := lines[..k];
      ConcatMembers(front, x);
      if x in Concat(lines) && x !in lines[k] {
        var j :| 0 <= j < |front| && x in front[j];
        assert lines[j] == front[j];
      }
      if exists j :: 0 <= j < |lines| && x in lines[j] {
        var j :| 0 <= j < |lines| && x in lines[j];
        if j < k {
          assert front[j] == lines[j];
        }
      }
    }
  }

  lemma RowWindowsBelowCount(b: Board, n: nat)
    requires Rectangular(b) && n <= |b|
    ensures |RowWindowsBelow(b, n)| == n * Spans(Width(b))
  {
    ConcatLength(RowLines(b, n), Spans(Width(b)));
  }

  lemma ColumnWindowsBelowCount(b: Board, n: nat)
    requires Rectangular(b) && n <= Width(b)
    ensures |ColumnWindowsBelow(b, n)| == n * Spans(|b|)
  {
    ConcatLength(ColumnLines(b, n), Spans(|b|));
  }

  lemma MulSucc(m: nat, k: nat)
    ensures (m + 1) * k == m * k + k
  {
  }

  /** `cost` scores rows * (cols - 3) horizontal and cols * (rows - 3)
      vertical windows (none when a dimension is below four). */
  lemma WindowsCount(b: Board)
    requires Rectangular(b)
    ensures |Windows(b)| == |b| * Spans(Width(b)) + Width(b) * Spans(|b|)
  {
    RowWindowsBelowCount(b, |b|);
    ColumnWindowsBelowCount(b, Width(b));
  }

  /** The windows of row `r` are the horizontal windows starting in it. */
  lemma RowLineMembers(b: Board, r: nat)
    requires Rectangular(b) && r < |b|
    ensures forall w :: w in RowWindows(b, r) <==> exists c :: RowWindowAt(b, w, r, c)
  {
    var line := RowWindows(b, r);
    forall w
      ensures w in line <==> exists c :: RowWindowAt(b, w, r, c)
    {
      if w in line {
        var i :| 0 <= i < |line| && line[i] == w;
        assert RowWindowAt(b, w, r, i);
      }
      if exists c :: RowWindowAt(b, w, r, c) {
        var c :| RowWindowAt(b, w, r, c);
        assert line[c] == w;
      }
    }
  }

  /** The windows of column `c` are the vertical windows starting in it. */
  lemma ColumnLineMembers(b: Board, c: nat)
    requires Rectangular(b) && c < Width(b)
    ensures forall w :: w in ColumnWindows(b, c) <==> exists r :: ColumnWindowAt(b, w, r, c)
  {
    var line := ColumnWindows(b, c);
    forall w
      ensures w in line <==> exists r :: ColumnWindowAt(b, w, r, c)
    {
      if w in line {
        var i :| 0 <= i < |line| && line[i] == w;
        assert ColumnWindowAt(b, w, i, c);
      }
      if exists r :: ColumnWindowAt(b, w, r, c) {
        var r :| ColumnWindowAt(b, w, r, c);
        assert line[r] == w;
      }
    }
  }

  lemma RowWindowsBelowMembers(b: Board, n: nat)
    requires Rectangular(b) && n <= |b|
    ensures forall w :: w in RowWindowsBelow(b, n) <==> exists r, c :: r < n && RowWindowAt(b, w, r, c)
  {
    var lines := RowLines(b, n);
    forall w
      ensures w in Concat(lines) <==> exists r, c :: r < n && RowWindowAt(b, w, r, c)
    {
      ConcatMembers(lines, w);
      if w in Concat(lines) {
        var r :| 0 <= r < n && w in lines[r];
        RowLineMembers(b, r);
      }
      if exists r, c :: r < n && RowWindowAt(b, w, r, c) {
        var r, c :| r < n && RowWindowAt(b, w, r, c);
        RowLineMembers(b, r);
        assert w in lines[r];
      }
    }
  }

  lemma ColumnWindowsBelowMembers(b: Board, n: nat)
    requires Rectangular(b) && n <= Width(b)
    ensures forall w :: w in ColumnWindowsBelow(b, n) <==> exists r, c :: c < n && ColumnWindowAt(b, w, r, c)
  {
    var lines := ColumnLines(b, n);
    forall w
      ensures w in Concat(lines) <==> exists r, c :: c < n && ColumnWindowAt(b, w, r, c)
    {
      ConcatMembers(lines, w);
      if w in Concat(lines) {
        var c :| 0 <= c < n && w in lines[c];
        ColumnLineMembers(b, c);
      }
      if exists r, c :: c < n && ColumnWindowAt(b, w, r, c) {
        var r, c :| c < n && ColumnWindowAt(b, w, r, c);
        ColumnLineMembers(b, c);
        assert w in lines[c];
      }
    }
  }

  /** The windows `cost` scores are exactly the horizontal and the vertical
      windows of four; no diagonal is scored. */
  lemma WindowsAreLines(b: Board)
    requires Rectangular(b)
    ensures forall w :: w in Windows(b) <==>
      (exists r, c :: RowWindowAt(b, w, r, c)) || (exists r, c :: ColumnWindowAt(b, w, r, c))
  {
    RowWindowsBelowMembers(b, |b|);
    ColumnWindowsBelowMembers(b, Width(b));
  }

  // ------------------------------------------------------------- simulate_move

  /** `np.argmin` of column `c` over its lowest `n` rows: the lowest row
      holding the column's least value. */
  function ColumnArgMin(b: Board, c: nat, n: nat): (k: nat)
    requires Rectangular(b) && c < Width(b) && 0 < n <= |b|
    ensures k < n
    ensures forall i :: 0 <= i < n ==> b[k][c] <= b[i][c]
    ensures forall i :: 0 <= i < k ==> b[i][c] > b[k][c]
  {
    if n == 1 then 0
    else
      var k := ColumnArgMin(b, c, n - 1);
      if b[n - 1][c] < b[k][c] then n - 1 else k
  }

  /** `simulate_move`: a copy of the board with `player` written into column
      `move` at the row `np.argmin` picks. The input board is a value and
      stays as it was. On a column that is not full and holds no negative
      cell, that row is the next available row, so the result is what `drop`
      writes. */
  function Simulate(b: Board, move: int, player: int): (b': Board)
    requires Rectangular(b) && 0 < |b| && 0 <= move < Width(b)
    ensures Rectangular(b') && |b'| == |b| && Width(b') == Width(b)
  {
    SetCell(b, ColumnArgMin(b, move, |b|), move, player)
  }

  /** The simulated move writes `player` into exactly one cell of column
      `move`, the one holding the column's least value (the lowest such row
      on ties), and leaves every other cell as it was. */
  lemma SimulateWritesOneCell(b: Board, move: int, player: int)
    requires Rectangular(b) && 0 < |b| && 0 <= move < Width(b)
    ensures var b', k := Simulate(b, move, player), ColumnArgMin(b, move, |b|);
      && b'[k][move] == player
      && (forall i :: 0 <= i < |b| ==> b[k][move] <= b[i][move])
      && (forall i :: 0 <= i < k ==> b[k][move] < b[i][move])
      && (forall i, j :: 0 <= i < |b| && 0 <= j < Width(b) && (i != k || j != move) ==> b'[i][j] == b[i][j])
  {
  }

  /** On a column that is not full and holds no negative cell, the simulated
      move lands on the next available row, as `drop` does. */
  lemma SimulateIsDrop(b: Board, move: int, player: int)
    requires Rectangular(b) && 0 < |b| && 0 <= move < Width(b)
    requires IsValid(b, move) && forall i :: 0 <= i < |b| ==> b[i][move] >= 0
    ensures Simulate(b, move, player) == SetCell(b, NextRow(b, move), move, player)
  {
  }

  // ------------------------------------------------------------------ minimax

  /** Player 1 prefers higher scores, every other player lower ones. */
  predicate Prefers(player: int, x: int, y: int) {
    if player == 1 then x > y else x < y
  }

  /** The unpruned minimax move and value of `minimax(board, player, depth)`:
      a leaf scored by `cost` when `depth` is 0 or the game is over,
      otherwise the best child over the valid moves in ascending order. */
  ghost function Search(b: Board, player: int, depth: nat): (Option<int>, int)
    requires Rectangular(b)
    decreases depth, 3
  {
    if depth == 0 || GameOutcome(b).0 then (None, Heuristic(b, player))
    else Node(b, player, depth - 1)
  }

  /** An inner node whose children are searched `d` plies deep: the best
      child over the valid moves in ascending order. */
  ghost function Node(b: Board, player: int, d: nat): (Option<int>, int)
    requires Rectangular(b) && ValidMoves(b) != []
    decreases d + 1, 2
  {
    var moves := ValidMoves(b);
    ValidMovesInColumns(b);
    var s := BestOf(moves, ChildValues(b, moves, player, d), player, |moves|);
    (s.0, s.1.n)
  }

  /** Every move names a column of the board. */
  predicate InColumns(b: Board, moves: seq<int>) {
    forall k :: 0 <= k < |moves| ==> 0 <= moves[k] < Width(b)
  }

  /** The valid moves name columns of a board that has rows. */
  lemma ValidMovesInColumns(b: Board)
    requires Rectangular(b)
    ensures InColumns(b, ValidMoves(b)) && (ValidMoves(b) != [] ==> 0 < |b|)
  {
    var moves := ValidMoves(b);
    forall k | 0 <= k < |moves|
      ensures 0 <= moves[k] < Width(b) && 0 < |b|
    {
      assert moves[k] in moves;
    }
  }

  /** The unpruned value of the child reached by `move`: the opponent to
      move, `d` plies left. */
  ghost function ChildValue(b: Board, move: int, player: int, d: nat): int
    requires Rectangular(b) && 0 < |b| && 0 <= move < Width(b)
    decreases d + 1, 0
  {
    Search(Simulate(b, move, player), 3 - player, d).1
  }

  /** The unpruned values of the children reached by `moves`, in order. */
  ghost function ChildValues(b: Board, moves: seq<int>, player: int, d: nat): (vs: seq<int>)
    requires Rectangular(b) && (moves != [] ==> 0 < |b|) && InColumns(b, moves)
    ensures |vs| == |moves|
    decreases d + 1, 1, |moves|
  {
    if moves == [] then []
    else [ChildValue(b, moves[0], player, d)] + ChildValues(b, moves[1..], player, d)
  }

  /** The scan of the first `k` moves with child values `values`, as the
      loops of `minimax` run it without cutoffs: from -inf (player 1) or +inf,
      a child replaces the best so far only when it is strictly preferred. */
  function BestOf(moves: seq<int>, values: seq<int>, player: int, k: nat): (s: (Option<int>, Bound))
    requires |values| == |moves| && k <= |moves|
    ensures k == 0 ==> s == (None, if player == 1 then NegInf else PosInf)
    ensures 0 < k ==> s.0.Some? && s.0.value in moves[..k] && s.1.Fin?
  {
    if k == 0 then (None, if player == 1 then NegInf else PosInf)
    else
      var s := BestOf(moves, values, player, k - 1);
      if s.0.None? || Prefers(player, values[k - 1], s.1.n) then (Some(moves[k - 1]), Fin(values[k - 1]))
      else s
  }

  /** Among the first `k` moves, move `j` has a value that no other of them
      beats, and every earlier one is strictly worse. */
  predicate IsFirstBest(values: seq<int>, player: int, k: nat, j: int)
    requires k <= |values|
  {
    && 0 <= j < k
    && (forall i :: 0 <= i < j ==> Prefers(player, values[j], values[i]))
    && (forall i :: j < i < k ==> !Prefers(player, values[i], values[j]))
  }

  /** The scan ends on the first move with the best value. */
  lemma {:induction false} BestOfIsFirstBest(moves: seq<int>, values: seq<int>, player: int, k: nat)
    requires |values| == |moves| && 0 < k <= |moves|
    ensures exists j ::
      && IsFirstBest(values, player, k, j)
      && BestOf(moves, values, player, k) == (Some(moves[j]), Fin(values[j]))
  {
    if k > 1 {
      BestOfIsFirstBest(moves, values, player, k - 1);
      var j :| IsFirstBest(values, player, k - 1, j) &&
        BestOf(moves, values, player, k - 1) == (Some(moves[j]), Fin(values[j]));
      if Prefers(player, values[k - 1], values[j]) {
        assert IsFirstBest(values, player, k, k - 1);
      } else {
        assert IsFirstBest(values, player, k, j);
      }
    } else {
      assert IsFirstBest(values, player, 1, 0);
    }
  }

  /** What alpha-beta returns for a node whose unpruned value is `v`, searched
      with the window (alpha, beta): below the window it returns an upper
      bound still below alpha, above it a lower bound still above beta, and
      inside it (bounds included, since the cutoffs are strict) exactly `v`. */
  predicate Window(alpha: Bound, beta: Bound, r: int, v: int) {
    && (Below(Fin(v), alpha) ==> v <= r && Below(Fin(r), alpha))
    && (Below(beta, Fin(v)) ==> Below(beta, Fin(r)) && r <= v)
    && (AtMost(alpha, Fin(v)) && AtMost(Fin(v), beta) ==> r == v)
  }

  /** Loop invariant of the player-1 branch: `s` is the unpruned best value
      so far and `best` the pruned one. Below alpha, `best` bounds `s` from
      above and stays below alpha; from alpha on, the two agree. */
  predicate MaxInvariant(alpha: Bound, s: Bound, best: Bound) {
    && (Below(s, alpha) ==> AtMost(s, best) && Below(best, alpha))
    && (AtMost(alpha, s) ==> best == s)
  }

  /** Mirror image of `MaxInvariant` for the minimising branch. */
  predicate MinInvariant(beta: Bound, s: Bound, best: Bound) {
    && (Below(beta, s) ==> AtMost(best, s) && Below(beta, best))
    && (AtMost(s, beta) ==> best == s)
  }

  /** One child of a maximising node. The child's unpruned value is `c`; its
      pruned search with window (max(alpha, best), beta) returned `e`. Unless
      the cutoff fires, the invariant holds for the updated values, and the
      pruned and unpruned scans update their move together once the unpruned
      value reached alpha. When the cutoff fires, the child's true value lies
      above beta and at least `e`. */
  lemma MaxStep(alpha: Bound, beta: Bound, s: Bound, best: Bound, c: int, e: int)
    requires AtMost(alpha, beta) && AtMost(best, beta) && !best.PosInf? && !s.PosInf?
    requires MaxInvariant(alpha, s, best)
    requires Window(Max(alpha, best), beta, e, c)
    ensures var best', s' := (if Below(best, Fin(e)) then Fin(e) else best), (if Below(s, Fin(c)) then Fin(c) else s);
      && (AtMost(best', beta) ==>
            && MaxInvariant(alpha, s', best')
            && (AtMost(alpha, s') ==> (Below(best, Fin(e)) <==> Below(s, Fin(c))) && (Below(s, Fin(c)) || AtMost(alpha, s))))
      && (Below(beta, best') ==> best' == Fin(e) && Below(beta, Fin(e)) && e <= c)
  {
  }

  /** One child of a minimising node; the mirror image of `MaxStep`. */
  lemma MinStep(alpha: Bound, beta: Bound, s: Bound, best: Bound, c: int, e: int)
    requires AtMost(alpha, beta) && AtMost(alpha, best) && !best.NegInf? && !s.NegInf?
    requires MinInvariant(beta, s, best)
    requires Window(alpha, Min(beta, best), e, c)
    ensures var best', s' := (if Below(Fin(e), best) then Fin(e) else best), (if Below(Fin(c), s) then Fin(c) else s);
      && (AtMost(alpha, best') ==>
            && MinInvariant(beta, s', best')
            && (AtMost(s', beta) ==> (Below(Fin(e), best) <==> Below(Fin(c), s)) && (Below(Fin(c), s) || AtMost(s, beta))))
      && (Below(best', alpha) ==> best' == Fin(e) && Below(Fin(e), alpha) && c <= e)
  {
  }

  /** A maximising node that scanned every child without a cutoff returns
      what `Window` allows for the unpruned value `v`. */
  lemma MaxExit(alpha: Bound, beta: Bound, best: Bound, v: int)
    requires AtMost(alpha, beta) && AtMost(best, beta) && best.Fin?
    requires MaxInvariant(alpha, Fin(v), best)
    ensures Window(alpha, beta, best.n, v) && (AtMost(alpha, Fin(v)) ==> best == Fin(v))
  {
  }

  /** A maximising node cut off by a child valued `e` above beta, whose
      unpruned value `c` is at least `e` and at most the node's `v`, returns
      what `Window` allows, and `v` lies above the window. */
  lemma MaxCutoff(alpha: Bound, beta: Bound, e: int, c: int, v: int)
    requires AtMost(alpha, beta) && Below(beta, Fin(e)) && e <= c <= v
    ensures Window(alpha, beta, e, v) && Below(beta, Fin(v))
  {
  }

  /** Mirror image of `MaxExit`. */
  lemma MinExit(alpha: Bound, beta: Bound, best: Bound, v: int)
    requires AtMost(alpha, beta) && AtMost(alpha, best) && best.Fin?
    requires MinInvariant(beta, Fin(v), best)
    ensures Window(alpha, beta, best.n, v) && (AtMost(Fin(v), beta) ==> best == Fin(v))
  {
  }

  /** Mirror image of `MaxCutoff`. */
  lemma MinCutoff(alpha: Bound, beta: Bound, e: int, c: int, v: int)
    requires AtMost(alpha, beta) && Below(Fin(e), alpha) && v <= c <= e
    ensures Window(alpha, beta, e, v) && Below(Fin(v), alpha)
  {
  }

  /** One step of the scan for player 1, in terms of bounds: the next value
      is taken exactly when it is strictly greater than the best so far. */
  lemma BestOfMaxStep(moves: seq<int>, values: seq<int>, k: nat)
    requires |values| == |moves| && k < |moves|
    ensures var s := BestOf(moves, values, 1, k);
      && !s.1.PosInf?
      && BestOf(moves, values, 1, k + 1) == (if Below(s.1, Fin(values[k])) then (Some(moves[k]), Fin(values[k])) else s)
  {
  }

  /** One step of the scan for the minimising player: the next value is
      taken exactly when it is strictly smaller than the best so far. */
  lemma BestOfMinStep(moves: seq<int>, values: seq<int>, player: int, k: nat)
    requires |values| == |moves| && k < |moves| && player != 1
    ensures var s := BestOf(moves, values, player, k);
      && !s.1.NegInf?
      && BestOf(moves, values, player, k + 1) == (if Below(Fin(values[k]), s.1) then (Some(moves[k]), Fin(values[k])) else s)
  {
  }

  /** No value among the first `k` beats the scan's result. */
  lemma BestOfBeatsAll(moves: seq<int>, values: seq<int>, player: int, k: nat)
    requires |values| == |moves| && 0 < k <= |moves|
    ensures forall i :: 0 <= i < k ==> !Prefers(player, values[i], BestOf(moves, values, player, k).1.n)
  {
    BestOfIsFirstBest(moves, values, player, k);
  }

  /** The `i`-th child value is the search of `child`, the board after the
      `i`-th move. */
  lemma {:induction false} ChildValueAt(b: Board, moves: seq<int>, player: int, d: nat, i: nat, child: Board)
    requires Rectangular(b) && 0 < |b| && InColumns(b, moves)
    requires i < |moves| && child == Simulate(b, moves[i], player)
    ensures Rectangular(child)
    ensures ChildValues(b, moves, player, d)[i] == Search(child, 3 - player, d).1
    decreases i
  {
    if 0 < i {
      assert moves[1..][i - 1] == moves[i];
      ChildValueAt(b, moves[1..], player, d, i - 1, child);
    }
  }

  /** A node with plies left whose game is not over is an inner node. */
  lemma SearchUnfold(b: Board, player: int, depth: nat)
    requires Rectangular(b) && 0 < depth && !GameOutcome(b).0
    ensures ValidMoves(b) != [] && Search(b, player, depth) == Node(b, player, depth - 1)
  {
  }

  /** The search has a move exactly at a node with plies left whose game is
      not over, and that move is valid; a node without a move is a leaf
      valued by the heuristic. */
  lemma SearchShape(b: Board, player: int, depth: nat)
    requires Rectangular(b)
    ensures var s := Search(b, player, depth);
      && (s.0.Some? <==> 0 < depth && !GameOutcome(b).0)
      && (s.0.Some? ==> s.0.value in ValidMoves(b))
      && (s.0.None? ==> s.1 == Heuristic(b, player))
  {
    if 0 < depth && !GameOutcome(b).0 {
      SearchUnfold(b, player, depth);
      NodeIsScan(b, player, depth - 1);
    }
  }

  /** An inner node takes the scan of its children's values. */
  lemma NodeIsScan(b: Board, player: int, d: nat)
    requires Rectangular(b) && ValidMoves(b) != []
    ensures 0 < |b| && InColumns(b, ValidMoves(b))
    ensures var moves := ValidMoves(b);
      var s := BestOf(moves, ChildValues(b, moves, player, d), player, |moves|);
      Node(b, player, d) == (s.0, s.1.n)
  {
    ValidMovesInColumns(b);
  }

  /** Every child value is the search of the child its move reaches. */
  lemma ChildValuesAreSearches(b: Board, moves: seq<int>, player: int, d: nat)
    requires Rectangular(b) && 0 < |b| && InColumns(b, moves)
    ensures forall i :: 0 <= i < |moves| ==> ChildValues(b, moves, player, d)[i] == ChildValue(b, moves[i], player, d)
  {
    forall i | 0 <= i < |moves|
      ensures ChildValues(b, moves, player, d)[i] == ChildValue(b, moves[i], player, d)
    {
      ChildValueAt(b, moves, player, d, i, Simulate(b, moves[i], player));
    }
  }

  /** Over moves in ascending order, the scan returns a move whose value no
      other move beats and that beats every lower move strictly. */
  lemma BestOfIsLowestBest(moves: seq<int>, values: seq<int>, player: int)
    requires |values| == |moves| && 0 < |moves|
    requires forall i, j :: 0 <= i < j < |moves| ==> moves[i] < moves[j]
    ensures var s := BestOf(moves, values, player, |moves|);
      && s.0.Some? && s.0.value in moves && s.1.Fin?
      && (forall i :: 0 <= i < |moves| && moves[i] == s.0.value ==> values[i] == s.1.n)
      && (forall i :: 0 <= i < |moves| ==> !Prefers(player, values[i], s.1.n))
      && (forall i :: 0 <= i < |moves| && moves[i] < s.0.value ==> Prefers(player, s.1.n, values[i]))
  {
    BestOfIsFirstBest(moves, values, player, |moves|);
    var j :| IsFirstBest(values, player, |moves|, j)
      && BestOf(moves, values, player, |moves|) == (Some(moves[j]), Fin(values[j]));
  }

  /** An inner node plays a valid column whose child value (by
      `ChildValuesAreSearches`, the search of the child that column reaches)
      is best for `player` and strictly better than that of every lower
      column, so on ties the lowest column wins; the node's value is that
      child's value. */
  lemma NodePicksFirstBest(b: Board, player: int, d: nat)
    requires Rectangular(b) && ValidMoves(b) != []
    ensures 0 < |b| && InColumns(b, ValidMoves(b))
    ensures var moves, s := ValidMoves(b), Node(b, player, d);
      var values := ChildValues(b, moves, player, d);
      && s.0.Some? && s.0.value in moves
      && (forall i :: 0 <= i < |moves| && moves[i] == s.0.value ==> values[i] == s.1)
      && (forall i :: 0 <= i < |moves| ==> !Prefers(player, values[i], s.1))
      && (forall i :: 0 <= i < |moves| && moves[i] < s.0.value ==> Prefers(player, s.1, values[i]))
  {
    NodeIsScan(b, player, d);
    var moves := ValidMoves(b);
    BestOfIsLowestBest(moves, ChildValues(b, moves, player, d), player);
  }
}
