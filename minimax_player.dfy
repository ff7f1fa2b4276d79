/** The player of players/minimax.py: alpha-beta search over the reference
    game tree of module `MinimaxTree`, and the move it plays. */
module MinimaxPlayer {
  import opened Wrappers
  import opened Utils
  import opened MinimaxTree

  /** `minimax`: depth-limited minimax with alpha-beta pruning. Its value
      agrees with the unpruned search as `Window` says; when that value lies
      in the window, its move is the unpruned search's move too. Below the
      leaves it always returns a valid move. */
  method Minimax(b: Board, player: int, depth: nat, alpha: Bound, beta: Bound)
    returns (move: Option<int>, value: int)
    requires Rectangular(b) && AtMost(alpha, beta)
    ensures Window(alpha, beta, value, Search(b, player, depth).1)
    ensures AtMost(alpha, Fin(Search(b, player, depth).1)) && AtMost(Fin(Search(b, player, depth).1), beta) ==>
      move == Search(b, player, depth).0
    ensures move.Some? <==> 0 < depth && !GameOutcome(b).0
    ensures move.Some? ==> move.value in ValidMoves(b)
    ensures depth == 0 || GameOutcome(b).0 ==> value == Heuristic(b, player)
    decreases depth, 3
  {
    var over, winner := IsGameover(b);
    if depth == 0 || over {
      move := None;
      value := Cost(b, player);
      return;
    }
    var moves := ValidMoves(b);
    var d: nat := depth - 1;
    SearchUnfold(b, player, depth);
    NodeIsScan(b, player, d);
    var best: Bound;
    if player == 1 {
      move, best := MaxChildren(b, d, moves, alpha, beta);
    } else {
      move, best := MinChildren(b, player, d, moves, alpha, beta);
    }
    value := best.n;
  }

  /** Searches the child reached by the `i`-th valid move, with the opponent
      to move and one ply less, within the window (alpha, beta). */
  method ChildSearch(b: Board, player: int, d: nat, moves: seq<int>, i: nat, alpha: Bound, beta: Bound)
    returns (e: int)
    requires Rectangular(b) && 0 < |b| && InColumns(b, moves)
    requires i < |moves| && AtMost(alpha, beta)
    ensures Window(alpha, beta, e, ChildValues(b, moves, player, d)[i])
    decreases d + 1, 0
  {
    var child := Simulate(b, moves[i], player);
    ChildValueAt(b, moves, player, d, i, child);
    var _, value := Minimax(child, 3 - player, d, alpha, beta);
    e := value;
  }

  /** The player-1 branch of `minimax`: from -inf, keep a child only when
      its value is strictly greater, stop once the value exceeds beta, and
      raise alpha to the value after each child. */
  method MaxChildren(b: Board, d: nat, moves: seq<int>, alpha: Bound, beta: Bound)
    returns (move: Option<int>, best: Bound)
    requires Rectangular(b) && 0 < |b| && InColumns(b, moves) && moves != [] && AtMost(alpha, beta)
    ensures var s := BestOf(moves, ChildValues(b, moves, 1, d), 1, |moves|);
      && best.Fin?
      && Window(alpha, beta, best.n, s.1.n)
      && (AtMost(alpha, s.1) && AtMost(s.1, beta) ==> move == s.0)
      && move.Some? && move.value in moves
    decreases d + 1, 1
  {
    ghost var values := ChildValues(b, moves, 1, d);
    var a := alpha;
    best := NegInf;
    move := None;
    var i := 0;
    while i < |moves|
      invariant 0 <= i <= |moves|
      invariant a == Max(alpha, best)
      invariant AtMost(best, beta) && !best.PosInf?
      invariant i == 0 ==> best == NegInf && move == None
      invariant i > 0 ==> best.Fin? && move.Some? && move.value in moves
      invariant MaxInvariant(alpha, BestOf(moves, values, 1, i).1, best)
      invariant AtMost(alpha, BestOf(moves, values, 1, i).1) ==> move == BestOf(moves, values, 1, i).0
    {
      var e := ChildSearch(b, 1, d, moves, i, a, beta);
      BestOfMaxStep(moves, values, i);
      MaxStep(alpha, beta, BestOf(moves, values, 1, i).1, best, values[i], e);
      if Below(best, Fin(e)) {
        best, move := Fin(e), Some(moves[i]);
      }
      if Below(beta, best) {
        BestOfBeatsAll(moves, values, 1, |moves|);
        MaxCutoff(alpha, beta, best.n, values[i], BestOf(moves, values, 1, |moves|).1.n);
        return;
      }
      a := Max(a, best);
      i := i + 1;
    }
    MaxExit(alpha, beta, best, BestOf(moves, values, 1, |moves|).1.n);
  }

  /** The branch of `minimax` for every other player: from +inf, keep a child
      only when its value is strictly smaller, stop once the value falls
      below alpha, and lower beta to the value after each child. */
  method MinChildren(b: Board, player: int, d: nat, moves: seq<int>, alpha: Bound, beta: Bound)
    returns (move: Option<int>, best: Bound)
    requires Rectangular(b) && 0 < |b| && InColumns(b, moves) && moves != [] && AtMost(alpha, beta) && player != 1
    ensures var s := BestOf(moves, ChildValues(b, moves, player, d), player, |moves|);
      && best.Fin?
      && Window(alpha, beta, best.n, s.1.n)
      && (AtMost(s.1, beta) && AtMost(alpha, s.1) ==> move == s.0)
      && move.Some? && move.value in moves
    decreases d + 1, 1
  {
    ghost var values := ChildValues(b, moves, player, d);
    var z := beta;
    best := PosInf;
    move := None;
    var i := 0;
    while i < |moves|
      invariant 0 <= i <= |moves|
      invariant z == Min(beta, best)
      invariant AtMost(alpha, best) && !best.NegInf?
      invariant i == 0 ==> best == PosInf && move == None
      invariant i > 0 ==> best.Fin? && move.Some? && move.value in moves
      invariant MinInvariant(beta, BestOf(moves, values, player, i).1, best)
      invariant AtMost(BestOf(moves, values, player, i).1, beta) ==> move == BestOf(moves, values, player, i).0
    {
      var e := ChildSearch(b, player, d, moves, i, alpha, z);
      BestOfMinStep(moves, values, player, i);
      MinStep(alpha, beta, BestOf(moves, values, player, i).1, best, values[i], e);
      if Below(Fin(e), best) {
        best, move := Fin(e), Some(moves[i]);
      }
      if Below(best, alpha) {
        BestOfBeatsAll(moves, values, player, |moves|);
        MinCutoff(alpha, beta, best.n, values[i], BestOf(moves, values, player, |moves|).1.n);
        return;
      }
      z := Min(z, best);
      i := i + 1;
    }
    MinExit(alpha, beta, best, BestOf(moves, values, player, |moves|).1.n);
  }

  // --------------------------------------------------------- get_computer_move

  /** `get_computer_move`: search three plies deep as player
      `whichPlayer + 1` (the caller passes 0 or 1) with the window
      (-inf, +inf) and answer the best column, 1-indexed. On a board whose
      game is over the search has no move and `None + 1` raises; that is
      `None` here. */
  method GetComputerMove(b: Board, whichPlayer: int) returns (choice: Option<int>)
    requires Rectangular(b)
    ensures choice.Some? <==> !GameOutcome(b).0
    ensures choice.Some? ==> 1 <= choice.value <= Width(b) && IsValid(b, choice.value - 1)
    ensures choice.Some? ==> Search(b, whichPlayer + 1, 3).0 == Some(choice.value - 1)
  {
    var best, score := Minimax(b, whichPlayer + 1, 3, NegInf, PosInf);
    if best.None? {
      choice := None;
    } else {
      choice := Some(best.value + 1);
    }
  }
}
