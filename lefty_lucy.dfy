/** The player of players/lefty-lucy.py: always the leftmost valid move. */
module LeftyLucy {
  import opened Wrappers
  import opened Utils

  /** `get_computer_move`: the first valid move, 1-indexed. On a full board
      there is no valid move and `valid_moves[0]` raises; that is `None`
      here. Otherwise the column is not full and every column to its left
      is. */
  function GetComputerMove(b: Board, whichPlayer: int): (choice: Option<int>)
    requires Rectangular(b)
    ensures choice.None? <==> Full(b)
    ensures choice.Some? ==> 1 <= choice.value <= Width(b) && IsValid(b, choice.value - 1)
    ensures choice.Some? ==> forall c :: 0 <= c < choice.value - 1 ==> !IsValid(b, c)
  {
    NoValidMovesIffFull(b);
    var moves := ValidMoves(b);
    if moves == [] then None
    else
      assert moves[0] in moves;
      assert forall c :: c in moves ==> moves[0] <= c by {
        forall c | c in moves
          ensures moves[0] <= c
        {
          var i :| 0 <= i < |moves| && moves[i] == c;
          if 0 < i {
            assert moves[0] < moves[i];
          }
        }
      }
      Some(moves[0] + 1)
  }
}
