/** The player of players/middle-mike.py: among the valid moves, the ones
    closest to the middle column, one of them picked at random. */
module MiddleMike {
  import opened Wrappers
  import opened Utils

  /** Twice the `ideal` column: `cols // 2` for an odd number of columns and
      `cols // 2 - 0.5` for an even one, doubled so it stays an integer.
      Both parity branches put the ideal column at (cols - 1) / 2, the
      middle of columns 0 to cols - 1. */
  function TwiceIdeal(cols: nat): (t: int)
    ensures t == cols - 1
  {
    if cols % 2 == 1 then 2 * (cols / 2) else 2 * (cols / 2) - 1
  }

  /** Twice `abs(c - ideal)`. */
  function Distance(cols: nat, c: int): nat {
    var x := 2 * c - TwiceIdeal(cols);
    if x < 0 then -x else x
  }

  /** The distance is twice how far column `c` lies from the middle, on
      either side, and it is zero exactly at the middle. */
  lemma DistanceFromMiddle(cols: nat, c: int)
    ensures Distance(cols, c) == 2 * c - (cols - 1) || Distance(cols, c) == (cols - 1) - 2 * c
    ensures Distance(cols, c) == 0 <==> 2 * c == cols - 1
  {
  }

  /** `np.min(distance)`, taken pairwise from the left. */
  function MinDistance(cols: nat, moves: seq<int>): nat
    requires moves != []
  {
    if |moves| == 1 then Distance(cols, moves[0])
    else
      var rest := MinDistance(cols, moves[1..]);
      if Distance(cols, moves[0]) <= rest then Distance(cols, moves[0]) else rest
  }

  /** `MinDistance` is the distance of one of the moves, and no move is
      closer to the middle. */
  lemma {:induction false} MinDistanceIsLeast(cols: nat, moves: seq<int>)
    requires moves != []
    ensures exists c :: c in moves && Distance(cols, c) == MinDistance(cols, moves)
    ensures forall c :: c in moves ==> MinDistance(cols, moves) <= Distance(cols, c)
  {
    assert moves[0] in moves;
    if |moves| > 1 {
      MinDistanceIsLeast(cols, moves[1..]);
      assert forall c :: c in moves <==> c == moves[0] || c in moves[1..];
    }
  }

  /** The list comprehension: the moves at distance `m`, in their order. */
  function AtDistance(cols: nat, moves: seq<int>, m: nat): (opts: seq<int>)
    requires forall i, j :: 0 <= i < j < |moves| ==> moves[i] < moves[j]
    ensures forall c :: c in opts ==> c in moves
    ensures forall i, j :: 0 <= i < j < |opts| ==> opts[i] < opts[j]
  {
    if moves == [] then []
    else
      var rest := AtDistance(cols, moves[1..], m);
      assert forall c :: c in moves[1..] ==> c in moves;
      forall k | 0 <= k < |rest|
        ensures moves[0] < rest[k]
      {
        assert rest[k] in rest;
        var i :| 0 <= i < |moves[1..]| && moves[1..][i] == rest[k];
        assert moves[i + 1] == rest[k];
      }
      if Distance(cols, moves[0]) == m then [moves[0]] + rest else rest
  }

  /** The comprehension keeps exactly the moves at distance `m`. */
  lemma {:induction false} AtDistanceMembers(cols: nat, moves: seq<int>, m: nat)
    requires forall i, j :: 0 <= i < j < |moves| ==> moves[i] < moves[j]
    ensures forall c :: c in AtDistance(cols, moves, m) <==> c in moves && Distance(cols, c) == m
  {
    if moves != [] {
      AtDistanceMembers(cols, moves[1..], m);
      assert forall c :: c in moves <==> c == moves[0] || c in moves[1..];
    }
  }

  /** `options`: the valid moves whose distance to the middle is least, in
      ascending order; there are some exactly when there are valid moves. */
  function Options(b: Board): (opts: seq<int>)
    requires Rectangular(b)
    ensures opts == [] <==> ValidMoves(b) == []
    ensures forall c :: c in opts ==> c in ValidMoves(b)
    ensures forall i, j :: 0 <= i < j < |opts| ==> opts[i] < opts[j]
  {
    var moves := ValidMoves(b);
    if moves == [] then []
    else
      MinDistanceIsLeast(Width(b), moves);
      AtDistanceMembers(Width(b), moves, MinDistance(Width(b), moves));
      AtDistance(Width(b), moves, MinDistance(Width(b), moves))
  }

  /** A column is an option exactly when it is a valid move and no valid
      move is closer to the middle. */
  lemma OptionsAreClosest(b: Board)
    requires Rectangular(b)
    ensures forall c :: c in Options(b) <==>
      c in ValidMoves(b) && forall c' :: c' in ValidMoves(b) ==> Distance(Width(b), c) <= Distance(Width(b), c')
  {
    var moves := ValidMoves(b);
    if moves != [] {
      var m := MinDistance(Width(b), moves);
      MinDistanceIsLeast(Width(b), moves);
      assert Options(b) == AtDistance(Width(b), moves, m);
      AtDistanceMembers(Width(b), moves, m);
      forall c
        ensures c in Options(b) <==>
          c in moves && forall c' :: c' in moves ==> Distance(Width(b), c) <= Distance(Width(b), c')
      {
        if c in moves && forall c' :: c' in moves ==> Distance(Width(b), c) <= Distance(Width(b), c') {
          var w :| w in moves && Distance(Width(b), w) == m;
        }
      }
    }
  }

  /** Two different columns at the same distance from the middle lie
      symmetrically about it. */
  lemma SameDistanceSymmetric(cols: nat, c: int, c': int)
    requires c != c' && Distance(cols, c) == Distance(cols, c')
    ensures c + c' == cols - 1
  {
  }

  /** No three different columns are equally far from the middle. */
  lemma NoThreeEquidistant(cols: nat, x: int, y: int, z: int)
    requires x < y < z
    ensures Distance(cols, x) != Distance(cols, y) || Distance(cols, y) != Distance(cols, z)
  {
  }

  /** There are at most two options, and two different ones lie
      symmetrically about the middle. */
  lemma AtMostTwoOptions(b: Board)
    requires Rectangular(b)
    ensures |Options(b)| <= 2
    ensures forall c, c' :: c in Options(b) && c' in Options(b) && c != c' ==> c + c' == Width(b) - 1
  {
    var opts := Options(b);
    OptionsAreClosest(b);
    if 2 < |opts| {
      assert opts[0] in opts && opts[1] in opts && opts[2] in opts;
      NoThreeEquidistant(Width(b), opts[0], opts[1], opts[2]);
    }
    forall c, c' | c in opts && c' in opts && c != c'
      ensures c + c' == Width(b) - 1
    {
      SameDistanceSymmetric(Width(b), c, c');
    }
  }

  /** With an odd number of columns, only the centre column is at distance 0. */
  lemma ZeroDistanceIsCentre(cols: nat, c: int)
    requires cols % 2 == 1 && Distance(cols, c) == 0
    ensures c == cols / 2
  {
  }

  /** With an odd number of columns and the centre column not full, the
      centre column is the only option. */
  lemma CentreIsOnlyOption(b: Board)
    requires Rectangular(b) && Width(b) % 2 == 1 && IsValid(b, Width(b) / 2)
    ensures Options(b) == [Width(b) / 2]
  {
    var cols, moves := Width(b), ValidMoves(b);
    var centre := cols / 2;
    assert Distance(cols, centre) == 0;
    assert centre in moves;
    var opts := AtDistance(cols, moves, MinDistance(cols, moves));
    AtDistanceMembers(cols, moves, MinDistance(cols, moves));
    MinDistanceIsLeast(cols, moves);
    assert Options(b) == opts;
    assert MinDistance(cols, moves) == 0;
    forall k | 0 <= k < |opts|
      ensures opts[k] == centre
    {
      assert opts[k] in opts;
      ZeroDistanceIsCentre(cols, opts[k]);
    }
    assert centre in opts;
    OnlyElement(opts, centre);
  }

  /** A strictly ascending list holding `x` and nothing else is `[x]`. */
  lemma OnlyElement(s: seq<int>, x: int)
    requires forall i, j :: 0 <= i < j < |s| ==> s[i] < s[j]
    requires x in s && forall k :: 0 <= k < |s| ==> s[k] == x
    ensures s == [x]
  {
    AscendingSpread(s);
  }

  /** A strictly ascending list of integers spans at least its length. */
  lemma {:induction false} AscendingSpread(s: seq<int>)
    requires 0 < |s| && forall i, j :: 0 <= i < j < |s| ==> s[i] < s[j]
    ensures s[|s| - 1] - s[0] >= |s| - 1
  {
    if 1 < |s| {
      AscendingSpread(s[..|s| - 1]);
      assert s[|s| - 2] < s[|s| - 1];
    }
  }

  /** An option is a column of the board that is not full, so the board is
      not full either. */
  lemma OptionIsValid(b: Board, c: int)
    requires Rectangular(b) && c in Options(b)
    ensures 0 <= c < Width(b) && IsValid(b, c) && !Full(b)
  {
    NoValidMovesIffFull(b);
  }

  /** `get_computer_move`: one option chosen by `random.choice`, 1-indexed.
      The random draw is the parameter `pick`, an index into the options.
      On a full board the option list is empty and `random.choice` raises;
      that is `None` here. */
  function GetComputerMove(b: Board, whichPlayer: int, pick: nat): (choice: Option<int>)
    requires Rectangular(b)
    requires Options(b) != [] ==> pick < |Options(b)|
    ensures choice.None? <==> Full(b)
    ensures choice.Some? ==> 1 <= choice.value <= Width(b) && choice.value - 1 in Options(b) && IsValid(b, choice.value - 1)
  {
    var opts := Options(b);
    if opts == [] then
      NoValidMovesIffFull(b);
      assert Full(b);
      None
    else
      var c := opts[pick];
      assert c in opts;
      OptionIsValid(b, c);
      assert !Full(b);
      Some(c + 1)
  }

  /** With an odd number of columns and the centre column not full, the
      move is always the centre column, whatever the draw. */
  lemma PlaysCentre(b: Board, whichPlayer: int, pick: nat)
    requires Rectangular(b) && Width(b) % 2 == 1 && IsValid(b, Width(b) / 2)
    requires Options(b) != [] ==> pick < |Options(b)|
    ensures GetComputerMove(b, whichPlayer, pick) == Some(Width(b) / 2 + 1)
  {
    CentreIsOnlyOption(b);
    assert Options(b)[pick] == Width(b) / 2;
  }
}
