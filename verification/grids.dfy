/** Whole-grid queries and the single-square write of the board engine.  A
    grid is the row-major list of the N*N squares: square number S is the
    cell at row S/N + 1, column S%N + 1. */
module Grids {
  import opened Squares
  import opened Geometry

  /** `numPieces()`: the total number of spots on the grid. */
  function NumPieces(g: seq<Square>): int
  {
    if g == [] then 0 else g[0].spots + NumPieces(g[1..])
  }

  /** `numOfSide(side)`: how many squares SIDE owns. */
  function NumOfSide(g: seq<Square>, side: Side): (k: nat)
    ensures k <= |g|
  {
    if g == [] then 0 else (if g[0].side == side then 1 else 0) + NumOfSide(g[1..], side)
  }

  /** Every square of G belongs to SIDE. */
  predicate Monochrome(g: seq<Square>, side: Side)
  {
    forall i :: 0 <= i < |g| ==> g[i].side == side
  }

  /** Every square of G is well formed. */
  predicate AllWellFormed(g: seq<Square>)
  {
    forall i :: 0 <= i < |g| ==> WellFormed(g[i])
  }

  /** A side owns as many squares as there are exactly when it owns all of them. */
  lemma {:induction false} NumOfSideFull(g: seq<Square>, side: Side)
    ensures NumOfSide(g, side) == |g| <==> Monochrome(g, side)
  {
    if g != [] {
      NumOfSideFull(g[1..], side);
      if Monochrome(g, side) {
        assert Monochrome(g[1..], side) by {
          forall i | 0 <= i < |g[1..]|
            ensures g[1..][i].side == side
          {
            assert g[1..][i] == g[i + 1];
          }
        }
      }
      if NumOfSide(g, side) == |g| {
        forall i | 0 <= i < |g|
          ensures g[i].side == side
        {
          if i > 0 {
            assert g[i] == g[1..][i - 1];
          }
        }
      }
    }
  }

  /** Every square belongs to exactly one of the three sides. */
  lemma {:induction false} NumOfSidesPartition(g: seq<Square>)
    ensures NumOfSide(g, RED) + NumOfSide(g, BLUE) + NumOfSide(g, WHITE) == |g|
  {
    if g != [] {
      NumOfSidesPartition(g[1..]);
    }
  }

  /** Replacing one square changes the spot total by the difference of counts. */
  lemma {:induction false} NumPiecesUpdate(g: seq<Square>, i: int, v: Square)
    requires 0 <= i < |g|
    ensures NumPieces(g[i := v]) == NumPieces(g) - g[i].spots + v.spots
  {
    if i > 0 {
      assert g[i := v][1..] == g[1..][i - 1 := v];
      NumPiecesUpdate(g[1..], i - 1, v);
    } else {
      assert g[i := v][1..] == g[1..];
    }
  }

  /** `getWinner()`: RED if RED owns every square, else BLUE if BLUE does,
      else none.  The source compares each count with size*size, which is
      the length of the grid. */
  function Winner(g: seq<Square>): Option<Side>
  {
    if NumOfSide(g, RED) == |g| then Some(RED)
    else if NumOfSide(g, BLUE) == |g| then Some(BLUE)
    else None
  }

  /** There is a winner exactly when one player owns every square; the
      winner is a player and owns every square.  On a non-empty grid at most
      one side can qualify, so testing RED first decides nothing. */
  lemma WinnerOwnsAll(g: seq<Square>)
    requires g != []
    ensures Winner(g).Some? <==> Monochrome(g, RED) || Monochrome(g, BLUE)
    ensures Winner(g).Some? ==> Winner(g).value != WHITE && Monochrome(g, Winner(g).value)
    ensures Winner(g) == Some(RED) <==> Monochrome(g, RED)
    ensures Winner(g) == Some(BLUE) <==> Monochrome(g, BLUE)
  {
    NumOfSideFull(g, RED);
    NumOfSideFull(g, BLUE);
    assert g[0] in g;
  }

  /** A grid holding two squares of different sides has no winner. */
  lemma MixedHasNoWinner(g: seq<Square>, i: int, j: int)
    requires 0 <= i < |g| && 0 <= j < |g| && g[i].side != g[j].side
    ensures Winner(g) == None
  {
    WinnerOwnsAll(g);
  }

  /** `whoseMove()`: RED when the spot total plus the board size is even.
      Java's `(x & 1) == 0` and Dafny's `x % 2 == 0` agree on every int. */
  function WhoseMove(n: int, g: seq<Square>): Side
  {
    if (NumPieces(g) + n) % 2 == 0 then RED else BLUE
  }

  /** One more spot hands the move to the other side. */
  lemma WhoseMoveFlips(n: int, g: seq<Square>, h: seq<Square>)
    requires NumPieces(h) == NumPieces(g) + 1
    ensures WhoseMove(n, h) == Opposite(WhoseMove(n, g))
  {
  }

  /** `isOverFlow(s)`: square S holds more spots than it has neighbours. */
  predicate IsOverFlow(n: int, g: seq<Square>, s: int)
    requires n >= 1 && 0 <= s < |g|
  {
    g[s].spots > NeighborsSq(n, s)
  }

  /** `internalSet(s, num, player)`: square S gets NUM spots, coloured PLAYER
      unless NUM is 0, when it becomes WHITE; a square number off the board
      (the source's `exists(s)`, that is 0 <= S < size*size) leaves the grid
      alone. */
  function InternalSet(g: seq<Square>, s: int, num: int, player: Side): (r: seq<Square>)
    ensures |r| == |g|
    ensures 0 <= s < |g| ==> r[s].spots == num && r[s].side == (if num == 0 then WHITE else player)
    ensures forall i :: 0 <= i < |g| && i != s ==> r[i] == g[i]
    ensures !(0 <= s < |g|) ==> r == g
  {
    if 0 <= s < |g| then
      var q := if num == 0 then Square(WHITE, num) else Square(player, num);
      g[s := q]
    else g
  }

  /** Writing NUM spots into an existing square changes the spot total by
      the difference of counts. */
  lemma InternalSetPieces(g: seq<Square>, s: int, num: int, player: Side)
    requires 0 <= s < |g|
    ensures NumPieces(InternalSet(g, s, num, player)) == NumPieces(g) - g[s].spots + num
  {
    NumPiecesUpdate(g, s, InternalSet(g, s, num, player)[s]);
    assert InternalSet(g, s, num, player) == g[s := InternalSet(g, s, num, player)[s]];
  }
}
