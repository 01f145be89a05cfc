/** The board object: its size, its grid of squares and its undo history,
    a stack of grid snapshots, one pushed by every `markUndo`.  Every
    operation is a pure function from the old board to the new one. */
module Boards {
  import opened Squares
  import opened Geometry
  import opened Grids
  import opened Cascade

  /** `_size`, `_squares` (flattened row-major) and `_history`, each
      snapshot being the `savedCells` of one `GameState`. */
  datatype Board = Board(size: int, grid: seq<Square>, history: seq<seq<Square>>)

  /** The shape every board has: a positive size, N*N squares, and
      snapshots of the same shape (a `GameState` is always allocated at the
      board's current size, and `clear` and `copy` drop the old ones). */
  predicate Valid(b: Board)
  {
    b.size >= 1 && |b.grid| == b.size * b.size
    && forall k :: 0 <= k < |b.history| ==> |b.history[k]| == b.size * b.size
  }

  /** The last snapshot is the current grid: true after every operation
      that ends with `markUndo`, and after every `undo`. */
  predicate Synced(b: Board)
  {
    |b.history| >= 1 && b.history[|b.history| - 1] == b.grid
  }

  /** A grid of N*N INITIAL squares (none when N is 0; a negative N fails
      to allocate in the source). */
  function Blank(n: int): (g: seq<Square>)
    requires n >= 0
    ensures |g| == n * n && forall i :: 0 <= i < |g| ==> g[i] == Initial
  {
    seq(n * n, _ => Initial)
  }

  /** `Board(N)`, and `clear(N)`, which discards everything the board held:
      N*N INITIAL squares and a history holding just that grid.  N = 0
      gives the empty board, which `getWinner` already reports as RED's
      since RED owns all of its no squares. */
  function Clear(n: int): (b: Board)
    requires n >= 0
    ensures Synced(b) && |b.history| == 1 && b.size == n && |b.grid| == n * n
    ensures Valid(b) <==> n >= 1
    ensures forall i :: 0 <= i < |b.grid| ==> b.grid[i] == Initial
    ensures n == 0 ==> Winner(b.grid) == Some(RED)
  {
    var g := Blank(n);
    Board(n, g, [g])
  }

  /** `markUndo()`: push a snapshot of the current grid. */
  function MarkUndo(b: Board): (r: Board)
    requires Valid(b)
    ensures Valid(r) && Synced(r) && r.size == b.size && r.grid == b.grid
    ensures |r.history| == |b.history| + 1 && r.history[..|b.history|] == b.history
  {
    Board(b.size, b.grid, b.history + [b.grid])
  }

  /** `undo()`: with no history nothing happens; otherwise the last
      snapshot is dropped and the one below it restored.  The source fails
      at `getLast` when exactly one snapshot is left, so that case is
      excluded. */
  function Undo(b: Board): (r: Board)
    requires Valid(b) && |b.history| != 1
    ensures Valid(r) && r.size == b.size
    ensures b.history == [] ==> r == b
    ensures b.history != [] ==> Synced(r) && r.history + [b.history[|b.history| - 1]] == b.history
  {
    if b.history == [] then b
    else
      var h := b.history[..|b.history| - 1];
      Board(b.size, h[|h| - 1], h)
  }

  /** `get(n)`: the square numbered S, or nothing (the source's null) when S
      is not a square number. */
  function Get(b: Board, s: int): (q: Option<Square>)
    requires Valid(b)
    ensures q.Some? <==> ExistsSq(b.size, s)
    ensures q.Some? ==> q.value == b.grid[s]
  {
    if ExistsSq(b.size, s) then Some(b.grid[s]) else None
  }

  /** `get(r, c)`: the square at row R, column C, or nothing. */
  function GetRC(b: Board, r: int, c: int): (q: Option<Square>)
    requires Valid(b)
    ensures q.Some? <==> ExistsRC(b.size, r, c)
    ensures q.Some? ==> q.value == b.grid[SqNum(b.size, r, c)]
  {
    if ExistsRC(b.size, r, c) then (SqNumExists(b.size, r, c); Get(b, SqNum(b.size, r, c))) else None
  }

  /** `internalSet(r, c, num, player)`: the square-number `internalSet` at
      (R, C) when that position exists, nothing otherwise. */
  function InternalSetRC(b: Board, r: int, c: int, num: int, player: Side): (res: Board)
    requires Valid(b)
    ensures Valid(res) && res.size == b.size && res.history == b.history
    ensures ExistsRC(b.size, r, c) ==>
      var s := SqNum(b.size, r, c);
      && 0 <= s < |res.grid|
      && res.grid[s] == Square(if num == 0 then WHITE else player, num)
      && forall i :: 0 <= i < |res.grid| && i != s ==> res.grid[i] == b.grid[i]
    ensures !ExistsRC(b.size, r, c) ==> res == b
  {
    if ExistsRC(b.size, r, c) then
      SqNumExists(b.size, r, c);
      b.(grid := InternalSet(b.grid, SqNum(b.size, r, c), num, player))
    else b
  }

  /** `set(r, c, num, player)`: a positive count is written in PLAYER's
      colour and a zero count as WHITE; a negative count, or a position off
      the board, leaves the board as it is. */
  function Set(b: Board, r: int, c: int, num: int, player: Side): (res: Board)
    requires Valid(b)
    ensures Valid(res) && res.size == b.size && res.history == b.history
    ensures ExistsRC(b.size, r, c) && num >= 0 ==>
      var s := SqNum(b.size, r, c);
      && 0 <= s < |res.grid|
      && res.grid[s] == Square(if num == 0 then WHITE else player, num)
      && forall i :: 0 <= i < |res.grid| && i != s ==> res.grid[i] == b.grid[i]
    ensures !ExistsRC(b.size, r, c) || num < 0 ==> res == b
  {
    if num > 0 then InternalSetRC(b, r, c, num, player)
    else if num == 0 then InternalSetRC(b, r, c, num, WHITE)
    else b
  }

  /** The first step of `addSpot(player, r, c)`: `set` (R, C) to one more
      spot than it holds, in PLAYER's colour. */
  function Place(b: Board, player: Side, r: int, c: int): (res: Board)
    requires Valid(b) && ExistsRC(b.size, r, c)
    ensures Valid(res) && res.size == b.size && res.history == b.history
  {
    SqNumExists(b.size, r, c);
    Set(b, r, c, b.grid[SqNum(b.size, r, c)].spots + 1, player)
  }

  /** The second step: the cascade from square S when it is over-full. */
  function Overflow(n: int, g: seq<Square>, s: int, fuel: nat): (h: seq<Square>)
    requires n >= 1 && |g| == n * n && ExistsSq(n, s)
    ensures |h| == |g|
    ensures !IsOverFlow(n, g, s) ==> h == g
  {
    if IsOverFlow(n, g, s) then Jump(n, g, s, fuel).grid else g
  }

  /** `addSpot(player, r, c)`: one more spot on (R, C) in PLAYER's colour,
      the overflow cascade from that square if it is now over-full, and a
      snapshot of the result.  The source dereferences `get(r, c)`, so (R,
      C) must exist; FUEL bounds the cascade. */
  function AddSpot(b: Board, player: Side, r: int, c: int, fuel: nat): (res: Board)
    requires Valid(b) && ExistsRC(b.size, r, c)
    ensures Valid(res) && Synced(res) && res.size == b.size
    ensures res.history == b.history + [res.grid]
  {
    SqNumExists(b.size, r, c);
    var put := Place(b, player, r, c);
    MarkUndo(put.(grid := Overflow(b.size, put.grid, SqNum(b.size, r, c), fuel)))
  }

  /** `addSpot(player, n)`: the same, addressing the square by number. */
  function AddSpotSq(b: Board, player: Side, s: int, fuel: nat): (res: Board)
    requires Valid(b) && ExistsSq(b.size, s)
    ensures Valid(res) && Synced(res) && res.size == b.size
    ensures res.history == b.history + [res.grid]
  {
    SquareRoundTrip(b.size, s);
    AddSpot(b, player, Row(b.size, s), Col(b.size, s), fuel)
  }

  /** `whoseMove()` of the board. */
  function ToMove(b: Board): Side
  {
    WhoseMove(b.size, b.grid)
  }

  /** `isLegal(player)`: it is PLAYER's turn. */
  predicate IsLegalTurn(b: Board, player: Side)
  {
    ToMove(b) == player
  }

  /** `isLegal(player, n)`. */
  predicate IsLegalSq(b: Board, player: Side, s: int)
    requires Valid(b)
  {
    if !ExistsSq(b.size, s) then false
    else if b.grid[s].spots > Neighbors(b.size, Row(b.size, s), Col(b.size, s)) then false
    else if Winner(b.grid).Some? then false
    else IsLegalTurn(b, player) && b.grid[s].side != Opposite(player)
  }

  /** `isLegal(player, r, c)`. */
  predicate IsLegalRC(b: Board, player: Side, r: int, c: int)
    requires Valid(b)
  {
    ExistsRC(b.size, r, c) && IsLegalSq(b, player, SqNum(b.size, r, c))
  }

  /** A move is legal exactly when the square exists, holds no more spots
      than it has adjacent squares, the game is not over, it is PLAYER's
      turn and the square is not the opponent's; addressing the same square
      by (row, column) gives the same answer. */
  lemma IsLegalExact(b: Board, player: Side, s: int)
    requires Valid(b)
    ensures IsLegalSq(b, player, s) <==>
      && ExistsSq(b.size, s)
      && b.grid[s].spots <= |NeighborList(b.size, s)|
      && Winner(b.grid) == None
      && ToMove(b) == player
      && b.grid[s].side != Opposite(player)
    ensures ExistsSq(b.size, s) ==> (IsLegalRC(b, player, Row(b.size, s), Col(b.size, s)) <==> IsLegalSq(b, player, s))
  {
    if ExistsSq(b.size, s) {
      NeighborListExact(b.size, s);
      SquareRoundTrip(b.size, s);
    }
  }

  /** `equals(obj)` between two boards: same size and, square by square,
      the same side and the same number of spots.  The history is not
      compared.  Equal boards have equal `hashCode()`s. */
  method Equals(a: Board, b: Board) returns (eq: bool)
    requires Valid(a) && Valid(b)
    ensures eq <==> a.size == b.size && a.grid == b.grid
    ensures eq ==> Hash(a) == Hash(b)
  {
    if a.size != b.size {
      return false;
    }
    var i := 0;
    while i < |a.grid|
      invariant 0 <= i <= |a.grid|
      invariant a.grid[..i] == b.grid[..i]
    {
      if a.grid[i].side != b.grid[i].side || a.grid[i].spots != b.grid[i].spots {
        assert a.grid[i] != b.grid[i];
        return false;
      }
      assert a.grid[..i + 1] == a.grid[..i] + [a.grid[i]];
      assert b.grid[..i + 1] == b.grid[..i] + [b.grid[i]];
      i := i + 1;
    }
    assert a.grid == a.grid[..i] && b.grid == b.grid[..i];
    return true;
  }

  /** `hashCode()`: the spot total. */
  function Hash(b: Board): int
  {
    NumPieces(b.grid)
  }

  /** What `copy` stores for a square: its count, and its side unless the
      count is zero, when `internalSet` writes WHITE. */
  function Copied(q: Square): Square
  {
    Square(if q.spots == 0 then WHITE else q.side, q.spots)
  }

  /** `copy(board)` and the `Board(board0)` constructor: the size and every
      square of SRC, written one by one through `internalSet(row(i),
      col(i), ...)`, then a history holding just the copied grid.  A
      well-formed source is copied exactly. */
  method Copy(src: Board) returns (b: Board)
    requires Valid(src)
    ensures Valid(b) && Synced(b) && |b.history| == 1 && b.size == src.size
    ensures |b.grid| == |src.grid| && forall i :: 0 <= i < |b.grid| ==> b.grid[i] == Copied(src.grid[i])
    ensures AllWellFormed(src.grid) ==> b.grid == src.grid
  {
    var n := src.size;
    b := Board(n, Blank(n), []);
    var i := 0;
    while i < n * n
      invariant 0 <= i <= n * n
      invariant Valid(b) && b.size == n && b.history == []
      invariant forall k :: 0 <= k < i ==> b.grid[k] == Copied(src.grid[k])
    {
      SquareRoundTrip(n, i);
      b := InternalSetRC(b, Row(n, i), Col(n, i), src.grid[i].spots, src.grid[i].side);
      i := i + 1;
    }
    b := MarkUndo(b);
    if AllWellFormed(src.grid) {
      assert forall k :: 0 <= k < |b.grid| ==> Copied(src.grid[k]) == src.grid[k];
    }
  }

  /** Undoing a move restores the board as it was before it: the grid of
      the snapshot pushed by the previous `markUndo` and the history as it
      was. */
  lemma UndoAddSpot(b: Board, player: Side, r: int, c: int, fuel: nat)
    requires Valid(b) && Synced(b) && ExistsRC(b.size, r, c)
    ensures Undo(AddSpot(b, player, r, c, fuel)) == b
  {
    var a := AddSpot(b, player, r, c, fuel);
    assert a == Board(b.size, a.grid, b.history + [a.grid]);
    UndoAfterPush(b, a.grid);
  }

  /** The same for a move addressed by square number. */
  lemma UndoAddSpotSq(b: Board, player: Side, s: int, fuel: nat)
    requires Valid(b) && Synced(b) && ExistsSq(b.size, s)
    ensures Undo(AddSpotSq(b, player, s, fuel)) == b
  {
    SquareRoundTrip(b.size, s);
    UndoAddSpot(b, player, Row(b.size, s), Col(b.size, s), fuel);
  }

  /** Undoing a pushed snapshot restores a synced board. */
  lemma UndoAfterPush(b: Board, g: seq<Square>)
    requires Valid(b) && Synced(b) && |g| == b.size * b.size
    ensures Undo(Board(b.size, g, b.history + [g])) == b
  {
    assert (b.history + [g])[..|b.history|] == b.history;
  }

  /** Placing the spot on a well-formed board adds one spot, keeps every
      square well formed, and changes only (R, C), to PLAYER's. */
  lemma PlaceFacts(b: Board, player: Side, r: int, c: int)
    requires Valid(b) && ExistsRC(b.size, r, c) && AllWellFormed(b.grid) && player != WHITE
    ensures var p := Place(b, player, r, c);
      && NumPieces(p.grid) == NumPieces(b.grid) + 1
      && AllWellFormed(p.grid) && ChangedTo(b.grid, p.grid, player)
  {
    SqNumExists(b.size, r, c);
    var s := SqNum(b.size, r, c);
    assert WellFormed(b.grid[s]);
    InternalSetPieces(b.grid, s, b.grid[s].spots + 1, player);
    assert Place(b, player, r, c).grid == InternalSet(b.grid, s, b.grid[s].spots + 1, player);
  }

  /** The cascade step keeps the spot total. */
  lemma OverflowConserves(n: int, g: seq<Square>, s: int, fuel: nat)
    requires n >= 1 && |g| == n * n && ExistsSq(n, s)
    ensures NumPieces(Overflow(n, g, s, fuel)) == NumPieces(g)
  {
    if IsOverFlow(n, g, s) {
      JumpConserves(n, g, s, fuel);
    }
  }

  /** On a well-formed grid the cascade step keeps every square well formed
      and colours what it changes with the side that just moved. */
  lemma OverflowColours(n: int, g: seq<Square>, s: int, fuel: nat)
    requires n >= 1 && |g| == n * n && ExistsSq(n, s) && AllWellFormed(g)
    ensures var h := Overflow(n, g, s, fuel);
      AllWellFormed(h) && ChangedTo(g, h, Opposite(WhoseMove(n, g)))
  {
    if IsOverFlow(n, g, s) {
      JumpKeepsWellFormed(n, g, s, fuel);
    }
  }

  /** A move on a well-formed board adds exactly one spot to the board. */
  lemma AddSpotPieces(b: Board, player: Side, r: int, c: int, fuel: nat)
    requires Valid(b) && ExistsRC(b.size, r, c) && AllWellFormed(b.grid) && player != WHITE
    ensures NumPieces(AddSpot(b, player, r, c, fuel).grid) == NumPieces(b.grid) + 1
  {
    SqNumExists(b.size, r, c);
    var p := Place(b, player, r, c);
    PlaceFacts(b, player, r, c);
    OverflowConserves(b.size, p.grid, SqNum(b.size, r, c), fuel);
  }

  /** A move on a well-formed board passes the turn to the other side. */
  lemma AddSpotPassesTurn(b: Board, player: Side, r: int, c: int, fuel: nat)
    requires Valid(b) && ExistsRC(b.size, r, c) && AllWellFormed(b.grid) && player != WHITE
    ensures ToMove(AddSpot(b, player, r, c, fuel)) == Opposite(ToMove(b))
  {
    AddSpotPieces(b, player, r, c, fuel);
    WhoseMoveFlips(b.size, b.grid, AddSpot(b, player, r, c, fuel).grid);
  }

  /** A move by the side to move keeps every square well formed, and every
      square it changes ends up that side's. */
  lemma AddSpotColours(b: Board, player: Side, r: int, c: int, fuel: nat)
    requires Valid(b) && ExistsRC(b.size, r, c) && AllWellFormed(b.grid) && player == ToMove(b)
    ensures var a := AddSpot(b, player, r, c, fuel);
      AllWellFormed(a.grid) && ChangedTo(b.grid, a.grid, player)
  {
    SqNumExists(b.size, r, c);
    var p := Place(b, player, r, c);
    PlaceFacts(b, player, r, c);
    WhoseMoveFlips(b.size, b.grid, p.grid);
    OverflowColours(b.size, p.grid, SqNum(b.size, r, c), fuel);
    var h := Overflow(b.size, p.grid, SqNum(b.size, r, c), fuel);
    assert ChangedTo(b.grid, h, player) by {
      forall i | 0 <= i < |h|
        ensures h[i] == b.grid[i] || h[i].side == player
      {
        assert h[i] == p.grid[i] || h[i].side == player;
      }
    }
  }

  /** The spot lands on (R, C).  When that leaves the square no fuller than
      it has neighbours, the move changes nothing else: the grid is the old
      one with (R, C) holding one more spot in PLAYER's colour.  When it
      overflows, a move by the side to move still leaves (R, C) owned by
      that side with at least one spot. */
  lemma AddSpotLands(b: Board, player: Side, r: int, c: int, fuel: nat)
    requires Valid(b) && ExistsRC(b.size, r, c) && AllWellFormed(b.grid)
    ensures var s := SqNum(b.size, r, c);
      var a := AddSpot(b, player, r, c, fuel);
      && 0 <= s < |b.grid|
      && (b.grid[s].spots + 1 <= NeighborsSq(b.size, s) ==>
            a.grid == b.grid[s := Square(player, b.grid[s].spots + 1)])
      && (b.grid[s].spots + 1 > NeighborsSq(b.size, s) && player == ToMove(b) ==>
            a.grid[s].side == player && a.grid[s].spots >= 1)
  {
    SqNumExists(b.size, r, c);
    var s := SqNum(b.size, r, c);
    assert WellFormed(b.grid[s]);
    var p := Place(b, player, r, c);
    assert p.grid == b.grid[s := Square(player, b.grid[s].spots + 1)];
    if b.grid[s].spots + 1 > NeighborsSq(b.size, s) && player == ToMove(b) {
      PlaceFacts(b, player, r, c);
      WhoseMoveFlips(b.size, b.grid, p.grid);
      OverflowColours(b.size, p.grid, s, fuel);
      var h := Overflow(b.size, p.grid, s, fuel);
      assert h[s] == p.grid[s] || h[s].side == player;
      assert WellFormed(h[s]);
    }
  }
}
