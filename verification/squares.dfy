/** The two value types every other module builds on: the side that owns a
    square and the immutable (side, spots) pair stored in each grid cell. */
module Squares {

  /** RED and BLUE are the players; WHITE marks an unowned square. */
  datatype Side = RED | BLUE | WHITE

  /** Swaps the players; WHITE has no opponent and maps to itself. */
  function Opposite(s: Side): Side
  {
    match s
    case RED => BLUE
    case BLUE => RED
    case WHITE => WHITE
  }

  /** One grid cell.  Spots are a Java int in the source; `set` never stores a
      negative count, so the model keeps `int` and states non-negativity as
      the `WellFormed` invariant rather than in the type. */
  datatype Square = Square(side: Side, spots: int)

  /** The contents of every square of a fresh or cleared board. */
  const Initial: Square := Square(WHITE, 0)

  /** An absent result, standing for Java's `null`. */
  datatype Option<T> = None | Some(value: T)

  /** A square is well formed when its count is non-negative and it is
      unowned exactly when it holds no spots. */
  predicate WellFormed(q: Square)
  {
    q.spots >= 0 && (q.spots == 0 <==> q.side == WHITE)
  }
}
