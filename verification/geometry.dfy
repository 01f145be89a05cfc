/** Square addressing on an N x N board: (row, col) pairs counted from 1,
    row-major square numbers counted from 0, and the orthogonal neighbours
    of a square. */
module Geometry {

  /** Java's `/` on int, which truncates toward zero. */
  function JavaDiv(a: int, b: int): int
    requires b > 0
  {
    if a >= 0 then a / b else -((-a) / b)
  }

  /** Java's `%` on int: the remainder that goes with `JavaDiv`. */
  function JavaRem(a: int, b: int): int
    requires b > 0
  {
    a - JavaDiv(a, b) * b
  }

  /** `exists(r, c)`: row R and column C denote a square. */
  predicate ExistsRC(n: int, r: int, c: int)
  {
    1 <= r <= n && 1 <= c <= n
  }

  /** `exists(s)`: S is a square number. */
  predicate ExistsSq(n: int, s: int)
  {
    0 <= s < n * n
  }

  /** `row(s)`. */
  function Row(n: int, s: int): int
    requires n >= 1
  {
    JavaDiv(s, n) + 1
  }

  /** `col(s)`. */
  function Col(n: int, s: int): int
    requires n >= 1
  {
    JavaRem(s, n) + 1
  }

  /** `sqNum(r, c)`. */
  function SqNum(n: int, r: int, c: int): int
  {
    (c - 1) + (r - 1) * n
  }

  function Dist(a: int, b: int): int
  {
    if a <= b then b - a else a - b
  }

  /** Multiplying by a non-negative N preserves order. */
  lemma MulMono(a: int, b: int, n: int)
    ensures n >= 0 && a >= b ==> a * n >= b * n
  {
    if n >= 0 && a >= b {
      assert a * n - b * n == (a - b) * n;
    }
  }

  /** A multiple of a positive N that lies strictly between -N and N is 0. */
  lemma SmallMultiple(k: int, n: int)
    requires n > 0 && -n < k * n < n
    ensures k == 0
  {
    MulMono(k, 1, n);
    MulMono(-1, k, n);
  }

  /** Euclidean division of Q*N + M by N recovers Q and M. */
  lemma DivModOfSum(q: int, m: int, n: int)
    requires n > 0 && 0 <= m < n
    ensures (q * n + m) / n == q && (q * n + m) % n == m
  {
    var x := q * n + m;
    var d := x / n;
    var e := x % n;
    assert x == d * n + e;
    assert (q - d) * n == q * n - d * n;
    SmallMultiple(q - d, n);
  }

  /** Every existing (row, col) pair has a square number. */
  lemma SqNumExists(n: int, r: int, c: int)
    requires ExistsRC(n, r, c)
    ensures ExistsSq(n, SqNum(n, r, c))
  {
    MulMono(r - 1, 0, n);
    MulMono(n - 1, r - 1, n);
    assert (n - 1) * n == n * n - n;
  }

  /** Every existing (row, col) pair has a square number, and row/col recover it. */
  lemma CoordRoundTrip(n: int, r: int, c: int)
    requires ExistsRC(n, r, c)
    ensures ExistsSq(n, SqNum(n, r, c))
    ensures Row(n, SqNum(n, r, c)) == r && Col(n, SqNum(n, r, c)) == c
  {
    var s := SqNum(n, r, c);
    SqNumExists(n, r, c);
    DivModOfSum(r - 1, c - 1, n);
    assert s == (r - 1) * n + (c - 1);
  }

  /** Every square number names an existing (row, col) pair that maps back to it. */
  lemma SquareRoundTrip(n: int, s: int)
    requires n >= 1 && ExistsSq(n, s)
    ensures ExistsRC(n, Row(n, s), Col(n, s))
    ensures SqNum(n, Row(n, s), Col(n, s)) == s
  {
    var d := s / n;
    var e := s % n;
    assert Row(n, s) == d + 1 && Col(n, s) == e + 1;
    assert s == d * n + e && 0 <= e < n;
    MulMono(d, n, n);
    MulMono(-1, d, n);
    assert 0 <= d < n;
  }

  /** Distinct existing coordinates have distinct square numbers. */
  lemma SqNumInjective(n: int, r1: int, c1: int, r2: int, c2: int)
    requires ExistsRC(n, r1, c1) && ExistsRC(n, r2, c2)
    requires SqNum(n, r1, c1) == SqNum(n, r2, c2)
    ensures r1 == r2 && c1 == c2
  {
    CoordRoundTrip(n, r1, c1);
    CoordRoundTrip(n, r2, c2);
  }

  /** `neighbors(r, c)`: how many of the four orthogonal squares exist.
      (The source only calls it for existing squares, but it is total.) */
  function Neighbors(n: int, r: int, c: int): (k: int)
    ensures ExistsRC(n, r, c) && n == 1 ==> k == 0
    ensures ExistsRC(n, r, c) && n >= 2 && (r == 1 || r == n) && (c == 1 || c == n) ==> k == 2
    ensures ExistsRC(n, r, c) && n >= 2 && ((r == 1 || r == n) != (c == 1 || c == n)) ==> k == 3
    ensures ExistsRC(n, r, c) && 1 < r < n && 1 < c < n ==> k == 4
  {
    (if r > 1 then 1 else 0) + (if c > 1 then 1 else 0)
    + (if r < n then 1 else 0) + (if c < n then 1 else 0)
  }

  /** `neighbors(s)`. */
  function NeighborsSq(n: int, s: int): int
    requires n >= 1
  {
    Neighbors(n, Row(n, s), Col(n, s))
  }

  /** Independent description of a neighbour: both squares exist and their
      coordinates differ by one step in exactly one direction. */
  predicate Adjacent(n: int, s: int, t: int)
  {
    n >= 1 && ExistsSq(n, s) && ExistsSq(n, t)
    && Dist(Row(n, s), Row(n, t)) + Dist(Col(n, s), Col(n, t)) == 1
  }

  /** The square number at (R, C) as a one-element list, or nothing when
      (R, C) is off the board. */
  function Keep(n: int, r: int, c: int): seq<int>
  {
    if ExistsRC(n, r, c) then [SqNum(n, r, c)] else []
  }

  /** The four orthogonal offsets of (R, C) in the order the source's offset
      tables visit them (up, down, left, right), keeping those on the board. */
  function Around(n: int, r: int, c: int): seq<int>
  {
    Keep(n, r - 1, c) + Keep(n, r + 1, c) + Keep(n, r, c - 1) + Keep(n, r, c + 1)
  }

  /** Around an existing square there are `neighbors(r, c)` squares, all
      different, all on the board, none the square itself. */
  lemma AroundFacts(n: int, r: int, c: int)
    requires ExistsRC(n, r, c)
    ensures |Around(n, r, c)| == Neighbors(n, r, c)
    ensures Distinct(Around(n, r, c))
    ensures forall i :: 0 <= i < |Around(n, r, c)| ==>
      ExistsSq(n, Around(n, r, c)[i]) && Around(n, r, c)[i] != SqNum(n, r, c)
  {
    AroundDistinct(n, r, c);
    AroundOnBoard(n, r, c);
  }

  lemma AroundDistinct(n: int, r: int, c: int)
    requires ExistsRC(n, r, c)
    ensures Distinct(Around(n, r, c))
  {
    NeighborsDistinct(n, r, c);
    ConcatDistinct(Keep(n, r - 1, c), Keep(n, r + 1, c), Keep(n, r, c - 1), Keep(n, r, c + 1));
  }

  lemma AroundOnBoard(n: int, r: int, c: int)
    requires ExistsRC(n, r, c)
    ensures forall t :: t in Around(n, r, c) ==> ExistsSq(n, t) && t != SqNum(n, r, c)
  {
    StepNumbers(n, r, c);
    KeepOnBoard(n, r - 1, c);
    KeepOnBoard(n, r + 1, c);
    KeepOnBoard(n, r, c - 1);
    KeepOnBoard(n, r, c + 1);
  }

  lemma KeepOnBoard(n: int, r: int, c: int)
    ensures forall t :: t in Keep(n, r, c) ==> ExistsSq(n, t) && t == SqNum(n, r, c)
  {
    if ExistsRC(n, r, c) {
      SqNumExists(n, r, c);
    }
  }

  /** `forNeighbors(s, action)`: the squares handed to ACTION, in the order the
      offset tables visit them.  What these squares are is stated by
      `NeighborListExact`. */
  function NeighborList(n: int, s: int): seq<int>
    requires n >= 1
  {
    Around(n, Row(n, s), Col(n, s))
  }

  /** `forNeighbors(s)` visits exactly the squares adjacent to S, each once,
      and `neighbors(s)` counts them. */
  lemma NeighborListExact(n: int, s: int)
    requires n >= 1 && ExistsSq(n, s)
    ensures forall t :: t in NeighborList(n, s) <==> Adjacent(n, s, t)
    ensures |NeighborList(n, s)| == NeighborsSq(n, s)
    ensures Distinct(NeighborList(n, s))
  {
    NeighborsSound(n, s);
    NeighborsComplete(n, s);
    NeighborListFacts(n, s);
  }

  /** The facts about `forNeighbors(s)` the cascade relies on: as many
      squares as `neighbors(s)` counts, all different, all on the board,
      none S itself. */
  lemma NeighborListFacts(n: int, s: int)
    requires n >= 1 && ExistsSq(n, s)
    ensures |NeighborList(n, s)| == NeighborsSq(n, s)
    ensures Distinct(NeighborList(n, s))
    ensures forall i :: 0 <= i < |NeighborList(n, s)| ==>
      ExistsSq(n, NeighborList(n, s)[i]) && NeighborList(n, s)[i] != s
  {
    SquareRoundTrip(n, s);
    AroundFacts(n, Row(n, s), Col(n, s));
  }

  /** The neighbour lists of every square of an N x N board, indexed by
      square number: entry S is what `forNeighbors(s)` visits.  The source
      recomputes an entry on every call; the lists never change, and
      tabulating them lets the cascade be stated, and its lemmas proved,
      over any table (see `TwoByTwo` for a concrete one). */
  function Layout(n: int): (adj: seq<seq<int>>)
    requires n >= 1
    ensures |adj| == n * n
    ensures forall s :: 0 <= s < n * n ==> adj[s] == NeighborList(n, s)
  {
    seq(n * n, s => NeighborList(n, s))
  }

  /** A neighbour table: entry S lists distinct squares of the table, none
      of them S itself. */
  predicate TableOk(adj: seq<seq<int>>)
  {
    forall s :: 0 <= s < |adj| ==>
      Distinct(adj[s]) && s !in adj[s] && forall i :: 0 <= i < |adj[s]| ==> 0 <= adj[s][i] < |adj|
  }

  /** The board's table is a neighbour table whose entry S has
      `neighbors(s)` elements. */
  lemma LayoutOk(n: int)
    requires n >= 1
    ensures TableOk(Layout(n))
    ensures forall s :: 0 <= s < n * n ==> |Layout(n)[s]| == NeighborsSq(n, s)
  {
    var adj := Layout(n);
    forall s | 0 <= s < |adj|
      ensures Distinct(adj[s]) && s !in adj[s] && |adj[s]| == NeighborsSq(n, s)
      ensures forall i :: 0 <= i < |adj[s]| ==> 0 <= adj[s][i] < |adj|
    {
      assert adj[s] == NeighborList(n, s);
      NeighborListFacts(n, s);
    }
  }

  /** No value occurs twice in L. */
  predicate Distinct(l: seq<int>)
  {
    forall i, j :: 0 <= i < j < |l| ==> l[i] != l[j]
  }

  lemma AppendDistinct(u: seq<int>, v: seq<int>)
    requires Distinct(u) && Distinct(v)
    requires forall x :: x in u ==> x !in v
    ensures Distinct(u + v)
  {
    var r := u + v;
    forall i, j | 0 <= i < j < |r|
      ensures r[i] != r[j]
    {
      if j < |u| {
        assert r[i] == u[i] && r[j] == u[j];
      } else if i >= |u| {
        assert r[i] == v[i - |u|] && r[j] == v[j - |u|];
      } else {
        assert r[i] == u[i] && r[j] == v[j - |u|];
        assert u[i] in u && v[j - |u|] in v;
      }
    }
  }

  /** Four lists of at most one element each, with no value shared between
      two of them, concatenate to a list without repetitions. */
  lemma ConcatDistinct(a: seq<int>, b: seq<int>, c: seq<int>, d: seq<int>)
    requires |a| <= 1 && |b| <= 1 && |c| <= 1 && |d| <= 1
    requires forall x :: x in a ==> x !in b && x !in c && x !in d
    requires forall x :: x in b ==> x !in c && x !in d
    requires forall x :: x in c ==> x !in d
    ensures Distinct(a + b + c + d)
  {
    AppendDistinct(a, b);
    AppendDistinct(a + b, c);
    AppendDistinct(a + b + c, d);
  }

  /** A square one step away from S, when it exists, is adjacent to S. */
  lemma StepIsAdjacent(n: int, s: int, r: int, c: int)
    requires n >= 1 && ExistsSq(n, s)
    requires Dist(Row(n, s), r) + Dist(Col(n, s), c) == 1
    ensures forall t :: t in Keep(n, r, c) ==> Adjacent(n, s, t)
  {
    if ExistsRC(n, r, c) {
      CoordRoundTrip(n, r, c);
    }
  }

  lemma NeighborsSound(n: int, s: int)
    requires n >= 1 && ExistsSq(n, s)
    ensures forall t :: t in Keep(n, Row(n, s) - 1, Col(n, s)) ==> Adjacent(n, s, t)
    ensures forall t :: t in Keep(n, Row(n, s) + 1, Col(n, s)) ==> Adjacent(n, s, t)
    ensures forall t :: t in Keep(n, Row(n, s), Col(n, s) - 1) ==> Adjacent(n, s, t)
    ensures forall t :: t in Keep(n, Row(n, s), Col(n, s) + 1) ==> Adjacent(n, s, t)
  {
    var row := Row(n, s);
    var col := Col(n, s);
    StepIsAdjacent(n, s, row - 1, col);
    StepIsAdjacent(n, s, row + 1, col);
    StepIsAdjacent(n, s, row, col - 1);
    StepIsAdjacent(n, s, row, col + 1);
  }

  lemma NeighborsComplete(n: int, s: int)
    requires n >= 1 && ExistsSq(n, s)
    ensures forall t :: Adjacent(n, s, t) ==>
      t in Keep(n, Row(n, s) - 1, Col(n, s)) || t in Keep(n, Row(n, s) + 1, Col(n, s))
      || t in Keep(n, Row(n, s), Col(n, s) - 1) || t in Keep(n, Row(n, s), Col(n, s) + 1)
  {
    var row := Row(n, s);
    var col := Col(n, s);
    forall t | Adjacent(n, s, t)
      ensures t in Keep(n, row - 1, col) || t in Keep(n, row + 1, col)
           || t in Keep(n, row, col - 1) || t in Keep(n, row, col + 1)
    {
      var rt := Row(n, t);
      var ct := Col(n, t);
      SquareRoundTrip(n, t);
      assert t == SqNum(n, rt, ct);
    }
  }

  /** Moving one row changes the square number by N, one column by 1. */
  lemma StepNumbers(n: int, r: int, c: int)
    ensures SqNum(n, r - 1, c) == SqNum(n, r, c) - n
    ensures SqNum(n, r + 1, c) == SqNum(n, r, c) + n
    ensures SqNum(n, r, c - 1) == SqNum(n, r, c) - 1
    ensures SqNum(n, r, c + 1) == SqNum(n, r, c) + 1
  {
    assert (r - 2) * n == (r - 1) * n - n;
    assert r * n == (r - 1) * n + n;
  }

  /** On a board with at least two rows the four offsets from an existing
      square name four different squares; on a 1 x 1 board none of them
      exists. */
  lemma NeighborsDistinct(n: int, r: int, c: int)
    requires ExistsRC(n, r, c)
    ensures var up, down := SqNum(n, r - 1, c), SqNum(n, r + 1, c);
      var left, right := SqNum(n, r, c - 1), SqNum(n, r, c + 1);
      n >= 2 ==> up != down && up != left && up != right && down != left && down != right && left != right
    ensures n == 1 ==> (Keep(n, r - 1, c) == [] && Keep(n, r + 1, c) == []
                        && Keep(n, r, c - 1) == [] && Keep(n, r, c + 1) == [])
  {
    StepNumbers(n, r, c);
  }

  /** The neighbour table of a 2 x 2 board (squares 0 1 / 2 3), each list in
      the order up, down, left, right. */
  const TwoByTwo: seq<seq<int>> := [[2, 1], [3, 0], [0, 3], [1, 2]]

  /** `Layout(2)` is that table. */
  lemma LayoutOfTwo()
    ensures Layout(2) == TwoByTwo
  {
    TwoByTwoEntry0();
    TwoByTwoEntry1();
    TwoByTwoEntry2();
    TwoByTwoEntry3();
    FourEntries(Layout(2));
  }

  /** That table is a neighbour table. */
  lemma TwoByTwoOk()
    ensures TableOk(TwoByTwo)
  {
    LayoutOk(2);
    LayoutOfTwo();
  }

  /** Four entries that are each known make the whole table known. */
  lemma FourEntries(adj: seq<seq<int>>)
    requires |adj| == 4 && adj[0] == [2, 1] && adj[1] == [3, 0] && adj[2] == [0, 3] && adj[3] == [1, 2]
    ensures adj == TwoByTwo
  {
  }

  lemma TwoByTwoEntry0()
    ensures NeighborList(2, 0) == [2, 1]
  {
    TwoByTwoCell0();
    TwoByTwoAround0();
  }

  lemma TwoByTwoEntry1()
    ensures NeighborList(2, 1) == [3, 0]
  {
    TwoByTwoCell1();
    TwoByTwoAround1();
  }

  lemma TwoByTwoEntry2()
    ensures NeighborList(2, 2) == [0, 3]
  {
    TwoByTwoCell2();
    TwoByTwoAround2();
  }

  lemma TwoByTwoEntry3()
    ensures NeighborList(2, 3) == [1, 2]
  {
    TwoByTwoCell3();
    TwoByTwoAround3();
  }

  /** Each entry is computed in two small steps of its own: unfolding
      `NeighborList` and then `Around` for all four squares in one proof
      obligation is more arithmetic than the solver can do at once. */
  lemma TwoByTwoCell0() ensures NeighborList(2, 0) == Around(2, 1, 1) {}
  lemma TwoByTwoCell1() ensures NeighborList(2, 1) == Around(2, 1, 2) {}
  lemma TwoByTwoCell2() ensures NeighborList(2, 2) == Around(2, 2, 1) {}
  lemma TwoByTwoCell3() ensures NeighborList(2, 3) == Around(2, 2, 2) {}
  lemma TwoByTwoAround0() ensures Around(2, 1, 1) == [2, 1] {}
  lemma TwoByTwoAround1() ensures Around(2, 1, 2) == [3, 0] {}
  lemma TwoByTwoAround2() ensures Around(2, 2, 1) == [0, 3] {}
  lemma TwoByTwoAround3() ensures Around(2, 2, 2) == [1, 2] {}
}
