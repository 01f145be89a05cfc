/** The automated player: candidate moves, the static evaluation, and the
    alpha-beta search `minMax`, which plays each candidate on the board,
    searches the reply, and undoes the move again. */
module Search {
  import opened Squares
  import opened Geometry
  import opened Grids
  import opened Boards

  /** Java's `Integer.MAX_VALUE`, the search's infinity. */
  const MaxInt: int := 0x7fff_ffff

  /** `WINNNING_VAl`: the value of a won position. */
  const WinningValue: int := 1_000_000

  /** The player's fixed parameters: its own side (`getSide()`), the draw
      that stands for `_random.nextInt(n)` (taken modulo n), and the fuel
      that bounds every cascade the search plays out. */
  datatype Ai = Ai(own: Side, choice: nat, fuel: nat)

  /** A square `findVaildPos` offers to SIDE: an empty one, or one of SIDE's
      that holds no more spots than it has neighbours. */
  predicate Candidate(b: Board, side: Side, i: int)
    requires Valid(b) && 0 <= i < |b.grid|
  {
    b.grid[i].side == WHITE || (b.grid[i].side == side && b.grid[i].spots <= NeighborsSq(b.size, i))
  }

  predicate Increasing(l: seq<int>)
  {
    forall i, j :: 0 <= i < j < |l| ==> l[i] < l[j]
  }

  /** The scan of `findVaildPos` from square number I on. */
  function Scan(b: Board, side: Side, i: int): (l: seq<int>)
    requires Valid(b) && 0 <= i <= |b.grid|
    ensures Increasing(l)
    ensures forall t :: t in l <==> i <= t < |b.grid| && Candidate(b, side, t)
    decreases |b.grid| - i
  {
    if i == |b.grid| then []
    else
      var rest := Scan(b, side, i + 1);
      assert forall j :: 0 <= j < |rest| ==> rest[j] in rest;
      if Candidate(b, side, i) then [i] + rest else rest
  }

  /** `findVaildPos(work, side)`: the candidate squares in increasing
      order. */
  function ValidPositions(b: Board, side: Side): (l: seq<int>)
    requires Valid(b)
    ensures Increasing(l)
    ensures forall t :: t in l <==> 0 <= t < b.size * b.size && Candidate(b, side, t)
  {
    Scan(b, side, 0)
  }

  /** On a well-formed board where SIDE is to move and nobody has won, the
      candidates are exactly the legal moves. */
  lemma CandidatesAreLegal(b: Board, side: Side, t: int)
    requires Valid(b) && AllWellFormed(b.grid) && side != WHITE
    requires ToMove(b) == side && Winner(b.grid) == None
    ensures t in ValidPositions(b, side) <==> IsLegalSq(b, side, t)
  {
    IsLegalExact(b, side, t);
    if ExistsSq(b.size, t) {
      NeighborListExact(b.size, t);
      assert WellFormed(b.grid[t]);
    }
  }

  /** The position behind the stale work queue (`Cascade.WinLeavesQueue`,
      `Cascade.StaleQueueRedirects`): on R2 B2 / B2 R2 RED is to move and its
      candidates are squares 0 and 3, in that order.  Placing RED's spot on
      square 0 gives the grid of the winning cascade, and placing it on
      square 3, the next candidate, gives the grid of the stale one. */
  lemma StaleQueueReached(b: Board)
    requires b.size == 2 && Valid(b)
    requires b.grid == [Square(RED, 2), Square(BLUE, 2), Square(BLUE, 2), Square(RED, 2)]
    ensures ToMove(b) == RED && Winner(b.grid) == None
    ensures ValidPositions(b, RED) == [0, 3]
    ensures Place(b, RED, 1, 1).grid == [Square(RED, 3), Square(BLUE, 2), Square(BLUE, 2), Square(RED, 2)]
    ensures Place(b, RED, 2, 2).grid == [Square(RED, 2), Square(BLUE, 2), Square(BLUE, 2), Square(RED, 3)]
  {
    RedToMoveOnTwo(b);
    RedCandidatesOnTwo(b);
    CornersPlacedOnTwo(b);
  }

  /** On R2 B2 / B2 R2 nobody has won and the even spot total puts RED to
      move. */
  lemma RedToMoveOnTwo(b: Board)
    requires b.size == 2 && Valid(b)
    requires b.grid == [Square(RED, 2), Square(BLUE, 2), Square(BLUE, 2), Square(RED, 2)]
    ensures ToMove(b) == RED && Winner(b.grid) == None
  {
    Cascade.NumPiecesOfFour(b.grid[0], b.grid[1], b.grid[2], b.grid[3]);
    MixedHasNoWinner(b.grid, 0, 1);
  }

  /** RED's spot on (1, 1) and on (2, 2) of R2 B2 / B2 R2. */
  lemma CornersPlacedOnTwo(b: Board)
    requires b.size == 2 && Valid(b)
    requires b.grid == [Square(RED, 2), Square(BLUE, 2), Square(BLUE, 2), Square(RED, 2)]
    ensures Place(b, RED, 1, 1).grid == [Square(RED, 3), Square(BLUE, 2), Square(BLUE, 2), Square(RED, 2)]
    ensures Place(b, RED, 2, 2).grid == [Square(RED, 2), Square(BLUE, 2), Square(BLUE, 2), Square(RED, 3)]
  {
    CornerNumbersOnTwo();
    assert Place(b, RED, 1, 1).grid == b.grid[0 := Square(RED, 3)];
    assert Place(b, RED, 2, 2).grid == b.grid[3 := Square(RED, 3)];
  }

  /** RED's candidates on R2 B2 / B2 R2: its two squares, each holding no
      more spots than its two neighbours. */
  lemma RedCandidatesOnTwo(b: Board)
    requires b.size == 2 && Valid(b)
    requires b.grid == [Square(RED, 2), Square(BLUE, 2), Square(BLUE, 2), Square(RED, 2)]
    ensures ValidPositions(b, RED) == [0, 3]
  {
    RedSquaresOnTwo(b);
    IncreasingPair(ValidPositions(b, RED), 0, 3);
  }

  /** The first three entries of a longer increasing list increase. */
  lemma ThreeIncreasing(l: seq<int>)
    ensures Increasing(l) && |l| > 2 ==> l[0] < l[1] < l[2]
  {
  }

  /** An increasing list holding exactly the values X < Y is [X, Y]. */
  lemma IncreasingPair(l: seq<int>, x: int, y: int)
    requires x < y && Increasing(l)
    requires forall t :: t in l <==> t == x || t == y
    ensures l == [x, y]
  {
    ThreeIncreasing(l);
    assert x in l && y in l;
    forall i | 0 <= i < |l|
      ensures l[i] == x || l[i] == y
    {
      assert l[i] in l;
    }
  }

  lemma RedSquaresOnTwo(b: Board)
    requires b.size == 2 && Valid(b)
    requires b.grid == [Square(RED, 2), Square(BLUE, 2), Square(BLUE, 2), Square(RED, 2)]
    ensures forall t :: 0 <= t < 4 ==> (Candidate(b, RED, t) <==> t == 0 || t == 3)
  {
    TwoNeighborsOnTwo();
  }

  /** Every square of a 2 x 2 board has two neighbours. */
  lemma TwoNeighborsOnTwo()
    ensures forall s :: 0 <= s < 4 ==> NeighborsSq(2, s) == 2
  {
    LayoutOk(2);
    LayoutOfTwo();
  }

  /** Rows and columns 1 1 and 2 2 of a 2 x 2 board are squares 0 and 3. */
  lemma CornerNumbersOnTwo()
    ensures ExistsRC(2, 1, 1) && SqNum(2, 1, 1) == 0
    ensures ExistsRC(2, 2, 2) && SqNum(2, 2, 2) == 3
  {
    CoordRoundTrip(2, 1, 1);
    CoordRoundTrip(2, 2, 2);
  }

  /** `staticEval(b, winningValue)`: plus or minus WINNINGVALUE on a won
      board (RED's win positive), otherwise the squares that the player's
      own side or nobody holds, negated when the player is not RED. */
  function StaticEval(ai: Ai, b: Board, winningValue: int): (v: int)
    requires Valid(b)
    ensures Winner(b.grid) == Some(RED) ==> v == winningValue
    ensures Winner(b.grid) == Some(BLUE) ==> v == -winningValue
    ensures Winner(b.grid) == None && ai.own == RED ==> 0 <= v <= |b.grid|
    ensures Winner(b.grid) == None && ai.own == BLUE ==> -|b.grid| <= v <= 0
  {
    NumOfSidesPartition(b.grid);
    var own := ai.own;
    match Winner(b.grid)
    case Some(w) =>
      WinnerOwnsAll(b.grid);
      if w == BLUE then -winningValue else winningValue
    case None =>
      if own == RED then NumOfSide(b.grid, own) + NumOfSide(b.grid, WHITE)
      else -(NumOfSide(b.grid, own) + NumOfSide(b.grid, WHITE))
  }

  /** Without a winner, the evaluation counts the squares the opponent does
      not hold: positively for a RED player, negatively for a BLUE one. */
  lemma EvalCountsNotOpponent(ai: Ai, b: Board, winningValue: int)
    requires Valid(b) && Winner(b.grid) == None && ai.own != WHITE
    ensures StaticEval(ai, b, winningValue)
      == (if ai.own == RED then 1 else -1) * (|b.grid| - NumOfSide(b.grid, Opposite(ai.own)))
  {
    NumOfSidesPartition(b.grid);
  }

  /** One `minMax` call: DEPTH, SAVEMOVE, SENSE, the window ALPHA..BETA it
      was given, and the tie list `foundMoves` as it stood on entry (a field
      of the player, not cleared between searches). */
  datatype Node = Node(depth: nat, save: bool, sense: int, alpha: int, beta: int, found: seq<int>)

  /** The side `minMax` plays: RED exactly when SENSE is 1. */
  function SideOf(sense: int): Side
  {
    if sense == 1 then RED else BLUE
  }

  /** `bestSoFar`'s starting value, the worst possible for the mover. */
  function Worst(sense: int): int
  {
    -sense * MaxInt
  }

  /** X is at least as good as Y for the side SENSE plays: larger for RED,
      smaller for BLUE. */
  predicate AtLeast(sense: int, x: int, y: int)
  {
    if sense == 1 then x >= y else x <= y
  }

  function Max(a: int, b: int): int
  {
    if a >= b then a else b
  }

  function Min(a: int, b: int): int
  {
    if a <= b then a else b
  }

  /** The examined moves whose value is V, in the order examined. */
  function Ties(moves: seq<int>, values: seq<int>, v: int): seq<int>
    requires |moves| == |values|
  {
    if moves == [] then []
    else
      var k := |moves| - 1;
      Ties(moves[..k], values[..k], v) + (if values[k] == v then [moves[k]] else [])
  }

  /** The loop variables of `minMax`: the board, `bestSoFar`, the current
      window, `foundMoves`, and (for the contracts) the moves examined so
      far with the replies they drew and the calls that computed them. */
  datatype Frame = Frame(board: Board, best: int, alpha: int, beta: int, found: seq<int>,
                         examined: seq<int>, values: seq<int>, asked: seq<Node>)

  /** What the loop keeps true on the board B of call NODE:
      - the board is B again after every move is undone;
      - `bestSoFar` is at least as good as every reply so far and as its
        starting value, and is one of them unless it is still that value;
      - the window only narrows on the mover's side, never past
        `bestSoFar`;
      - at a SAVEMOVE node `foundMoves` holds the examined moves whose reply
        equals `bestSoFar`, after the entry list if `bestSoFar` never
        moved; elsewhere it is untouched. */
  predicate Inv(node: Node, b: Board, fr: Frame)
  {
    fr.board == b && BestOk(node.sense, fr) && WindowOk(node, fr) && FoundOk(node, fr)
  }

  /** `bestSoFar` against the replies recorded so far. */
  predicate BestOk(s: int, fr: Frame)
  {
    && |fr.values| == |fr.examined|
    && (forall i :: 0 <= i < |fr.values| ==> AtLeast(s, fr.best, fr.values[i]))
    && AtLeast(s, fr.best, Worst(s))
    && (fr.best == Worst(s) || fr.best in fr.values)
  }

  /** The window against the one the call was given. */
  predicate WindowOk(node: Node, fr: Frame)
  {
    && (node.sense == 1 ==> fr.beta == node.beta && node.alpha <= fr.alpha <= Max(node.alpha, fr.best))
    && (node.sense == -1 ==> fr.alpha == node.alpha && Min(node.beta, fr.best) <= fr.beta <= node.beta)
  }

  /** `foundMoves` against the replies recorded so far. */
  predicate FoundOk(node: Node, fr: Frame)
  {
    && |fr.values| == |fr.examined|
    && (node.save ==> fr.found == (if fr.best == Worst(node.sense) then node.found else []) + Ties(fr.examined, fr.values, fr.best))
    && (!node.save ==> fr.found == node.found)
  }

  /** The result of a `minMax` call: its value, the board it leaves, the
      tie list, the `_foundMove` it wrote (if any), the moves it examined
      with their replies and the calls that computed them, and whether it
      returned early by pruning. */
  datatype Outcome = Outcome(value: int, board: Board, found: seq<int>, chosen: Option<int>,
                             examined: seq<int>, values: seq<int>, asked: seq<Node>, pruned: bool)

  /** `minMax(board, depth, saveMove, sense, alpha, beta)`.  Every move it
      plays is undone again, so the board it leaves is the one it was
      given; `MinMaxResult` states what it computes. */
  function MinMax(ai: Ai, b: Board, node: Node): (r: Outcome)
    requires Valid(b) && Synced(b) && (node.sense == 1 || node.sense == -1)
    ensures r.board == b
    decreases node.depth, 1, 0
  {
    if Winner(b.grid).Some? || node.depth == 0 then
      Outcome(StaticEval(ai, b, WinningValue), b, node.found, None, [], [], [], false)
    else
      var cands := ValidPositions(b, SideOf(node.sense));
      var start := Frame(b, Worst(node.sense), node.alpha, node.beta, node.found, [], [], []);
      var (fr, pruned) := Loop(ai, b, node, cands, start);
      var chosen := if node.save && !pruned && |fr.found| > 0 then Some(fr.found[ai.choice % |fr.found|]) else None;
      Outcome(fr.best, fr.board, fr.found, chosen, fr.examined, fr.values, fr.asked, pruned)
  }

  /** What `minMax` returns.  On a won board or at depth 0 it is the static
      evaluation and nothing is examined or saved.  Otherwise the moves it
      examined are the candidates in order, all of them unless it pruned,
      and it prunes only once the window has closed; its value is at least
      as good for the mover as every reply and is one of them, or the worst
      value (so with no candidate it is the worst value); at a SAVEMOVE
      node `foundMoves` ends holding the examined moves whose reply equals
      the value (after the entry list when the value never left the worst),
      and `_foundMove` is written, with the drawn member of that list,
      exactly when the loop ran to the end and the list is not empty. */
  lemma MinMaxResult(ai: Ai, b: Board, node: Node)
    requires Valid(b) && Synced(b) && (node.sense == 1 || node.sense == -1)
    ensures var r := MinMax(ai, b, node);
      !node.save ==> r.found == node.found && r.chosen == None
    ensures var r := MinMax(ai, b, node);
      Winner(b.grid).Some? || node.depth == 0 ==>
      r.value == StaticEval(ai, b, WinningValue) && r.found == node.found && r.chosen == None && r.examined == []
    ensures var r := MinMax(ai, b, node);
      !(Winner(b.grid).Some? || node.depth == 0) ==>
      var s := node.sense;
      var cands := ValidPositions(b, SideOf(s));
      && |r.values| == |r.examined| && r.examined <= cands
      && (!r.pruned ==> r.examined == cands)
      && (r.pruned ==> r.examined != [] && (if s == 1 then Max(node.alpha, r.value) >= node.beta
                                           else node.alpha >= Min(node.beta, r.value)))
      && (forall i :: 0 <= i < |r.values| ==> AtLeast(s, r.value, r.values[i]))
      && (r.value == Worst(s) || r.value in r.values)
      && (cands == [] ==> r.value == Worst(s))
      && (node.save ==> r.found == (if r.value == Worst(s) then node.found else []) + Ties(r.examined, r.values, r.value))
      && r.chosen == (if node.save && !r.pruned && |r.found| > 0 then Some(r.found[ai.choice % |r.found|]) else None)
  {
    if !(Winner(b.grid).Some? || node.depth == 0) {
      var cands := ValidPositions(b, SideOf(node.sense));
      var start := Frame(b, Worst(node.sense), node.alpha, node.beta, node.found, [], [], []);
      assert Inv(node, b, start);
      var (fr, pruned) := Loop(ai, b, node, cands, start);
    }
  }

  /** The `for` loop of `minMax` over the candidate list CANDS, from the
      first one not yet examined; it returns early, with `true`, on a
      prune. */
  function Loop(ai: Ai, b: Board, node: Node, cands: seq<int>, fr: Frame): (r: (Frame, bool))
    requires Valid(b) && Synced(b) && node.depth >= 1 && (node.sense == 1 || node.sense == -1)
    requires forall t :: t in cands ==> ExistsSq(b.size, t)
    requires Inv(node, b, fr) && fr.examined <= cands
    ensures Inv(node, b, r.0)
    ensures r.0.examined <= cands && fr.values <= r.0.values
    ensures !r.1 ==> r.0.examined == cands
    ensures r.1 ==> |r.0.examined| > |fr.examined| && r.0.alpha >= r.0.beta
    decreases node.depth, 0, |cands| - |fr.examined|
  {
    if |fr.examined| == |cands| then
      assert fr.examined == cands[..|cands|];
      (fr, false)
    else
      var n := cands[|fr.examined|];
      PrefixExtend(fr.examined, cands);
      var step := Step(ai, b, node, n, fr);
      if step.1 then step
      else Loop(ai, b, node, cands, step.0)
  }

  /** A proper prefix grows by the next element and stays a prefix. */
  lemma PrefixExtend(p: seq<int>, l: seq<int>)
    requires p <= l && |p| < |l|
    ensures p + [l[|p|]] <= l
  {
    assert p + [l[|p|]] == l[..|p| + 1];
  }

  /** One pass of the loop body: play move N, search the reply one level
      down with the opposite sense and no move saving, undo the move, and
      fold the reply in. */
  function Step(ai: Ai, b: Board, node: Node, n: int, fr: Frame): (r: (Frame, bool))
    requires Valid(b) && Synced(b) && node.depth >= 1 && (node.sense == 1 || node.sense == -1)
    requires ExistsSq(b.size, n) && Inv(node, b, fr)
    ensures Inv(node, b, r.0)
    ensures r.0.examined == fr.examined + [n] && fr.values <= r.0.values && |r.0.values| == |fr.values| + 1
    ensures r.0.asked == fr.asked + [Node(node.depth - 1, false, -node.sense, fr.alpha, fr.beta, fr.found)]
    ensures r.1 ==> r.0.alpha >= r.0.beta
    decreases node.depth, 0, 0
  {
    var call := Node(node.depth - 1, false, -node.sense, fr.alpha, fr.beta, fr.found);
    After(ai, b, node, n, fr, call, MinMax(ai, AddSpotSq(b, SideOf(node.sense), n, ai.fuel), call))
  }

  /** The rest of the pass once the reply search CHILD has returned: undo
      the move and fold the reply in. */
  function After(ai: Ai, b: Board, node: Node, n: int, fr: Frame, call: Node, child: Outcome): (r: (Frame, bool))
    requires Valid(b) && Synced(b) && (node.sense == 1 || node.sense == -1)
    requires ExistsSq(b.size, n) && Inv(node, b, fr)
    requires child.board == AddSpotSq(b, SideOf(node.sense), n, ai.fuel)
    ensures Inv(node, b, r.0)
    ensures r.0.examined == fr.examined + [n] && r.0.values == fr.values + [child.value] && r.0.asked == fr.asked + [call]
    ensures r.1 ==> r.0.alpha >= r.0.beta
  {
    UndoAddSpotSq(b, SideOf(node.sense), n, ai.fuel);
    Fold(node, b, fr.(board := Undo(child.board)), n, child.value, call)
  }

  /** The comparison after the undo: a reply at least as good as
      `bestSoFar` for the mover is taken, and the loop ends once that makes
      ALPHA >= BETA; a worse reply is only recorded. */
  function Fold(node: Node, b: Board, fr: Frame, n: int, resp: int, call: Node): (r: (Frame, bool))
    requires (node.sense == 1 || node.sense == -1) && Inv(node, b, fr)
    ensures Inv(node, b, r.0)
    ensures r.0.examined == fr.examined + [n] && r.0.values == fr.values + [resp] && r.0.asked == fr.asked + [call]
    ensures r.1 ==> r.0.alpha >= r.0.beta
  {
    var s := node.sense;
    if (s == -1 && resp <= fr.best) || (s == 1 && resp >= fr.best) then
      AcceptKeepsInv(node, b, fr, n, resp, call);
      var taken := Accept(node, fr, n, resp, call);
      (taken, taken.alpha >= taken.beta)
    else
      RejectKeepsInv(node, b, fr, n, resp, call);
      (Record(fr, n, resp, call), false)
  }

  /** Move N, its reply RESP and the call CALL that computed it added to
      the record. */
  function Record(fr: Frame, n: int, resp: int, call: Node): (r: Frame)
    ensures r.examined == fr.examined + [n] && r.values == fr.values + [resp] && r.asked == fr.asked + [call]
    ensures fr.values <= r.values
  {
    fr.(examined := fr.examined + [n], values := fr.values + [resp], asked := fr.asked + [call])
  }

  /** A reply taken: it becomes `bestSoFar` if it differs from it, clearing
      `foundMoves` at a SAVEMOVE node first; the move joins `foundMoves`
      there; ALPHA (for RED) or BETA (for BLUE) moves to `bestSoFar`. */
  function Accept(node: Node, fr: Frame, n: int, resp: int, call: Node): Frame
  {
    var s := node.sense;
    var best := if resp != fr.best then resp else fr.best;
    var found := if node.save then (if resp != fr.best then [] else fr.found) + [n] else fr.found;
    var alpha := if s == 1 then Max(fr.alpha, best) else fr.alpha;
    var beta := if s == -1 then Min(fr.beta, best) else fr.beta;
    Record(fr, n, resp, call).(best := best, found := found, alpha := alpha, beta := beta)
  }

  lemma AcceptKeepsInv(node: Node, b: Board, fr: Frame, n: int, resp: int, call: Node)
    requires (node.sense == 1 || node.sense == -1) && Inv(node, b, fr) && AtLeast(node.sense, resp, fr.best)
    ensures Inv(node, b, Accept(node, fr, n, resp, call))
  {
    var a := Accept(node, fr, n, resp, call);
    AcceptBest(node.sense, fr, n, resp, a);
    assert WindowOk(node, a);
    AcceptFound(node, fr, n, resp, call, a);
  }

  lemma AcceptBest(s: int, fr: Frame, n: int, resp: int, a: Frame)
    requires (s == 1 || s == -1) && BestOk(s, fr) && AtLeast(s, resp, fr.best)
    requires a.examined == fr.examined + [n] && a.values == fr.values + [resp] && a.best == resp
    ensures BestOk(s, a)
  {
    assert a.values[|fr.values|] == resp;
  }

  lemma AcceptFound(node: Node, fr: Frame, n: int, resp: int, call: Node, a: Frame)
    requires (node.sense == 1 || node.sense == -1) && BestOk(node.sense, fr) && FoundOk(node, fr)
    requires AtLeast(node.sense, resp, fr.best) && a == Accept(node, fr, n, resp, call)
    ensures FoundOk(node, a)
  {
    BetterHasNoTies(node.sense, fr.examined, fr.values, fr.best, resp);
    TiesAppend(fr.examined, fr.values, n, resp, resp);
  }

  lemma RejectKeepsInv(node: Node, b: Board, fr: Frame, n: int, resp: int, call: Node)
    requires (node.sense == 1 || node.sense == -1) && Inv(node, b, fr) && !AtLeast(node.sense, resp, fr.best)
    ensures Inv(node, b, Record(fr, n, resp, call))
  {
    var r := Record(fr, n, resp, call);
    assert r.values[|fr.values|] == resp;
    TiesAppend(fr.examined, fr.values, n, resp, fr.best);
  }

  /** A reply strictly better than every recorded one ties with none of
      them. */
  lemma BetterHasNoTies(s: int, moves: seq<int>, values: seq<int>, best: int, resp: int)
    requires |moves| == |values| && (s == 1 || s == -1)
    requires forall i :: 0 <= i < |values| ==> AtLeast(s, best, values[i])
    ensures resp != best && AtLeast(s, resp, best) ==> Ties(moves, values, resp) == []
  {
    if resp != best && AtLeast(s, resp, best) {
      TiesNone(moves, values, resp);
    }
  }

  /** Recording one more move extends the ties by that move exactly when
      its value is V. */
  lemma TiesAppend(moves: seq<int>, values: seq<int>, n: int, x: int, v: int)
    requires |moves| == |values|
    ensures Ties(moves + [n], values + [x], v) == Ties(moves, values, v) + (if x == v then [n] else [])
  {
    assert (moves + [n])[..|moves|] == moves;
    assert (values + [x])[..|values|] == values;
  }

  /** No recorded value is V: there are no ties at V. */
  lemma {:induction false} TiesNone(moves: seq<int>, values: seq<int>, v: int)
    requires |moves| == |values| && forall i :: 0 <= i < |values| ==> values[i] != v
    ensures Ties(moves, values, v) == []
  {
    if moves != [] {
      var k := |moves| - 1;
      TiesNone(moves[..k], values[..k], v);
    }
  }

  /** Move N's recorded reply V came from CALL: one level down, the
      opposite sense, no move saving, searched on the board with N played
      by the side NODE moves for. */
  predicate Reply(ai: Ai, b: Board, node: Node, n: int, call: Node, v: int)
    requires Valid(b) && Synced(b) && (node.sense == 1 || node.sense == -1)
  {
    && ExistsSq(b.size, n)
    && call.depth + 1 == node.depth && !call.save && call.sense == -node.sense
    && v == MinMax(ai, AddSpotSq(b, SideOf(node.sense), n, ai.fuel), call).value
  }

  /** Every recorded reply is the value of the search below its move. */
  predicate Replies(ai: Ai, b: Board, node: Node, examined: seq<int>, values: seq<int>, asked: seq<Node>)
    requires Valid(b) && Synced(b) && (node.sense == 1 || node.sense == -1)
  {
    && |values| == |examined| && |asked| == |examined|
    && forall i :: 0 <= i < |examined| ==> Reply(ai, b, node, examined[i], asked[i], values[i])
  }

  /** One loop pass records the value of the search below the move it
      played. */
  lemma StepReplies(ai: Ai, b: Board, node: Node, n: int, fr: Frame)
    requires Valid(b) && Synced(b) && node.depth >= 1 && (node.sense == 1 || node.sense == -1)
    requires ExistsSq(b.size, n) && Inv(node, b, fr)
    requires Replies(ai, b, node, fr.examined, fr.values, fr.asked)
    ensures var r := Step(ai, b, node, n, fr).0;
      Replies(ai, b, node, r.examined, r.values, r.asked)
  {
    var call := Node(node.depth - 1, false, -node.sense, fr.alpha, fr.beta, fr.found);
    var v := StepValue(ai, b, node, n, fr);
    ReplyExtend(ai, b, node, fr.examined, fr.values, fr.asked, n, v, call);
  }

  /** The reply one loop pass records is the value of the search below the
      move it plays; it returns that value. */
  lemma StepValue(ai: Ai, b: Board, node: Node, n: int, fr: Frame) returns (v: int)
    requires Valid(b) && Synced(b) && node.depth >= 1 && (node.sense == 1 || node.sense == -1)
    requires ExistsSq(b.size, n) && Inv(node, b, fr)
    ensures var call := Node(node.depth - 1, false, -node.sense, fr.alpha, fr.beta, fr.found);
      && v == MinMax(ai, AddSpotSq(b, SideOf(node.sense), n, ai.fuel), call).value
      && Step(ai, b, node, n, fr).0.values == fr.values + [v]
  {
    var call := Node(node.depth - 1, false, -node.sense, fr.alpha, fr.beta, fr.found);
    v := MinMax(ai, AddSpotSq(b, SideOf(node.sense), n, ai.fuel), call).value;
  }

  /** A recorded reply appended to recorded replies. */
  lemma ReplyExtend(ai: Ai, b: Board, node: Node, examined: seq<int>, values: seq<int>, asked: seq<Node>,
                    n: int, v: int, call: Node)
    requires Valid(b) && Synced(b) && (node.sense == 1 || node.sense == -1)
    requires Replies(ai, b, node, examined, values, asked) && Reply(ai, b, node, n, call, v)
    ensures Replies(ai, b, node, examined + [n], values + [v], asked + [call])
  {
    var e, w, k := examined + [n], values + [v], asked + [call];
    forall i | 0 <= i < |e|
      ensures Reply(ai, b, node, e[i], k[i], w[i])
    {
      if i < |examined| {
        assert e[i] == examined[i] && k[i] == asked[i] && w[i] == values[i];
      }
    }
  }

  /** The loop keeps every recorded reply equal to the value of the search
      below its move. */
  lemma {:induction false} LoopReplies(ai: Ai, b: Board, node: Node, cands: seq<int>, fr: Frame)
    requires Valid(b) && Synced(b) && node.depth >= 1 && (node.sense == 1 || node.sense == -1)
    requires forall t :: t in cands ==> ExistsSq(b.size, t)
    requires Inv(node, b, fr) && fr.examined <= cands
    requires Replies(ai, b, node, fr.examined, fr.values, fr.asked)
    ensures var r := Loop(ai, b, node, cands, fr).0;
      Replies(ai, b, node, r.examined, r.values, r.asked)
    decreases |cands| - |fr.examined|
  {
    if |fr.examined| < |cands| {
      var n := cands[|fr.examined|];
      PrefixExtend(fr.examined, cands);
      StepReplies(ai, b, node, n, fr);
      var step := Step(ai, b, node, n, fr);
      if !step.1 {
        LoopReplies(ai, b, node, cands, step.0);
      }
    }
  }

  /** `minMax`'s replies are the values of the searches one level down
      (jump61/AI.java:105-106): each examined move was played for the side
      SENSE stands for and searched with DEPTH - 1, the opposite sense and
      no move saving. */
  lemma MinMaxReplies(ai: Ai, b: Board, node: Node)
    requires Valid(b) && Synced(b) && (node.sense == 1 || node.sense == -1)
    requires Winner(b.grid) == None && node.depth >= 1
    ensures var r := MinMax(ai, b, node);
      Replies(ai, b, node, r.examined, r.values, r.asked)
  {
    var cands := ValidPositions(b, SideOf(node.sense));
    var start := Frame(b, Worst(node.sense), node.alpha, node.beta, node.found, [], [], []);
    LoopReplies(ai, b, node, cands, start);
  }

  /** VALUES are the static evaluations of the boards after each of MOVES
      is played by SIDE. */
  predicate Evaluations(ai: Ai, b: Board, side: Side, moves: seq<int>, values: seq<int>)
    requires Valid(b)
  {
    && |values| == |moves|
    && forall i :: 0 <= i < |moves| ==>
         (ExistsSq(b.size, moves[i]) && values[i] == StaticEval(ai, AddSpotSq(b, side, moves[i], ai.fuel), WinningValue))
  }

  /** With one level to go and the window the root call opens, `minMax`
      tries every candidate, records the static evaluation after each, and
      returns the best of them for the side it plays, or the worst value
      exactly when there is no candidate.  The bound on the grid keeps
      every evaluation inside the window. */
  lemma DepthOneIsGreedy(ai: Ai, b: Board, node: Node)
    requires Valid(b) && Synced(b) && (node.sense == 1 || node.sense == -1)
    requires Winner(b.grid) == None && node.depth == 1 && ai.own != WHITE
    requires node.alpha == -MaxInt && node.beta == MaxInt && |b.grid| <= WinningValue
    ensures var r := MinMax(ai, b, node);
      && !r.pruned && r.examined == ValidPositions(b, SideOf(node.sense))
      && Evaluations(ai, b, SideOf(node.sense), r.examined, r.values)
      && (forall i :: 0 <= i < |r.values| ==> AtLeast(node.sense, r.value, r.values[i]))
      && (r.examined == [] <==> r.value == Worst(node.sense))
      && (r.examined != [] ==> r.value in r.values)
  {
    var r := MinMax(ai, b, node);
    var s := node.sense;
    MinMaxResult(ai, b, node);
    MinMaxReplies(ai, b, node);
    forall i | 0 <= i < |r.values|
      ensures r.values[i] == StaticEval(ai, AddSpotSq(b, SideOf(s), r.examined[i], ai.fuel), WinningValue)
      ensures -WinningValue <= r.values[i] <= WinningValue
    {
      assert Reply(ai, b, node, r.examined[i], r.asked[i], r.values[i]);
      MinMaxResult(ai, AddSpotSq(b, SideOf(s), r.examined[i], ai.fuel), r.asked[i]);
    }
    if r.value != Worst(s) {
      assert r.value in r.values;
    }
  }
}
