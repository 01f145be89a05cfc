/** The overflow cascade (`jump`): a breadth-first work queue of over-full
    squares, each of which, when popped, passes one spot to every neighbour
    that is not itself over-full.  The loop is stated over a neighbour table
    ADJ (entry S lists the squares `forNeighbors(s)` visits, in its order);
    `Jump` runs it on the board's own table `Layout(n)`. */
module Cascade {
  import opened Squares
  import opened Geometry
  import opened Grids

  /** The loop's state: the grid, the work queue, and how many squares have
      been popped so far. */
  datatype State = State(grid: seq<Square>, queue: seq<int>, pops: nat)

  /** Every number in Q names one of the SIZE squares. */
  predicate InRange(size: int, q: seq<int>)
  {
    forall i :: 0 <= i < |q| ==> 0 <= q[i] < size
  }

  /** `isOverFlow(s)` read through the table: S holds more spots than it has
      neighbours.  The loop's lemmas hold for any table, so they are stated
      with this form; `OverFullIsOverFlow` shows it is `Grids.IsOverFlow` on
      the board's own table. */
  predicate OverFull(adj: seq<seq<int>>, g: seq<Square>, s: int)
    requires |g| == |adj| && 0 <= s < |adj|
  {
    g[s].spots > |adj[s]|
  }

  /** The queue discipline the loop relies on: queued squares exist, are
      queued once, and are over-full. */
  predicate QueueOk(adj: seq<seq<int>>, g: seq<Square>, q: seq<int>)
    requires |g| == |adj|
  {
    InRange(|adj|, q) && Distinct(q) && forall i :: 0 <= i < |q| ==> OverFull(adj, g, q[i])
  }

  /** Squares that differ between G and H now belong to PLAYER. */
  predicate ChangedTo(g: seq<Square>, h: seq<Square>, player: Side)
    requires |g| == |h|
  {
    forall i :: 0 <= i < |g| ==> h[i] == g[i] || h[i].side == player
  }

  /** The body of the callback for popped square POS and a neighbour Q that
      is not over-full: POS gives Q one spot, both become PLAYER's (or WHITE
      when left empty), and Q is queued if that made it over-full. */
  function Transfer(adj: seq<seq<int>>, st: State, pos: int, q: int, player: Side): (r: State)
    requires |st.grid| == |adj| && 0 <= pos < |adj| && 0 <= q < |adj|
    requires InRange(|adj|, st.queue)
    ensures |r.grid| == |st.grid| && InRange(|adj|, r.queue) && r.pops == st.pops
  {
    var g1 := InternalSet(st.grid, pos, st.grid[pos].spots - 1, player);
    var g2 := InternalSet(g1, q, g1[q].spots + 1, player);
    State(g2, if OverFull(adj, g2, q) then st.queue + [q] else st.queue, st.pops)
  }

  /** The callback `jump` hands to `forNeighbors` for popped square POS,
      applied to the neighbours NBS in order: a neighbour that is already
      over-full is skipped, every other one takes a spot by `Transfer`. */
  function Spread(adj: seq<seq<int>>, st: State, pos: int, nbs: seq<int>, player: Side): (r: State)
    requires |st.grid| == |adj| && 0 <= pos < |adj|
    requires InRange(|adj|, nbs) && InRange(|adj|, st.queue)
    ensures |r.grid| == |st.grid| && InRange(|adj|, r.queue) && r.pops == st.pops
    decreases |nbs|
  {
    if nbs == [] then st
    else if !OverFull(adj, st.grid, nbs[0]) then
      Spread(adj, Transfer(adj, st, pos, nbs[0], player), pos, nbs[1..], player)
    else
      Spread(adj, st, pos, nbs[1..], player)
  }

  /** One iteration of the loop: pop the head of the queue and run the
      callback over its neighbours. */
  function Pop(adj: seq<seq<int>>, st: State, player: Side): (r: State)
    requires |st.grid| == |adj| && InRange(|adj|, st.queue) && st.queue != []
    requires TableOk(adj)
    ensures |r.grid| == |st.grid| && InRange(|adj|, r.queue) && r.pops == st.pops + 1
  {
    var pos := st.queue[0];
    Spread(adj, State(st.grid, st.queue[1..], st.pops + 1), pos, adj[pos], player)
  }

  /** The `while` loop of `jump`, one unit of FUEL per popped square.  It
      stops when the queue is empty, when one side owns the whole grid, or
      when the fuel runs out. */
  function JumpLoop(adj: seq<seq<int>>, st: State, player: Side, fuel: nat): (r: State)
    requires |st.grid| == |adj| && InRange(|adj|, st.queue) && TableOk(adj)
    ensures |r.grid| == |st.grid| && InRange(|adj|, r.queue)
    ensures st.pops <= r.pops <= st.pops + fuel
    ensures r.pops < st.pops + fuel ==> r.queue == [] || Winner(r.grid).Some?
    ensures st.queue == [] || Winner(st.grid).Some? ==> r == st
    decreases fuel
  {
    if st.queue == [] || Winner(st.grid).Some? || fuel == 0 then st
    else JumpLoop(adj, Pop(adj, st, player), player, fuel - 1)
  }

  /** `jump(s)`: the cascade from square S, which starts with a queue that
      holds S alone, spreading in the colour of the side that just moved. */
  function Jump(n: int, g: seq<Square>, s: int, fuel: nat): (r: State)
    requires n >= 1 && |g| == n * n && ExistsSq(n, s)
    ensures |r.grid| == |g|
    ensures r.pops < fuel ==> r.queue == [] || Winner(r.grid).Some?
  {
    LayoutOk(n);
    JumpLoop(Layout(n), State(g, [s], 0), Opposite(WhoseMove(n, g)), fuel)
  }

  /** `jump(s)` as the source has it: the work queue is a Board field that
      still holds whatever an earlier cascade left in it when it stopped on a
      winner, and S is queued behind those entries. */
  function JumpAsWritten(n: int, g: seq<Square>, leftover: seq<int>, s: int, fuel: nat): (r: State)
    requires n >= 1 && |g| == n * n && ExistsSq(n, s) && InRange(n * n, leftover)
    ensures |r.grid| == |g|
    ensures leftover == [] ==> r == Jump(n, g, s, fuel)
  {
    LayoutOk(n);
    assert leftover == [] ==> leftover + [s] == [s];
    JumpLoop(Layout(n), State(g, leftover + [s], 0), Opposite(WhoseMove(n, g)), fuel)
  }

  /** Read through the board's own table, over-fullness is `isOverFlow`. */
  lemma OverFullIsOverFlow(n: int, g: seq<Square>, s: int)
    requires n >= 1 && |g| == n * n && ExistsSq(n, s)
    ensures OverFull(Layout(n), g, s) <==> IsOverFlow(n, g, s)
  {
    LayoutOk(n);
  }

  /** Removing the head of a distinct list leaves a distinct list without
      that head. */
  lemma TailDistinct(l: seq<int>)
    requires l != [] && Distinct(l)
    ensures Distinct(l[1..]) && l[0] !in l[1..]
  {
    forall i, j | 0 <= i < j < |l[1..]|
      ensures l[1..][i] != l[1..][j]
    {
      assert l[1..][i] == l[i + 1] && l[1..][j] == l[j + 1];
    }
    forall j | 0 <= j < |l[1..]|
      ensures l[1..][j] != l[0]
    {
      assert l[1..][j] == l[j + 1];
    }
  }

  /** A transfer keeps every square well formed when POS has a spot to
      spare, moves exactly one spot from POS to Q, colours both with PLAYER,
      and leaves every other square as it was. */
  lemma TransferKeepsWellFormed(adj: seq<seq<int>>, st: State, pos: int, q: int, player: Side)
    requires |st.grid| == |adj| && 0 <= pos < |adj| && 0 <= q < |adj| && q != pos
    requires InRange(|adj|, st.queue)
    requires st.grid[pos].spots > 1 && AllWellFormed(st.grid) && player != WHITE
    ensures var r := Transfer(adj, st, pos, q, player);
      && AllWellFormed(r.grid)
      && r.grid[pos] == Square(player, st.grid[pos].spots - 1)
      && r.grid[q] == Square(player, st.grid[q].spots + 1)
      && (forall i :: 0 <= i < |st.grid| && i != pos && i != q ==> r.grid[i] == st.grid[i])
      && ChangedTo(st.grid, r.grid, player)
  {
    var g := st.grid;
    var g2 := Transfer(adj, st, pos, q, player).grid;
    assert WellFormed(g[q]);
    forall i | 0 <= i < |g2|
      ensures WellFormed(g2[i]) && (g2[i] == g[i] || g2[i].side == player)
    {
      if i != pos && i != q {
        assert g2[i] == g[i];
      }
    }
  }

  /** A transfer to a neighbour that is not over-full keeps the queue
      discipline: the squares it changes are not queued, and it queues Q
      only when Q has just become over-full. */
  lemma TransferKeepsQueue(adj: seq<seq<int>>, st: State, pos: int, q: int, player: Side)
    requires |st.grid| == |adj| && 0 <= pos < |adj| && 0 <= q < |adj| && q != pos
    requires QueueOk(adj, st.grid, st.queue) && pos !in st.queue && !OverFull(adj, st.grid, q)
    ensures var r := Transfer(adj, st, pos, q, player);
      QueueOk(adj, r.grid, r.queue) && pos !in r.queue
  {
    var g := st.grid;
    var r := Transfer(adj, st, pos, q, player);
    assert q !in st.queue by {
      forall i | 0 <= i < |st.queue|
        ensures st.queue[i] != q
      {
        assert OverFull(adj, g, st.queue[i]);
      }
    }
    assert forall i :: 0 <= i < |st.queue| ==> r.grid[st.queue[i]] == g[st.queue[i]];
    if r.queue != st.queue {
      AppendDistinct(st.queue, [q]);
    }
  }

  /** Dropping the head of a list keeps POS out of it. */
  lemma TailAvoids(nbs: seq<int>, pos: int)
    requires nbs != [] && pos !in nbs
    ensures pos !in nbs[1..]
  {
    forall j | 0 <= j < |nbs[1..]|
      ensures nbs[1..][j] != pos
    {
      assert nbs[1..][j] == nbs[j + 1];
    }
  }

  /** The callback keeps every square well formed, colours every square it
      changes with PLAYER, and takes at most one spot from the popped square
      per neighbour, so a square that starts with more spots than it has
      neighbours keeps at least one. */
  lemma {:induction false} SpreadKeepsWellFormed(adj: seq<seq<int>>, st: State, pos: int, nbs: seq<int>, player: Side)
    requires |st.grid| == |adj| && 0 <= pos < |adj|
    requires InRange(|adj|, nbs) && InRange(|adj|, st.queue) && pos !in nbs
    requires st.grid[pos].spots > |nbs| && AllWellFormed(st.grid) && player != WHITE
    ensures var r := Spread(adj, st, pos, nbs, player);
      && AllWellFormed(r.grid) && ChangedTo(st.grid, r.grid, player)
      && r.grid[pos].spots >= st.grid[pos].spots - |nbs| && r.grid[pos].spots >= 1
    decreases |nbs|
  {
    if nbs != [] {
      TailAvoids(nbs, pos);
      if !OverFull(adj, st.grid, nbs[0]) {
        var next := Transfer(adj, st, pos, nbs[0], player);
        TransferKeepsWellFormed(adj, st, pos, nbs[0], player);
        SpreadKeepsWellFormed(adj, next, pos, nbs[1..], player);
        var r := Spread(adj, next, pos, nbs[1..], player);
        assert ChangedTo(st.grid, r.grid, player) by {
          forall i | 0 <= i < |st.grid|
            ensures r.grid[i] == st.grid[i] || r.grid[i].side == player
          {
            assert r.grid[i] == next.grid[i] || r.grid[i].side == player;
          }
        }
      } else {
        SpreadKeepsWellFormed(adj, st, pos, nbs[1..], player);
      }
    }
  }

  /** The callback keeps the queue discipline. */
  lemma {:induction false} SpreadKeepsQueue(adj: seq<seq<int>>, st: State, pos: int, nbs: seq<int>, player: Side)
    requires |st.grid| == |adj| && 0 <= pos < |adj|
    requires InRange(|adj|, nbs) && pos !in nbs
    requires QueueOk(adj, st.grid, st.queue) && pos !in st.queue
    ensures var r := Spread(adj, st, pos, nbs, player);
      QueueOk(adj, r.grid, r.queue) && pos !in r.queue
    decreases |nbs|
  {
    if nbs != [] {
      TailAvoids(nbs, pos);
      if !OverFull(adj, st.grid, nbs[0]) {
        TransferKeepsQueue(adj, st, pos, nbs[0], player);
        SpreadKeepsQueue(adj, Transfer(adj, st, pos, nbs[0], player), pos, nbs[1..], player);
      } else {
        SpreadKeepsQueue(adj, st, pos, nbs[1..], player);
      }
    }
  }

  /** One iteration keeps the queue discipline and well-formedness and
      colours what it changes with PLAYER. */
  lemma PopKeepsInvariant(adj: seq<seq<int>>, st: State, player: Side)
    requires |st.grid| == |adj| && st.queue != [] && TableOk(adj)
    requires QueueOk(adj, st.grid, st.queue) && AllWellFormed(st.grid) && player != WHITE
    ensures var r := Pop(adj, st, player);
      QueueOk(adj, r.grid, r.queue) && AllWellFormed(r.grid) && ChangedTo(st.grid, r.grid, player)
  {
    var pos := st.queue[0];
    QueueTail(adj, st.grid, st.queue);
    TableEntry(adj, pos);
    var popped := State(st.grid, st.queue[1..], st.pops + 1);
    SpreadKeepsWellFormed(adj, popped, pos, adj[pos], player);
    SpreadKeepsQueue(adj, popped, pos, adj[pos], player);
  }

  /** What a neighbour table says about one entry. */
  lemma TableEntry(adj: seq<seq<int>>, s: int)
    requires TableOk(adj) && 0 <= s < |adj|
    ensures Distinct(adj[s]) && s !in adj[s] && InRange(|adj|, adj[s])
  {
  }

  /** The rest of a disciplined queue is disciplined and no longer holds
      its head, which is over-full. */
  lemma QueueTail(adj: seq<seq<int>>, g: seq<Square>, q: seq<int>)
    requires |g| == |adj| && q != [] && QueueOk(adj, g, q)
    ensures QueueOk(adj, g, q[1..]) && q[0] !in q[1..] && OverFull(adj, g, q[0])
  {
    TailDistinct(q);
    forall i | 0 <= i < |q[1..]|
      ensures 0 <= q[1..][i] < |adj| && OverFull(adj, g, q[1..][i])
    {
      assert q[1..][i] == q[i + 1];
    }
  }

  /** Started from a disciplined queue on a well-formed grid, the cascade
      keeps every square well formed (no count ever goes negative, and a
      square is WHITE exactly when it is empty) and every square it changes
      ends up PLAYER's. */
  lemma {:induction false} JumpLoopKeepsInvariant(adj: seq<seq<int>>, st: State, player: Side, fuel: nat)
    requires |st.grid| == |adj| && TableOk(adj)
    requires QueueOk(adj, st.grid, st.queue) && AllWellFormed(st.grid) && player != WHITE
    ensures var r := JumpLoop(adj, st, player, fuel);
      QueueOk(adj, r.grid, r.queue) && AllWellFormed(r.grid) && ChangedTo(st.grid, r.grid, player)
    decreases fuel
  {
    if !(st.queue == [] || Winner(st.grid).Some? || fuel == 0) {
      var mid := Pop(adj, st, player);
      PopKeepsInvariant(adj, st, player);
      JumpLoopKeepsInvariant(adj, mid, player, fuel - 1);
      var r := JumpLoop(adj, mid, player, fuel - 1);
      assert ChangedTo(st.grid, r.grid, player) by {
        forall i | 0 <= i < |st.grid|
          ensures r.grid[i] == st.grid[i] || r.grid[i].side == player
        {
          assert r.grid[i] == mid.grid[i] || r.grid[i].side == player;
        }
      }
    }
  }

  /** The cascade from an over-full square on a well-formed grid leaves a
      well-formed grid whose changed squares all belong to the side that
      just moved. */
  lemma JumpKeepsWellFormed(n: int, g: seq<Square>, s: int, fuel: nat)
    requires n >= 1 && |g| == n * n && ExistsSq(n, s)
    requires AllWellFormed(g) && IsOverFlow(n, g, s)
    ensures var r := Jump(n, g, s, fuel);
      AllWellFormed(r.grid) && ChangedTo(g, r.grid, Opposite(WhoseMove(n, g)))
  {
    LayoutOk(n);
    OverFullIsOverFlow(n, g, s);
    assert QueueOk(Layout(n), g, [s]);
    JumpLoopKeepsInvariant(Layout(n), State(g, [s], 0), Opposite(WhoseMove(n, g)), fuel);
  }

  /** Fuel only bounds the loop: once a run stops before its fuel is spent,
      any larger amount of fuel gives the same result. */
  lemma {:induction false} JumpFuelMonotone(adj: seq<seq<int>>, st: State, player: Side, fuel: nat, more: nat)
    requires |st.grid| == |adj| && InRange(|adj|, st.queue) && TableOk(adj)
    requires fuel <= more
    requires JumpLoop(adj, st, player, fuel).pops < st.pops + fuel
    ensures JumpLoop(adj, st, player, more) == JumpLoop(adj, st, player, fuel)
    decreases fuel
  {
    if st.queue == [] || Winner(st.grid).Some? {
    } else if fuel == 0 {
      assert false;
    } else {
      var mid := Pop(adj, st, player);
      JumpFuelMonotone(adj, mid, player, fuel - 1, more - 1);
    }
  }

  /** A transfer moves one spot from POS to Q: the spot total is unchanged. */
  lemma TransferConserves(adj: seq<seq<int>>, st: State, pos: int, q: int, player: Side)
    requires |st.grid| == |adj| && 0 <= pos < |adj| && 0 <= q < |adj| && q != pos
    requires InRange(|adj|, st.queue)
    ensures NumPieces(Transfer(adj, st, pos, q, player).grid) == NumPieces(st.grid)
  {
    var g1 := InternalSet(st.grid, pos, st.grid[pos].spots - 1, player);
    InternalSetPieces(st.grid, pos, st.grid[pos].spots - 1, player);
    InternalSetPieces(g1, q, g1[q].spots + 1, player);
  }

  /** The callback never creates or destroys spots. */
  lemma {:induction false} SpreadConserves(adj: seq<seq<int>>, st: State, pos: int, nbs: seq<int>, player: Side)
    requires |st.grid| == |adj| && 0 <= pos < |adj|
    requires InRange(|adj|, nbs) && InRange(|adj|, st.queue) && pos !in nbs
    ensures NumPieces(Spread(adj, st, pos, nbs, player).grid) == NumPieces(st.grid)
    decreases |nbs|
  {
    if nbs != [] {
      TailAvoids(nbs, pos);
      if !OverFull(adj, st.grid, nbs[0]) {
        TransferConserves(adj, st, pos, nbs[0], player);
        SpreadConserves(adj, Transfer(adj, st, pos, nbs[0], player), pos, nbs[1..], player);
      } else {
        SpreadConserves(adj, st, pos, nbs[1..], player);
      }
    }
  }

  /** The cascade never creates or destroys spots: `numPieces()` after a
      jump equals `numPieces()` before it. */
  lemma {:induction false} JumpLoopConserves(adj: seq<seq<int>>, st: State, player: Side, fuel: nat)
    requires |st.grid| == |adj| && InRange(|adj|, st.queue) && TableOk(adj)
    ensures NumPieces(JumpLoop(adj, st, player, fuel).grid) == NumPieces(st.grid)
    decreases fuel
  {
    if !(st.queue == [] || Winner(st.grid).Some? || fuel == 0) {
      var mid := Pop(adj, st, player);
      PopConserves(adj, st, player);
      JumpLoopConserves(adj, mid, player, fuel - 1);
    }
  }

  /** One iteration never creates or destroys spots. */
  lemma PopConserves(adj: seq<seq<int>>, st: State, player: Side)
    requires |st.grid| == |adj| && InRange(|adj|, st.queue) && st.queue != [] && TableOk(adj)
    ensures NumPieces(Pop(adj, st, player).grid) == NumPieces(st.grid)
  {
    var pos := st.queue[0];
    TableEntry(adj, pos);
    SpreadConserves(adj, State(st.grid, st.queue[1..], st.pops + 1), pos, adj[pos], player);
  }

  /** `jump(s)` keeps the spot total. */
  lemma JumpConserves(n: int, g: seq<Square>, s: int, fuel: nat)
    requires n >= 1 && |g| == n * n && ExistsSq(n, s)
    ensures NumPieces(Jump(n, g, s, fuel).grid) == NumPieces(g)
  {
    LayoutOk(n);
    JumpLoopConserves(Layout(n), State(g, [s], 0), Opposite(WhoseMove(n, g)), fuel);
  }

  /** The spot total of a four-square grid. */
  lemma NumPiecesOfFour(a: Square, b: Square, c: Square, d: Square)
    ensures NumPieces([a, b, c, d]) == a.spots + b.spots + c.spots + d.spots
  {
    assert [d][1..] == [];
    assert NumPieces([d]) == d.spots;
    assert [c, d][1..] == [d];
    assert NumPieces([c, d]) == c.spots + d.spots;
    assert [b, c, d][1..] == [c, d];
    assert NumPieces([b, c, d]) == b.spots + c.spots + d.spots;
    assert [a, b, c, d][1..] == [b, c, d];
  }

  /** While the queue holds a square, nobody has won and fuel remains, the
      loop pops once and goes on. */
  lemma LoopStep(adj: seq<seq<int>>, st: State, player: Side, fuel: nat)
    requires |st.grid| == |adj| && InRange(|adj|, st.queue) && TableOk(adj)
    requires st.queue != [] && Winner(st.grid) == None && fuel >= 1
    ensures JumpLoop(adj, st, player, fuel) == JumpLoop(adj, Pop(adj, st, player), player, fuel - 1)
  {
  }

  /** On a 2 x 2 board whose spot total is odd, BLUE is to move, so a jump
      spreads in RED, over the literal neighbour table. */
  lemma JumpOnTwo(n: int, g: seq<Square>, s: int, fuel: nat)
    requires n == 2 && |g| == 4 && 0 <= s < 4 && NumPieces(g) % 2 == 1
    ensures TableOk(TwoByTwo) && Jump(n, g, s, fuel) == JumpLoop(TwoByTwo, State(g, [s], 0), RED, fuel)
  {
    TwoByTwoOk();
    LayoutOfTwo();
    assert WhoseMove(n, g) == BLUE;
  }

  /** The same for the jump as written, behind a leftover queue. */
  lemma JumpAsWrittenOnTwo(n: int, g: seq<Square>, leftover: seq<int>, s: int, fuel: nat)
    requires n == 2 && |g| == 4 && 0 <= s < 4 && InRange(4, leftover) && NumPieces(g) % 2 == 1
    ensures TableOk(TwoByTwo) && JumpAsWritten(n, g, leftover, s, fuel) == JumpLoop(TwoByTwo, State(g, leftover + [s], 0), RED, fuel)
  {
    TwoByTwoOk();
    LayoutOfTwo();
    assert WhoseMove(n, g) == BLUE;
  }

  /** A 2 x 2 jump from square 0 whose first pop ends the game stops there,
      with whatever that pop left in the queue. */
  lemma OnePopWins(n: int, g: seq<Square>, fuel: nat, next: State)
    requires n == 2 && |g| == 4 && NumPieces(g) % 2 == 1 && Winner(g) == None && fuel >= 1
    requires TableOk(TwoByTwo) && Pop(TwoByTwo, State(g, [0], 0), RED) == next
    requires Winner(next.grid).Some?
    ensures Jump(n, g, 0, fuel) == next
  {
    LastPop(TwoByTwo, State(g, [0], 0), RED, fuel);
    JumpOnTwo(n, g, 0, fuel);
  }

  /** A pop that ends the game, empties the queue or spends the last unit
      of fuel is the loop's last. */
  lemma LastPop(adj: seq<seq<int>>, st: State, player: Side, fuel: nat)
    requires |st.grid| == |adj| && InRange(|adj|, st.queue) && TableOk(adj)
    requires st.queue != [] && Winner(st.grid) == None && fuel >= 1
    requires var r := Pop(adj, st, player); fuel == 1 || r.queue == [] || Winner(r.grid).Some?
    ensures JumpLoop(adj, st, player, fuel) == Pop(adj, st, player)
  {
    LoopStep(adj, st, player, fuel);
  }

  /** A winning cascade leaves squares in the work queue: on the 2 x 2 grid
      R3 B2 / B2 R2, RED's jump from square 0 turns every square RED after
      one pop and stops, whatever the fuel, with 2 and 1 still queued. */
  lemma WinLeavesQueue(n: int, g: seq<Square>, fuel: nat)
    requires n == 2 && g == [Square(RED, 3), Square(BLUE, 2), Square(BLUE, 2), Square(RED, 2)]
    requires fuel >= 1
    ensures var r := Jump(n, g, 0, fuel);
      r.queue == [2, 1] && Winner(r.grid) == Some(RED) && r.pops == 1
  {
    var st3 := State([Square(RED, 1), Square(RED, 3), Square(RED, 3), Square(RED, 2)], [2, 1], 1);
    NumPiecesOfFour(g[0], g[1], g[2], g[3]);
    MixedHasNoWinner(g, 0, 1);
    WinningPop(g);
    WinnerOwnsAll(st3.grid);
    assert Monochrome(st3.grid, RED);
    OnePopWins(n, g, fuel, st3);
  }

  /** The one pop of that cascade. */
  lemma WinningPop(g: seq<Square>)
    requires g == [Square(RED, 3), Square(BLUE, 2), Square(BLUE, 2), Square(RED, 2)]
    ensures TableOk(TwoByTwo) && Pop(TwoByTwo, State(g, [0], 0), RED)
      == State([Square(RED, 1), Square(RED, 3), Square(RED, 3), Square(RED, 2)], [2, 1], 1)
  {
    TwoByTwoOk();
    var st1 := State(g, [], 1);
    var st2 := Transfer(TwoByTwo, st1, 0, 2, RED);
    assert st2 == State([Square(RED, 2), Square(BLUE, 2), Square(RED, 3), Square(RED, 2)], [2], 1);
    var st3 := Transfer(TwoByTwo, st2, 0, 1, RED);
    assert st3 == State([Square(RED, 1), Square(RED, 3), Square(RED, 3), Square(RED, 2)], [2, 1], 1);
    assert Spread(TwoByTwo, st1, 0, [2, 1], RED) == Spread(TwoByTwo, st2, 0, [1], RED) == st3;
  }

  /** Those leftovers corrupt the next cascade: on R3 W0 / W0 B2 with 2 and 1
      still queued, RED's jump from square 0 first pops the stale square 2,
      which holds no spots, and gives one of them away, leaving it RED with
      -1 spots. */
  lemma StaleQueueCorrupts(n: int, g: seq<Square>, leftover: seq<int>)
    requires n == 2 && g == [Square(RED, 3), Square(WHITE, 0), Square(WHITE, 0), Square(BLUE, 2)]
    requires leftover == [2, 1]
    ensures var r := JumpAsWritten(n, g, leftover, 0, 1);
      r.grid[2] == Square(RED, -1) && !AllWellFormed(r.grid)
  {
    var st2 := State([Square(RED, 3), Square(WHITE, 0), Square(RED, -1), Square(RED, 3)], [1, 0, 3], 1);
    NumPiecesOfFour(g[0], g[1], g[2], g[3]);
    MixedHasNoWinner(g, 0, 3);
    StalePop(g);
    assert leftover + [0] == [2, 1, 0];
    LastPop(TwoByTwo, State(g, [2, 1, 0], 0), RED, 1);
    assert !WellFormed(st2.grid[2]);
    JumpAsWrittenOnTwo(n, g, leftover, 0, 1);
  }

  /** The first pop of that cascade: square 2 skips its over-full
      neighbour 0 and gives a spot it does not have to square 3, which
      becomes over-full and is queued. */
  lemma StalePop(g: seq<Square>)
    requires g == [Square(RED, 3), Square(WHITE, 0), Square(WHITE, 0), Square(BLUE, 2)]
    ensures TableOk(TwoByTwo) && Pop(TwoByTwo, State(g, [2, 1, 0], 0), RED)
      == State([Square(RED, 3), Square(WHITE, 0), Square(RED, -1), Square(RED, 3)], [1, 0, 3], 1)
  {
    TwoByTwoOk();
    var st1 := State(g, [1, 0], 1);
    assert OverFull(TwoByTwo, g, 0);
    assert Spread(TwoByTwo, st1, 2, [0, 3], RED) == Spread(TwoByTwo, st1, 2, [3], RED);
    var st2 := Transfer(TwoByTwo, st1, 2, 3, RED);
    assert st2 == State([Square(RED, 3), Square(WHITE, 0), Square(RED, -1), Square(RED, 3)], [1, 0, 3], 1);
    assert Spread(TwoByTwo, st1, 2, [3], RED) == Spread(TwoByTwo, st2, 2, [], RED) == st2;
  }

  /** With a fresh queue the same move is an ordinary cascade: square 0
      gives one spot to each of its two neighbours, nothing else moves, and
      the queue is left empty. */
  lemma FreshQueueJump(n: int, g: seq<Square>, fuel: nat)
    requires n == 2 && g == [Square(RED, 3), Square(WHITE, 0), Square(WHITE, 0), Square(BLUE, 2)]
    requires fuel >= 1
    ensures var r := Jump(n, g, 0, fuel);
      r.grid == [Square(RED, 1), Square(RED, 1), Square(RED, 1), Square(BLUE, 2)] && r.queue == []
  {
    NumPiecesOfFour(g[0], g[1], g[2], g[3]);
    MixedHasNoWinner(g, 0, 3);
    FreshPop(g);
    LastPop(TwoByTwo, State(g, [0], 0), RED, fuel);
    JumpOnTwo(n, g, 0, fuel);
  }

  /** The one pop of the fresh cascade. */
  lemma FreshPop(g: seq<Square>)
    requires g == [Square(RED, 3), Square(WHITE, 0), Square(WHITE, 0), Square(BLUE, 2)]
    ensures TableOk(TwoByTwo) && Pop(TwoByTwo, State(g, [0], 0), RED)
      == State([Square(RED, 1), Square(RED, 1), Square(RED, 1), Square(BLUE, 2)], [], 1)
  {
    TwoByTwoOk();
    var st1 := State(g, [], 1);
    var st2 := Transfer(TwoByTwo, st1, 0, 2, RED);
    assert st2 == State([Square(RED, 2), Square(WHITE, 0), Square(RED, 1), Square(BLUE, 2)], [], 1);
    var st3 := Transfer(TwoByTwo, st2, 0, 1, RED);
    assert st3 == State([Square(RED, 1), Square(RED, 1), Square(RED, 1), Square(BLUE, 2)], [], 1);
    assert Spread(TwoByTwo, st1, 0, [2, 1], RED) == Spread(TwoByTwo, st2, 0, [1], RED) == st3;
  }

  /** The search reaches those leftovers.  With RED to move on R2 B2 / B2 R2,
      the first candidate, square 0, is the cascade of `WinLeavesQueue`; it
      wins and leaves 2 and 1 queued.  Undoing it restores the grid but not
      the queue, and the next legal candidate, square 3, makes the grid
      R2 B2 / B2 R3.  That jump pops the stale square 2 first, although it is
      BLUE's and not over-full, then the stale 1, and only then square 3.  It
      pops three squares where a fresh jump pops one (`FreshRedirect`), and
      wins on a different grid. */
  lemma StaleQueueRedirects(n: int, g: seq<Square>, fuel: nat)
    requires n == 2 && g == [Square(RED, 2), Square(BLUE, 2), Square(BLUE, 2), Square(RED, 3)]
    requires fuel >= 3
    ensures var r := JumpAsWritten(n, g, [2, 1], 3, fuel);
      && r.grid == [Square(RED, 3), Square(RED, 3), Square(RED, 2), Square(RED, 1)]
      && r.pops == 3 && r.queue == [0, 1]
  {
    NumPiecesOfFour(g[0], g[1], g[2], g[3]);
    assert [2, 1] + [3] == [2, 1, 3];
    StaleRedirectLoop(g, fuel);
    JumpAsWrittenOnTwo(n, g, [2, 1], 3, fuel);
  }

  /** The loop of that cascade, from the queue 2 1 3. */
  lemma StaleRedirectLoop(g: seq<Square>, fuel: nat)
    requires g == [Square(RED, 2), Square(BLUE, 2), Square(BLUE, 2), Square(RED, 3)]
    requires fuel >= 3
    ensures TableOk(TwoByTwo) && JumpLoop(TwoByTwo, State(g, [2, 1, 3], 0), RED, fuel)
      == State([Square(RED, 3), Square(RED, 3), Square(RED, 2), Square(RED, 1)], [0, 1], 3)
  {
    var a := State([Square(RED, 3), Square(BLUE, 2), Square(RED, 1), Square(RED, 3)], [1, 3, 0], 1);
    var b := State([Square(RED, 3), Square(BLUE, 2), Square(RED, 1), Square(RED, 3)], [3, 0], 2);
    var c := State([Square(RED, 3), Square(RED, 3), Square(RED, 2), Square(RED, 1)], [0, 1], 3);
    TwoByTwoOk();
    MixedHasNoWinner(g, 0, 1);
    MixedHasNoWinner(a.grid, 0, 1);
    StaleRedirectPops(g);
    WinnerOwnsAll(c.grid);
    assert Monochrome(c.grid, RED);
    ThreePops(TwoByTwo, State(g, [2, 1, 3], 0), a, b, c, RED, fuel);
  }

  /** Three pops, the last of which ends the game, are a whole run of the
      loop when the fuel allows three. */
  lemma ThreePops(adj: seq<seq<int>>, s0: State, s1: State, s2: State, s3: State, player: Side, fuel: nat)
    requires |s0.grid| == |adj| && InRange(|adj|, s0.queue) && TableOk(adj) && fuel >= 3
    requires s0.queue != [] && Winner(s0.grid) == None && Pop(adj, s0, player) == s1
    requires s1.queue != [] && Winner(s1.grid) == None && Pop(adj, s1, player) == s2
    requires s2.queue != [] && Winner(s2.grid) == None && Pop(adj, s2, player) == s3
    requires Winner(s3.grid).Some?
    ensures JumpLoop(adj, s0, player, fuel) == s3
  {
    LoopStep(adj, s0, player, fuel);
    LoopStep(adj, s1, player, fuel - 1);
    LastPop(adj, s2, player, fuel - 2);
  }

  /** The three pops of that stale cascade.  Square 2 gives its spot to the
      non-over-full square 0 and skips the over-full 3; square 1 has only
      over-full neighbours and changes nothing; square 3 gives one spot each
      to 1 and 2. */
  lemma StaleRedirectPops(g: seq<Square>)
    requires g == [Square(RED, 2), Square(BLUE, 2), Square(BLUE, 2), Square(RED, 3)]
    ensures TableOk(TwoByTwo)
    ensures Pop(TwoByTwo, State(g, [2, 1, 3], 0), RED)
      == State([Square(RED, 3), Square(BLUE, 2), Square(RED, 1), Square(RED, 3)], [1, 3, 0], 1)
    ensures var a := [Square(RED, 3), Square(BLUE, 2), Square(RED, 1), Square(RED, 3)];
      && Pop(TwoByTwo, State(a, [1, 3, 0], 1), RED) == State(a, [3, 0], 2)
      && Pop(TwoByTwo, State(a, [3, 0], 2), RED)
        == State([Square(RED, 3), Square(RED, 3), Square(RED, 2), Square(RED, 1)], [0, 1], 3)
  {
    TwoByTwoOk();
    StaleRedirectFirst(g);
    var a := [Square(RED, 3), Square(BLUE, 2), Square(RED, 1), Square(RED, 3)];
    StaleRedirectSecond(a);
    StaleRedirectThird(a);
  }

  lemma StaleRedirectFirst(g: seq<Square>)
    requires g == [Square(RED, 2), Square(BLUE, 2), Square(BLUE, 2), Square(RED, 3)]
    ensures TableOk(TwoByTwo) && Pop(TwoByTwo, State(g, [2, 1, 3], 0), RED)
      == State([Square(RED, 3), Square(BLUE, 2), Square(RED, 1), Square(RED, 3)], [1, 3, 0], 1)
  {
    TwoByTwoOk();
    var st1 := State(g, [1, 3], 1);
    var st2 := Transfer(TwoByTwo, st1, 2, 0, RED);
    assert st2 == State([Square(RED, 3), Square(BLUE, 2), Square(RED, 1), Square(RED, 3)], [1, 3, 0], 1);
    assert OverFull(TwoByTwo, st2.grid, 3);
    assert Spread(TwoByTwo, st1, 2, [0, 3], RED) == Spread(TwoByTwo, st2, 2, [3], RED) == st2;
  }

  lemma StaleRedirectSecond(a: seq<Square>)
    requires a == [Square(RED, 3), Square(BLUE, 2), Square(RED, 1), Square(RED, 3)]
    ensures TableOk(TwoByTwo) && Pop(TwoByTwo, State(a, [1, 3, 0], 1), RED) == State(a, [3, 0], 2)
  {
    TwoByTwoOk();
    var st1 := State(a, [3, 0], 2);
    assert OverFull(TwoByTwo, a, 3) && OverFull(TwoByTwo, a, 0);
    assert Spread(TwoByTwo, st1, 1, [3, 0], RED) == Spread(TwoByTwo, st1, 1, [0], RED) == st1;
  }

  lemma StaleRedirectThird(a: seq<Square>)
    requires a == [Square(RED, 3), Square(BLUE, 2), Square(RED, 1), Square(RED, 3)]
    ensures TableOk(TwoByTwo) && Pop(TwoByTwo, State(a, [3, 0], 2), RED)
      == State([Square(RED, 3), Square(RED, 3), Square(RED, 2), Square(RED, 1)], [0, 1], 3)
  {
    TwoByTwoOk();
    var st1 := State(a, [0], 3);
    var st2 := Transfer(TwoByTwo, st1, 3, 1, RED);
    assert st2 == State([Square(RED, 3), Square(RED, 3), Square(RED, 1), Square(RED, 2)], [0, 1], 3);
    var st3 := Transfer(TwoByTwo, st2, 3, 2, RED);
    assert st3 == State([Square(RED, 3), Square(RED, 3), Square(RED, 2), Square(RED, 1)], [0, 1], 3);
    assert Spread(TwoByTwo, st1, 3, [1, 2], RED) == Spread(TwoByTwo, st2, 3, [2], RED) == st3;
  }

  /** With a fresh queue the same move pops square 3 alone: it gives one
      spot each to 1 and 2, and RED owns every square. */
  lemma FreshRedirect(n: int, g: seq<Square>, fuel: nat)
    requires n == 2 && g == [Square(RED, 2), Square(BLUE, 2), Square(BLUE, 2), Square(RED, 3)]
    requires fuel >= 1
    ensures var r := Jump(n, g, 3, fuel);
      && r.grid == [Square(RED, 2), Square(RED, 3), Square(RED, 3), Square(RED, 1)]
      && r.pops == 1 && r.queue == [1, 2]
  {
    var r := State([Square(RED, 2), Square(RED, 3), Square(RED, 3), Square(RED, 1)], [1, 2], 1);
    NumPiecesOfFour(g[0], g[1], g[2], g[3]);
    MixedHasNoWinner(g, 0, 1);
    FreshRedirectPop(g);
    WinnerOwnsAll(r.grid);
    assert Monochrome(r.grid, RED);
    LastPop(TwoByTwo, State(g, [3], 0), RED, fuel);
    JumpOnTwo(n, g, 3, fuel);
  }

  lemma FreshRedirectPop(g: seq<Square>)
    requires g == [Square(RED, 2), Square(BLUE, 2), Square(BLUE, 2), Square(RED, 3)]
    ensures TableOk(TwoByTwo) && Pop(TwoByTwo, State(g, [3], 0), RED)
      == State([Square(RED, 2), Square(RED, 3), Square(RED, 3), Square(RED, 1)], [1, 2], 1)
  {
    TwoByTwoOk();
    var st1 := State(g, [], 1);
    var st2 := Transfer(TwoByTwo, st1, 3, 1, RED);
    assert st2 == State([Square(RED, 2), Square(RED, 3), Square(BLUE, 2), Square(RED, 2)], [1], 1);
    var st3 := Transfer(TwoByTwo, st2, 3, 2, RED);
    assert st3 == State([Square(RED, 2), Square(RED, 3), Square(RED, 3), Square(RED, 1)], [1, 2], 1);
    assert Spread(TwoByTwo, st1, 3, [1, 2], RED) == Spread(TwoByTwo, st2, 3, [2], RED) == st3;
  }
}
