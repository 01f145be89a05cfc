# jump61 in Dafny: the board engine and the alpha-beta player

jump61 is a chain-reaction board game on an N×N grid of squares. Each
square is owned by RED, BLUE or nobody (WHITE) and holds a number of spots.
A player adds a spot to an empty square or to one of their own. A square
holding more spots than it has orthogonal neighbours is over-full. Over-full
squares hand one spot to each neighbour that is not itself over-full, in
the mover's colour, and this can set off further overflows (`jump`). The
game is won when one side owns every square. The automated player searches
the game tree with alpha-beta `minMax`: it plays a move on the board, scores
the reply, and undoes the move again.

The model is a pure state-transition system over immutable values.

| file | module | what it holds |
|---|---|---|
| `squares.dfy` | `Squares` | `Side`, `Square`, `INITIAL`, `Option` |
| `geometry.dfy` | `Geometry` | `exists`, `row`, `col`, `sqNum` (with Java's truncating `/` and `%`), `neighbors`, the visit order of `forNeighbors` |
| `grids.dfy` | `Grids` | whole-grid queries: `numPieces`, `numOfSide`, `getWinner`, `whoseMove`, `isOverFlow`, `internalSet` |
| `cascade.dfy` | `Cascade` | `jump` as a fuel-bounded work-queue loop |
| `boards.dfy` | `Boards` | the `Board` record (size, row-major grid, snapshot history), `set`, `addSpot`, `markUndo`/`undo`, `copy`, `clear`, `isLegal`, `equals`/`hashCode` |
| `search.dfy` | `Search` | `findVaildPos`, `staticEval`, `minMax` |

The board's square array becomes a row-major `seq<Square>`: square number
S is the cell at row S/N + 1, column S%N + 1. The undo stack of `GameState`
snapshots becomes a `seq<seq<Square>>`. Its last entry is the current grid
after every operation that ends with `markUndo`, and after `undo`. `set` and
`internalSet` change the grid without touching the history. `minMax` is a function from the board and its
arguments to an `Outcome`. The shared `foundMoves` list is an input and an
output. The write to `_foundMove` is returned as `chosen`.

A popped square gives one spot to each neighbour that is not over-full.
It therefore loses at most `neighbors(pos)` spots. Since it held more than
that, it keeps at least one spot and never empties to 0
(`Cascade.SpreadKeepsWellFormed`). For example, the centre of a 3×3 board
popped with 5 spots keeps at least 1.

## Model

| member | source | states |
|---|---|---|
| Geometry.CoordRoundTrip | jump61/Board.java:154-177 | for a row and column on the board, `sqNum` gives an existing square whose `row` and `col` are that row and column |
| Geometry.SquareRoundTrip | jump61/Board.java:159-177 | for an existing square number, its `row` and `col` exist and `sqNum` of them is the number again |
| Geometry.SqNumInjective | jump61/Board.java:154-177 | two cells of the board with the same square number are the same cell |
| Geometry.Neighbors | jump61/Board.java:439-456 | `neighbors(r, c)` is 0 on a 1×1 board; for N ≥ 2 it is 2 at a corner, 3 on an edge and 4 inside |
| Geometry.NeighborListExact | jump61/Board.java:342-354 | `forNeighbors(s)` visits exactly the existing squares one row or one column away, each once, and as many as `neighbors(s)` counts |
| Geometry.NeighborListFacts | jump61/Board.java:342-354 | every square `forNeighbors(s)` visits exists and differs from S; the visits are distinct and there are `neighbors(s)` of them |
| Grids.NumOfSideFull | jump61/Board.java:229-239 | `numOfSide(side)` equals the number of squares exactly when SIDE owns every square |
| Grids.NumOfSidesPartition | jump61/Board.java:229-239 | the RED, BLUE and WHITE counts add up to the number of squares |
| Grids.WinnerOwnsAll | jump61/Board.java:218-226 | `getWinner()` is RED exactly when RED owns every square, BLUE exactly when BLUE does, and null otherwise; a winner is never WHITE |
| Grids.MixedHasNoWinner | jump61/Board.java:218-226 | two squares of different sides mean there is no winner |
| Grids.WhoseMoveFlips | jump61/Board.java:149-151 | one more spot on the board hands the move to the other player |
| Grids.InternalSet | jump61/Board.java:284-293 | an existing square gets NUM spots, WHITE when NUM is 0 and PLAYER otherwise, and every other square is unchanged; a number off the board changes nothing |
| Grids.InternalSetPieces | jump61/Board.java:284-293 | writing NUM spots changes `numPieces()` by NUM minus the square's old count |
| Cascade.OverFullIsOverFlow | jump61/Board.java:356-361 | read through the board's neighbour table, over-full is `isOverFlow` |
| Cascade.JumpLoop | jump61/Board.java:370-382 | the loop pops at most one square per unit of fuel; if it stops before the fuel is spent, the queue is empty or one side owns the grid; it changes nothing when it starts with an empty queue or a won grid |
| Cascade.Jump | jump61/Board.java:367-382 | `jump(s)` starts from a queue holding S alone; if it stops before the fuel is spent, the queue is empty or the game is won |
| Cascade.TransferKeepsWellFormed | jump61/Board.java:372-376 | one transfer moves exactly one spot from the popped square to the neighbour, colours both with the mover, leaves every other square as it was, and keeps every square well formed |
| Cascade.TransferConserves | jump61/Board.java:374-375 | a transfer leaves `numPieces()` unchanged |
| Cascade.TransferKeepsQueue | jump61/Board.java:373-379 | a neighbour is queued only right after it becomes over-full; the queue keeps holding distinct over-full squares |
| Cascade.SpreadKeepsWellFormed | jump61/Board.java:372-381 | the popped square loses at most one spot per neighbour (at least its count minus the number of neighbours remains), so it keeps at least one spot; every changed square now belongs to the mover |
| Cascade.PopKeepsInvariant | jump61/Board.java:370-381 | one loop iteration keeps the queue discipline, well-formed squares, and the mover's colour on every change |
| Cascade.JumpLoopKeepsInvariant | jump61/Board.java:370-382 | the whole loop keeps the queue discipline and well-formed squares; every changed square belongs to the mover |
| Cascade.JumpKeepsWellFormed | jump61/Board.java:367-382 | from a well-formed grid whose square S overflows, `jump(s)` leaves a well-formed grid, changed only to the colour of `whoseMove().opposite()` |
| Cascade.JumpConserves | jump61/Board.java:367-382 | `jump` moves spots around without creating or destroying any |
| Cascade.JumpFuelMonotone | jump61/Board.java:370 | once the loop has stopped on its own, more fuel gives the same result |
| Cascade.JumpAsWritten | jump61/Board.java:367-371 | with the work-queue field as the source keeps it, S is queued behind the entries an earlier cascade left; with nothing left over it is `Jump` |
| Cascade.WinLeavesQueue | jump61/Board.java:370-379 | a cascade that ends in a win leaves entries in the work queue (a 2×2 example leaves [2, 1]) |
| Cascade.StaleQueueRedirects | jump61/Board.java:367-382 | behind the stale [2, 1], the jump from square 3 of R2 B2 / B2 R3 first pops square 2, which is BLUE's and not over-full; it pops three squares and wins on R3 R3 / R2 R1 |
| Cascade.FreshRedirect | jump61/Board.java:367-382 | with an empty queue the same jump pops square 3 alone and wins on R2 R3 / R3 R1 |
| Search.StaleQueueReached | jump61/AI.java:66-77 | on R2 B2 / B2 R2 RED is to move, nobody has won, RED's candidates are squares 0 then 3, and placing on them gives the grids of the winning cascade and of the stale one |
| Cascade.StaleQueueCorrupts | jump61/Board.java:367-376 | popping a stale entry that is an empty square takes a spot it does not have and leaves it at RED with -1 spots |
| Cascade.FreshQueueJump | jump61/Board.java:367-376 | on the same grid with an empty queue, the cascade ends with every square well formed and nothing queued |
| Boards.Blank | jump61/Board.java:38-53 | a new board of any size N ≥ 0 has N×N INITIAL squares, none when N is 0 |
| Boards.Clear | jump61/Board.java:69-81 | `clear(N)` for any N ≥ 0 gives N×N INITIAL squares and a history of exactly one snapshot, the current grid; the board has the shape the other operations take exactly when N ≥ 1, and the empty board of N = 0 is already won by RED |
| Boards.MarkUndo | jump61/Board.java:322-325 | `markUndo` pushes a snapshot of the current grid and keeps the older ones |
| Boards.Undo | jump61/Board.java:313-319 | `undo` on an empty history changes nothing; otherwise it drops the last snapshot and restores the grid to the one before |
| Boards.Get | jump61/Board.java:129-134 | `get(n)` returns the square exactly when N exists, and null otherwise |
| Boards.GetRC | jump61/Board.java:119-124 | `get(r, c)` returns the square of `sqNum(r, c)` exactly when (R, C) exists |
| Boards.InternalSetRC | jump61/Board.java:275-280 | on an existing cell only the cell's square changes, to NUM spots coloured PLAYER or WHITE for 0; off the board nothing changes |
| Boards.Set | jump61/Board.java:263-270 | `set` with NUM > 0 writes PLAYER's NUM spots, with NUM == 0 writes WHITE, and with a negative NUM changes nothing |
| Boards.AddSpot | jump61/Board.java:243-252 | after `addSpot` the history is the old one plus the new grid |
| Boards.AddSpotSq | jump61/Board.java:255-259 | the same for a square number, through its row and column |
| Boards.AddSpotLands | jump61/Board.java:243-252 | when (R, C) does not overflow, `addSpot` changes only that square, to one more spot in the player's colour; when it overflows on the mover's turn, the square still belongs to the mover with at least one spot |
| Boards.PlaceFacts | jump61/Board.java:245 | the added spot raises `numPieces()` by one and colours the square with the player |
| Boards.OverflowColours | jump61/Board.java:246-248 | the overflow step keeps squares well formed and colours every change with `whoseMove().opposite()` |
| Boards.AddSpotPieces | jump61/Board.java:243-252 | `addSpot` raises `numPieces()` by exactly one |
| Boards.AddSpotPassesTurn | jump61/Board.java:243-252 | after `addSpot` the other player is to move |
| Boards.AddSpotColours | jump61/Board.java:243-252 | when the player to move adds the spot, the grid stays well formed and every changed square is theirs |
| Boards.UndoAddSpot | jump61/Board.java:313-325 | `undo` after `addSpot` gives back the board as it was, grid and history |
| Boards.UndoAddSpotSq | jump61/Board.java:255-259 | the same for `addSpot(player, n)` |
| Boards.IsLegalExact | jump61/Board.java:191-214 | `isLegal(p, n)` holds exactly when N exists, is not over-full, nobody has won, it is P's turn, and the square is not P's opponent's; `isLegal(p, r, c)` agrees with it |
| Boards.Equals | jump61/Board.java:464-492 | `equals` holds exactly when sizes and all squares agree; equal boards have equal `hashCode` |
| Boards.Copy | jump61/Board.java:85-99 | `copy` takes the size and every square (an empty count as WHITE), a well-formed source exactly, and leaves one snapshot |
| Search.Scan | jump61/AI.java:69-75 | the scan from square I lists, in increasing order, exactly the squares from I on that are WHITE or the side's own and not over-full |
| Search.ValidPositions | jump61/AI.java:66-77 | `findVaildPos` lists, in increasing order, exactly the empty squares and the side's squares with no more spots than neighbours |
| Search.CandidatesAreLegal | jump61/AI.java:66-77 | when the side is to move and nobody has won, the candidates are exactly the squares where the move is legal |
| Search.StaticEval | jump61/AI.java:147-158 | a RED win scores +WINNINGVALUE and a BLUE win -WINNINGVALUE; otherwise the score lies between 0 and N×N, with the sign of the player's side |
| Search.EvalCountsNotOpponent | jump61/AI.java:147-158 | without a winner, the score counts the squares the opponent does not own, negated for BLUE |
| Search.MinMax | jump61/AI.java:103-108 | the board after `minMax` is the board before it |
| Search.MinMaxResult | jump61/AI.java:92-142 | at depth 0 or on a won board the value is `staticEval` and nothing is saved; otherwise the candidates are tried in order, all of them unless a prune cut the loop, and a prune happens only once the window has closed; the value is the best reply for the mover, or `-sense * MAX_VALUE` when there was none; at a SAVEMOVE node `foundMoves` holds the examined moves whose reply equals the value, and `_foundMove` is written with a member of that list exactly when the loop was not pruned and the list is not empty |
| Search.Loop | jump61/AI.java:103-134 | the loop examines a prefix of the candidates, all of them unless it returned on a prune, and returns early only once ALPHA >= BETA |
| Search.Step | jump61/AI.java:104-108 | one pass records the move and the call it makes: depth - 1, the opposite sense, no move saving, the current window |
| Search.Fold | jump61/AI.java:110-133 | the comparison records one reply, keeps `bestSoFar`, the window and `foundMoves` in step with the replies so far, and reports a prune only once ALPHA >= BETA |
| Search.AcceptKeepsInv | jump61/AI.java:110-128 | taking a reply at least as good as `bestSoFar` keeps it dominant, moves the mover's bound, and resets `foundMoves` only on a strict improvement |
| Search.RejectKeepsInv | jump61/AI.java:110 | a worse reply changes nothing but the record |
| Search.MinMaxReplies | jump61/AI.java:105-106 | every recorded reply is the value of `minMax` on the board with that move played for the side SENSE stands for, one level down, with the opposite sense and no move saving |
| Search.DepthOneIsGreedy | jump61/AI.java:96-141 | with one level left and the root's full window, `minMax` tries every candidate, records the static evaluation after each, and returns the best of them for the mover, or the worst value exactly when there is none |

## Left out

- The notifier (`announce`, `setNotifier`, `NOP`), `ConstantBoard` and `readonlyBoard` are display plumbing. The `Board(Board)` constructor is `Blank` followed by `Copy`.
- `toString`, `squareToString`, `toDisplayString` and `moveString` are text rendering.
- `AI.getMove` and `searchForMove` depend on `Game` and `Player`, which are not part of this model. Their root call is `MinMax` with depth 4, SAVEMOVE true, and the window `-MAX_VALUE .. MAX_VALUE`.
- The `System.out.println` of the tie list in `minMax` has no effect on the result.
- `java.util.Random` becomes the number `Ai.choice`. The drawn move is `foundMoves[choice % |foundMoves|]`, so every member of the tie list can be drawn.
- `_numMoves` is never read. `undo` does not restore it either.
- `internalCopy` and `simpleAdd` are never called.
- `Side.java` and `Square.java` are not part of this model. `Side` is RED, BLUE or WHITE. `opposite` swaps RED and BLUE and is taken to leave WHITE as it is. `Square` is a (side, spots) pair and `INITIAL` is (WHITE, 0).
- Boards.Valid: every operation other than `Blank` and `Clear` takes a board of size N ≥ 1. `Clear(0)` builds the empty board, as `Board(0)` and `clear(0)` do in the source, but what the other operations do on it is not stated. A negative N throws at `new Square[N][N]`, which is why `Blank` and `Clear` require N ≥ 0.
- Boards.Undo: `undo` with exactly one snapshot throws from `getLast` in the source, so the model requires a history of any other length.
- Boards.AddSpot: requires the cell to exist: the source dereferences `get(r, c)`, which is null off the board.
- Boards.AddSpot: every cascade starts from an empty work queue (`Cascade.Jump`), the corrected behaviour of the Findings row. The source's `_workQueue` can still hold entries that an earlier winning cascade left behind, so its `addSpot` can differ from the model's after such a win.
- Boards.Copy: copies from a different board only. `b.copy(b)` in the source replaces `_squares` with a fresh array before reading `board.get(i)` from it, and fails with a null dereference. The model's `Copy` reads a separate value and cannot express that aliasing.
- Cascade.Jump and Cascade.JumpLoop: take a fuel bound, one unit per popped square. The source's loop runs until the queue is empty or the game is won; the lemmas say what happens when the fuel, rather than the loop's own exit, ended the run.
- Search.Ai: its `fuel` is the fuel of every cascade the search plays.
- Search.StaticEval: does not model Java's 32-bit `int` wrap-around. The result is at most N×N in absolute value, or `WINNNING_VAl`, so this only matters for boards with more than 2^31 squares.
- Search.MinMaxReplies: records the window each reply search was given but does not characterise it. The recorded replies are therefore not compared with a textbook minimax value beyond depth one (`Search.DepthOneIsGreedy`): with pruning, a deeper reply is exact only inside its window.
- Search.MinMax: promises only that the board is restored, which is all the recursion needs; `Search.MinMaxResult` states the rest of the contract of `minMax`.
- Search.MinMax: plays every move through `Boards.AddSpotSq`, so every cascade of the search starts from an empty work queue. In the source a winning cascade inside the search can leave entries for a later cascade of the same search (`Search.StaleQueueReached`, `Cascade.StaleQueueRedirects`), so from such positions the source's search can see different boards.
- Shared state: `Boards.AddSpot` and `Search.MinMax` are deterministic. The source's `foundMoves` is a field shared by all calls, and `_foundMove` keeps its old value unless it is written. Both appear as explicit inputs and outputs (`Node.found`, `Outcome.found`, `Outcome.chosen`). The board's `_workQueue` is hidden state too. It is not threaded through the model: the model uses the corrected, empty queue (see the two lines above and Findings).

## Findings

| source | as written | input that shows it | evidently intended | confidence | as-written member | corrected member |
|---|---|---|---|---|---|---|
| jump61/Board.java:367-382 | `_workQueue` is a field, and the `while` loop of `jump` exits on a winner without emptying it. The next `jump` queues its square behind the stale entries and pops those first, although they need not be over-full. It takes a winning cascade that stops with squares still queued, followed by an overflowing `addSpot` on the same board. | Take the top-level search of the RED player on a 2×2 board R2 B2 / B2 R2, with RED to move. RED's candidates are squares 0 and 3. RED's spot on square 0 overflows. The cascade wins after one pop with [2, 1] still queued. The won child is scored without further moves. `undo` restores the grid but not the queue. The win does not close the root's full window, so square 3 is tried next. RED's spot on square 3 gives R2 B2 / B2 R3. Its jump pops the stale square 2 first, although that square is BLUE's with 2 spots and not over-full. It then pops 1 and 3 and wins on R3 R3 / R2 R1. A second example assumes only that a square's count can go below zero (`Square.java` is not part of this model). There, a stale entry that is an empty square gives away a spot it does not have and is left at -1. | Every `jump` starts from an empty work queue, as the comment at :365-366 assumes. Then the jump from square 3 pops square 3 alone and wins on R2 R3 / R3 R1, and in the second example every square stays well formed. | not executed | Cascade.JumpAsWritten (Search.StaleQueueReached, Cascade.WinLeavesQueue, Cascade.StaleQueueRedirects, Cascade.StaleQueueCorrupts) | Cascade.Jump (Cascade.JumpKeepsWellFormed, Cascade.FreshRedirect, Cascade.FreshQueueJump) |
