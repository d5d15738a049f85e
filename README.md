# Tetris gameplay core in Dafny

This project models the gameplay logic of the browser Tetris variant in
`tetris/script.js`. That logic covers:

- the 10 × 20 arena of cells, each empty or holding a colour;
- the catalog of seven coloured pieces and the spawn of a piece at (4, 0);
- the collision test, rotation, merging a landed piece into the arena, and
  the row-clearing pass;
- the player actions (move, rotate, drop);
- the drop timer of the frame callback;
- the board reset after game over.

The files are:

- `arena.dfy` (module `Arena`): cells, the board, `createMatrix`, and the
  specification of the clearing pass. `Kept` lists the rows the pass keeps,
  and `Cleared` gives the board after one pass.
- `pieces.dfy` (module `Pieces`): the catalog, `rotate`, the player record
  and `createPlayer`.
- `placement.dfy` (module `Placement`): `collide`, the bounds of a piece, the
  merged arena, and whole-game lemmas built on them.
- `game.dfy` (module `Tetris`): the mutable game state as a class `Game`.
  Its methods change the arena, the player, the drop counter, the last time
  stamp and the game-over phase in place. Each method is proved against the
  functions above.

The clearing pass is modelled as the code does it. After a full row at
index y is spliced out and an empty row is put on top, the loop goes on with
y − 1. The row that slid down into index y is therefore not examined again
in the same pass. `Kept` captures exactly which rows survive. Two adjacent
full rows at the bottom are not both cleared by one pass. A reading in which
every full row disappears in one pass does not match the code, and this model
follows the code.

Game over only raises a flag (`Phase.GameOver`) and leaves the current piece
where it is. The code gates nothing behind that flag: the frame callback
keeps calling `update`, which can still drop the piece, and the keys still
move it. The model follows the code here too, so `Update` does not look at
the phase.

## Model

| member | source | states |
|---|---|---|
| Arena.EmptyRow | tetris/script.js:18 | a row of the given width whose every cell is empty |
| Arena.CreateMatrix | tetris/script.js:17-19 | h rows, each an empty row of width w |
| Arena.Full | tetris/script.js:65 | a row is full when every one of its cells holds a colour |
| Arena.Kept | tetris/script.js:63-70 | the indices the clearing pass keeps, among the first m rows, are all below m and number at most m |
| Arena.KeptInOrder | tetris/script.js:63-70 | the kept rows are listed strictly in increasing order, so surviving rows keep their relative order |
| Arena.KeptNonFullRows | tetris/script.js:63-70 | every row that is not full survives the pass |
| Arena.KeptFullRowsWereSkipped | tetris/script.js:63-70 | a full row survives only when the row just below it was full and removed: it slid into the removed index, which is not examined again |
| Arena.SkippedRowKept | tetris/script.js:64-68 | the row just above a removed row is always kept, full or not: it slides into the removed index and the scan moves past it |
| Arena.KeptExactly | tetris/script.js:63-70 | a row is kept exactly when it is not full or the row just below it (index j + 1), which it slides into, was removed |
| Arena.Cleared | tetris/script.js:63-70 | one pass gives a 20 × 10 board: one empty row on top for each row removed, then the kept rows in order |
| Arena.KeptAllWhenNoneFull | tetris/script.js:63-70 | with no full row, every row is kept |
| Arena.ClearedWithoutFullRows | tetris/script.js:63-70 | a pass over a board with no full row changes nothing |
| Arena.EmptyRowNotFull | tetris/script.js:65-67 | the row inserted on top is never full |
| Arena.ClearedLeavesNoFullRow | tetris/script.js:63-70 | if no two vertically adjacent rows are both full, no full row is left after one pass |
| Arena.AdjacentFullRowsNeedTwoPasses | tetris/script.js:63-70 | when rows 19 and 18 are full, row 18 slides into row 19 and is still full after the pass |
| Pieces.CATALOG | tetris/script.js:7-15 | the seven shapes and colours in catalog order: blue bar, purple, green, red square, darkpink, brown, yellow |
| Pieces.Rotate | tetris/script.js:59-61 | an R×C shape becomes C×R, with cell (i, j) equal to input cell (j, C−1−i); well-formed and 0/1 shapes stay so |
| Pieces.RotateTwice | tetris/script.js:59-61 | two rotations turn the shape half-way round |
| Pieces.HalfTurnTwice | tetris/script.js:59-61 | two half turns give back the shape |
| Pieces.RotateFourTimes | tetris/script.js:59-61 | four rotations give back the original shape |
| Pieces.CatalogWellFormed | tetris/script.js:7-15 | every catalog shape is a non-empty rectangle of 0s and 1s |
| Pieces.Spawn | tetris/script.js:21-24 | the new player stands at (4, 0) with the shape and colour of the chosen catalog entry |
| Placement.Blocked | tetris/script.js:56 | a cell is blocked when its row or column lies outside the arena (negative indices included) or it holds a colour |
| Placement.RowHits | tetris/script.js:55-56 | true exactly when a filled cell of the row, from the given column on, lands on a blocked cell |
| Placement.RowsHit | tetris/script.js:54-56 | true exactly when a filled cell of the piece, from the given row on, lands on a blocked cell |
| Placement.Collide | tetris/script.js:53-57 | true exactly when some filled cell of the piece is off the arena (any side) or on a non-empty cell; on a board, no collision means the piece lies on the grid |
| Placement.Merged | tetris/script.js:43-51 | the arena keeps its dimensions; every cell under a filled piece cell holds the piece colour and every other cell is unchanged |
| Placement.MergeFillsOnlyEmptyCells | tetris/script.js:43-57 | merging a piece that does not collide fills only empty cells and overwrites no colour |
| Placement.MergedPieceCollides | tetris/script.js:43-57 | after the merge, the same piece in the same place collides |
| Placement.SpawnInBounds | tetris/script.js:21-24 | every catalog piece at the spawn position lies on the grid |
| Placement.CatalogTouchesEdges | tetris/script.js:7-15 | every catalog shape has a filled cell in its first and last row and in its first and last column |
| Placement.RotateTouchesEdges | tetris/script.js:59-61 | rotation keeps that property |
| Placement.OffGridCollides | tetris/script.js:53-57 | such a piece collides whenever its bounding box crosses a wall, the floor or the top |
| Placement.BarFallsFreely | tetris/script.js:53-57 | on an empty arena the bar spawned at (4, 0) is free on every row down to row 19 |
| Placement.BarStopsAtFloor | tetris/script.js:53-57 | one row below the bottom, the bar collides on any board |
| Placement.BarLandsOnBottomRow | tetris/script.js:43-51 | the bar merged on row 19 of an empty arena fills exactly columns 4 to 7 of that row |
| Placement.BarLandingClearsNothing | tetris/script.js:63-70 | the clearing pass after that landing leaves the board as it is |
| Tetris.Game.constructor | tetris/script.js:26-29 | the game starts with an empty 10 × 20 arena, a spawned piece, both timer values at 0, and play on |
| Tetris.Game.Merge | tetris/script.js:43-51 | the arena becomes the merged arena of the old arena and the player |
| Tetris.Game.ClearRows | tetris/script.js:63-70 | the arena becomes `Cleared` of the old arena |
| Tetris.Game.DropPiece | tetris/script.js:72-84 | if the piece one row lower is free, it moves there and nothing else changes; otherwise the piece is merged where it was and rows are cleared, then the game is over with the piece kept if it had not left row 0, else a new piece is spawned; the piece stays on the grid |
| Tetris.Game.MovePiece | tetris/script.js:98-103 | the player is shifted by dir unless that collides, in which case it is unchanged; a piece that did not collide still does not |
| Tetris.Game.RotatePiece | tetris/script.js:105-111 | position and colour are unchanged; the matrix is the rotated one unless that collides, else the previous one; a piece that did not collide still does not |
| Tetris.Game.Update | tetris/script.js:113-120 | lastTime becomes time and the counter gains time − lastTime; above 1000 (strictly) the piece drops and the counter is reset to 0, otherwise nothing else changes |
| Tetris.Game.Reset | tetris/script.js:91-96 | the arena is all empty, a new piece is spawned, play is on; the `update` with time 0 sets lastTime to 0 and takes the old lastTime off the counter |

## Left out

- Drawing on the canvas (`drawMatrix`, `draw`, the scale set-up) is output only (tetris/script.js:32-41, 125-137).
- DOM and event wiring: the page-load handler, element lookup, the key dispatch, the one-shot click listener and the overlay display are host plumbing (tetris/script.js:1-5, 86-89, 94, 139-150). The click that restarts the game is the `Reset` method, and the overlay is the `Phase` flag.
- The `requestAnimationFrame` scheduling is not modelled (tetris/script.js:122, 152). That includes the extra frame-callback chain each reset starts (tetris/script.js:95). `Update` models one frame.
- `Math.random` is not modelled (tetris/script.js:22). The catalog index is a `PieceIndex` parameter in 0..6 given to `Spawn`, the `Game` constructor (`first`), `DropPiece`, `Update` and `Reset`.
- Time stamps are integer milliseconds, not floating point.
- Tetris.Game.Update requires time ≥ 0 and a counter no larger than the interval (`ClockValid`). Host frame time stamps are never negative, and the counter is reset to 0 whenever it passes the interval.
- Sharing of the catalog's shape arrays between spawned players is captured by value semantics. Rotation builds new arrays, so no template is ever changed.
- Merge writes only in-grid cells. A write past the right end of a row would grow it as a sparse array, and a write to a missing row would throw. `Valid` keeps the piece on the grid, so neither can happen from the modelled operations.
