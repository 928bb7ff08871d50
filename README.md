# Tetris engine model

A Dafny model of the game engine of a browser Tetris written in one script
(`script.js`). The board is a 20-row, 10-column grid of cells holding 0
(empty) or a piece's colour index 1..7. Seven tetromino types (`"TJLOSZI"`)
have fixed shapes. A session keeps the board, the score, the number of
cleared rows, the level, the drop interval, a drop counter, the active piece
with its position, and the next piece.

The engine's operations:
- `createMatrix` builds the zero grid and `createPiece` builds a shape.
- `collide` checks a placement against the board.
- `merge` writes a locked piece into the board.
- `sweep` removes full rows bottom-up and scores them.
- `updateLevel` recomputes the level and the drop interval.
- `playerReset` spawns the next piece, and resets the board and stats when the spawn collides.
- `rotate` and `rotatePlayer` turn the piece, with a bounded wall-kick search.
- `move` and `drop` shift the piece.
- The frame step of `update` adds elapsed time to the drop counter and drops once the counter is above the interval.
- `startGame` sets up a fresh session.

The model is in two layers:
- **Values.** Module `Rules` describes the whole session as a `GameState` value. Every player action and timer step is a function on it. Lemmas prove that each step keeps the engine invariant `Rules.Inv`, and that the invariant survives any sequence of events:
  - the board is 20 by 10 with cells 0..7 and no full row;
  - level and interval agree with the cleared-row count;
  - the next piece is a catalog shape;
  - while the game runs, the active piece never overlaps the board or leaves it.
- **In-place updates.** Class `Tetris.Game` holds the script's top-level variables as fields. Its methods update them in place. Each method is proved to leave exactly the state that a function computes from the old state:
  - `Merge` against `Board.Merged`;
  - `UpdateLevel` against `Scoring.LevelFor` and `Scoring.IntervalFor`;
  - `Sweep`, `PlayerReset`, `StartGame`, `RotatePlayer`, `Move`, `Drop`, `Lock` and `Update` against the matching `Rules` function.

  The player actions, the frame step and the start also keep `Valid()`, the engine invariant on the fields. The script's loops are kept as loops:
  - the cell loop of `merge` in `Tetris.Game.Merge`;
  - the scan of `collide` in `Collision.Collide`;
  - the row loop of `sweep` in `Tetris.SweepRows` with `Board.RowFull`;
  - the kick loop of `rotatePlayer` in `Tetris.KickSearch`;
  - the row-pushing loop of `createMatrix` in `Matrices.CreateMatrix`.

Modules: `Matrices` (grids, zero grid, rotation), `Pieces` (catalog),
`Collision`, `Board` (merge and sweep), `Scoring` (points, level,
interval), `Rules` (session as a value), `Tetris` (the class).

## Model

| member | source | states |
|---|---|---|
| Matrices.CreateMatrix | script.js:73-77 | the loop pushes h rows of w zeros: the result is the h-by-w zero grid |
| Matrices.Reversed | script.js:274 | `reverse` keeps the length and puts element k at position len-1-k |
| Matrices.Rotate | script.js:273-275 | rotating an h-by-w grid gives a rectangular w-by-h grid whose cells stay in 0..7 |
| Matrices.RotateCell | script.js:273-275 | the rotation is the clockwise quarter turn: cell (i, j) of the result is cell (h-1-j, i) of the input |
| Matrices.RotateFour | script.js:286-292 | four quarter turns give back the original grid, so the three extra turns of a failed rotation restore the old shape |
| Matrices.RotateKeepsFill | script.js:273-275 | a rotated piece still has one colour: every occupied cell keeps the piece's value |
| Pieces.CellValue | script.js:81-99 | each type's colour index is in 1..7 |
| Pieces.CreatePiece | script.js:91-101 | every shape fits the 4-by-4 preview box, is rectangular with cells 0..7, uses one colour (its type's index), and is 2 by 2 for O, 1 by 4 for I and 3 by 3 otherwise |
| Pieces.CatalogFourCells | script.js:91-101 | every catalog shape has exactly four occupied cells |
| Pieces.CatalogHasCell | script.js:80-101 | every shape the random index can pick has an occupied cell |
| Collision.Collides | script.js:187-201 | definition: the placement collides when some occupied cell of the piece falls on a missing row, a missing column or an occupied board cell |
| Collision.Collide | script.js:187-201 | returns true exactly when some occupied piece cell lands on a missing row, a missing column or an occupied board cell |
| Board.EmptyBoardIsBoard | script.js:9-16 | `createMatrix(cols, rows)` is a 20-by-10 board with all cells 0 and no full row |
| Board.Merged | script.js:203-209 | definition: every cell covered by an occupied piece cell takes the piece's value; every other cell keeps its value |
| Board.MergedIsBoard | script.js:203-209 | merging a shape with cells 0..7 keeps a 20-by-10 board with cells 0..7 |
| Board.MergeThenCollides | script.js:203-209 | after merging a piece with an occupied cell at a free placement, that placement collides |
| Board.RowFull | script.js:214-216 | the inner scan of the sweep finds a row full exactly when no cell is 0 |
| Board.KeptRows | script.js:211-222 | the non-full rows plus the full ones make up the board, and every kept row is a non-full row of the board |
| Board.KeptNoFull | script.js:211-222 | a board without full rows keeps all of its rows and clears none |
| Board.Swept | script.js:211-222 | definition: one empty row on top for each full row, then the non-full rows in their original order |
| Board.SweptIsBoard | script.js:211-222 | a swept board is still 20 by 10 with cells 0..7 and has no full row left |
| Board.SweptNoFull | script.js:211-222 | a board without a full row is left unchanged and clears 0 rows |
| Board.SweptIdempotent | script.js:211-222 | sweeping a swept board changes nothing |
| Board.SweptRowsFiveAndSeven | script.js:211-222 | with exactly rows 5 and 7 full, two rows are cleared, two empty rows go on top and the other rows keep their order |
| Board.MergedFullRows | script.js:203-222 | merging a piece of h rows into a board without full rows completes at most h rows |
| Scoring.Points | script.js:225-226 | definition: 100, 300, 500 and 800 points for one to four rows, 200 per row for any other count |
| Scoring.LevelFor | script.js:238 | the level is at least 1 and rises by one every ten cleared rows |
| Scoring.IntervalFor | script.js:243 | the interval is 700 ms at level 1, 70 ms shorter per level, and 100 ms from level 10 on |
| Scoring.IntervalMonotone | script.js:243 | the interval never grows as the level rises |
| Rules.Initial | script.js:15-21 | the state before the first start (empty board, zero stats, level 1) keeps the invariant, is not running and holds the drawn next piece |
| Rules.SpawnX | script.js:256 | definition: the spawn column is floor(10 / 2) - floor(width / 2) |
| Rules.Reset | script.js:248-269 | definition: the next piece becomes active at row 0 and the spawn column, the piece of type k becomes next, and a colliding spawn resets board, score, cleared rows, level and interval while the game keeps running |
| Rules.SpawnFits | script.js:255-258 | a rectangular shape no larger than the board never collides at the spawn point of an empty board |
| Rules.FreshPieceFits | script.js:255-264 | a freshly reset board always takes the spawned piece |
| Rules.ResetKeepsInv | script.js:248-271 | after playerReset the next piece is active at row 0, it does not collide, and the invariant holds |
| Rules.Started | script.js:342-352 | definition: empty board, zero score and cleared rows, level 1, running, interval 700, next piece of type k1, then playerReset drawing type k2; the drop counter is left as it was |
| Rules.StartedKeepsInv | script.js:342-358 | from any state, startGame leaves a running game on an empty board with zero score that keeps the invariant, with the chosen next piece active |
| Rules.AfterSweep | script.js:211-245 | sweeping and scoring change only the board and stats: piece, next piece, position, the running flag and the counter stay |
| Rules.AfterSweepKeepsSession | script.js:211-245 | after sweep and updateLevel the board, level and interval satisfy the session invariant |
| Rules.Moved | script.js:298-302 | definition: nothing happens unless the game runs; the piece shifts dir columns unless the shifted placement collides |
| Rules.MovedKeepsInv | script.js:298-302 | a move keeps the invariant: the piece never ends on an occupied or missing cell |
| Rules.KickOffsetClosedForm | script.js:282-285 | the kicks visit the columns oldX, oldX+1, oldX-1, oldX+2, oldX-2, ... |
| Rules.FirstFit | script.js:283-294 | returns the first free kick candidate among the first w, or none, and every earlier candidate collides |
| Rules.Rotated | script.js:277-296 | definition: nothing happens unless the game runs; the rotated shape is kept at the first free kick candidate among the first w, w its width, and otherwise shape and column stay |
| Rules.RotatedOutcome | script.js:277-296 | a rotation lands the rotated shape at the first free candidate among the first w (w its width), or changes nothing when all w collide; row and board never change |
| Rules.RotatedKeepsInv | script.js:277-296 | a rotation keeps the invariant |
| Rules.Dropped | script.js:304-316 | definition: nothing happens unless the game runs; the piece falls a row when that row is free and otherwise locks; the drop counter restarts at 0 |
| Rules.Locked | script.js:307-311 | definition: merge the piece where it rests, sweep, then playerReset drawing type k |
| Rules.DroppedKeepsInv | script.js:304-316 | a drop, including locking, sweeping and respawning, keeps the invariant |
| Rules.DroppedScore | script.js:225-226 | one drop adds 0, 100, 300, 500 or 800 points, unless the respawn resets the score to 0 |
| Rules.Ticked | script.js:333-336 | definition: while running, delta is added to the counter, and a counter strictly above the interval triggers a drop |
| Rules.TickedCounter | script.js:333-336 | in a running frame whose counter passes the interval the counter restarts at 0, so the excess time is thrown away; otherwise it grows by delta; either way the counter ends no higher than the interval |
| Rules.TickedKeepsInv | script.js:327-336 | a frame keeps the invariant |
| Rules.Step | script.js:318-358 | each key event, frame or start applied to a state that keeps the invariant gives a state that keeps it |
| Rules.Run | script.js:318-362 | after any sequence of events the invariant still holds |
| Tetris.Game.constructor | script.js:15-21 | the fields start as the initial state, which keeps the invariant |
| Tetris.Game.Merge | script.js:203-209 | the cell loop writes exactly the piece's occupied cells into the board and changes nothing else |
| Tetris.Game.UpdateLevel | script.js:237-245 | sets the level from the cleared rows and the interval from the level, nothing else |
| Tetris.Game.Sweep | script.js:211-234 | removes the full rows, scores them and updates level and interval when any were full |
| Tetris.Game.PlayerReset | script.js:248-271 | the new state is the spawn of the next piece, with board and stats reset when it collides, and a valid state stays valid |
| Tetris.Game.StartGame | script.js:342-358 | the new state is a fresh start and keeps the invariant |
| Tetris.Game.RotatePlayer | script.js:277-296 | the new state is the outcome of the bounded kick search, and a valid state stays valid |
| Tetris.Game.Move | script.js:298-302 | the piece shifts by dir unless the shifted placement collides, and a valid state stays valid |
| Tetris.Game.Drop | script.js:304-316 | the piece falls a row or locks, the counter restarts at 0, and a valid state stays valid |
| Tetris.Game.Lock | script.js:307-311 | merge, sweep and playerReset in turn give the locked state |
| Tetris.Game.Update | script.js:330-336 | the running part of a frame adds delta to the counter and drops once it is above the interval, and a valid state stays valid |
| Tetris.KickSearch | script.js:282-294 | the kick loop finds a column exactly when one of the first w candidates is free, and then the first such one |
| Tetris.SweepRows | script.js:211-222 | the bottom-up row loop leaves the swept board and counts the full rows removed |
| Tetris.SweepRow | script.js:213-222 | one pass of the row loop keeps the scan's layout: cleared rows on top, unscanned rows, kept rows below |

## Left out

- Drawing, DOM text updates, sound and the keydown wiring are left out. They have no effect on the engine state. The event datatype in `Rules.Step` stands for the four keys, a frame and a start.
- `requestAnimationFrame` and the floating-point timestamps are left out. A frame's elapsed time is a whole number of milliseconds, `delta: nat`, and `lastTime` is not kept.
- `Math.random` is not modelled. Each step that draws a piece takes the index `k` into `"TJLOSZI"` as a parameter.
- The colour table and the preview-box drawing are left out. Only the cell values 1..7 are modelled.
- `gameOver` is left out: it is set but never read by the engine.
- The heap aliasing between `player.piece` and `player.next` is not modelled. Pieces are immutable values here. In the script, `merge` writes into `board` only, so sharing is never observed.
- Before the first start `player.piece` is `null`. The model uses the empty grid `[]`. Every use of the piece is guarded by `running`.
- The top-level script calls `startGame(); update();` at load. The model provides the constructor (the declarations) and `StartGame` instead of running that call sequence.
- `Tetris.Game.Merge` requires a collision-free placement. In the script, `merge` is only reached from `drop` after stepping back to a placement that was free, and writing outside the board there would extend or fail on JavaScript arrays.
- `Tetris.Game.Drop` and `Tetris.Game.Update` require only what their in-place writes need (`Placed`), not the whole invariant. `Valid()` implies `Placed`, and a valid state stays valid.
- `Tetris.Game.RotatePlayer` requires a rectangular piece while running. The engine invariant provides it.
- The sweep's row loop lives in the method `Tetris.SweepRows`, with its body in `Tetris.SweepRow`. The rotation's kick loop lives in `Tetris.KickSearch`. Like `Collision.Collide`, they are methods on values called by the class methods, not loops over the fields.
- Integers are unbounded. The script's numbers are doubles, and the score and counters stay far below 2^53 in any real play.
