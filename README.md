# Falling-block engine of `block`, modelled in Dafny

This project models the game-state engine of a falling-block puzzle game, written in JavaScript.

The engine lives in `game.js`. It has two parts:
- the piece, `Figure`: a family index into the shape table, a rotation, an anchor (x, y) and a colour 1..6;
- the engine, `Tetris`: a `height x width` field whose cells are 0 (empty) or a locked colour, the active and the next piece, the score, the level, the game-over flag, the high score, the double-score flag and timer, and the list of line-clear effects.

The operations are:
- spawning with one look-ahead piece;
- the collision test;
- sideways moves;
- rotation with a horizontal wall kick;
- the one-row step down and the hard drop;
- locking a piece, clearing full rows and scoring them;
- updating the high score.

`figures.js` is the other game variant's shape catalogue. It is modelled as its own constant, apart from the engine's table.

Modules:
- `Shapes` (shapes.dfy): the engine's shape table and the facts the rest relies on. Every image is four distinct cells of the 4x4 box, and the families have 1, 2 or 4 rotations. Rotation cycles back after exactly as many steps as the family has rotations.
- `Catalogue` (catalogue.dfy): the figures.js catalogue and its well-formedness. Only its L family differs from the engine's table.
- `Rules` (rules.dfy): the rules on values, with the field as a sequence of rows. It covers collision (`Hits`), the landing row of a hard drop, the wall kick (`Kick`), the locked field (`Placed`), the row scan of the line clear (`Scan`, `Cleared`, `FullRowsFrom`), and the score and level tables.
- `Game` (game.dfy): the classes `Figure` and `Tetris`. The field is an `array2<int>` that the methods update in place with the source's nested loops, and every method is proved against the `Rules` functions. `AfterLock` is the state a lock produces, as a function of the state before it.

Randomness is an input. Where game.js calls `Math.random`, the model takes a parameter in the same range:
- `t` in 0..6 for each piece's family;
- `c` in 1..6 for each piece's colour;
- `draw` in 1..100 for the double-score roll.

The value `loadHighScore` reads from storage is a constructor parameter.

Behaviour the model keeps as the code has it:
- The row scan starts at row 1, and the compaction loop of breakLines stops at `i1 > 1`. Rows 0 and 1 are never written, and clearing row i copies rows 1..i-1 into rows 2..i. A full row 1 is counted and scored but stays on the field (`Rules.RowOneStays`, `Rules.ScanKeepsTopRows`). A lock that leaves row 1 full ends the game at the next spawn, because the first rotation of every family has a cell in row 1 of its box (`Rules.FullRowOneBlocksSpawn`, `Game.AfterLockRowOneFull`).
- Each row the scan reaches is still the row the field had before the scan, because compaction at row i touches only rows up to i. So the cleared rows are exactly the rows that were full before the scan (`Rules.ScanClearsFullRows`).
- The wall kick compares `x + getFigureWidth()` with the width, not the rightmost occupied column. Only the revert after the collision test keeps a rotated piece legal (`Rules.Kick`, `Game.Tetris.Rotate`).
- intersects does not check rows above row 0. Every operation that calls it requires `figure.y >= 0`, and locking requires a legal piece (`Game.Tetris.Legal`). The game's driver ensures this by ignoring input once the game is over.
- A freeze sets game over when the new piece collides where it spawns, and never clears the flag.

## Model

| member | source | states |
|---|---|---|
| Shapes.Figures | game.js:13-21 | the table of game.js:14-20 entry for entry, families in the order I, Z, S, J, L, T, O |
| Shapes.FiguresOk | game.js:13-21 | the table has seven families; each rotation holds four distinct indices in [0, 16); O has 1 rotation, I/Z/S have 2, J/L/T have 4 |
| Shapes.FiguresDistinct | game.js:13-21 | no family of the table lists the same cell set twice |
| Shapes.Rotations | game.js:13-21 | a family index in 0..6 has between 1 and 4 rotations |
| Shapes.RotationsOfTable | game.js:44 | `Rotations(kind)` is the length of the family's row of the table, the modulus of rotate() |
| Shapes.NextRotation | game.js:43-45 | the next rotation stays in range; it is 0 exactly when the current one is the last, and otherwise one more |
| Shapes.RotateTimes | game.js:43-45 | any number of rotations stays in the family's range |
| Shapes.RotateTimesValue | game.js:43-45 | m <= n rotations from r reach r + m, wrapped once at n |
| Shapes.RotationCycle | game.js:43-45 | m rotations (0 < m <= n) return to the starting rotation iff m is the number of rotations n |
| Catalogue.Figures | figures.js:2-43 | the catalogue of figures.js:4-42 entry for entry, families in the order I, Z, S, J, L, T, O |
| Catalogue.CatalogueOk | figures.js:2-43 | the catalogue has seven families; each rotation holds four distinct indices in [0, 16); family sizes 2, 2, 2, 4, 4, 4, 1 |
| Catalogue.CatalogueDistinct | figures.js:2-43 | no family of the catalogue lists the same cell set twice |
| Catalogue.FamilyOrder | figures.js:3-42 | the families are in the order I, Z, S, J, L, T, O: family 0 is a straight line in both rotations, and the first rotation of families 1 to 6 is a Z, an S, a J (upside down), an L, a T and a 2x2 square |
| Catalogue.OnlyLDiffers | figures.js:25-31 | every family but L equals the engine's family; L has as many rotations, each a different cell set |
| Rules.HitsByIndex | game.js:85-99 | the box-scan collision test equals the test over the four listed indices (row idx / 4, column idx % 4) |
| Rules.HitsAtIndex | game.js:86-94 | a collision happens at one of the four listed cells |
| Rules.IndexHits | game.js:88-93 | a blocked listed cell is a collision |
| Rules.FreeCell | game.js:104-105 | every occupied cell of a non-colliding piece is inside the field and not locked (fails the `> 0` test of game.js:92), so freeze writes in bounds |
| Rules.LegalAboveFloor | game.js:89 | a non-colliding piece's anchor row lies inside the field |
| Rules.LandingRow | game.js:175-178 | the hard drop from y stops at a row r in [y, height): r does not collide, r + 1 does, and every row y..r is free |
| Rules.FreeRowsExtend | game.js:175-176 | a free run of rows followed by a free row is one longer |
| Rules.FreeRowsHas | game.js:175-176 | every row of a free run is collision-free |
| Rules.FallStep | game.js:175-176 | a loop step of the fall keeps the rows passed free and stays inside the field |
| Rules.FallStop | game.js:175-178 | a fall that ends at a collision backs off to the landing row |
| Rules.LandingRowFirst | game.js:175-177 | the piece passes through every row from the start to the landing row without colliding |
| Rules.LandingRowIs | game.js:174-178 | rows y..r free and row r + 1 colliding determine the landing row r |
| Rules.MinColFrom | game.js:195-204 | the leftmost used column from j on (4 if none) bounds every occupied cell from the left |
| Rules.MaxColFrom | game.js:195-204 | the rightmost used column up to j (0 if none) bounds every occupied cell from the right |
| Rules.ScannedBounds | game.js:195-204 | bounds that are used columns (or the start values 4 and 0) and enclose every occupied cell are MinCol and MaxCol |
| Rules.FigureWidthBounds | game.js:240-252 | a well-formed image has 0 <= minX <= maxX <= 3, so its width is 1..4 |
| Rules.Kick | game.js:224-230 | the kicked anchor is fixed for every input: x when the piece already fits, width - fw when it sticks out on the right and fw <= width, and 0 when x < 0 or the piece is wider than the field; it is never negative and fits whenever fw <= width |
| Rules.Placed | game.js:102-108 | locking keeps the field's dimensions |
| Rules.PlacedExactlyImage | game.js:102-108 | locking a legal piece writes its colour into exactly the four cells (idx / 4 + y, idx % 4 + x), all empty before, and changes no other cell |
| Rules.PlacedWritesCell | game.js:104-105 | the k-th listed cell was empty and receives the colour |
| Rules.PlacedOnlyCovered | game.js:102-108 | a changed cell is one of the listed cells |
| Rules.PlacedColours | game.js:105 | writing a colour 1..6 keeps every cell empty or coloured |
| Rules.ZeroCountFull | game.js:124-125 | zero empty cells counted iff the row is full |
| Rules.FullRowsAgree | game.js:123-127 | which rows from i on are full depends only on those rows |
| Rules.ScanClearsFullRows | game.js:123-134 | the rows the scan clears are exactly the rows full before the scan, in order |
| Rules.FullRowsFromExact | game.js:123-127 | the listed rows are strictly increasing, each a full row in [i, height), and every such full row is listed |
| Rules.FullRowsSound | game.js:123-127 | every listed row is a full row in [i, height), and the list is strictly increasing |
| Rules.FullRowsComplete | game.js:123-127 | every full row in [i, height) is listed |
| Rules.ScanShape | game.js:123-134 | the scan keeps the number of rows and the width of each |
| Rules.ScanLength | game.js:123-134 | the scan keeps the number of rows |
| Rules.ScanKeepsTopRows | game.js:123-132 | rows 0 and 1 are never written by the scan |
| Rules.ScanKeepsRowsBelow | game.js:123-134 | rows below the last cleared row are unchanged, and a scan that clears nothing leaves the field as it was |
| Rules.ScanColours | game.js:128-132 | the scan keeps every cell empty or coloured |
| Rules.ScanNoFullRows | game.js:123-127 | scanning rows none of which is full changes nothing and records nothing |
| Rules.ScanNoFullRowsUpTo | game.js:123-127 | rows that are not full only move the scan on |
| Rules.SingleRowScan | game.js:123-134 | a field whose only full row from row 1 on is r >= 2 is compacted once at r, and r is recorded |
| Rules.SingleRowCleared | game.js:128-132 | clearing a single full row r >= 2 moves rows 1..r-1 into rows 2..r, keeps rows 0 and 1, and keeps the rows below r |
| Rules.RowOneStays | game.js:123-132 | a full row 1 (no other full row) is recorded as cleared, but the field is unchanged and row 1 stays full |
| Rules.FirstSpawnFree | game.js:14-20 | on an empty field at least 4 rows high and 7 columns wide, the first rotation of every family fits at the spawn position (3, 0), so the first piece after a new game is legal |
| Rules.FullRowOneBlocksSpawn | game.js:14-20 | on a field whose row 1 is full, the first rotation of every family collides at the spawn position (3, 0) |
| Rules.DoubleChance | game.js:139 | the chance is min(10 + (level - 1) * 3, 50): at most both, and equal to one of them; 10..50 percent from level 1 on |
| Rules.LevelFor | game.js:170 | the level is at least 1 and (level - 1) * 2000 <= score < level * 2000 |
| Rules.LevelMonotone | game.js:170 | a higher score never gives a lower level |
| Rules.BaseScoreIncreasing | game.js:156-160 | more rows in one lock earn strictly more, and more than 100 per row |
| Rules.AwardTable | game.js:156-168 | 0, 1, 2, 3, 4 rows earn 0, 100, 300, 700, 1500; any other count earns 0; a double pays twice as much |
| Rules.DoubledSingleRow | game.js:137-163 | a one-row hard drop whose draw is within the chance earns 200 |
| Rules.LevelExamples | game.js:170 | scores 0, 1999, 2000, 4001 give levels 1, 1, 2, 3 |
| Rules.Blocked | game.js:89-92 | defines a blocked field position: below the bottom row, at or right of the width, left of column 0, or a locked cell (> 0) |
| Rules.Hits | game.js:86-97 | defines the collision test: some occupied cell (i, j) of the 4x4 box is blocked at (i + y, j + x) |
| Game.Tetris.Legal | game.js:89 | defines a legal active piece: valid, at row >= 0, and not colliding |
| Rules.MinCol | game.js:241-250 | defines the leftmost occupied column of the box, 4 when none (the scan's start value) |
| Rules.MaxCol | game.js:241-250 | defines the rightmost occupied column of the box, 0 when none (the scan's start value) |
| Rules.FigureWidth | game.js:251 | defines getFigureWidth's result maxX - minX + 1 |
| Rules.ZeroCount | game.js:124 | defines the number of empty (=== 0) cells of a row |
| Rules.ShiftDown | game.js:128-132 | defines one compaction for full row i: rows 1..i-1 move to rows 2..i, the other rows stay |
| Rules.Scan | game.js:123-134 | defines the row scan from row i: at each full row, record it and compact; returns the field and the recorded rows |
| Rules.FullRowsFrom | game.js:123-127 | defines the full rows from row i on, in increasing order |
| Rules.Cleared | game.js:123-134 | defines the field after breakLines' scan from row 1 |
| Rules.BaseScore | game.js:156-160 | defines the award before doubling: 100, 300, 700, 1500 for 1 to 4 rows, else 0 |
| Rules.Doubled | game.js:138-141 | defines the double roll: a hard drop, at least one row, and the draw within the level's chance |
| Rules.Award | game.js:162-168 | defines the score a lock adds: the base award, twice it when doubled |
| Rules.Effects | game.js:148-153 | defines one effect per cleared row, in order, with timer 30, glow 255 and the roll's outcome |
| Game.Figure.constructor | game.js:31-37 | a new piece is at the given anchor, in rotation 0, with its family in 0..6 and its colour in 1..6 |
| Game.Figure.Image | game.js:39-41 | the image is the table entry for the family and rotation, and a well-formed image |
| Game.Figure.Rotate | game.js:43-45 | rotation advances to the next rotation of the family, wrapping, and the piece stays valid |
| Game.Tetris.constructor | game.js:49-62 | an empty height x width field, score 0, level 1, state "start", no pieces, no effects, the stored high score |
| Game.Tetris.NewFigure | game.js:77-83 | the next piece (or a new one when there is none) becomes active at (3, 0) in rotation 0; a fresh next piece of the given family and colour; nothing else changes |
| Game.Tetris.Intersects | game.js:85-99 | the result is true exactly when an occupied cell lands below the bottom row, outside [0, width) or on a locked cell; nothing is modified |
| Game.Tetris.ColumnBounds | game.js:195-204 | the scan returns the leftmost and rightmost occupied columns (4 and 0 when none) |
| Game.Tetris.GetFigureWidth | game.js:240-252 | the width is maxX - minX + 1, between 1 and 4 |
| Game.Tetris.GoSide | game.js:190-217 | only x changes; it becomes x + dx when both extreme columns stay in [0, width) and the piece does not collide there, and stays otherwise; a legal piece stays legal |
| Game.Tetris.KickInside | game.js:224-230 | the two shifting loops of rotate end with x equal to the kicked anchor `Rules.Kick` of the old x |
| Game.Tetris.Rotate | game.js:219-238 | either rotation advances and x becomes the kicked anchor where the piece does not collide, or both are restored; y and the field never change, so a legal piece stays legal |
| Game.Tetris.Lock | game.js:102-108 | the field becomes the placed field of the piece |
| Game.Tetris.LockRow | game.js:103-107 | row i of the box is written into the field, on top of the rows before it |
| Game.Tetris.ZerosInRow | game.js:124 | the count of empty cells of row i, zero iff the row is full |
| Game.Tetris.ShiftRows | game.js:128-132 | the field becomes the compaction of row i: rows 1..i-1 move to 2..i |
| Game.Tetris.CopyRowDown | game.js:129-131 | row i1 becomes a copy of row i1 - 1 and no other cell changes |
| Game.Tetris.ClearFullRows | game.js:121-134 | the count equals the number of cleared rows; those are the rows full before the scan; the field becomes the scanned field |
| Game.Tetris.BreakLines | game.js:120-172 | the scan as above; the score rises by the award, doubled exactly on a winning hard-drop roll; one effect per cleared row with the roll's outcome; the level is the one the new score earns |
| Game.Tetris.Spawn | game.js:114-117 | the next piece becomes active at (3, 0), a fresh next piece is made, and game over is set iff the new piece collides (or was already set) |
| Game.Tetris.Freeze | game.js:101-118 | the state after freeze is AfterLock of the state before, and the engine stays valid |
| Game.Tetris.GoDown | game.js:182-188 | when row y + 1 collides, the piece is locked at y (no double roll); otherwise y grows by one, nothing else changes, and the piece is legal; unless the game is over, the piece in play is legal afterwards |
| Game.Tetris.Drop | game.js:175-178 | the fall ends with y at the landing row, the piece still legal |
| Game.Tetris.GoSpace | game.js:174-180 | the hard drop locks the piece at its landing row, with the double roll enabled |
| Game.Tetris.SaveHighScore | game.js:259-263 | the high score becomes the maximum of itself and the score |
| Game.AfterLock | game.js:101-172 | a lock keeps the field's shape, never lowers the score, keeps it when no row was cleared and raises it when 1 to 4 rows were, and never clears game over; the new piece is at (3, 0) in rotation 0 |
| Game.AfterLockColours | game.js:102-132 | a lock keeps every field cell empty or one of the six colours |
| Game.AfterLockRowOneFull | game.js:114-117 | a lock that leaves row 1 full sets game over |

## Left out

- Audio: the `Audio` objects, their volume and every `.play()` call. No engine state depends on them.
- Persistent storage: loadHighScore's `localStorage` read and `parseInt` become the constructor parameter `storedHighScore`. saveHighScore's `localStorage` write is dropped; only its max update is kept.
- `Math.random`: it becomes the parameters `t`, `c` and `draw`, constrained to the ranges the source draws from. Uniformity is not modelled.
- The `Game` class (game.js:268 on) is not part of this model: the canvas, the DOM, keyboard input, the animation loop, the tick rate, the decay of the effect timers and glow, and score flashing. The `state` field is only initialised.
- The progress-and-victory bookkeeping belongs to the other game variant, which this game.js does not have, so it is not modelled.
- JavaScript numbers: the score and level are unbounded naturals. The source's doubles are exact in every reachable range.
- Game.Tetris.Intersects, Game.Tetris.GoSide and Game.Tetris.Rotate: these require `figure.y >= 0`, which the source assumes without checking (intersects would read row `y + i` of the field array for a negative row).
- Game.Tetris.Freeze, Game.Tetris.GoDown, Game.Tetris.Drop and Game.Tetris.GoSpace: these require a legal piece (not colliding, row >= 0), as freeze's writes and the back-off of goSpace assume.
- Game.Tetris.Rotate: getFigureWidth is computed once before the kick loop instead of on every loop test. The rotation does not change inside the loop, so the value is the same.
- Game.Tetris.Valid: the field's colours are not part of the class invariant. That they stay in 0..6 is proved on values (`Game.AfterLockColours`, `Rules.PlacedColours`, `Rules.ScanColours`).
- Helper methods: several loops of the source are their own methods, to keep proofs small:
  - `ClearFullRows`: the scan of breakLines;
  - `LockRow`: the inner loop of freeze;
  - `ShiftRows` and `CopyRowDown`: the compaction loops;
  - `ZerosInRow`: the zero filter;
  - `Drop`: the fall of goSpace;
  - `ColumnBounds`: the min/max scan shared by goSide and getFigureWidth;
  - `Spawn`: the end of freeze.
  They perform the same steps in the same order.
- The presentation values of the line-clear effects (timer 30, glow 255) are recorded as given. Their use by the renderer is not modelled.
