# Tetrogrid board engine in Dafny

This project models the falling-block engine behind the Tetrogrid game. The
engine keeps a 20 x 10 field of cells, where a cell is empty or holds a colour
tag. It also keeps the falling piece (its offsets, bounding box and colour),
the piece's anchor on the field, and the score. It offers these operations:

- a collision test;
- stamping a piece into a copy of the field;
- guarded moves;
- a quarter-turn rotation that is kept only if the turned piece fits;
- a scan that clears full rows and scores 1000 points per row;
- a gravity tick that locks the piece and brings in a new one at (4, 0).

The seven-piece catalog of `shapes.js` is modelled as constant data, with facts
about every entry.

Files and modules:

- `pieces.dfy` (`Pieces`): points, shapes, and well-formedness of a four-cell piece.
- `rotation.dfy` (`Rotation`): the quarter-turn about (floor(width/2), floor(height/2)) and its algebra.
- `catalog.dfy` (`Catalog`): the seven catalog pieces and lemmas about them.
- `scene.dfy` (`Scene`): the field and the operations on field values.
  - `createEmptyScene`, `copyScene`, `validPosition`.
  - `mergeIntoStage`: a loop that writes into a fresh `array2` copy.
  - The line clearing: a specification (`ClearedScene`: one empty row per full row, then the other rows in order) and the in-place algorithm (`RemoveFullRows`/`RemoveRow`), proved equal.
- `engine.dfy` (`Engine`): the class `Board` holding `scene`, `shape`, `position` and `score`, with the commands `MovePosition`, `RotateShape`, `PlaceShape`, `RemoveFullLines`, `Tick` and `OnKeyDown`. The module also holds the engine's own three-entry piece table, its four colours, and `randomShape` with the random draws as parameters.

Grids are values (`seq<seq<Cell>>`), because the engine replaces its field as a
whole on every update. The two operations that write cells one at a time work on
a fresh two-dimensional array and return its contents.

Facts about the engine that the model makes explicit:

- A row is worth 1000 points (`LineAward`).
- There is no pause, game-over, level or speed table, and no look-ahead slot. A new piece appears at (4, 0) without a fit check.
- ArrowDown only moves the piece down. It never locks the piece.
- Rotation carries width and height over unchanged, so the centre never moves. Four rotations are therefore the identity for every piece (`Rotation.FullTurn`).
- A vertical bar spawned on an empty field fits at rows 0 to 16, so it moves down 16 times and locks on rows 16 to 19 (`Engine.VerticalBarOnEmptyField`).
- The live piece table is the three-entry table in `tetrogrid.jsx`, with a colour drawn from four. The seven-piece catalog is not used by the engine.

## Model

| member | source | states |
|---|---|---|
| `Catalog.CatalogSize` | src/games/tetrogrid/shapes.js:1-65 | the catalog holds exactly seven pieces |
| `Catalog.CatalogWellFormed` | src/games/tetrogrid/shapes.js:2-64 | every piece has exactly 4 pairwise distinct offsets, all inside [0,width)x[0,height), and its box is tight (some offset has x=0, some x=width-1, some y=0, some y=height-1) |
| `Catalog.CatalogColorsDistinct` | src/games/tetrogrid/shapes.js:2-64 | the seven colour tags are pairwise different |
| `Catalog.CatalogFullTurn` | src/games/tetrogrid/tetrogrid.jsx:96-114 | each catalog piece rotated four times is the same piece again |
| `Catalog.CatalogRotatedDistinct` | src/games/tetrogrid/tetrogrid.jsx:100-114 | a rotated catalog piece still has four pairwise distinct offsets |
| `Catalog.BarRotation` | src/games/tetrogrid/tetrogrid.jsx:97-112 | any 1x4 vertical bar rotates about (0,2) into the horizontal bar (2,2),(1,2),(0,2),(-1,2) |
| `Catalog.IRotation` | src/games/tetrogrid/tetrogrid.jsx:97-112 | the upright bar rotates about (0,2) to offsets (2,2),(1,2),(0,2),(-1,2), so offsets can go negative |
| `Catalog.IRotationLeavesBox` | src/games/tetrogrid/tetrogrid.jsx:114 | because width and height are not updated, a rotated offset can lie outside the recorded box |
| `Rotation.Centre` | src/games/tetrogrid/tetrogrid.jsx:97-98 | the centre is (floor(width/2), floor(height/2)): 2*tX <= width < 2*tX+2, and the same for tY and height |
| `Rotation.RotatePoint` | src/games/tetrogrid/tetrogrid.jsx:101-111 | the offset relative to the centre (tX,tY) is turned from (dx,dy) to (-dy,dx), giving (tX+tY-y, x-tX+tY) |
| `Rotation.RotatePoints` | src/games/tetrogrid/tetrogrid.jsx:100-112 | the rotated list has the same length and its i-th offset is the rotation of the i-th offset |
| `Rotation.Rotated` | src/games/tetrogrid/tetrogrid.jsx:96-114 | the rotated shape keeps point count, width, height, colour and therefore centre, and rotates each offset about floor(width/2), floor(height/2) |
| `Rotation.RotatePointInjective` | src/games/tetrogrid/tetrogrid.jsx:100-112 | two offsets rotate to the same offset iff they are equal |
| `Rotation.HalfTurnPoint` | src/games/tetrogrid/tetrogrid.jsx:101-111 | two quarter turns reflect an offset through the centre |
| `Rotation.FullTurnPoint` | src/games/tetrogrid/tetrogrid.jsx:101-111 | four quarter turns return every offset |
| `Rotation.HalfTurn` | src/games/tetrogrid/tetrogrid.jsx:96-114 | rotating a shape twice reflects every offset through its fixed centre and keeps box and colour |
| `Rotation.FullTurn` | src/games/tetrogrid/tetrogrid.jsx:96-114 | rotating any shape four times yields exactly the original shape |
| `Rotation.RotatedDistinct` | src/games/tetrogrid/tetrogrid.jsx:100-114 | a rotated shape has pairwise distinct offsets iff the original has |
| `Scene.CreateEmptyScene` | src/games/tetrogrid/tetrogrid.jsx:65-67 | the new field has 20 rows of 10 cells, every cell empty |
| `Scene.AllFree` | src/games/tetrogrid/tetrogrid.jsx:177-181 | the offset-by-offset check is true iff every translated offset is on the field and on an empty cell |
| `Scene.ValidPosition` | src/games/tetrogrid/tetrogrid.jsx:176-182 | true iff for every offset, x+pos.x is in [0,10), y+pos.y is in [0,20) and that cell is empty (`IsFree`, line 180) |
| `Scene.Merged` | src/games/tetrogrid/tetrogrid.jsx:51-63 | the stamped field is 20x10; each translated offset on the field holds the piece's colour; every cell not covered by the piece is unchanged (offsets off the field are dropped) |
| `Scene.MergeIntoStage` | src/games/tetrogrid/tetrogrid.jsx:51-63 | the cell-by-cell loop over a fresh copy returns exactly the stamped field; the input field is a value and is not changed |
| `Scene.MergeCovered` | src/games/tetrogrid/tetrogrid.jsx:84-94 | for a piece that fits, every covered cell is on the field, was empty and now holds the piece's colour |
| `Scene.MergeFittingDropsNothing` | src/games/tetrogrid/tetrogrid.jsx:84-94 | locking a piece that fits drops none of its offsets: each lands on an empty on-field cell that takes its colour |
| `Scene.MergeFittingOccupancy` | src/games/tetrogrid/tetrogrid.jsx:84-94 | locking a piece that fits overwrites no occupied cell, and a cell is occupied afterwards iff it was occupied before or the piece covers it |
| `Scene.CopyScene` | src/games/tetrogrid/tetrogrid.jsx:47-49 | the copy is a fresh 20x10 array holding exactly the field's cells |
| `Scene.EmptyRowNotFull` | src/games/tetrogrid/tetrogrid.jsx:132-139 | the all-empty row written on top by a row removal (lines 131-133) fails the "every cell is non-zero" test of line 139, so it is never itself cleared |
| `Scene.ClearedSceneRows` | src/games/tetrogrid/tetrogrid.jsx:121-147 | `ClearedScene(g)`, the reference result of the clearing, has as many rows as the field; its first k rows are empty, k being the number of full rows, and the rest are exactly the non-full rows in their original order |
| `Scene.NonFullRows` | src/games/tetrogrid/tetrogrid.jsx:138-142 | the kept rows are no more than the rows of the field, none of them is full, and they keep the field's row width |
| `Scene.FullRowCount` | src/games/tetrogrid/tetrogrid.jsx:138-142 | the full rows and the kept rows together account for every row |
| `Scene.NonFullRowsAppend` | src/games/tetrogrid/tetrogrid.jsx:138-142 | filtering two stacked blocks of rows filters each block, in order |
| `Scene.NoFullRows` | src/games/tetrogrid/tetrogrid.jsx:138-142 | with no full row, every row is kept and the count is 0 |
| `Scene.ZeroFullRows` | src/games/tetrogrid/tetrogrid.jsx:138-142 | a count of 0 means no row is full |
| `Scene.ClearedSceneShape` | src/games/tetrogrid/tetrogrid.jsx:121-147 | the cleared field is still 20x10 and contains no full row |
| `Scene.ClearedSceneNoop` | src/games/tetrogrid/tetrogrid.jsx:144-146 | when no row is full, clearing leaves the field as it is |
| `Scene.EmptySceneNoFullRows` | src/games/tetrogrid/tetrogrid.jsx:77 | the clearing run on the initial empty field finds nothing and changes nothing |
| `Scene.ClearedSceneIdempotent` | src/games/tetrogrid/tetrogrid.jsx:77 | after a clearing, the clearing that runs again on the new field finds no full row and changes nothing |
| `Scene.RemovedRowAt` | src/games/tetrogrid/tetrogrid.jsx:125-133 | `RemovedRow(g, r)`, the field after removing row r, has the same height; its row 0 is empty, its rows 1..r are the old rows 0..r-1, and the rows below r are unchanged |
| `Scene.SingleFullRowFilter` | src/games/tetrogrid/tetrogrid.jsx:138-142 | with only row r full, the count is 1 and the kept rows are all rows except r, in order |
| `Scene.SingleFullRow` | src/games/tetrogrid/tetrogrid.jsx:121-147 | with only row r full, clearing removes row r, shifts the rows above it down by one and adds one empty row on top |
| `Scene.RemoveRow` | src/games/tetrogrid/tetrogrid.jsx:125-133 | the in-place shift-and-blank loops leave the array holding the field with row r removed |
| `Scene.ClearStep` | src/games/tetrogrid/tetrogrid.jsx:138-142 | one step of the top-to-bottom scan: removing a full row y, or keeping a non-full one, advances "k empty rows, kept rows of 0..y-1, untouched rows y.." by one row |
| `Scene.RemoveFullRows` | src/games/tetrogrid/tetrogrid.jsx:121-147 | the in-place scan over a copy returns exactly k empty rows followed by the non-full rows in their original order, k being the number of full rows, and reports k |
| `Engine.TemplatesWellFormed` | src/games/tetrogrid/tetrogrid.jsx:4-35 | each of the three pieces of `Templates` (square 2x2, bar 1x4, L 2x3) has 4 distinct offsets inside a tight box |
| `Engine.Pick` | src/games/tetrogrid/tetrogrid.jsx:39-42 | floor(r*n) for a draw r in [0,1) is an index below n |
| `Engine.RandomShape` | src/games/tetrogrid/tetrogrid.jsx:37-42 | the dealt piece is one of the three table entries with one of the four colours of `ShapeColors` (red, green, blue, yellow), and is well-formed |
| `Engine.Board.constructor` | src/games/tetrogrid/tetrogrid.jsx:70-74 | a new board has an empty field, the first piece at (4,0) and score 0 |
| `Engine.Board.Display` | src/games/tetrogrid/tetrogrid.jsx:80-82 | the displayed field is 20x10 |
| `Engine.Board.MovePosition` | src/games/tetrogrid/tetrogrid.jsx:169-174 | returns true and moves to (x+dx, y+dy) iff the piece fits there; otherwise returns false and the position is unchanged; the piece fits afterwards whenever it moved; the new anchor is `Shifted(scene, old position, shape, dx, dy)` |
| `Engine.Board.RotateShape` | src/games/tetrogrid/tetrogrid.jsx:96-119 | the shape becomes the rotated shape iff that fits at the current position; otherwise nothing changes (`Turned(scene, position, old shape)`); fitting is preserved |
| `Engine.Board.PlaceShape` | src/games/tetrogrid/tetrogrid.jsx:90-94 | the field becomes the piece stamped in at its position, the new piece is installed and the position becomes (4,0) |
| `Engine.Board.RemoveFullLines` | src/games/tetrogrid/tetrogrid.jsx:121-147 | the field becomes the cleared field (20x10, no full row), the score grows by exactly `LineAward` = 1000 per full row (line 135), and with no full row the field is unchanged |
| `Engine.Board.Tick` | src/games/tetrogrid/tetrogrid.jsx:84-88 | if the piece fits one row down, only position.y grows by 1; otherwise the piece is stamped in, full rows are cleared and scored, the new piece is installed and the position becomes (4,0) |
| `Engine.Board.OnKeyDown` | src/games/tetrogrid/tetrogrid.jsx:149-167 | right/left/down arrows are guarded moves (`Shifted`) by (1,0), (-1,0), (0,1) with the shape kept (down never locks), up is the guarded rotation (`Turned`) with the anchor kept, other keys change nothing and are reported unhandled |
| `Engine.VerticalBarOnEmptyField` | src/games/tetrogrid/tetrogrid.jsx:176-182 | on an empty field the vertical bar fits at (x,y) iff 0<=x<10 and 0<=y<=16 |

## Left out

- Rendering: the `Tetrogrid`, `Row` and `Cell` components, focus handling and `toLocaleString` score formatting are presentation. `Board.Display` models only the stamped field the hook returns.
- Timers: the 600 ms `useInterval` is host plumbing. `Board.Tick` is a method the caller invokes.
- React scheduling: state updates are plain field assignments. The effect that clears lines whenever the field changes is an explicit `RemoveFullLines` call after `PlaceShape` inside `Tick`. When the effect runs again on its own result, it finds no full row (`Scene.ClearedSceneIdempotent`). On the initial field it is a no-op (`Scene.EmptySceneNoFullRows`).
- Randomness: `Math.random()` is replaced by draws in [0, 1) that `RandomShape` takes as parameters. The draws are exact reals, so `Pick` computes floor(r*n) without the rounding of a double product (a double just below 1/3 times 3 rounds to 1 in JavaScript); every index stays reachable either way. The caller passes the next piece to `Tick`/`PlaceShape`.
- Key events: `preventDefault` is not modelled. `OnKeyDown` reports whether it would have been called.
- Numbers: JavaScript numbers are modelled as unbounded integers. Every coordinate and score in play is small enough to be exact.
- Engine.Board.Tick: the promise that a lock drops no offset and overwrites no occupied cell is not restated on `Tick`. It is proved for the stamped field by `Scene.MergeFittingDropsNothing` and `Scene.MergeFittingOccupancy`, under the condition that the piece fit before the tick.
