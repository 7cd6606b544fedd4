# Falling-block pit, modelled in Dafny

This project models the pit of a small falling-block puzzle game (`src/pit.rs`).
The pit is a `height × width` grid of booleans (`true` = occupied) plus one
falling piece of four cells. Its operations are:

- moving the piece left, right or down, each only after checking it;
- turning the piece clockwise about its first cell, with no check at all;
- locking a landed piece into the grid;
- clearing full rows, with one free row inserted at the top per row removed;
- spawning a new piece from a table of seven shapes;
- listing the occupied cells.

The project has three modules:

- `Tetromino` (`tetromino.dfy`): cells, the spawn table, translation, and the
  rotation function with its properties.
- `Grid` (`grid.dfy`): the grid as a value, with specification functions for
  what locking (`Lock`, `LockablePrefix`) and clearing (`FullRows`, `Kept`,
  `Cleared`) do, and lemmas about them.
- `Pit` (`pit.dfy`): the movement checks as functions (`CellCheck`,
  `PieceCheck`), and the class `Pit`. The class mirrors the Rust struct:
  - `spots` is a `seq<seq<bool>>` field that the methods reassign;
  - `activePiece` is a fixed array of four cells, updated in place.

Each Rust method is a Dafny method with the same loops, the same early
returns and the same order of tests. Each is proved against the
specification functions.

Out-of-range indexing aborts the Rust program. The model makes it an
explicit result instead:

- A movement check returns `Fits`, `Blocked` or `Panics`. The first cell in
  piece order that does not fit decides the result, as in the source's
  early-return loops.
- `SolidifyPiece` writes cells in order. At the first cell outside the grid it
  stops and reports failure; the cells before it stay written.
- `MovePieceDown` returns `Fell`, `Landed(n)` with the number of cleared rows,
  or `Crashed` with the state as it was when the index went out of range.

Two behaviours of the code are worth knowing:

- The spawn table stores the O piece with its rotation origin at a corner of
  the square. Rotating O therefore moves the square one row down
  (`ORotationMovesSquare`): it is not a fixed point, although a 2×2 square
  looks symmetric. The code's own comment at `src/pit.rs:157` says the O
  piece will rotate.
- Rotation is unchecked, so it can take a piece where the downward check
  panics. A J piece turned three times right after spawning has a cell two
  rows above the grid, and the next downward check indexes row -1
  (`RotatedJPanicsOnDrop`).

## Model

| member | source | states |
|---|---|---|
| Tetromino.Spawn | src/pit.rs:158-166 | each of the seven shapes spawns as four distinct cells in columns 3 to 6 and rows -1 to 0, with the rotation origin in row 0 |
| Tetromino.ShiftTwice | src/pit.rs:47-51 | two moves add up, and a move followed by the opposite move restores the piece |
| Tetromino.Rotated | src/pit.rs:172-187 | rotation keeps four cells and leaves the origin (cell 0) where it is |
| Tetromino.RotationIsRigid | src/pit.rs:179-185 | every cell keeps its squared distance to the origin, and distinct cells stay distinct |
| Tetromino.FourRotationsIdentity | src/pit.rs:172-187 | four quarter turns give back the original piece, for every piece |
| Tetromino.RotationCommutesWithShift | src/pit.rs:179-185 | rotating a moved piece is moving the rotated piece |
| Tetromino.ORotationMovesSquare | src/pit.rs:157-165 | rotating the spawned O piece gives a different cell set: one of its cells is no longer covered |
| Tetromino.RotatedCells | src/pit.rs:179-185 | rotating a four-cell piece turns cells 1 to 3 about cell 0 and keeps cell 0 |
| Tetromino.JTurnedThrice | src/pit.rs:161-185 | the J piece turned three times has a cell in row -2 |
| Grid.PrependBlank | src/pit.rs:131-133 | inserting a free row on top of `n` free rows gives `n + 1` free rows |
| Grid.Kept | src/pit.rs:128-130 | the surviving rows are exactly the rows of the grid that are not full, and there are no more of them than rows |
| Grid.FullRows | src/pit.rs:115-127 | the collected indices increase strictly, an index is collected exactly when its row is full, and they number the rows that do not survive |
| Grid.Cleared | src/pit.rs:114-134 | clearing keeps the number of rows |
| Grid.Lock | src/pit.rs:108-112 | locking keeps the grid's shape, sets every given cell inside the grid, and leaves every other cell as it was |
| Grid.LockablePrefix | src/pit.rs:109-111 | the cells before the returned index are inside the grid, and the cell at that index, if any, is not |
| Grid.LockNothing | src/pit.rs:109-111 | locking no cell leaves the grid unchanged |
| Grid.LockOneMore | src/pit.rs:109-111 | locking one more cell of the piece sets just that cell |
| Grid.KeptAppend | src/pit.rs:128-130 | removing full rows commutes with splitting the grid, so the surviving rows keep their relative order |
| Grid.KeptWithoutFullRows | src/pit.rs:128-130 | a grid without a full row loses no row |
| Grid.ClearedShape | src/pit.rs:114-134 | clearing keeps exactly `height` rows of `width` cells |
| Grid.ClearedHasNoFullRow | src/pit.rs:114-134 | after clearing no row is full (for a width above 0) |
| Grid.ClearedLayout | src/pit.rs:128-133 | after clearing, the top rows are free rows, one per full row, and the rows below are the surviving rows in their order |
| Grid.ClearedIsNoop | src/pit.rs:114-134 | clearing a grid without a full row changes nothing |
| Grid.Edge | src/pit.rs:128-129 | the removal loop's split index is at most the grid's length |
| Grid.NoFullRowBefore | src/pit.rs:115-127 | no row above the first full row, or between two consecutive full rows, is full |
| Grid.KeptDropsFullRow | src/pit.rs:128-130 | removing a full row that only non-full rows follow, up to some row, deletes exactly that row |
| Grid.DropRow | src/pit.rs:129 | deleting one row from a grid's prefix leaves the rows before it and the rows after it |
| Grid.RemoveFullRow | src/pit.rs:128-130 | removing the next full row, counting from the bottom, keeps the loop's invariant: the grid's lower full rows are gone |
| Grid.NothingRemoved | src/pit.rs:128 | before the removal loop starts, the grid is whole |
| Grid.KeptAfterFreePrefix | src/pit.rs:128-130 | rows above the first full row survive as they are |
| Grid.AllFullRowsRemoved | src/pit.rs:128-130 | when the removal loop ends, exactly the non-full rows remain, in order |
| Pit.PieceCheck | src/pit.rs:33-95 | a move fits exactly when every cell fits; otherwise the first cell that does not fit decides the verdict |
| Pit.FirstMisfitDecides | src/pit.rs:34-44 | the first cell that does not fit decides the check of the whole piece |
| Pit.RightRule | src/pit.rs:33-46 | for a placed piece, the right check never panics, and it is blocked exactly when some cell is at the right wall or has an occupied right neighbour in a visible row |
| Pit.LeftRule | src/pit.rs:58-71 | for a placed piece, the left check never panics, and it is blocked exactly when some cell is at the left wall or has an occupied left neighbour in a visible row |
| Pit.DownRule | src/pit.rs:87-95 | for a placed piece no more than one row above the grid, the down check never panics, and it is blocked exactly when some cell is on the floor or above an occupied cell |
| Pit.MoveKeepsPlacement | src/pit.rs:28-100 | a move that fits leaves the piece between the walls and on free cells |
| Pit.LeftThenRight | src/pit.rs:53-76 | after a left move that fits, the right move fits and restores the piece |
| Pit.RightThenLeft | src/pit.rs:28-51 | after a right move that fits, the left move fits and restores the piece |
| Pit.SpawnIsPlaced | src/pit.rs:158-166 | a new piece is placed in a pit of at least seven columns whose spawn cells in the top row are free |
| Pit.BlockedSpawnCannotLock | src/pit.rs:108-112 | every shape but I has a cell above the grid, so locking it straight after spawning goes out of range |
| Pit.TwoAboveGridPanics | src/pit.rs:87-95 | a piece with a cell two rows above the grid makes the down check index out of range once the cells before it fit |
| Pit.RotatedJPanicsOnDrop | src/pit.rs:87-106 | the J piece, turned three times after it spawns, makes the next down check index out of range |
| Pit.LandingLeavesNoFullRow | src/pit.rs:78-86 | locking then clearing keeps the grid's shape and leaves no full row |
| Pit.Pit.constructor | src/pit.rs:12-26 | the new pit has `height` rows of `width` free cells, and the piece is the chosen shape's spawn cells |
| Pit.Pit.CanMoveRight | src/pit.rs:33-46 | the loop's verdict is the right check of the current piece on the current grid |
| Pit.Pit.MoveRight | src/pit.rs:47-51 | every cell moves one column right |
| Pit.Pit.MovePieceRight | src/pit.rs:28-32 | the piece moves one column right when the check fits and stays put otherwise; the grid is not touched |
| Pit.Pit.CanMoveLeft | src/pit.rs:58-71 | the loop's verdict is the left check of the current piece on the current grid |
| Pit.Pit.MoveLeft | src/pit.rs:72-76 | every cell moves one column left |
| Pit.Pit.MovePieceLeft | src/pit.rs:53-57 | the piece moves one column left when the check fits and stays put otherwise; the grid is not touched |
| Pit.Pit.CanMoveDown | src/pit.rs:87-95 | the loop's verdict is the down check of the current piece on the current grid |
| Pit.Pit.MoveDown | src/pit.rs:96-100 | every cell moves one row down |
| Pit.Pit.MovePieceDown | src/pit.rs:78-86 | a fitting piece falls one row, and the grid is unchanged. A blocked piece is locked and the grid cleared, then the new shape spawns, with no check of its cells; the number of cleared rows is reported and no full row remains. A panic in the check or the lock is reported with the state at that moment |
| Pit.Pit.RotatePiece | src/pit.rs:102-106 | the piece becomes its clockwise rotation about cell 0, with no check |
| Pit.Pit.SolidifyPiece | src/pit.rs:108-112 | the piece's cells are set in order up to the first one outside the grid; success exactly when all four are inside |
| Pit.Pit.CompletedRows | src/pit.rs:115-127 | the collected indices are exactly the full rows, from the top down |
| Pit.Pit.RemoveCompletedRows | src/pit.rs:128-130 | removing the collected rows from the bottom up leaves exactly the non-full rows, in order |
| Pit.Pit.PrependBlankRows | src/pit.rs:131-133 | `n` free rows are inserted on top of the grid |
| Pit.Pit.ClearCompletedLines | src/pit.rs:114-134 | the grid becomes its cleared form, its shape is kept, and the result is the number of rows removed |
| Pit.Pit.GenerateNewPiece | src/pit.rs:136-140 | the piece becomes the spawn cells of the chosen shape |
| Pit.Pit.GetSolidBlocks | src/pit.rs:142-152 | the listed cells are exactly the occupied cells, in strict column-then-row order, hence without duplicates |

## Left out

- `src/main.rs` is not part of this model: the window, drawing, keyboard polling and the gravity timer. They are rendering and timing glue over an external toolkit.
- The random choice of the spawn shape (`src/pit.rs:167-169`) is a `Shape` parameter of the constructor, `GenerateNewPiece` and `MovePieceDown`.
- Pit.Pit.constructor: the source takes `i32` dimensions, and a negative one gives an empty grid. The model takes `nat` dimensions.
- The coordinates are unbounded integers, so `i32` overflow in moves and rotation is not modelled. Overflow cannot occur in the source:
  - a move is made only after every cell passes its check, `x + 1 < width` (`src/pit.rs:35`), `x > 0` (`src/pit.rs:60`) or `y + 1 < height` (`src/pit.rs:89`);
  - rotation keeps cell 0 fixed and each cell's distance to it (`RotationIsRigid`);
  - so every coordinate stays within about three cells of the grid.
- A panic ends the Rust program. The model reports it as `Panics` or `Crashed` and keeps the state as it was at that moment; the process does not stop.
- There is no game-over or spawn-collision check, because the source has none. `GenerateNewPiece` places the new piece whatever lies under it.
- The Rust `clear_completed_lines` is one function. The model splits its three loops into `CompletedRows`, `RemoveCompletedRows` and `PrependBlankRows`, called in the same order by `ClearCompletedLines`.
- Grid.ClearedHasNoFullRow: needs a width above 0, because a row of width 0 is vacuously full and the source would clear it again at every lock.
- Pit.DownRule: stated for pieces no more than one row above the grid. Higher cells (reachable only by rotation) make the check panic, which `TwoAboveGridPanics` shows.
- `move_piece_right`, `move_piece_left` and `move_piece_down` return nothing in the source. The model returns the check's verdict, or the `Drop` outcome, so that a caller can observe it.
