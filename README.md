# Tetris game-state engine, modelled in Dafny

This project models the game-state engine of a small WinForms falling-block game
(`Tetris6.cs`). It covers three parts:

- the piece catalog `Tetromino`: shapes L, T and I with fixed absolute start cells and colour tags 1, 2 and 3;
- the board `TetrisBoard`: a `height x width` integer grid where 0 is empty, with placement
  and move checks, writing a piece into the grid, the single top-to-bottom sweep that clears
  full lines, and a defensive copy of the grid;
- the controller `TetrisGame`: one board and one current piece, with spawn, game-over
  detection, left/right/down moves and the lock, clear and respawn sequence.

Files and modules:

- `Outcome.dfy` (`Outcomes`): the exceptions the engine can raise, as values.
  `NotImplemented` comes from the board's missing move operation. `IndexOutOfRange` comes from a write to a cell off the board.
- `Tetromino.dfy` (`Tetromino`): the catalog as datatype values, and the random pick driven by a caller-supplied roll.
- `Grid.dfy` (`Grids`): the grid as a value (`seq<seq<int>>`) and the functions the methods are proved against.
  It holds the legality predicates `CanPlace` and `CanMove`, `Paint` (writing a colour into cells), `FirstOutOfBounds`,
  the source's sweep `Sweep`, and the reference result `Cleared` with the lemmas about them.
- `Board.dfy` (`Board`): class `TetrisBoard` over a `const grid: array2<int>`. Its methods are proved against the functions in `Grids`.
- `Game.dfy` (`Game`): class `TetrisGame` and lemmas about how catalog pieces can move.

The two main results:

- **Line clearing.** `ClearFullLines` is proved equal to `Cleared`: every row that was full
  beforehand is removed, the other rows keep their order and move to the bottom, and empty rows fill the top.
  So the single sweep that never re-examines a shifted row does not under-clear. Each full row is
  still in its original place when the sweep reaches it, because shifting only touches rows at or above the sweep position.
- **Movement.** `CanMovePiece` does not exempt the piece's own cells, and every catalog shape has
  two of its own cells side by side. So in every reachable game state a left or right move is refused (`NoSidewaysMove`),
  and an L or T piece can never move down (`LAndTCannotFall`). Only an I piece with room below gets past the
  check in `MovePieceDown`, and that path ends in the unimplemented `MovePiece` (`IFallsOnEmptyBoard`).

Behaviour of the code that the model keeps:

- A spawn that finds no room still writes the new piece into the grid after signalling game over (Tetris6.cs:105).
- `TetrisBoard.MovePiece` has no implementation and always throws (Tetris6.cs:229).
  The model returns `Fail(NotImplemented)` and changes nothing; it does not invent a clear/shift/write body.
- Besides game over, the code throws in two places: from `MovePiece`, and from `PlacePiece` on a cell off the board.
  `PlacePiece` keeps the cells it wrote before the bad one.

## Model

| member | source | states |
|---|---|---|
| `Tetromino.TetrominoL` | Tetris6.cs:255-259 | the L piece has 4 distinct cells in rows 0..2 and columns 4..5, colour 1 |
| `Tetromino.TetrominoT` | Tetris6.cs:264-268 | the T piece has 4 distinct cells in rows 0..1 and columns 3..5, colour 2 |
| `Tetromino.TetrominoI` | Tetris6.cs:273-277 | the I piece has 4 distinct cells in row 0 and columns 3..6, colour 3 |
| `Tetromino.GetRandomPiece` | Tetris6.cs:240-250 | every roll yields a catalog piece; rolls 0, 1, 2 pick L, T, I in order, so the default branch is only reached by values `rand.Next(3)` never returns, and then gives L |
| `Tetromino.CatalogShapes` | Tetris6.cs:253-278 | each catalog shape has exactly 4 distinct cells, all in rows 0..2 and columns 3..6, and a colour in 1..3 |
| `Tetromino.CatalogRollsDistinct` | Tetris6.cs:240-278 | the three rolls select three different pieces, with colours 1, 2 and 3 |
| `Grids.CanMoveIsCanPlaceShifted` | Tetris6.cs:165-177 | a move is legal exactly when the piece with every cell shifted by the delta could be placed |
| `Grids.SelfOverlapBlocks` | Tetris6.cs:165-177 | once a piece with a nonzero colour is placed, any delta that maps one of its cells onto another of its cells makes the move illegal |
| `Grids.FirstOutOfBounds` | Tetris6.cs:181-184 | the position where writing the cells in order first meets a cell off the board: all cells before it are on the board and the cell at it is not |
| `Grids.PaintPlacedIsIdentity` | Tetris6.cs:187-190 | writing a piece into a grid where its cells already hold its colour leaves the grid unchanged |
| `Grids.LockPlaced` | Tetris6.cs:187-190 | locking a placed piece raises no index error and leaves the grid unchanged |
| `Grids.PaintPlaces` | Tetris6.cs:179-185 | after writing a piece whose cells are all on the board, the piece is placed, and writing it again changes nothing |
| `Grids.ShiftDown` | Tetris6.cs:207-217 | clearing full row y: row 0 becomes empty, each row 1..y becomes the old row above it, and the rows below y and the row count are unchanged |
| `Grids.SweepStep` | Tetris6.cs:196-218 | processing row y: a row that is not full leaves the grid unchanged; a full row empties row 0 and moves rows 0..y-1 down by one; rows below y and the row count never change |
| `Grids.Sweep` | Tetris6.cs:194-219 | the sweep over rows 0..y-1 keeps the number of rows |
| `Grids.KeptLength` | Tetris6.cs:192-220 | full rows plus kept rows account for every row |
| `Grids.KeptRows` | Tetris6.cs:192-220 | every kept row is a row of the grid and is not full |
| `Grids.ClearStep` | Tetris6.cs:194-219 | with the rows above y processed, row y still holds its original contents, and processing it turns the cleared prefix of length y into the cleared prefix of length y + 1 |
| `Grids.SweepIsCleared` | Tetris6.cs:192-220 | after the sweep has processed rows 0..y-1, the grid is the reference clearing of those rows followed by the untouched rows from y on |
| `Grids.SweepClears` | Tetris6.cs:192-220 | the complete sweep equals the reference: full rows removed, the rest in order at the bottom, empty rows on top |
| `Grids.ClearedShape` | Tetris6.cs:192-220 | clearing keeps the number of rows and the width of every row |
| `Grids.ClearedHasNoFullRow` | Tetris6.cs:192-220 | with at least one column, no row is full after clearing |
| `Grids.ClearedNoFullIsIdentity` | Tetris6.cs:192-220 | a grid with no full row is unchanged by clearing |
| `Grids.ClearedIdempotent` | Tetris6.cs:192-220 | clearing a second time changes nothing |
| `Grids.SpawnFitsEmptyBoard` | Tetris6.cs:91-95 | on an empty board of at least 3 rows and 7 columns (the game uses 20 x 10) every catalog piece can be placed, so the first spawn never signals game over |
| `Grids.CatalogInBounds` | Tetris6.cs:253-278 | on a board of at least 3 rows and 7 columns every cell of a catalog piece is on the board |
| `Board.TetrisBoard.constructor` | Tetris6.cs:148-151 | the grid is a new array of `height` rows and `width` columns, all 0 |
| `Board.TetrisBoard.CanPlacePiece` | Tetris6.cs:153-163 | returns true exactly when every cell of the piece is within the grid's rows and columns and holds 0; reads the grid only |
| `Board.TetrisBoard.CanMovePiece` | Tetris6.cs:165-177 | returns true exactly when every cell shifted by (deltaY, deltaX) is within the grid and holds 0, the piece's own cells included; reads the grid only |
| `Board.TetrisBoard.PlacePiece` | Tetris6.cs:179-185 | writes the piece's colour into its cells in order and leaves every other cell unchanged; passes exactly when all cells are on the board, and otherwise fails with an index error, keeping the cells written before the bad one |
| `Board.TetrisBoard.LockPiece` | Tetris6.cs:187-190 | the same result and grid as `PlacePiece` |
| `Board.TetrisBoard.RowIsFull` | Tetris6.cs:196-204 | the scan of row y returns true exactly when no cell of the row is 0 |
| `Board.TetrisBoard.CopyRowFromAbove` | Tetris6.cs:209-212 | row `row` becomes a copy of row `row - 1`; every other row is unchanged |
| `Board.TetrisBoard.ZeroTopRow` | Tetris6.cs:214-217 | row 0 becomes all 0; every other row is unchanged |
| `Board.TetrisBoard.ClearRow` | Tetris6.cs:205-218 | for a full row y, rows y down to 1 take the old row above them and row 0 becomes empty |
| `Board.TetrisBoard.ClearFullLines` | Tetris6.cs:192-220 | the grid becomes the row-by-row sweep of the old grid, which equals the reference clearing of the old grid; the dimensions are fixed |
| `Board.TetrisBoard.GetBoardRepresentation` | Tetris6.cs:222-225 | returns a new array with the grid's number of rows and columns and the same contents; the grid is not modified, and the copy is a different array from the grid |
| `Board.TetrisBoard.MovePiece` | Tetris6.cs:227-230 | always fails with `NotImplemented` and changes nothing |
| `Game.NoSidewaysMove` | Tetris6.cs:122-136 | a placed catalog piece can never move one column left or right, because each shape would move onto one of its own cells |
| `Game.LAndTCannotFall` | Tetris6.cs:108-119 | a placed L or T piece can never move down, so a down move on them always locks, clears and respawns |
| `Game.TopRowPieceFalls` | Tetris6.cs:165-177 | a piece lying in row 0 of an otherwise empty board of at least 2 rows can move down |
| `Game.IFallsOnEmptyBoard` | Tetris6.cs:108-113 | an I piece just spawned on an empty board can move down, so the first down move of such a game ends in `MovePiece`'s failure |
| `Game.SpawnPlaces` | Tetris6.cs:97-106 | spawning a catalog piece on a board of at least 3 x 7 raises no index error and leaves the piece placed |
| `Game.TetrisGame.constructor` | Tetris6.cs:91-95 | a new board of the given size, empty but for the spawned piece, which is the one the roll picks; game over is not signalled |
| `Game.TetrisGame.SpawnNewPiece` | Tetris6.cs:97-106 | the current piece becomes the one the roll picks; the call signals game over exactly when that piece cannot be placed on the old grid, and the game-over flag records that some call did; the piece is written into the grid either way |
| `Game.TetrisGame.MovePieceDown` | Tetris6.cs:108-120 | if the piece can move down, fails with `NotImplemented` and changes nothing; otherwise the grid becomes the old grid with its full lines cleared and the piece picked by the roll written in, that piece becomes current, and the game-over flag is set exactly when it was already set or the piece could not be placed on the cleared grid |
| `Game.TetrisGame.MovePieceLeft` | Tetris6.cs:122-128 | changes nothing; fails with `NotImplemented` exactly when the move is legal, and in every valid game the move is refused, so it passes |
| `Game.TetrisGame.MovePieceRight` | Tetris6.cs:130-136 | changes nothing; fails with `NotImplemented` exactly when the move is legal, and in every valid game the move is refused, so it passes |
| `Game.TetrisGame.GetBoardRepresentation` | Tetris6.cs:138-141 | returns a new array with the board grid's dimensions and contents |

## Left out

- `TetrisForm` (window sizing, the 500 ms `Timer`, key dispatch, `Paint` rendering) and `Program.Main` are UI glue. They are not modelled. The key and timer handlers only call the three move methods.
- `MessageBox.Show("Game Over!")` and `Application.Exit()` are foreign UI calls. They become the `gameOver` flag and the value `SpawnNewPiece` returns. The application's exit is not modelled; like the source, the engine keeps accepting calls after game over.
- The message box is modal. While it is open, the 500 ms timer can call `MovePieceDown` again before line 105 writes the piece. This re-entry is not modelled: every call runs to completion before the next begins.
- `new Random()` and `rand.Next(3)` are library randomness. They become the caller-supplied `roll` argument of `GetRandomPiece`, `SpawnNewPiece`, `MovePieceDown` and the game constructor.
- Exceptions become `Outcome` values. The state an exception leaves behind is modelled, but not its propagation through the UI's event handlers.
- `Game.TetrisGame.constructor`: requires at least 7 columns and 3 rows, which is where every catalog shape fits. The C# constructor throws `IndexOutOfRangeException` from `PlacePiece` only when the rolled shape does not fit, after showing the game-over message. L needs 6 columns and 3 rows, T needs 6 columns and 2 rows, and I needs 7 columns and 1 row. So the requires also excludes small boards where the source works, such as 6 x 3 with roll 0 or 1, or 10 x 1 with roll 2. A Dafny constructor cannot return an error. The only caller (Tetris6.cs:26) uses 10 x 20.
- `Board.TetrisBoard.constructor`: takes `nat` dimensions. C# throws `OverflowException` for negative dimensions, and that path is not modelled.
- The coordinate sums `y + deltaY` and `x + deltaX` use unbounded integers. The C# 32-bit wrap-around is not modelled; piece coordinates are small constants.
- The `Tetromino` class hierarchy becomes a datatype of values. Object identity of piece instances is not modelled: nothing ever changes a piece's coordinate list, because the only code that could, `MovePiece`, has no body.
