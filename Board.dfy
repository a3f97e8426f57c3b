/** The board: sole owner of the grid of locked cells (0 is empty), of the
    legality checks and of the mutations of the grid. */
module Board {
  import opened Outcomes
  import opened Tetromino
  import opened Grids

  /** The contents of a two-dimensional array, row by row. */
  ghost function RowsOf(a: array2<int>): (g: Grid)
    reads a
    ensures |g| == a.Length0 && Rect(g, a.Length1)
    ensures forall i, j :: 0 <= i < a.Length0 && 0 <= j < a.Length1 ==> g[i][j] == a[i, j]
  {
    seq(a.Length0, i requires 0 <= i < a.Length0 reads a =>
      seq(a.Length1, j requires 0 <= j < a.Length1 reads a => a[i, j]))
  }

  class TetrisBoard {
    /** height x width; the array is never replaced, so the dimensions are fixed. */
    const grid: array2<int>

    ghost function Rows(): (g: Grid)
      reads grid
    {
      RowsOf(grid)
    }

    constructor (width: nat, height: nat)
      ensures fresh(grid)
      ensures grid.Length0 == height && grid.Length1 == width
      ensures Rows() == Blank(height, width)
    {
      grid := new int[height, width]((i, j) => 0);
      new;
      GridExt(Rows(), Blank(height, width));
    }

    method CanPlacePiece(p: Piece) returns (ok: bool)
      ensures ok == CanPlace(Rows(), p)
    {
      var k := 0;
      while k < |p.coords|
        invariant 0 <= k <= |p.coords|
        invariant forall m :: 0 <= m < k ==> Free(Rows(), p.coords[m])
      {
        var (y, x) := p.coords[k];
        if y >= grid.Length0 || x >= grid.Length1 || y < 0 || x < 0 || grid[y, x] != 0 {
          assert !Free(Rows(), p.coords[k]);
          return false;
        }
        k := k + 1;
      }
      return true;
    }

    method CanMovePiece(p: Piece, deltaY: int, deltaX: int) returns (ok: bool)
      ensures ok == CanMove(Rows(), p, deltaY, deltaX)
    {
      var k := 0;
      while k < |p.coords|
        invariant 0 <= k <= |p.coords|
        invariant forall m :: 0 <= m < k ==> Free(Rows(), Offset(p.coords[m], deltaY, deltaX))
      {
        var (y, x) := p.coords[k];
        var newY, newX := y + deltaY, x + deltaX;
        if newY >= grid.Length0 || newX >= grid.Length1 || newY < 0 || newX < 0 || grid[newY, newX] != 0 {
          assert !Free(Rows(), Offset(p.coords[k], deltaY, deltaX));
          return false;
        }
        k := k + 1;
      }
      return true;
    }

    /** Writes the piece's colour into its cells in order. A cell off the board raises
        an index error; the cells written before it stay written. */
    method PlacePiece(p: Piece) returns (r: Outcome)
      modifies grid
      ensures r == if FirstOutOfBounds(old(Rows()), p.coords) == |p.coords| then Pass else Fail(IndexOutOfRange)
      ensures Rows() == Paint(old(Rows()), p.coords[..FirstOutOfBounds(old(Rows()), p.coords)], p.color)
    {
      ghost var g0 := Rows();
      var k := 0;
      while k < |p.coords|
        invariant 0 <= k <= |p.coords|
        invariant forall m :: 0 <= m < k ==> InBounds(g0, p.coords[m])
        invariant forall i, j :: 0 <= i < grid.Length0 && 0 <= j < grid.Length1 ==>
          grid[i, j] == if (i, j) in p.coords[..k] then p.color else g0[i][j]
      {
        var (y, x) := p.coords[k];
        if !(0 <= y < grid.Length0 && 0 <= x < grid.Length1) {
          assert FirstOutOfBounds(g0, p.coords) == k;
          GridExt(Rows(), Paint(g0, p.coords[..k], p.color));
          return Fail(IndexOutOfRange);
        }
        grid[y, x] := p.color;
        assert p.coords[..k + 1] == p.coords[..k] + [(y, x)];
        k := k + 1;
      }
      assert p.coords[..k] == p.coords;
      GridExt(Rows(), Paint(g0, p.coords, p.color));
      r := Pass;
    }

    /** Locking is placing. */
    method LockPiece(p: Piece) returns (r: Outcome)
      modifies grid
      ensures r == if FirstOutOfBounds(old(Rows()), p.coords) == |p.coords| then Pass else Fail(IndexOutOfRange)
      ensures Rows() == Paint(old(Rows()), p.coords[..FirstOutOfBounds(old(Rows()), p.coords)], p.color)
    {
      r := PlacePiece(p);
    }

    /** Scans row y from the left and stops at the first empty cell. */
    method RowIsFull(y: nat) returns (full: bool)
      requires y < grid.Length0
      ensures full == Full(Rows()[y])
    {
      full := true;
      var x := 0;
      while x < grid.Length1
        invariant 0 <= x <= grid.Length1
        invariant full
        invariant forall c :: 0 <= c < x ==> grid[y, c] != 0
      {
        if grid[y, x] == 0 {
          full := false;
          break;
        }
        x := x + 1;
      }
    }

    /** Row `row` takes a copy of the row above it. */
    method CopyRowFromAbove(row: nat)
      requires 0 < row < grid.Length0
      modifies grid
      ensures forall i, j :: 0 <= i < grid.Length0 && 0 <= j < grid.Length1 ==>
        grid[i, j] == if i == row then old(grid[row - 1, j]) else old(grid[i, j])
    {
      var col := 0;
      while col < grid.Length1
        invariant 0 <= col <= grid.Length1
        invariant forall i, j :: 0 <= i < grid.Length0 && 0 <= j < grid.Length1 ==>
          grid[i, j] == if i == row && j < col then old(grid[row - 1, j]) else old(grid[i, j])
      {
        grid[row, col] := grid[row - 1, col];
        col := col + 1;
      }
    }

    /** Every cell of row 0 becomes empty. */
    method ZeroTopRow()
      requires 0 < grid.Length0
      modifies grid
      ensures forall i, j :: 0 <= i < grid.Length0 && 0 <= j < grid.Length1 ==>
        grid[i, j] == if i == 0 then 0 else old(grid[i, j])
    {
      var col := 0;
      while col < grid.Length1
        invariant 0 <= col <= grid.Length1
        invariant forall i, j :: 0 <= i < grid.Length0 && 0 <= j < grid.Length1 ==>
          grid[i, j] == if i == 0 && j < col then 0 else old(grid[i, j])
      {
        grid[0, col] := 0;
        col := col + 1;
      }
    }

    /** Clears the full row y: rows y down to 1 copy the row above, then row 0 is emptied. */
    method ClearRow(y: nat)
      requires y < grid.Length0
      modifies grid
      ensures Rows() == ShiftDown(old(Rows()), y, grid.Length1)
    {
      ghost var g0 := Rows();
      var row := y;
      while row > 0
        invariant 0 <= row <= y
        invariant forall i, j :: 0 <= i < grid.Length0 && 0 <= j < grid.Length1 ==>
          grid[i, j] == if row < i <= y then g0[i - 1][j] else g0[i][j]
      {
        CopyRowFromAbove(row);
        row := row - 1;
      }
      ZeroTopRow();
      GridExt(Rows(), ShiftDown(g0, y, grid.Length1));
    }

    /** One top-to-bottom sweep: each full row is cleared when the sweep reaches it,
        and the row shifted into its place is not examined again. The result is the
        reference `Cleared`: full rows removed, the rest kept in order, empty rows on top. */
    method ClearFullLines()
      modifies grid
      ensures Rows() == Sweep(old(Rows()), grid.Length0, grid.Length1)
      ensures Rows() == Cleared(old(Rows()), grid.Length1)
    {
      ghost var g0 := Rows();
      var y := 0;
      while y < grid.Length0
        invariant 0 <= y <= grid.Length0
        invariant Rows() == Sweep(g0, y, grid.Length1)
      {
        var fullLine := RowIsFull(y);
        if fullLine {
          ClearRow(y);
        }
        y := y + 1;
      }
      SweepClears(g0, grid.Length1);
    }

    /** A copy of the grid in a new array. */
    method GetBoardRepresentation() returns (copy: array2<int>)
      ensures fresh(copy)
      ensures copy.Length0 == grid.Length0 && copy.Length1 == grid.Length1
      ensures RowsOf(copy) == Rows()
    {
      copy := new int[grid.Length0, grid.Length1]((i, j) reads grid =>
        if 0 <= i < grid.Length0 && 0 <= j < grid.Length1 then grid[i, j] else 0);
      GridExt(RowsOf(copy), Rows());
    }

    /** Declared without an implementation in the C# program: it always throws and
        changes nothing. */
    method MovePiece(p: Piece, deltaY: int, deltaX: int) returns (r: Outcome)
      ensures r == Fail(NotImplemented)
    {
      r := Fail(NotImplemented);
    }
  }
}
