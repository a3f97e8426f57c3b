/** The game controller: one board and one current piece; spawn, game-over
    detection, left/right/down moves and the lock, clear, respawn sequence. */
module Game {
  import opened Outcomes
  import opened Tetromino
  import opened Grids
  import opened Board

  /** A spawned catalog piece can never move one column sideways: each shape has a
      horizontal pair of its own cells, which it would move onto. */
  lemma NoSidewaysMove(g: Grid, p: Piece, dx: int)
    requires p in Catalog && Placed(g, p)
    requires dx == -1 || dx == 1
    ensures !CanMove(g, p, 0, dx)
  {
    if p == TetrominoL() {
      if dx == -1 { SelfOverlapBlocks(g, p, 0, dx, 3, 2); } else { SelfOverlapBlocks(g, p, 0, dx, 2, 3); }
    } else if p == TetrominoT() {
      if dx == -1 { SelfOverlapBlocks(g, p, 0, dx, 2, 1); } else { SelfOverlapBlocks(g, p, 0, dx, 1, 2); }
    } else {
      if dx == -1 { SelfOverlapBlocks(g, p, 0, dx, 1, 0); } else { SelfOverlapBlocks(g, p, 0, dx, 0, 1); }
    }
  }

  /** A spawned L or T piece can never move down: its top cell would move onto its own
      cell below. */
  lemma LAndTCannotFall(g: Grid, p: Piece)
    requires p in Catalog && p != TetrominoI() && Placed(g, p)
    ensures !CanMove(g, p, 1, 0)
  {
    if p == TetrominoL() {
      SelfOverlapBlocks(g, p, 1, 0, 0, 1);
    } else {
      SelfOverlapBlocks(g, p, 1, 0, 0, 2);
    }
  }

  /** A piece lying in row 0, written into an empty board of at least 2 rows, can
      move down. */
  lemma TopRowPieceFalls(h: nat, w: nat, p: Piece)
    requires h >= 2
    requires forall k :: 0 <= k < |p.coords| ==> p.coords[k].0 == 0 && 0 <= p.coords[k].1 < w
    ensures CanMove(Paint(Blank(h, w), p.coords, p.color), p, 1, 0)
  {
    var g := Paint(Blank(h, w), p.coords, p.color);
    forall k | 0 <= k < |p.coords|
      ensures Free(g, Offset(p.coords[k], 1, 0))
    {
      var x := p.coords[k].1;
      assert (1, x) !in p.coords;
      assert g[1][x] == Blank(h, w)[1][x];
    }
  }

  /** The I piece, just spawned on an empty board of at least 2 rows and 7 columns,
      can move down, so the first down move of such a game reaches the missing
      board move. */
  lemma IFallsOnEmptyBoard(h: nat, w: nat)
    requires h >= 2 && w >= 7
    ensures CanMove(Paint(Blank(h, w), TetrominoI().coords, TetrominoI().color), TetrominoI(), 1, 0)
  {
    TopRowPieceFalls(h, w, TetrominoI());
  }

  /** Writing a catalog piece into a grid of at least 3 rows and 7 columns raises
      no index error and leaves the piece placed. */
  lemma SpawnPlaces(g: Grid, w: nat, p: Piece)
    requires |g| >= 3 && w >= 7 && Rect(g, w) && p in Catalog
    ensures FirstOutOfBounds(g, p.coords) == |p.coords|
    ensures p.coords[..FirstOutOfBounds(g, p.coords)] == p.coords
    ensures Placed(Paint(g, p.coords, p.color), p)
  {
    CatalogInBounds(g, w, p);
    PaintPlaces(g, p);
  }

  class TetrisGame {
    const board: TetrisBoard
    var currentPiece: Piece
    /** Set when a spawn finds no room; stands for the game-over message box and
        the request to exit the application. */
    var gameOver: bool

    /** The board is large enough for every catalog piece. */
    ghost predicate BoardFits()
    {
      board.grid.Length0 >= 3 && board.grid.Length1 >= 7
    }

    /** The current piece is a catalog piece and its cells hold its colour. */
    ghost predicate Valid()
      reads this, board.grid
    {
      BoardFits() && currentPiece in Catalog && Placed(board.Rows(), currentPiece)
    }

    constructor (width: nat, height: nat, roll: int)
      requires width >= 7 && height >= 3
      ensures Valid() && fresh(board) && fresh(board.grid)
      ensures board.grid.Length0 == height && board.grid.Length1 == width
      ensures currentPiece == GetRandomPiece(roll) && !gameOver
      ensures board.Rows() == Paint(Blank(height, width), currentPiece.coords, currentPiece.color)
    {
      board := new TetrisBoard(width, height);
      gameOver := false;
      new;
      SpawnFitsEmptyBoard(height, width, GetRandomPiece(roll));
      var signalled := SpawnNewPiece(roll);
    }

    /** Takes the piece picked by `roll`; signals game over when it does not fit,
        and writes it into the grid in either case. `signalled` tells whether this
        call showed the game-over message; `gameOver` records that any call did. */
    method SpawnNewPiece(roll: int) returns (signalled: bool)
      requires BoardFits()
      modifies this, board.grid
      ensures Valid()
      ensures currentPiece == GetRandomPiece(roll)
      ensures signalled == !CanPlace(old(board.Rows()), currentPiece)
      ensures gameOver == (old(gameOver) || signalled)
      ensures board.Rows() == Paint(old(board.Rows()), currentPiece.coords, currentPiece.color)
    {
      var p := GetRandomPiece(roll);
      currentPiece := p;
      var fits := board.CanPlacePiece(p);
      signalled := !fits;
      if signalled {
        gameOver := true;
      }
      ghost var before := board.Rows();
      SpawnPlaces(before, board.grid.Length1, p);
      var placed := board.PlacePiece(p);
      ghost var after := board.Rows();
      assert after == Paint(before, p.coords, p.color);
      assert Placed(after, p);
    }

    /** Moves down when the board allows it (which reaches the missing board move);
        otherwise locks the piece, clears full lines and spawns the piece picked by `roll`. */
    method MovePieceDown(roll: int) returns (r: Outcome)
      requires Valid()
      modifies this, board.grid
      ensures Valid()
      ensures old(CanMove(board.Rows(), currentPiece, 1, 0)) ==>
        r == Fail(NotImplemented) && board.Rows() == old(board.Rows()) &&
        currentPiece == old(currentPiece) && gameOver == old(gameOver)
      ensures !old(CanMove(board.Rows(), currentPiece, 1, 0)) ==>
        var cleared := Cleared(old(board.Rows()), board.grid.Length1);
        r == Pass && currentPiece == GetRandomPiece(roll) &&
        gameOver == (old(gameOver) || !CanPlace(cleared, currentPiece)) &&
        board.Rows() == Paint(cleared, currentPiece.coords, currentPiece.color)
    {
      var canFall := board.CanMovePiece(currentPiece, 1, 0);
      if canFall {
        r := board.MovePiece(currentPiece, 1, 0);
      } else {
        ghost var before := board.Rows();
        LockPlaced(before, currentPiece);
        var locked := board.LockPiece(currentPiece);
        assert board.Rows() == before;
        board.ClearFullLines();
        assert board.Rows() == Cleared(before, board.grid.Length1);
        var signalled := SpawnNewPiece(roll);
        r := Pass;
      }
    }

    /** Tries to move one column left; a blocked move is silently ignored. In a valid
        game the move is always blocked. */
    method MovePieceLeft() returns (r: Outcome)
      ensures r == if CanMove(board.Rows(), currentPiece, 0, -1) then Fail(NotImplemented) else Pass
      ensures Valid() ==> r == Pass
    {
      if Valid() {
        NoSidewaysMove(board.Rows(), currentPiece, -1);
      }
      var canMove := board.CanMovePiece(currentPiece, 0, -1);
      r := Pass;
      if canMove {
        r := board.MovePiece(currentPiece, 0, -1);
      }
    }

    /** Tries to move one column right; a blocked move is silently ignored. In a valid
        game the move is always blocked. */
    method MovePieceRight() returns (r: Outcome)
      ensures r == if CanMove(board.Rows(), currentPiece, 0, 1) then Fail(NotImplemented) else Pass
      ensures Valid() ==> r == Pass
    {
      if Valid() {
        NoSidewaysMove(board.Rows(), currentPiece, 1);
      }
      var canMove := board.CanMovePiece(currentPiece, 0, 1);
      r := Pass;
      if canMove {
        r := board.MovePiece(currentPiece, 0, 1);
      }
    }

    method GetBoardRepresentation() returns (snapshot: array2<int>)
      ensures fresh(snapshot)
      ensures snapshot.Length0 == board.grid.Length0 && snapshot.Length1 == board.grid.Length1
      ensures RowsOf(snapshot) == board.Rows()
    {
      snapshot := board.GetBoardRepresentation();
    }
  }
}
