/** The board's grid as a value (a sequence of rows; 0 is an empty cell) and the
    specification functions the board's methods are proved against. */
module Grids {
  import opened Tetromino

  type Grid = seq<seq<int>>

  /** Every row has w cells. */
  predicate Rect(g: Grid, w: nat)
  {
    forall i :: 0 <= i < |g| ==> |g[i]| == w
  }

  /** Equality of grids from equality of their cells. */
  lemma GridExt(a: Grid, b: Grid)
    requires |a| == |b|
    requires forall i :: 0 <= i < |a| ==> |a[i]| == |b[i]|
    requires forall i, j :: 0 <= i < |a| && 0 <= j < |a[i]| ==> a[i][j] == b[i][j]
    ensures a == b
  {
    forall i | 0 <= i < |a|
      ensures a[i] == b[i]
    {
      assert forall j :: 0 <= j < |a[i]| ==> a[i][j] == b[i][j];
    }
  }

  // ---------------------------------------------------------------------------
  // Placement and movement legality

  predicate InBounds(g: Grid, c: (int, int))
  {
    0 <= c.0 < |g| && 0 <= c.1 < |g[c.0]|
  }

  /** The cell exists and holds 0. */
  predicate Free(g: Grid, c: (int, int))
  {
    InBounds(g, c) && g[c.0][c.1] == 0
  }

  /** Every cell of the piece is on the board and empty. */
  predicate CanPlace(g: Grid, p: Piece)
  {
    forall k :: 0 <= k < |p.coords| ==> Free(g, p.coords[k])
  }

  function Offset(c: (int, int), dy: int, dx: int): (d: (int, int))
  {
    (c.0 + dy, c.1 + dx)
  }

  /** Every cell of the piece, moved by (dy, dx), is on the board and empty.
      The piece's own current cells are not exempted. */
  predicate CanMove(g: Grid, p: Piece, dy: int, dx: int)
  {
    forall k :: 0 <= k < |p.coords| ==> Free(g, Offset(p.coords[k], dy, dx))
  }

  /** Moving is placing the shifted piece. */
  lemma CanMoveIsCanPlaceShifted(g: Grid, p: Piece, dy: int, dx: int)
    ensures CanMove(g, p, dy, dx) <==>
            CanPlace(g, Piece(seq(|p.coords|, k requires 0 <= k < |p.coords| => Offset(p.coords[k], dy, dx)), p.color))
  {
    var q := Piece(seq(|p.coords|, k requires 0 <= k < |p.coords| => Offset(p.coords[k], dy, dx)), p.color);
    assert forall k :: 0 <= k < |p.coords| ==> q.coords[k] == Offset(p.coords[k], dy, dx);
  }

  /** The piece's cells all hold its colour. */
  predicate Placed(g: Grid, p: Piece)
  {
    forall k :: 0 <= k < |p.coords| ==> InBounds(g, p.coords[k]) && g[p.coords[k].0][p.coords[k].1] == p.color
  }

  /** A placed piece with a nonzero colour blocks every move that maps one of its
      cells onto another of its cells. */
  lemma SelfOverlapBlocks(g: Grid, p: Piece, dy: int, dx: int, i: nat, j: nat)
    requires Placed(g, p) && p.color != 0
    requires i < |p.coords| && j < |p.coords|
    requires Offset(p.coords[i], dy, dx) == p.coords[j]
    ensures !CanMove(g, p, dy, dx)
  {
    assert !Free(g, Offset(p.coords[i], dy, dx));
  }

  // ---------------------------------------------------------------------------
  // Writing cells

  /** The grid with colour c written into every in-board cell listed in cells. */
  function Paint(g: Grid, cells: seq<(int, int)>, c: int): (r: Grid)
  {
    seq(|g|, i requires 0 <= i < |g| => seq(|g[i]|, j requires 0 <= j < |g[i]| => if (i, j) in cells then c else g[i][j]))
  }

  /** The length of the longest prefix of cs lying on the board: writing the cells
      in order stops with an index error at this position, or finishes when it is |cs|. */
  function FirstOutOfBounds(g: Grid, cs: seq<(int, int)>): (n: nat)
    ensures n <= |cs|
    ensures forall k :: 0 <= k < n ==> InBounds(g, cs[k])
    ensures n < |cs| ==> !InBounds(g, cs[n])
  {
    if cs == [] || !InBounds(g, cs[0]) then 0
    else 1 + FirstOutOfBounds(g, cs[1..])
  }

  /** Painting a piece into a grid where it is already placed changes nothing:
      locking a placed piece is a no-op. */
  lemma PaintPlacedIsIdentity(g: Grid, p: Piece)
    requires Placed(g, p)
    ensures Paint(g, p.coords, p.color) == g
  {
    var r := Paint(g, p.coords, p.color);
    forall i, j | 0 <= i < |g| && 0 <= j < |g[i]|
      ensures r[i][j] == g[i][j]
    {
      if (i, j) in p.coords {
        var k :| 0 <= k < |p.coords| && p.coords[k] == (i, j);
      }
    }
    GridExt(r, g);
  }

  /** Locking a placed piece raises no index error and changes nothing. */
  lemma LockPlaced(g: Grid, p: Piece)
    requires Placed(g, p)
    ensures FirstOutOfBounds(g, p.coords) == |p.coords|
    ensures Paint(g, p.coords[..FirstOutOfBounds(g, p.coords)], p.color) == g
  {
    assert p.coords[..|p.coords|] == p.coords;
    PaintPlacedIsIdentity(g, p);
  }

  /** After painting a piece whose cells are all on the board, the piece is placed,
      and painting it a second time changes nothing. */
  lemma PaintPlaces(g: Grid, p: Piece)
    requires forall k :: 0 <= k < |p.coords| ==> InBounds(g, p.coords[k])
    ensures Placed(Paint(g, p.coords, p.color), p)
    ensures Paint(Paint(g, p.coords, p.color), p.coords, p.color) == Paint(g, p.coords, p.color)
  {
    var r := Paint(g, p.coords, p.color);
    forall k | 0 <= k < |p.coords|
      ensures InBounds(r, p.coords[k]) && r[p.coords[k].0][p.coords[k].1] == p.color
    {
      assert p.coords[k] in p.coords;
    }
    PaintPlacedIsIdentity(r, p);
  }

  // ---------------------------------------------------------------------------
  // Line clearing

  /** No cell of the row is 0. */
  predicate Full(row: seq<int>)
  {
    forall x :: 0 <= x < |row| ==> row[x] != 0
  }

  function ZeroRow(w: nat): (r: seq<int>)
  {
    seq(w, _ => 0)
  }

  /** n empty rows of width w. */
  function Blank(n: nat, w: nat): (r: Grid)
  {
    seq(n, _ => ZeroRow(w))
  }

  /** The number of full rows. */
  function FullCount(g: Grid): (n: nat)
  {
    if g == [] then 0
    else FullCount(g[..|g| - 1]) + (if Full(g[|g| - 1]) then 1 else 0)
  }

  /** The rows that are not full, in their order. */
  function Kept(g: Grid): (k: Grid)
  {
    if g == [] then []
    else Kept(g[..|g| - 1]) + (if Full(g[|g| - 1]) then [] else [g[|g| - 1]])
  }

  /** Reference result of clearing full lines: every full row removed, the rest kept
      in order and pushed to the bottom, and as many empty rows added on top. */
  function Cleared(g: Grid, w: nat): (c: Grid)
  {
    Blank(FullCount(g), w) + Kept(g)
  }

  /** One clearing step for the full row y: rows 1..y take the rows above them,
      row 0 becomes empty and the rows below y stay. */
  function ShiftDown(g: Grid, y: nat, w: nat): (s: Grid)
    requires y < |g|
    ensures |s| == |g|
    ensures s[0] == ZeroRow(w)
    ensures forall r :: 1 <= r <= y ==> s[r] == g[r - 1]
    ensures forall r :: y < r < |g| ==> s[r] == g[r]
  {
    [ZeroRow(w)] + g[..y] + g[y + 1..]
  }

  lemma {:induction false} KeptLength(g: Grid)
    ensures FullCount(g) + |Kept(g)| == |g|
  {
    if g != [] {
      KeptLength(g[..|g| - 1]);
    }
  }

  /** Kept rows are rows of the grid, and none of them is full. */
  lemma {:induction false} KeptRows(g: Grid)
    ensures forall i :: 0 <= i < |Kept(g)| ==> Kept(g)[i] in g && !Full(Kept(g)[i])
  {
    if g != [] {
      var init := g[..|g| - 1];
      KeptRows(init);
      forall i | 0 <= i < |Kept(init)|
        ensures Kept(init)[i] in g
      {
        var r := Kept(init)[i];
        var k :| 0 <= k < |init| && init[k] == r;
        assert g[k] == r;
      }
    }
  }

  /** Clearing keeps the number of rows and their width. */
  lemma ClearedShape(g: Grid, w: nat)
    requires Rect(g, w)
    ensures |Cleared(g, w)| == |g|
    ensures Rect(Cleared(g, w), w)
  {
    KeptLength(g);
    KeptRows(g);
    var c := Cleared(g, w);
    forall i | 0 <= i < |c|
      ensures |c[i]| == w
    {
      if i >= FullCount(g) {
        assert c[i] == Kept(g)[i - FullCount(g)];
        var k :| 0 <= k < |g| && g[k] == c[i];
      }
    }
  }

  /** With at least one column, no row is full after clearing. */
  lemma ClearedHasNoFullRow(g: Grid, w: nat)
    requires w >= 1
    ensures forall i :: 0 <= i < |Cleared(g, w)| ==> !Full(Cleared(g, w)[i])
  {
    KeptRows(g);
    var c := Cleared(g, w);
    forall i | 0 <= i < |c|
      ensures !Full(c[i])
    {
      if i < FullCount(g) {
        assert c[i][0] == 0;
      } else {
        assert c[i] == Kept(g)[i - FullCount(g)];
      }
    }
  }

  /** A grid without a full row is left unchanged by clearing. */
  lemma {:induction false} ClearedNoFullIsIdentity(g: Grid, w: nat)
    requires forall i :: 0 <= i < |g| ==> !Full(g[i])
    ensures Cleared(g, w) == g
  {
    if g != [] {
      var init := g[..|g| - 1];
      ClearedNoFullIsIdentity(init, w);
      assert g == init + [g[|g| - 1]];
    }
  }

  /** Clearing twice is clearing once. */
  lemma ClearedIdempotent(g: Grid, w: nat)
    requires w >= 1
    ensures Cleared(Cleared(g, w), w) == Cleared(g, w)
  {
    ClearedHasNoFullRow(g, w);
    ClearedNoFullIsIdentity(Cleared(g, w), w);
  }

  /** Processing row y of the sweep: a full row is cleared, any other row is left. */
  function SweepStep(g: Grid, y: nat, w: nat): (s: Grid)
    requires y < |g|
    ensures |s| == |g|
    ensures forall r :: y < r < |g| ==> s[r] == g[r]
    ensures !Full(g[y]) ==> s == g
    ensures Full(g[y]) ==> s[0] == ZeroRow(w) && forall r :: 1 <= r <= y ==> s[r] == g[r - 1]
  {
    if Full(g[y]) then ShiftDown(g, y, w) else g
  }

  /** The grid after the sweep has processed rows 0..y-1 in order; a row shifted into
      a position already processed is not examined again. */
  function Sweep(g: Grid, y: nat, w: nat): (r: Grid)
    requires y <= |g|
    ensures |r| == |g|
  {
    if y == 0 then g else SweepStep(Sweep(g, y - 1, w), y - 1, w)
  }

  /** After processing the rows above y, the state is the cleared prefix followed by
      the untouched suffix, row y still holds its original contents, and processing
      row y (shifting when it is full) gives the state for y + 1. */
  lemma ClearStep(g: Grid, y: nat, w: nat)
    requires y < |g|
    ensures |Cleared(g[..y], w)| == y
    ensures SweepStep(Cleared(g[..y], w) + g[y..], y, w) == Cleared(g[..y + 1], w) + g[y + 1..]
  {
    var s, s' := g[..y], g[..y + 1];
    assert s'[..|s'| - 1] == s && s'[|s'| - 1] == g[y];
    KeptLength(s);
    var state := Cleared(s, w) + g[y..];
    assert state[y] == g[y];
    if Full(g[y]) {
      calc {
        ShiftDown(state, y, w);
        [ZeroRow(w)] + state[..y] + state[y + 1..];
        { assert state[..y] == Cleared(s, w); assert state[y + 1..] == g[y + 1..]; }
        [ZeroRow(w)] + Blank(FullCount(s), w) + Kept(s) + g[y + 1..];
        { assert [ZeroRow(w)] + Blank(FullCount(s), w) == Blank(FullCount(s'), w); }
        Blank(FullCount(s'), w) + Kept(s') + g[y + 1..];
      }
    } else {
      assert g[y..] == [g[y]] + g[y + 1..];
      assert Kept(s') == Kept(s) + [g[y]];
    }
  }

  /** The sweep agrees with the reference on every prefix. */
  lemma {:induction false} SweepIsCleared(g: Grid, y: nat, w: nat)
    requires y <= |g|
    ensures Sweep(g, y, w) == Cleared(g[..y], w) + g[y..]
  {
    if y == 0 {
      assert g[..0] == [];
      assert Cleared([], w) == [];
    } else {
      SweepIsCleared(g, y - 1, w);
      ClearStep(g, y - 1, w);
      assert Sweep(g, y, w) == SweepStep(Sweep(g, y - 1, w), y - 1, w);
    }
  }

  /** The whole sweep clears exactly the full rows. */
  lemma SweepClears(g: Grid, w: nat)
    ensures Sweep(g, |g|, w) == Cleared(g, w)
  {
    SweepIsCleared(g, |g|, w);
    assert g[..|g|] == g;
    assert g[|g|..] == [];
  }

  /** An empty board of width at least 7 and height at least 3 accepts every catalog piece. */
  lemma SpawnFitsEmptyBoard(h: nat, w: nat, p: Piece)
    requires h >= 3 && w >= 7 && p in Catalog
    ensures CanPlace(Blank(h, w), p)
  {
    CatalogShapes(p);
  }

  /** On a grid of at least 3 rows and 7 columns every catalog cell is on the board. */
  lemma CatalogInBounds(g: Grid, w: nat, p: Piece)
    requires |g| >= 3 && w >= 7 && Rect(g, w) && p in Catalog
    ensures FirstOutOfBounds(g, p.coords) == |p.coords|
  {
    CatalogShapes(p);
  }
}
