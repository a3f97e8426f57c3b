/** The piece catalog: three tetromino shapes with fixed absolute start cells and colour tags. */
module Tetromino {

  /** A piece: the board cells it occupies as (row, column) pairs, and its colour tag.
      The cells are absolute board coordinates, not offsets from an anchor. */
  datatype Piece = Piece(coords: seq<(int, int)>, color: int)

  /** The L shape: a column of three in column 4 with a foot to the right. */
  function TetrominoL(): (p: Piece)
    ensures |p.coords| == 4 && Distinct(p.coords) && p.color == 1
    ensures forall k :: 0 <= k < 4 ==> 0 <= p.coords[k].0 <= 2 && 4 <= p.coords[k].1 <= 5
  {
    Piece([(0, 4), (1, 4), (2, 4), (2, 5)], 1)
  }

  /** The T shape: a bar of three in row 1 with a cap above its middle. */
  function TetrominoT(): (p: Piece)
    ensures |p.coords| == 4 && Distinct(p.coords) && p.color == 2
    ensures forall k :: 0 <= k < 4 ==> 0 <= p.coords[k].0 <= 1 && 3 <= p.coords[k].1 <= 5
  {
    Piece([(0, 4), (1, 3), (1, 4), (1, 5)], 2)
  }

  /** The I shape: a bar of four in row 0. */
  function TetrominoI(): (p: Piece)
    ensures |p.coords| == 4 && Distinct(p.coords) && p.color == 3
    ensures forall k :: 0 <= k < 4 ==> p.coords[k].0 == 0 && 3 <= p.coords[k].1 <= 6
  {
    Piece([(0, 3), (0, 4), (0, 5), (0, 6)], 3)
  }

  /** The shapes in the order of the random roll that selects them. */
  const Catalog: seq<Piece> := [TetrominoL(), TetrominoT(), TetrominoI()]

  predicate Distinct(cs: seq<(int, int)>)
  {
    forall i, j :: 0 <= i < j < |cs| ==> cs[i] != cs[j]
  }

  /** The piece picked by a roll; `roll` stands for the value of `rand.Next(3)`.
      Every roll yields a catalog piece; the rolls 0, 1 and 2 pick the catalog in
      order, and any other value falls back to the L shape. */
  function GetRandomPiece(roll: int): (p: Piece)
    ensures p in Catalog
    ensures 0 <= roll < |Catalog| ==> p == Catalog[roll]
    ensures !(0 <= roll < |Catalog|) ==> p == Catalog[0]
  {
    if roll == 0 then TetrominoL()
    else if roll == 1 then TetrominoT()
    else if roll == 2 then TetrominoI()
    else TetrominoL()
  }

  /** Each catalog shape has four distinct cells, all in rows 0..2 and columns 3..6,
      and a positive colour tag no greater than 3. */
  lemma CatalogShapes(p: Piece)
    requires p in Catalog
    ensures |p.coords| == 4 && Distinct(p.coords)
    ensures forall k :: 0 <= k < |p.coords| ==> 0 <= p.coords[k].0 <= 2 && 3 <= p.coords[k].1 <= 6
    ensures 1 <= p.color <= 3
  {
  }

  /** The three shapes carry three different colours, so the three rolls in 0..2
      select three different pieces and every piece is selected by exactly one roll. */
  lemma CatalogRollsDistinct(i: int, j: int)
    requires 0 <= i < |Catalog| && 0 <= j < |Catalog|
    ensures GetRandomPiece(i) == GetRandomPiece(j) <==> i == j
    ensures GetRandomPiece(i).color == i + 1
  {
  }
}
