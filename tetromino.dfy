/** The falling piece: grid coordinates, the table of the seven spawn shapes,
    translation, and the clockwise rotation about a piece's first cell. */
module Tetromino {

  /** A grid coordinate. Column `x` grows to the right and row `y` grows
      downwards; rows above the visible grid have a negative `y`. */
  datatype Cell = Cell(x: int, y: int)

  /** The seven shapes, in the order of the spawn table (indices 0 to 6). */
  datatype Shape = I | L | J | T | S | Z | O

  /** Every piece has exactly four cells. */
  const PieceSize := 4

  /** The absolute cells a shape spawns at. Cell 0 is the rotation origin.
      The coordinates are constants, not derived from the pit's width. */
  function Spawn(shape: Shape): (p: seq<Cell>)
    ensures |p| == PieceSize
    ensures forall i :: 0 <= i < |p| ==> 3 <= p[i].x <= 6 && -1 <= p[i].y <= 0
    ensures p[0].y == 0
    ensures forall i, j :: 0 <= i < j < |p| ==> p[i] != p[j]
  {
    match shape
    case I => [Cell(4, 0), Cell(3, 0), Cell(5, 0), Cell(6, 0)]
    case L => [Cell(4, 0), Cell(3, 0), Cell(5, 0), Cell(5, -1)]
    case J => [Cell(3, 0), Cell(3, -1), Cell(4, 0), Cell(5, 0)]
    case T => [Cell(4, 0), Cell(3, 0), Cell(4, -1), Cell(5, 0)]
    case S => [Cell(5, 0), Cell(4, 0), Cell(5, -1), Cell(6, -1)]
    case Z => [Cell(5, 0), Cell(4, 0), Cell(4, -1), Cell(3, -1)]
    case O => [Cell(4, 0), Cell(5, 0), Cell(4, -1), Cell(5, -1)]
  }

  /** Every cell of `p` moved by `dx` columns and `dy` rows. */
  function Shift(p: seq<Cell>, dx: int, dy: int): seq<Cell>
  {
    seq(|p|, i requires 0 <= i < |p| => Cell(p[i].x + dx, p[i].y + dy))
  }

  /** Two shifts add up, and shifting back undoes a shift. */
  lemma ShiftTwice(p: seq<Cell>, dx: int, dy: int, ex: int, ey: int)
    ensures Shift(Shift(p, dx, dy), ex, ey) == Shift(p, dx + ex, dy + ey)
    ensures Shift(Shift(p, dx, dy), -dx, -dy) == p
  {
    assert Shift(p, 0, 0) == p;
  }

  /** `c` turned 90 degrees clockwise about `origin`: the offset (u, v)
      becomes (-v, u). */
  function RotateCell(origin: Cell, c: Cell): Cell
  {
    Cell(origin.x - (c.y - origin.y), origin.y + (c.x - origin.x))
  }

  /** The piece turned clockwise about its first cell. */
  function Rotated(p: seq<Cell>): (r: seq<Cell>)
    requires |p| == PieceSize
    ensures |r| == PieceSize
    ensures r[0] == p[0]
  {
    seq(|p|, i requires 0 <= i < |p| => RotateCell(p[0], p[i]))
  }

  /** Square of the distance between two cells. */
  function Distance2(a: Cell, b: Cell): int
  {
    (a.x - b.x) * (a.x - b.x) + (a.y - b.y) * (a.y - b.y)
  }

  /** Rotation is rigid: each cell keeps its distance to the origin, and
      distinct cells stay distinct. */
  lemma RotationIsRigid(p: seq<Cell>)
    requires |p| == PieceSize
    ensures forall i :: 0 <= i < PieceSize ==> Distance2(Rotated(p)[i], p[0]) == Distance2(p[i], p[0])
    ensures forall i, j :: 0 <= i < j < PieceSize && p[i] != p[j] ==> Rotated(p)[i] != Rotated(p)[j]
  {
  }

  /** Four quarter turns bring every piece back to where it was. */
  lemma {:induction false} FourRotationsIdentity(p: seq<Cell>)
    requires |p| == PieceSize
    ensures Rotated(Rotated(Rotated(Rotated(p)))) == p
  {
    var r1 := Rotated(p);
    var r2 := Rotated(r1);
    var r3 := Rotated(r2);
    var r4 := Rotated(r3);
    forall i | 0 <= i < PieceSize
      ensures r4[i] == p[i]
    {
      assert r1[i] == RotateCell(p[0], p[i]);
      assert r2[i] == RotateCell(p[0], r1[i]);
      assert r3[i] == RotateCell(p[0], r2[i]);
      assert r4[i] == RotateCell(p[0], r3[i]);
    }
  }

  /** Rotation does not depend on where the piece is: rotating a shifted
      piece is shifting the rotated piece. */
  lemma RotationCommutesWithShift(p: seq<Cell>, dx: int, dy: int)
    requires |p| == PieceSize
    ensures Rotated(Shift(p, dx, dy)) == Shift(Rotated(p), dx, dy)
  {
  }

  /** The O piece is not a fixed point of the rotation: its origin is a
      corner of the square, so a quarter turn moves the square one row down. */
  lemma ORotationMovesSquare()
    ensures Rotated(Spawn(O)) == [Cell(4, 0), Cell(4, 1), Cell(5, 0), Cell(5, 1)]
    ensures Cell(4, -1) in Spawn(O) && Cell(4, -1) !in Rotated(Spawn(O))
  {
  }

  /** Rotating a piece given cell by cell. */
  lemma RotatedCells(a: Cell, b: Cell, c: Cell, d: Cell)
    ensures Rotated([a, b, c, d]) == [a, RotateCell(a, b), RotateCell(a, c), RotateCell(a, d)]
  {
  }

  /** The J piece after three quarter turns reaches two rows above its
      origin. */
  lemma JTurnedThrice()
    ensures Rotated(Rotated(Rotated(Spawn(J)))) == [Cell(3, 0), Cell(2, 0), Cell(3, -1), Cell(3, -2)]
  {
    RotatedCells(Cell(3, 0), Cell(3, -1), Cell(4, 0), Cell(5, 0));
    RotatedCells(Cell(3, 0), Cell(4, 0), Cell(3, 1), Cell(3, 2));
    RotatedCells(Cell(3, 0), Cell(3, 1), Cell(2, 0), Cell(1, 0));
  }
}
