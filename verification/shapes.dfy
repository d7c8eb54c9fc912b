/** The constant shape catalogue of the playfield engine: for each of the seven
    tetromino kinds, four display shapes, four rotation probes, one preview
    shape and one spawn row.  A shape is a 4x4 grid packed into 16 bits: cell
    (row r, column c) is bit 15 - (4r + c), so row 0 is the top nibble. */
module Shapes {
  import opened Bits

  /** BRICK_TYPE and BRICK_NUM_OF_TYPE. */
  const Kinds := 7
  const Rotations := 4

  /** Kind indices, in table order. */
  const S := 0
  const Z := 1
  const L := 2
  const J := 3
  const I := 4
  const O := 5
  const T := 6

  /** `brick_table[kind][rot]`: the shape committed for (kind, rotation).
      Kinds in order S, Z, L, J, I, O, T. */
  function BrickShape(kind: int, rot: int): bv16
    requires ValidKind(kind) && ValidRotation(rot)
  {
    match kind
    case 0 => (match rot case 0 => 0x6C00 case 1 => 0x4620 case 2 => 0x06C0 case _ => 0x8C40)
    case 1 => (match rot case 0 => 0xC600 case 1 => 0x2640 case 2 => 0x0C60 case _ => 0x4C80)
    case 2 => (match rot case 0 => 0x88C0 case 1 => 0xE800 case 2 => 0x6220 case _ => 0x02E0)
    case 3 => (match rot case 0 => 0x2260 case 1 => 0x08E0 case 2 => 0xC880 case _ => 0xE200)
    case 4 => (match rot case 0 => 0x4444 case 1 => 0x0F00 case 2 => 0x2222 case _ => 0x00F0)
    case 5 => (match rot case 0 => 0xCC00 case 1 => 0xCC00 case 2 => 0xCC00 case _ => 0xCC00)
    case _ => (match rot case 0 => 0xE400 case 1 => 0x2620 case 2 => 0x04E0 case _ => 0x8C80)
  }

  /** `rotate_mask[kind][rot]`: the shape a rotation into (kind, rotation)
      is tested with. */
  function ProbeShape(kind: int, rot: int): bv16
    requires ValidKind(kind) && ValidRotation(rot)
  {
    match kind
    case 0 => (match rot case 0 => 0xEE20 case 1 => 0x66E0 case 2 => 0x8EE0 case _ => 0xECC0)
    case 1 => (match rot case 0 => 0xE660 case 1 => 0x2EE0 case 2 => 0xEE80 case _ => 0xCCE0)
    case 2 => (match rot case 0 => 0xECC0 case 1 => 0xEE20 case 2 => 0x66E0 case _ => 0x8EE0)
    case 3 => (match rot case 0 => 0x2EE0 case 1 => 0xCCE0 case 2 => 0xEE80 case _ => 0xE660)
    case 4 => (match rot case 0 => 0x7FCC case 1 => 0xEF33 case 2 => 0x33FE case _ => 0xCCF0)
    case 5 => (match rot case 0 => 0xCC00 case 1 => 0xCC00 case 2 => 0xCC00 case _ => 0xCC00)
    case _ => (match rot case 0 => 0xE620 case 1 => 0x26E0 case 2 => 0x8CE0 case _ => 0xEC80)
  }

  /** `preview_brick_table`: the centred shape reported for the next piece. */
  const PreviewTable: seq<bv16> := [0x0360, 0x0C60, 0x0446, 0x0226, 0x2222, 0x0660, 0x0E40]

  /** `brick_start_y`: the row a new piece of each kind starts at. */
  const StartY: seq<int> := [-2, -2, -3, -3, -4, -2, -2]

  predicate ValidKind(kind: int) { 0 <= kind < Kinds }
  predicate ValidRotation(rot: int) { 0 <= rot < Rotations }

  /** Cell (r, c) of a 4x4 shape: `GET_BIT(brick, 15 - (r * 4 + c))`. */
  predicate Occupied(shape: bv16, r: int, c: int)
    requires 0 <= r < 4 && 0 <= c < 4
  {
    Test(shape, 15 - (4 * r + c))
  }

  /** Number of set bits of a shape, i.e. of occupied cells. */
  function CellCount(shape: bv16): bv16
  {
    (shape & 1) + ((shape >> 1) & 1) + ((shape >> 2) & 1) + ((shape >> 3) & 1)
    + ((shape >> 4) & 1) + ((shape >> 5) & 1) + ((shape >> 6) & 1) + ((shape >> 7) & 1)
    + ((shape >> 8) & 1) + ((shape >> 9) & 1) + ((shape >> 10) & 1) + ((shape >> 11) & 1)
    + ((shape >> 12) & 1) + ((shape >> 13) & 1) + ((shape >> 14) & 1) + ((shape >> 15) & 1)
  }

  /** Lowest row of the grid holding a cell (0 for the empty shape). */
  function MaxRow(shape: bv16): int
  {
    if shape & 0x000F != 0 then 3
    else if shape & 0x00F0 != 0 then 2
    else if shape & 0x0F00 != 0 then 1
    else 0
  }

  /** Leftmost column of the grid holding a cell (3 for the empty shape). */
  function MinCol(shape: bv16): int
  {
    if shape & 0x8888 != 0 then 0
    else if shape & 0x4444 != 0 then 1
    else if shape & 0x2222 != 0 then 2
    else 3
  }

  /** Rightmost column of the grid holding a cell (0 for the empty shape). */
  function MaxCol(shape: bv16): int
  {
    if shape & 0x1111 != 0 then 3
    else if shape & 0x2222 != 0 then 2
    else if shape & 0x4444 != 0 then 1
    else 0
  }

  /** Every occupied cell lies inside the extents. */
  lemma CellWithinExtents(shape: bv16, r: int, c: int)
    requires 0 <= r < 4 && 0 <= c < 4 && Occupied(shape, r, c)
    ensures r <= MaxRow(shape) && MinCol(shape) <= c <= MaxCol(shape)
  {
    match 4 * r + c
    case 0 => case 1 => case 2 => case 3 => case 4 => case 5 => case 6 => case 7 =>
    case 8 => case 9 => case 10 => case 11 => case 12 => case 13 => case 14 => case _ =>
  }

  /** The extents of a non-empty shape are attained: the shape has a cell in
      its lowest row, in its leftmost column and in its rightmost column. */
  lemma ExtentsAttained(shape: bv16) returns (rowCol: int, minRow: int, maxRow: int)
    requires shape != 0
    ensures 0 <= rowCol < 4 && Occupied(shape, MaxRow(shape), rowCol)
    ensures 0 <= minRow < 4 && Occupied(shape, minRow, MinCol(shape))
    ensures 0 <= maxRow < 4 && Occupied(shape, maxRow, MaxCol(shape))
  {
    var r := MaxRow(shape);
    rowCol := if Occupied(shape, r, 0) then 0 else if Occupied(shape, r, 1) then 1
      else if Occupied(shape, r, 2) then 2 else 3;
    var c := MinCol(shape);
    minRow := if Occupied(shape, 0, c) then 0 else if Occupied(shape, 1, c) then 1
      else if Occupied(shape, 2, c) then 2 else 3;
    c := MaxCol(shape);
    maxRow := if Occupied(shape, 0, c) then 0 else if Occupied(shape, 1, c) then 1
      else if Occupied(shape, 2, c) then 2 else 3;
  }

  /** The extents of the probe of a rotation enclose those of the committed
      shape, so a probe that stays within the walls and the floor guarantees
      that the committed shape does too. */
  predicate ProbeEncloses(shape: bv16, probe: bv16)
  {
    MaxRow(shape) <= MaxRow(probe) && MinCol(probe) <= MinCol(shape) && MaxCol(shape) <= MaxCol(probe)
  }

  /** Every cell of the shape is a cell of the probe. */
  predicate ProbeCovers(shape: bv16, probe: bv16)
  {
    shape & !probe == 0
  }

  /** Every display shape is a tetromino: exactly four cells. */
  lemma DisplayShapesHaveFourCells(kind: int, rot: int)
    requires ValidKind(kind) && ValidRotation(rot)
    ensures CellCount(BrickShape(kind, rot)) == 4
  {
    match kind
    case 0 => match rot { case 0 => case 1 => case 2 => case _ => }
    case 1 => match rot { case 0 => case 1 => case 2 => case _ => }
    case 2 => match rot { case 0 => case 1 => case 2 => case _ => }
    case 3 => match rot { case 0 => case 1 => case 2 => case _ => }
    case 4 => match rot { case 0 => case 1 => case 2 => case _ => }
    case 5 => match rot { case 0 => case 1 => case 2 => case _ => }
    case _ => match rot { case 0 => case 1 => case 2 => case _ => }
  }

  lemma ProbesNonEmpty(kind: int, rot: int)
    requires ValidKind(kind) && ValidRotation(rot)
    ensures ProbeShape(kind, rot) != 0
  {
    match kind
    case 0 => case 1 => case 2 => case 3 => case 4 => case 5 => case _ =>
  }

  lemma ProbesEncloseDisplayShapes(kind: int, rot: int)
    requires ValidKind(kind) && ValidRotation(rot)
    ensures ProbeEncloses(BrickShape(kind, rot), ProbeShape(kind, rot))
  {
    ProbesReachLowestRow(kind, rot);
    ProbesReachLeftmostColumn(kind, rot);
    ProbesReachRightmostColumn(kind, rot);
  }

  lemma ProbesReachLowestRow(kind: int, rot: int)
    requires ValidKind(kind) && ValidRotation(rot)
    ensures MaxRow(BrickShape(kind, rot)) <= MaxRow(ProbeShape(kind, rot))
  {
    match kind
    case 0 => match rot { case 0 => case 1 => case 2 => case _ => }
    case 1 => match rot { case 0 => case 1 => case 2 => case _ => }
    case 2 => match rot { case 0 => case 1 => case 2 => case _ => }
    case 3 => match rot { case 0 => case 1 => case 2 => case _ => }
    case 4 => match rot { case 0 => case 1 => case 2 => case _ => }
    case 5 => match rot { case 0 => case 1 => case 2 => case _ => }
    case _ => match rot { case 0 => case 1 => case 2 => case _ => }
  }

  lemma ProbesReachLeftmostColumn(kind: int, rot: int)
    requires ValidKind(kind) && ValidRotation(rot)
    ensures MinCol(ProbeShape(kind, rot)) <= MinCol(BrickShape(kind, rot))
  {
    match kind
    case 0 => match rot { case 0 => case 1 => case 2 => case _ => }
    case 1 => match rot { case 0 => case 1 => case 2 => case _ => }
    case 2 => match rot { case 0 => case 1 => case 2 => case _ => }
    case 3 => match rot { case 0 => case 1 => case 2 => case _ => }
    case 4 => match rot { case 0 => case 1 => case 2 => case _ => }
    case 5 => match rot { case 0 => case 1 => case 2 => case _ => }
    case _ => match rot { case 0 => case 1 => case 2 => case _ => }
  }

  lemma ProbesReachRightmostColumn(kind: int, rot: int)
    requires ValidKind(kind) && ValidRotation(rot)
    ensures MaxCol(BrickShape(kind, rot)) <= MaxCol(ProbeShape(kind, rot))
  {
    match kind
    case 0 => match rot { case 0 => case 1 => case 2 => case _ => }
    case 1 => match rot { case 0 => case 1 => case 2 => case _ => }
    case 2 => match rot { case 0 => case 1 => case 2 => case _ => }
    case 3 => match rot { case 0 => case 1 => case 2 => case _ => }
    case 4 => match rot { case 0 => case 1 => case 2 => case _ => }
    case 5 => match rot { case 0 => case 1 => case 2 => case _ => }
    case _ => match rot { case 0 => case 1 => case 2 => case _ => }
  }

  /** Each display shape lies inside its probe, except Z at rotation 2:
      0x0C60 has the cells (row 2, columns 1 and 2) that 0xEE80 lacks. */
  lemma ProbesCoverDisplayShapesExceptZ2(kind: int, rot: int)
    requires ValidKind(kind) && ValidRotation(rot)
    ensures ProbeCovers(BrickShape(kind, rot), ProbeShape(kind, rot)) <==> !(kind == Z && rot == 2)
  {
    match kind
    case 0 => match rot { case 0 => case 1 => case 2 => case _ => }
    case 1 => match rot { case 0 => case 1 => case 2 => case _ => }
    case 2 => match rot { case 0 => case 1 => case 2 => case _ => }
    case 3 => match rot { case 0 => case 1 => case 2 => case _ => }
    case 4 => match rot { case 0 => case 1 => case 2 => case _ => }
    case 5 => match rot { case 0 => case 1 => case 2 => case _ => }
    case _ => match rot { case 0 => case 1 => case 2 => case _ => }
  }

  /** The cells of Z's rotation-2 shape that its probe misses. */
  lemma ZRotationTwoUncovered()
    ensures BrickShape(Z, 2) & !ProbeShape(Z, 2) == 0x0060
    ensures Occupied(BrickShape(Z, 2), 2, 1) && !Occupied(ProbeShape(Z, 2), 2, 1)
    ensures Occupied(BrickShape(Z, 2), 2, 2) && !Occupied(ProbeShape(Z, 2), 2, 2)
  {
  }
}
