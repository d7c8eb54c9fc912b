/** The playfield of the engine: twenty rows of ten cells, each row a 16-bit
    mask whose bit x is column x (row 0 is the top), the falling piece that is
    drawn into it, the collision test and the line clear. */
module Board {
  import opened Bits
  import opened Shapes

  /** TETRIS_MAP_WIDTH and TETRIS_MAP_HEIGHT. */
  const Width := 10
  const Height := 20

  /** A map whose rows only use the ten column bits. */
  predicate ValidMap(m: seq<bv16>)
  {
    |m| == Height && forall y | 0 <= y < Height :: m[y] < 0x400
  }

  function EmptyMap(): (m: seq<bv16>)
    ensures ValidMap(m)
    ensures forall y, x | 0 <= y < Height && 0 <= x < Width :: !Cell(m, x, y)
  {
    seq(Height, _ => 0)
  }

  /** Occupancy of column x of row y. */
  predicate Cell(m: seq<bv16>, x: int, y: int)
    requires |m| == Height && 0 <= x < Width && 0 <= y < Height
  {
    Test(m[y], x)
  }

  /** `brick_t`: position of the top-left corner of the 4x4 grid (negative rows
      lie above the board), kind and rotation (packed into one byte `index` in
      the source, kind in the high nibble) and the current 16-bit shape. */
  datatype Brick = Brick(x: int, y: int, kind: int, rot: int, shape: bv16)

  /** The brick occupies board column `col` of board row `row`. */
  predicate Covers(p: Brick, col: int, row: int)
  {
    0 <= row - p.y < 4 && 0 <= col - p.x < 4 && Occupied(p.shape, row - p.y, col - p.x)
  }

  /** Every occupied cell lies between the walls and above the floor; cells
      above the board are allowed. */
  predicate Fits(p: Brick)
  {
    forall r, c | 0 <= r < 4 && 0 <= c < 4 && Occupied(p.shape, r, c) ::
      0 <= p.x + c < Width && p.y + r < Height
  }

  /** `is_conflict` for one cell at board column `col`, board row `row`: above
      the board only the walls count; on or below it the walls, the floor and
      the frozen cells count. */
  predicate CellConflicts(m: seq<bv16>, col: int, row: int)
    requires |m| == Height
  {
    if row < 0 then !(0 <= col < Width)
    else !(0 <= col < Width) || row >= Height || Cell(m, col, row)
  }

  /** A candidate placement conflicts iff one of its cells does. */
  predicate Conflicts(m: seq<bv16>, p: Brick)
    requires |m| == Height
  {
    exists r, c | 0 <= r < 4 && 0 <= c < 4 && Occupied(p.shape, r, c) ::
      CellConflicts(m, p.x + c, p.y + r)
  }

  /** A placement that conflicts with nothing lies between the walls and above
      the floor. */
  lemma NoConflictFits(m: seq<bv16>, p: Brick)
    requires |m| == Height && !Conflicts(m, p)
    ensures Fits(p)
  {
    forall r, c | 0 <= r < 4 && 0 <= c < 4 && Occupied(p.shape, r, c)
      ensures 0 <= p.x + c < Width && p.y + r < Height
    {
      assert !CellConflicts(m, p.x + c, p.y + r);
    }
  }

  /** For a non-empty shape, fitting is a matter of the shape's extents. */
  lemma FitsByExtents(p: Brick)
    requires p.shape != 0
    ensures Fits(p) <==>
      0 <= p.x + MinCol(p.shape) && p.x + MaxCol(p.shape) < Width && p.y + MaxRow(p.shape) < Height
  {
    var rowCol, minRow, maxRow := ExtentsAttained(p.shape);
    if 0 <= p.x + MinCol(p.shape) && p.x + MaxCol(p.shape) < Width && p.y + MaxRow(p.shape) < Height {
      forall r, c | 0 <= r < 4 && 0 <= c < 4 && Occupied(p.shape, r, c)
        ensures 0 <= p.x + c < Width && p.y + r < Height
      {
        CellWithinExtents(p.shape, r, c);
      }
    }
  }

  function Bit(b: bool, m: bv16): bv16 { if b then m else 0 }

  /** The row word whose column bits are the ten given cells. */
  function Pack(b0: bool, b1: bool, b2: bool, b3: bool, b4: bool, b5: bool, b6: bool, b7: bool, b8: bool, b9: bool): bv16
  {
    Bit(b0, 0x001) | Bit(b1, 0x002) | Bit(b2, 0x004) | Bit(b3, 0x008) | Bit(b4, 0x010) |
    Bit(b5, 0x020) | Bit(b6, 0x040) | Bit(b7, 0x080) | Bit(b8, 0x100) | Bit(b9, 0x200)
  }

  lemma PackCells(b0: bool, b1: bool, b2: bool, b3: bool, b4: bool, b5: bool, b6: bool, b7: bool, b8: bool, b9: bool, col: int)
    requires 0 <= col < Width
    ensures Test(Pack(b0, b1, b2, b3, b4, b5, b6, b7, b8, b9), col) <==>
      match col
      case 0 => b0 case 1 => b1 case 2 => b2 case 3 => b3 case 4 => b4
      case 5 => b5 case 6 => b6 case 7 => b7 case 8 => b8 case _ => b9
  {
    match col
    case 0 => case 1 => case 2 => case 3 => case 4 =>
    case 5 => case 6 => case 7 => case 8 => case _ =>
  }

  lemma PackBelow(b0: bool, b1: bool, b2: bool, b3: bool, b4: bool, b5: bool, b6: bool, b7: bool, b8: bool, b9: bool)
    ensures Pack(b0, b1, b2, b3, b4, b5, b6, b7, b8, b9) < 0x400
  {
  }

  /** The bits `draw_brick` sets in board row y, and `clear_brick` clears:
      those of the columns the brick covers there. */
  function RowMask(p: Brick, y: int): (k: bv16)
    ensures k < 0x400
  {
    PackBelow(Covers(p, 0, y), Covers(p, 1, y), Covers(p, 2, y), Covers(p, 3, y), Covers(p, 4, y),
              Covers(p, 5, y), Covers(p, 6, y), Covers(p, 7, y), Covers(p, 8, y), Covers(p, 9, y));
    Pack(Covers(p, 0, y), Covers(p, 1, y), Covers(p, 2, y), Covers(p, 3, y), Covers(p, 4, y),
         Covers(p, 5, y), Covers(p, 6, y), Covers(p, 7, y), Covers(p, 8, y), Covers(p, 9, y))
  }

  lemma RowMaskCells(p: Brick, y: int, col: int)
    requires 0 <= col < Width
    ensures Test(RowMask(p, y), col) <==> Covers(p, col, y)
  {
    PackCells(Covers(p, 0, y), Covers(p, 1, y), Covers(p, 2, y), Covers(p, 3, y), Covers(p, 4, y),
              Covers(p, 5, y), Covers(p, 6, y), Covers(p, 7, y), Covers(p, 8, y), Covers(p, 9, y), col);
  }

  /** `draw_brick`: set the brick's on-board cells.  Cells above the board are
      skipped; the source checks only that side, and `Fits` is what makes the
      other rows and columns it writes valid. */
  function DrawBrick(m: seq<bv16>, p: Brick): (m': seq<bv16>)
    requires ValidMap(m) && Fits(p)
    ensures ValidMap(m')
    ensures forall y, x | 0 <= y < Height && 0 <= x < Width ::
      Cell(m', x, y) <==> Cell(m, x, y) || Covers(p, x, y)
  {
    var m' := seq(Height, y requires 0 <= y < Height => m[y] | RowMask(p, y));
    assert ValidMap(m') && forall y, x | 0 <= y < Height && 0 <= x < Width ::
      Cell(m', x, y) <==> Cell(m, x, y) || Covers(p, x, y) by {
      forall y | 0 <= y < Height
        ensures m'[y] < 0x400
        ensures forall x | 0 <= x < Width :: Cell(m', x, y) <==> Cell(m, x, y) || Covers(p, x, y)
      {
        OrBelow(m[y], RowMask(p, y));
        forall x | 0 <= x < Width
          ensures Cell(m', x, y) <==> Cell(m, x, y) || Covers(p, x, y)
        {
          TestOr(m[y], RowMask(p, y), x);
          RowMaskCells(p, y, x);
        }
      }
    }
    m'
  }

  /** `clear_brick`: clear the brick's on-board cells. */
  function ClearBrick(m: seq<bv16>, p: Brick): (m': seq<bv16>)
    requires ValidMap(m) && Fits(p)
    ensures ValidMap(m')
    ensures forall y, x | 0 <= y < Height && 0 <= x < Width ::
      Cell(m', x, y) <==> Cell(m, x, y) && !Covers(p, x, y)
  {
    var m' := seq(Height, y requires 0 <= y < Height => m[y] & !RowMask(p, y));
    assert ValidMap(m') && forall y, x | 0 <= y < Height && 0 <= x < Width ::
      Cell(m', x, y) <==> Cell(m, x, y) && !Covers(p, x, y) by {
      forall y | 0 <= y < Height
        ensures m'[y] < 0x400
        ensures forall x | 0 <= x < Width :: Cell(m', x, y) <==> Cell(m, x, y) && !Covers(p, x, y)
      {
        AndNotBelow(m[y], RowMask(p, y));
        forall x | 0 <= x < Width
          ensures Cell(m', x, y) <==> Cell(m, x, y) && !Covers(p, x, y)
        {
          TestAndNot(m[y], RowMask(p, y), x);
          RowMaskCells(p, y, x);
        }
      }
    }
    m'
  }

  /** Every on-board cell of the brick is set in the map. */
  predicate Drawn(m: seq<bv16>, p: Brick)
    requires ValidMap(m)
  {
    forall y, x | 0 <= y < Height && 0 <= x < Width && Covers(p, x, y) :: Cell(m, x, y)
  }

  /** A row is determined by its ten cells. */
  lemma Unpack(v: bv16)
    requires v < 0x400
    ensures v == Pack(Test(v, 0), Test(v, 1), Test(v, 2), Test(v, 3), Test(v, 4),
                      Test(v, 5), Test(v, 6), Test(v, 7), Test(v, 8), Test(v, 9))
  {
  }

  lemma RowsEqual(v: bv16, w: bv16)
    requires v < 0x400 && w < 0x400
    requires forall x | 0 <= x < Width :: Test(v, x) == Test(w, x)
    ensures v == w
  {
    Unpack(v);
    Unpack(w);
    assert Test(v, 0) == Test(w, 0) && Test(v, 1) == Test(w, 1) && Test(v, 2) == Test(w, 2);
    assert Test(v, 3) == Test(w, 3) && Test(v, 4) == Test(w, 4) && Test(v, 5) == Test(w, 5);
    assert Test(v, 6) == Test(w, 6) && Test(v, 7) == Test(w, 7) && Test(v, 8) == Test(w, 8);
    assert Test(v, 9) == Test(w, 9);
  }

  /** Maps with the same cells are the same map. */
  lemma MapsEqual(m: seq<bv16>, m': seq<bv16>)
    requires ValidMap(m) && ValidMap(m')
    requires forall y, x | 0 <= y < Height && 0 <= x < Width :: Cell(m, x, y) == Cell(m', x, y)
    ensures m == m'
  {
    forall y | 0 <= y < Height
      ensures m[y] == m'[y]
    {
      forall x | 0 <= x < Width
        ensures Test(m[y], x) == Test(m'[y], x)
      {
        assert Cell(m, x, y) == Cell(m', x, y);
      }
      RowsEqual(m[y], m'[y]);
    }
  }

  lemma DrawnAfterDraw(m: seq<bv16>, p: Brick)
    requires ValidMap(m) && Fits(p)
    ensures Drawn(DrawBrick(m, p), p)
  {
  }

  /** Clearing a drawn brick and drawing it again restores the map exactly. */
  lemma ClearThenDraw(m: seq<bv16>, p: Brick)
    requires ValidMap(m) && Fits(p) && Drawn(m, p)
    ensures DrawBrick(ClearBrick(m, p), p) == m
  {
    MapsEqual(DrawBrick(ClearBrick(m, p), p), m);
  }

  /** A rotation is tested with a probe shape and committed with another one;
      when the probe's extents enclose the committed shape's, a probe that
      conflicts with nothing guarantees that the committed piece fits. */
  lemma ProbeFitsCommitted(m: seq<bv16>, q: Brick, shape: bv16)
    requires |m| == Height && !Conflicts(m, q)
    requires q.shape != 0 && shape != 0 && ProbeEncloses(shape, q.shape)
    ensures Fits(q.(shape := shape))
  {
    NoConflictFits(m, q);
    FitsByExtents(q);
    FitsByExtents(q.(shape := shape));
  }

  /** The probe of Z at rotation 2 misses a cell of the committed shape: with
      Z at rotation 1 in the top-left corner and a frozen cell at column 2 of
      row 2, the probe conflicts with nothing, yet the committed shape covers
      the frozen cell. */
  lemma ZRotationTwoOverlaps()
    ensures var m := EmptyMap()[2 := 0x0004];
      var probe := Brick(0, 0, Z, 2, ProbeShape(Z, 2));
      ValidMap(m) && !Conflicts(m, probe) &&
      Cell(m, 2, 2) && Covers(probe.(shape := BrickShape(Z, 2)), 2, 2)
  {
    var m := EmptyMap()[2 := 0x0004];
    var probe := Brick(0, 0, Z, 2, ProbeShape(Z, 2));
    assert Test(m[2], 2);
    forall r, c | 0 <= r < 4 && 0 <= c < 4 && Occupied(probe.shape, r, c)
      ensures !CellConflicts(m, c, r)
    {
      assert r < 3;
      if r == 2 {
        assert c == 0;
      }
    }
  }

  /** What the overlap costs: once the Z rotation-2 shape is drawn over the
      frozen cell, the `clear_brick` of the next move erases that cell too, so
      a frozen cell of the map is lost. */
  lemma ZRotationTwoErasesFrozenCell()
    ensures var m := EmptyMap()[2 := 0x0004];
      var q := Brick(0, 0, Z, 2, BrickShape(Z, 2));
      ValidMap(m) && Fits(q) && Cell(m, 2, 2) &&
      Cell(DrawBrick(m, q), 2, 2) && !Cell(ClearBrick(DrawBrick(m, q), q), 2, 2)
  {
    var m := EmptyMap()[2 := 0x0004];
    var q := Brick(0, 0, Z, 2, BrickShape(Z, 2));
    ZRotationTwoOverlaps();
    assert Fits(q) by {
      forall r, c | 0 <= r < 4 && 0 <= c < 4 && Occupied(q.shape, r, c)
        ensures 0 <= q.x + c < Width && q.y + r < Height
      {
        assert c < 3;
      }
    }
    assert Covers(q, 2, 2);
  }

  /** `is_conflict`: scan the 4x4 grid row by row and stop at the first occupied
      cell that lies outside the walls, below the floor or on a frozen cell. */
  method IsConflict(m: seq<bv16>, dest: Brick) returns (b: bool)
    requires |m| == Height
    ensures b <==> Conflicts(m, dest)
  {
    var column := 0;
    while column < 4
      invariant 0 <= column <= 4
      invariant forall r, c | 0 <= r < column && 0 <= c < 4 && Occupied(dest.shape, r, c) ::
        !CellConflicts(m, dest.x + c, dest.y + r)
    {
      b := RowConflicts(m, dest, column);
      if b {
        return;
      }
      column := column + 1;
    }
    return false;
  }

  /** The inner loop of `is_conflict` over one grid row. */
  method RowConflicts(m: seq<bv16>, dest: Brick, column: int) returns (b: bool)
    requires |m| == Height && 0 <= column < 4
    ensures b <==> exists c | 0 <= c < 4 && Occupied(dest.shape, column, c) ::
      CellConflicts(m, dest.x + c, dest.y + column)
  {
    var row := 0;
    while row < 4
      invariant 0 <= row <= 4
      invariant forall c | 0 <= c < row && Occupied(dest.shape, column, c) ::
        !CellConflicts(m, dest.x + c, dest.y + column)
    {
      if Occupied(dest.shape, column, row) {
        var exp;
        if dest.y + column < 0 {
          exp := row + dest.x > Width - 1 || row + dest.x < 0;
        } else {
          exp := row + dest.x > Width - 1 || row + dest.x < 0 || column + dest.y > Height - 1
            || Test(m[column + dest.y], row + dest.x);
        }
        if exp {
          return true;
        }
      }
      row := row + 1;
    }
    return false;
  }

  /** A row counts as full once it reaches 0x3FF.  The map stores `int16_t`
      rows and the comparison is signed: a row with bit 15 set is negative
      and never full. */
  predicate Full(v: bv16)
  {
    0x3FF <= v < 0x8000
  }

  /** On the rows of a valid map, which are below 0x400, the signed comparison
      is the unsigned one; a negative row is never full. */
  lemma FullIsSigned(v: bv16)
    ensures v < 0x400 ==> (Full(v) <==> v >= 0x3FF)
    ensures v >= 0x8000 ==> !Full(v)
  {
  }

  /** The rows that survive a line clear, top to bottom. */
  function Kept(rows: seq<bv16>): seq<bv16>
  {
    if |rows| == 0 then []
    else Kept(rows[..|rows| - 1]) + (if Full(rows[|rows| - 1]) then [] else [rows[|rows| - 1]])
  }

  /** The number of full rows. */
  function CountFull(rows: seq<bv16>): nat
  {
    if |rows| == 0 then 0
    else CountFull(rows[..|rows| - 1]) + (if Full(rows[|rows| - 1]) then 1 else 0)
  }

  function Zeros(n: nat): (z: seq<bv16>)
    ensures |z| == n && forall k | 0 <= k < n :: z[k] == 0
  {
    seq(n, _ => 0)
  }

  /** Every row is either kept or counted, and the kept rows are exactly the
      rows that are not full. */
  lemma {:induction false} KeptCount(rows: seq<bv16>)
    ensures |Kept(rows)| + CountFull(rows) == |rows|
    ensures forall k | 0 <= k < |Kept(rows)| :: !Full(Kept(rows)[k]) && Kept(rows)[k] in rows
  {
    if |rows| > 0 {
      KeptCount(rows[..|rows| - 1]);
    }
  }

  /** `line_clear_check`'s inner loop: shift rows 0..i-1 down by one, dropping
      row i, and empty row 0. */
  method ShiftDown(cur: seq<bv16>, i: int) returns (r: seq<bv16>)
    requires 0 <= i < |cur|
    ensures r == [0] + cur[..i] + cur[i + 1..]
  {
    r := cur;
    var j := i;
    while j > 0
      invariant 0 <= j <= i && |r| == |cur|
      invariant forall k | 0 <= k <= j :: r[k] == cur[k]
      invariant forall k | j < k <= i :: r[k] == cur[k - 1]
      invariant r[i + 1..] == cur[i + 1..]
    {
      r := r[j := r[j - 1]];
      j := j - 1;
    }
    r := r[0 := 0];
    var s := [0] + cur[..i] + cur[i + 1..];
    assert |r| == |s|;
    forall k | 0 <= k < |r|
      ensures r[k] == s[k]
    {
      if k == 0 {
      } else if k <= i {
        assert s[k] == cur[..i][k - 1];
      } else {
        assert s[k] == cur[i + 1..][k - i - 1];
        assert r[k] == r[i + 1..][k - i - 1];
      }
    }
  }

  /** `line_clear_check`: scan from the top; every full row is removed by
      moving the rows above it down one and emptying the top row.  The result
      is the surviving rows under as many empty rows as were removed. */
  method ClearLines(m: seq<bv16>) returns (m': seq<bv16>, l: int)
    requires |m| == Height
    ensures l == CountFull(m)
    ensures m' == Zeros(l) + Kept(m)
  {
    var cur := m;
    l := 0;
    var i := 0;
    while i < Height
      invariant 0 <= i <= Height && |cur| == Height
      invariant l == CountFull(m[..i])
      invariant cur[..i] == Zeros(l) + Kept(m[..i])
      invariant cur[i..] == m[i..]
    {
      ScanStep(m, i);
      assert cur[i] == m[i] by { assert cur[i..][0] == m[i..][0]; }
      assert cur[i + 1..] == cur[i..][1..] && m[i + 1..] == m[i..][1..];
      if Full(cur[i]) {
        var next := ShiftDown(cur, i);
        ShiftedParts(cur, i, next);
        ZerosCons(l);
        l := l + 1;
        cur := next;
      } else {
        assert cur[..i + 1] == cur[..i] + [cur[i]];
      }
      i := i + 1;
    }
    assert m[..Height] == m;
    assert cur[..Height] == cur;
    m' := cur;
  }

  /** One more row of the scan: counted if full, kept otherwise. */
  lemma ScanStep(m: seq<bv16>, i: int)
    requires 0 <= i < |m|
    ensures CountFull(m[..i + 1]) == CountFull(m[..i]) + (if Full(m[i]) then 1 else 0)
    ensures Kept(m[..i + 1]) == Kept(m[..i]) + (if Full(m[i]) then [] else [m[i]])
  {
    assert m[..i + 1][..i] == m[..i];
  }

  lemma ShiftedParts(cur: seq<bv16>, i: int, next: seq<bv16>)
    requires 0 <= i < |cur| && next == [0] + cur[..i] + cur[i + 1..]
    ensures next[..i + 1] == [0] + cur[..i] && next[i + 1..] == cur[i + 1..]
  {
  }

  lemma ZerosCons(n: nat)
    ensures Zeros(n + 1) == [0] + Zeros(n)
  {
  }

  /** The map after a line clear: as many empty rows as there were full
      rows, above the rows that were not full.  It is a valid map without a
      full row, and row y is empty for y below the count and otherwise holds
      the kept rows in their old order. */
  function Cleared(m: seq<bv16>): (r: seq<bv16>)
    requires ValidMap(m)
    ensures ValidMap(r) && CountFull(m) <= Height
    ensures forall y | 0 <= y < Height :: !Full(r[y])
    ensures forall y | 0 <= y < CountFull(m) :: r[y] == 0
  {
    KeptCount(m);
    var r := Zeros(CountFull(m)) + Kept(m);
    assert forall y | 0 <= y < Height :: r[y] < 0x400 && !Full(r[y]) by {
      forall y | 0 <= y < Height
        ensures r[y] < 0x400 && !Full(r[y])
      {
        if y >= CountFull(m) {
          assert r[y] == Kept(m)[y - CountFull(m)];
          assert r[y] in m;
        }
      }
    }
    r
  }
}
