/** The playfield engine's state machine: spawning, initialisation, the
    move/rotate/freeze step and the two redraw passes.  The four callbacks of
    the C engine are returned as a list of events, and the random source is a
    function from a draw counter to a byte. */
module Engine {
  import opened Bits
  import opened Shapes
  import opened Board

  /** One callback invocation: `draw_box(x, y, box)`,
      `return_next_brick_info(info)` or `return_remove_line_num(line)`. */
  datatype Event = Draw(x: int, y: int, box: bool) | Preview(info: bv16) | LinesRemoved(line: int)

  /** `dire_t`; `Other` stands for any value outside the enumeration, which
      the switch in `tetris_move` sends to its default branch. */
  datatype Direction = Left | Right | Down | Rotate | Other

  /** The engine's static variables.  `draws` counts the random numbers taken
      so far; `rand(draws)` is the next one. */
  datatype State = State(rows: seq<bv16>, backup: seq<bv16>, curr: Brick, next: Brick,
                           gameOver: bool, draws: nat)

  /** BRICK_START_X: (10 / 2) - (4 / 2). */
  const StartX := 3

  /** The brick `create_new_brick` makes for a kind. */
  function SpawnOf(kind: int): (b: Brick)
    requires ValidKind(kind)
    ensures Fits(b)
  {
    Brick(StartX, StartY[kind], kind, 0, BrickShape(kind, 0))
  }

  /** `create_new_brick` given the random byte it draws. */
  function Spawn(v: uint8): Brick
  {
    SpawnOf(v % Kinds)
  }

  /** A spawned brick: kind v mod 7, column 3, the kind's start row (two to
      four rows above the board), rotation 0 and the kind's first shape. */
  lemma SpawnShape(v: uint8)
    ensures var b := Spawn(v);
      b.kind == v % 7 && b.x == 3 && -4 <= b.y <= -2 && b.y == StartY[b.kind] &&
      b.rot == 0 && b.shape == BrickShape(b.kind, 0) && Fits(b)
  {
  }

  /** The falling brick carries a valid kind and rotation and the display
      shape of that pair. */
  predicate WellFormed(p: Brick)
  {
    ValidKind(p.kind) && ValidRotation(p.rot) && p.shape == BrickShape(p.kind, p.rot)
  }

  /** The state every public entry point keeps: a valid map holding the
      falling brick, which fits the board and never rose above its spawn
      row, and a freshly spawned next brick. */
  predicate Valid(e: State)
  {
    ValidMap(e.rows) && |e.backup| == Height &&
    WellFormed(e.curr) && Fits(e.curr) && -4 <= e.curr.y && Drawn(e.rows, e.curr) &&
    ValidKind(e.next.kind) && e.next == SpawnOf(e.next.kind)
  }

  /** The falling brick's coordinates, and those of every candidate made from
      it, fit the `int8_t` fields of `brick_t`. */
  lemma CoordinatesFitInt8(e: State)
    requires Valid(e)
    ensures -128 <= e.curr.x - 1 && e.curr.x + 1 < 128
    ensures -128 <= e.curr.y && e.curr.y + 1 < 128
  {
    DisplayShapesHaveFourCells(e.curr.kind, e.curr.rot);
    FitsByExtents(e.curr);
  }

  /** The falling brick is never below the last row. */
  lemma AboveFloor(e: State)
    requires Valid(e)
    ensures e.curr.y < Height
  {
    DisplayShapesHaveFourCells(e.curr.kind, e.curr.rot);
    FitsByExtents(e.curr);
  }

  /** The placement `tetris_move` tests: one column left or right, one row
      down, or the next rotation with its probe shape from `rotate_mask`. */
  function Candidate(p: Brick, dir: Direction): Brick
    requires WellFormed(p)
  {
    match dir
    case Left => p.(x := p.x - 1)
    case Right => p.(x := p.x + 1)
    case Down => p.(y := p.y + 1)
    case Rotate => p.(rot := (p.rot + 1) % 4, shape := ProbeShape(p.kind, (p.rot + 1) % 4))
    case Other => p
  }

  /** The brick committed when the candidate is free: a rotation swaps the
      probe for the display shape from `brick_table`. */
  function Committed(q: Brick, dir: Direction): Brick
    requires ValidKind(q.kind) && ValidRotation(q.rot)
  {
    if dir == Rotate then q.(shape := BrickShape(q.kind, q.rot)) else q
  }

  /** The map with the falling brick taken out, as `is_conflict` sees it. */
  function Frozen(e: State): seq<bv16>
    requires ValidMap(e.rows) && Fits(e.curr)
  {
    ClearBrick(e.rows, e.curr)
  }

  /** A brick never conflicts with the map it has been cleared from. */
  lemma OwnPlaceIsFree(m: seq<bv16>, p: Brick)
    requires ValidMap(m) && Fits(p)
    ensures !Conflicts(ClearBrick(m, p), p)
  {
    var c := ClearBrick(m, p);
    forall r, c0 | 0 <= r < 4 && 0 <= c0 < 4 && Occupied(p.shape, r, c0)
      ensures !CellConflicts(c, p.x + c0, p.y + r)
    {
      if p.y + r >= 0 {
        assert Covers(p, p.x + c0, p.y + r);
      }
    }
  }

  /** `tetris_init`: an empty map, two bricks spawned (the falling one first),
      the preview of the next one reported, the falling brick drawn and every
      cell redrawn.  The backup is not touched. */
  method Init(backup: seq<bv16>, rand: nat -> uint8, draws: nat) returns (e: State, events: seq<Event>)
    requires |backup| == Height
    ensures Valid(e) && !e.gameOver && e.backup == backup && e.draws == draws + 2
    ensures e.curr == Spawn(rand(draws)) && e.next == Spawn(rand(draws + 1))
    ensures e.rows == DrawBrick(EmptyMap(), e.curr)
    ensures forall y, x | 0 <= y < Height && 0 <= x < Width :: Cell(e.rows, x, y) <==> Covers(e.curr, x, y)
    ensures |events| == 1 + Height * Width && events[0] == Preview(PreviewTable[e.next.kind])
    ensures forall y, x | 0 <= y < Height && 0 <= x < Width ::
      events[1 + y * Width + x] == Draw(x, y, Covers(e.curr, x, y))
  {
    var curr := Spawn(rand(draws));
    var next := Spawn(rand(draws + 1));
    var rows := DrawBrick(EmptyMap(), curr);
    e := State(rows, backup, curr, next, false, draws + 2);
    var redraw := SyncAll(e);
    events := [Preview(PreviewTable[next.kind])] + redraw;
  }

  /** `tetris_sync_all`: one draw per cell, row by row, reporting the cell. */
  method SyncAll(e: State) returns (events: seq<Event>)
    requires ValidMap(e.rows)
    ensures |events| == Height * Width
    ensures forall y, x | 0 <= y < Height && 0 <= x < Width ::
      events[y * Width + x] == Draw(x, y, Cell(e.rows, x, y))
  {
    events := [];
    var y := 0;
    while y < Height
      invariant 0 <= y <= Height && |events| == y * Width
      invariant forall y', x | 0 <= y' < y && 0 <= x < Width ::
        events[y' * Width + x] == Draw(x, y', Cell(e.rows, x, y'))
    {
      var x := 0;
      while x < Width
        invariant 0 <= x <= Width && |events| == y * Width + x
        invariant forall y', x' | 0 <= y' < y && 0 <= x' < Width ::
          events[y' * Width + x'] == Draw(x', y', Cell(e.rows, x', y'))
        invariant forall x' | 0 <= x' < x :: events[y * Width + x'] == Draw(x', y, Cell(e.rows, x', y))
      {
        events := events + [Draw(x, y, Test(e.rows[y], x))];
        x := x + 1;
      }
      y := y + 1;
    }
  }

  /** Position of a draw in row-major order. */
  function Order(ev: Event): int
  {
    if ev.Draw? then ev.y * Width + ev.x else 0
  }

  /** The cell differs between the map and the backup. */
  predicate Changed(e: State, x: int, y: int)
    requires |e.rows| == Height && |e.backup| == Height && 0 <= x < Width && 0 <= y < Height
  {
    Cell(e.rows, x, y) != Cell(e.backup, x, y)
  }

  /** The draws made so far by a redraw that has visited every cell whose
      row-major position is below k: each reports a changed cell with its new
      value, every changed cell visited is reported, and positions increase. */
  predicate Reported(e: State, events: seq<Event>, k: int)
    requires |e.rows| == Height && |e.backup| == Height
  {
    OnlyChanged(e, events, k) && AllChanged(e, events, k) && Increasing(events)
  }

  predicate OnlyChanged(e: State, events: seq<Event>, k: int)
    requires |e.rows| == Height && |e.backup| == Height
  {
    forall i | 0 <= i < |events| ::
      events[i].Draw? && 0 <= events[i].x < Width && 0 <= events[i].y < Height && Order(events[i]) < k &&
      Changed(e, events[i].x, events[i].y) && events[i].box == Cell(e.rows, events[i].x, events[i].y)
  }

  predicate AllChanged(e: State, events: seq<Event>, k: int)
    requires |e.rows| == Height && |e.backup| == Height
  {
    forall y, x | 0 <= y < Height && 0 <= x < Width && y * Width + x < k && Changed(e, x, y) ::
      Draw(x, y, Cell(e.rows, x, y)) in events
  }

  predicate Increasing(events: seq<Event>)
  {
    forall i, j | 0 <= i < j < |events| :: Order(events[i]) < Order(events[j])
  }

  /** `tetris_sync`: redraw exactly the cells that differ from the backup, row
      by row, then copy the map into the backup. */
  method Sync(e: State) returns (e': State, events: seq<Event>)
    requires ValidMap(e.rows) && |e.backup| == Height
    ensures e' == e.(backup := e.rows)
    ensures forall i | 0 <= i < |events| ::
      events[i].Draw? && 0 <= events[i].x < Width && 0 <= events[i].y < Height &&
      Changed(e, events[i].x, events[i].y) && events[i].box == Cell(e.rows, events[i].x, events[i].y)
    ensures forall y, x | 0 <= y < Height && 0 <= x < Width && Changed(e, x, y) ::
      Draw(x, y, Cell(e.rows, x, y)) in events
    ensures forall i, j | 0 <= i < j < |events| :: Order(events[i]) < Order(events[j])
    ensures e.backup == e.rows ==> events == []
  {
    events := [];
    var y := 0;
    while y < Height
      invariant 0 <= y <= Height && Reported(e, events, y * Width)
      invariant e.backup == e.rows ==> events == []
    {
      events := SyncRow(e, y, events);
      y := y + 1;
    }
    e' := e.(backup := e.rows);

  }

  /** One row of `tetris_sync`: a row equal to its backup is skipped whole;
      otherwise each of its cells is compared and redrawn if it differs. */
  method SyncRow(e: State, y: int, events: seq<Event>) returns (events': seq<Event>)
    requires ValidMap(e.rows) && |e.backup| == Height && 0 <= y < Height
    requires Reported(e, events, y * Width)
    ensures Reported(e, events', (y + 1) * Width)
    ensures e.rows[y] == e.backup[y] ==> events' == events
  {
    events' := events;
    if e.rows[y] != e.backup[y] {
      var x := 0;
      while x < Width
        invariant 0 <= x <= Width && Reported(e, events', y * Width + x)
      {
        if Test(e.rows[y], x) != Test(e.backup[y], x) {
          ReportedAppend(e, events', y, x);
          events' := events' + [Draw(x, y, Test(e.rows[y], x))];
        } else {
          ReportedKeep(e, events', y, x);
        }
        x := x + 1;
      }
    } else {
      ReportedSkip(e, events, y);
    }
  }

  /** Visiting one more cell: a changed cell is appended. */
  lemma ReportedAppend(e: State, events: seq<Event>, y: int, x: int)
    requires |e.rows| == Height && |e.backup| == Height && 0 <= y < Height && 0 <= x < Width
    requires Reported(e, events, y * Width + x) && Changed(e, x, y)
    ensures Reported(e, events + [Draw(x, y, Cell(e.rows, x, y))], y * Width + x + 1)
  {
    var events' := events + [Draw(x, y, Cell(e.rows, x, y))];
    assert forall i | 0 <= i < |events| :: events'[i] == events[i];
    assert OnlyChanged(e, events', y * Width + x + 1);
    assert AllChanged(e, events', y * Width + x + 1);
    assert Increasing(events');
  }

  /** Visiting one more cell: an unchanged one adds nothing. */
  lemma ReportedKeep(e: State, events: seq<Event>, y: int, x: int)
    requires |e.rows| == Height && |e.backup| == Height && 0 <= y < Height && 0 <= x < Width
    requires Reported(e, events, y * Width + x) && !Changed(e, x, y)
    ensures Reported(e, events, y * Width + x + 1)
  {
  }

  /** A row equal to its backup has no changed cell. */
  lemma ReportedSkip(e: State, events: seq<Event>, y: int)
    requires |e.rows| == Height && |e.backup| == Height && 0 <= y < Height && e.rows[y] == e.backup[y]
    requires Reported(e, events, y * Width)
    ensures Reported(e, events, (y + 1) * Width)
  {
  }

  /** `tetris_move`.  The falling brick is taken out of the map and the
      candidate placement is tested against what remains.  If it is free the
      brick moves there (a rotation commits its display shape) and the result
      is true.  If not, the brick is put back and the result is false; when
      the blocked move was a step down, the brick stays frozen where it is,
      the game is over if its top row is still above the board, full rows
      are cleared and reported, and the next brick falls while a new one is
      spawned and previewed. */
  method Move(e: State, dir: Direction, rand: nat -> uint8) returns (e': State, moved: bool, events: seq<Event>)
    requires Valid(e)
    ensures Valid(e')
    ensures moved <==> !Conflicts(Frozen(e), Candidate(e.curr, dir))
    ensures moved ==>
      e' == e.(rows := DrawBrick(Frozen(e), e'.curr), curr := Committed(Candidate(e.curr, dir), dir)) &&
      events == []
    ensures moved ==> forall y, x | 0 <= y < Height && 0 <= x < Width ::
      Cell(e'.rows, x, y) <==> (Cell(e.rows, x, y) && !Covers(e.curr, x, y)) || Covers(e'.curr, x, y)
    ensures !moved && dir != Down ==> e' == e && events == []
    ensures dir == Other ==> moved && e' == e && events == []
    ensures e.gameOver ==> e'.gameOver
    ensures !moved && dir == Down ==>
      e'.curr == e.next && e'.next == Spawn(rand(e.draws)) && e'.draws == e.draws + 1 &&
      e'.backup == e.backup && (e'.gameOver <==> e.gameOver || e.curr.y + 1 <= 0) &&
      e'.rows == DrawBrick(Cleared(e.rows), e.next) &&
      events == [LinesRemoved(CountFull(e.rows)), Preview(PreviewTable[e'.next.kind])]
  {
    var dest := Candidate(e.curr, dir);
    var cleared := ClearBrick(e.rows, e.curr);
    var conflict := IsConflict(cleared, dest);
    if dir == Other {
      OwnPlaceIsFree(e.rows, e.curr);
      ClearThenDraw(e.rows, e.curr);
    }
    if !conflict {
      CommittedFits(cleared, e.curr, dir);
      dest := Committed(dest, dir);
      e' := e.(rows := DrawBrick(cleared, dest), curr := dest);
      moved := true;
      events := [];
      DrawnAfterDraw(cleared, dest);
    } else if dir == Down {
      e', events := Freeze(e, rand);
      moved := false;
    } else {
      ClearThenDraw(e.rows, e.curr);
      e' := e.(rows := DrawBrick(cleared, e.curr));
      moved := false;
      events := [];
    }
  }

  /** A free candidate becomes a well-formed brick that fits the board; for a
      rotation this rests on the probe's extents enclosing the committed
      shape's. */
  lemma CommittedFits(m: seq<bv16>, p: Brick, dir: Direction)
    requires |m| == Height && WellFormed(p) && -4 <= p.y && !Conflicts(m, Candidate(p, dir))
    ensures var q := Committed(Candidate(p, dir), dir);
      WellFormed(q) && Fits(q) && -4 <= q.y
  {
    var dest := Candidate(p, dir);
    NoConflictFits(m, dest);
    if dir == Rotate {
      ProbesNonEmpty(dest.kind, dest.rot);
      ProbesEncloseDisplayShapes(dest.kind, dest.rot);
      DisplayShapesHaveFourCells(dest.kind, dest.rot);
      ProbeFitsCommitted(m, dest, BrickShape(dest.kind, dest.rot));
    }
  }

  /** The blocked-down branch of `tetris_move`: the brick is drawn back where
      it was, the game-over flag is raised if the brick's origin row is still
      above the board, lines are cleared and their number reported, the next
      brick becomes the falling one and is drawn, and a new next brick is
      spawned and previewed. */
  method Freeze(e: State, rand: nat -> uint8) returns (e': State, events: seq<Event>)
    requires Valid(e)
    ensures Valid(e')
    ensures e'.curr == e.next && e'.next == Spawn(rand(e.draws)) && e'.draws == e.draws + 1
    ensures e'.backup == e.backup && (e'.gameOver <==> e.gameOver || e.curr.y + 1 <= 0)
    ensures e'.rows == DrawBrick(Cleared(e.rows), e.next)
    ensures events == [LinesRemoved(CountFull(e.rows)), Preview(PreviewTable[e'.next.kind])]
  {
    var frozen := DrawBrick(ClearBrick(e.rows, e.curr), e.curr);
    ClearThenDraw(e.rows, e.curr);
    var over := e.gameOver || e.curr.y + 1 <= 0;
    var m, l := ClearLines(frozen);
    assert m == Cleared(frozen);
    var nb := Spawn(rand(e.draws));
    e' := State(DrawBrick(m, e.next), e.backup, e.next, nb, over, e.draws + 1);
    events := [LinesRemoved(l), Preview(PreviewTable[nb.kind])];
    DrawnAfterDraw(m, e.next);
  }

  /** Four rotations bring a brick back to its rotation and shape. */
  lemma RotateFourTimes(p: Brick)
    requires WellFormed(p)
    ensures var p1 := Committed(Candidate(p, Rotate), Rotate);
      var p2 := Committed(Candidate(p1, Rotate), Rotate);
      var p3 := Committed(Candidate(p2, Rotate), Rotate);
      WellFormed(p1) && WellFormed(p2) && WellFormed(p3) &&
      Committed(Candidate(p3, Rotate), Rotate) == p
  {
  }
}
