/** The screen layer of the MSP430 build: decimal numbers in the side panel
    and the boxes of the playfield and of the preview window, all written
    through the terminal emitters.  Every output is read back with the
    ECMA-48 reader of module `Term`. */
module Ui {
  import opened Bits
  import opened Shapes
  import opened Term

  /* ---- Decimal numbers ---- */

  /** The decimal digits of `n`, most significant first, without leading
      zeros; the empty string for 0. */
  function Digits(n: nat): (r: seq<uint8>)
    ensures forall i | 0 <= i < |r| :: 0x30 <= r[i] <= 0x39
    ensures n == 0 <==> r == []
    decreases n
  {
    if n == 0 then [] else Digits(n / 10) + [Digit(n)]
  }

  predicate IsDigits(d: seq<uint8>)
  {
    forall i | 0 <= i < |d| :: 0x30 <= d[i] <= 0x39
  }

  /** The number a digit string denotes, read most significant first. */
  function DecimalValue(d: seq<uint8>): nat
    requires IsDigits(d)
  {
    if d == [] then 0 else 10 * DecimalValue(d[..|d| - 1]) + (d[|d| - 1] - 0x30)
  }

  /** Reading the digits back gives the number, and there is no leading zero. */
  lemma {:induction false} DigitsRoundTrip(n: nat)
    ensures DecimalValue(Digits(n)) == n
    ensures n > 0 ==> Digits(n)[0] != 0x30
    decreases n
  {
    if n > 0 {
      var d := Digits(n);
      assert d[..|d| - 1] == Digits(n / 10);
      DigitsRoundTrip(n / 10);
      if n / 10 > 0 {
        assert d[0] == Digits(n / 10)[0];
      }
    }
  }

  function Pow10(k: nat): (r: nat)
    ensures r >= 1
  {
    if k == 0 then 1 else 10 * Pow10(k - 1)
  }

  /** A number below 10^k has at most k digits. */
  lemma {:induction false} FewDigits(n: nat, k: nat)
    requires n < Pow10(k)
    ensures |Digits(n)| <= k
    decreases k
  {
    if n > 0 {
      assert k > 0;
      FewDigits(n / 10, k - 1);
    }
  }

  /** Buffer fit: a 16-bit value has at most five digits, so it fits the six
      bytes of `lines_buf` and `score_buf` with its NUL; an 8-bit level has
      at most three and fits `level_buf[4]`. */
  lemma BufferFit(n: nat)
    ensures n < 0x1_0000 ==> |Digits(n)| + 1 <= 6
    ensures n < 0x100 ==> |Digits(n)| + 1 <= 4
  {
    assert Pow10(3) == 1000 && Pow10(5) == 100000;
    if n < 0x1_0000 {
      FewDigits(n, 5);
    }
    if n < 0x100 {
      FewDigits(n, 3);
    }
  }

  /** `s` back to front. */
  function Reverse(s: seq<uint8>): (r: seq<uint8>)
    ensures |r| == |s|
    ensures forall k | 0 <= k < |s| :: r[k] == s[|s| - 1 - k]
  {
    seq(|s|, k requires 0 <= k < |s| => s[|s| - 1 - k])
  }

  /** `wtoa`: the buffer receives the digits least significant first, which
      are then reversed in place; the result is the NUL-terminated decimal
      string of `num` and its length.  For 0 the string is empty. */
  method Wtoa(num: uint16) returns (buf: seq<uint8>, len: uint8)
    ensures buf == Digits(num) + [0]
    ensures len as int == |Digits(num)|
  {
    var low := LowDigitsFirst(num);
    BufferFit(num);
    len := |low|;
    buf := ReverseInPlace(low + [0], |low|);
    assert buf == Digits(num) + [0];
  }

  /** The conversion loop of `wtoa`: `num % 10` until `num` is 0. */
  method LowDigitsFirst(num: uint16) returns (low: seq<uint8>)
    ensures Reverse(low) == Digits(num)
  {
    var n: nat := num;
    low := [];
    while n != 0
      invariant Digits(num) == Digits(n) + Reverse(low)
      decreases n
    {
      assert Reverse(low + [Digit(n)]) == [Digit(n)] + Reverse(low);
      low := low + [Digit(n)];
      n := n / 10;
    }
  }

  /** The reversal loop of `wtoa` on the first `len` bytes of `buf`: `p` and
      `q` walk towards each other swapping; for an empty string `q` starts
      one before the buffer and nothing is swapped. */
  method ReverseInPlace(s: seq<uint8>, len: nat) returns (buf: seq<uint8>)
    requires len <= |s|
    ensures buf == Reverse(s[..len]) + s[len..]
  {
    buf := s;
    var p: int := 0;
    var q: int := len - 1;
    while p < q
      invariant 0 <= p <= q + 1 && p + q == len - 1
      invariant |buf| == |s| && buf[len..] == s[len..]
      invariant forall k | p <= k <= q :: buf[k] == s[k]
      invariant forall k | 0 <= k < len && (k < p || q < k) :: buf[k] == s[len - 1 - k]
      decreases q - p
    {
      var tmp := buf[p];
      buf := buf[p := buf[q]][q := tmp];
      p := p + 1;
      q := q - 1;
    }
    assert buf[..len] == Reverse(s[..len]);
    assert buf == buf[..len] + buf[len..];
  }

  /** `width - |d|` ASCII zeros (none when `d` is already that wide) in
      front of `d`. */
  function ZeroPad(d: seq<uint8>, width: int): seq<uint8>
  {
    seq(if width > |d| then width - |d| else 0, _ => 0x30) + d
  }

  /** Leading zeros change neither the value nor the digits after them: the
      padded number reads back as the number and is `max(width, digits)` wide. */
  lemma PaddedValue(n: nat, width: int)
    ensures IsDigits(ZeroPad(Digits(n), width))
    ensures DecimalValue(ZeroPad(Digits(n), width)) == n
    ensures |ZeroPad(Digits(n), width)| == if width > |Digits(n)| then width else |Digits(n)|
  {
    var z := seq(if width > |Digits(n)| then width - |Digits(n)| else 0, _ => 0x30);
    LeadingZeros(z, Digits(n));
    DigitsRoundTrip(n);
  }

  lemma {:induction false} LeadingZeros(z: seq<uint8>, d: seq<uint8>)
    requires forall i | 0 <= i < |z| :: z[i] == 0x30
    requires IsDigits(d)
    ensures IsDigits(z + d) && DecimalValue(z + d) == DecimalValue(d)
    decreases |d|
  {
    if d == [] {
      assert z + d == z;
      AllZeros(z);
    } else {
      var d' := d[..|d| - 1];
      assert (z + d)[..|z + d| - 1] == z + d';
      LeadingZeros(z, d');
    }
  }

  lemma {:induction false} AllZeros(z: seq<uint8>)
    requires forall i | 0 <= i < |z| :: z[i] == 0x30
    ensures IsDigits(z) && DecimalValue(z) == 0
  {
    if z != [] {
      AllZeros(z[..|z| - 1]);
    }
  }

  /* ---- The side panel ---- */

  /** The text of a digit string as the reader sees it. */
  function Texts(t: seq<uint8>): (r: seq<Control>)
    ensures |r| == |t|
    ensures forall i | 0 <= i < |t| :: r[i] == Text(t[i])
  {
    if t == [] then [] else [Text(t[0])] + Texts(t[1..])
  }

  /** Plain text (no ESC) reads back byte by byte. */
  lemma {:induction false} ParseText(t: seq<uint8>, rest: seq<uint8>)
    requires Esc !in t
    ensures Parse(t + rest) == Texts(t) + Parse(rest)
  {
    if t != [] {
      var s := t + rest;
      assert s[0] == t[0] != Esc;
      assert s[1..] == t[1..] + rest;
      ParseText(t[1..], rest);
      assert Parse(s) == [Text(t[0])] + Parse(s[1..]);
      assert Texts(t) == [Text(t[0])] + Texts(t[1..]);
      assert [Text(t[0])] + (Texts(t[1..]) + Parse(rest)) == Texts(t) + Parse(rest);
    } else {
      assert t + rest == rest;
    }
  }

  /** The bytes of a number printed in the side panel: save the cursor,
      move to the field, write the text, restore the cursor. */
  function Field(column: uint8, row: uint8, text: seq<uint8>): seq<uint8>
  {
    SaveCursor() + (SetCursor(column, row) + (text + RestoreCursor()))
  }

  /** A printed field reads back as: cursor saved, cursor moved to the field
      (row first), the characters of the text, cursor restored. */
  lemma FieldReadsBack(column: uint8, row: uint8, text: seq<uint8>)
    requires IsDigits(text)
    ensures Parse(Field(column, row, text)) ==
              [Sequence([], Ascii('s')), Sequence([row % 100, column % 100], Ascii('H'))]
              + Texts(text) + [Sequence([], Ascii('u'))]
  {
    var tail := text + RestoreCursor();
    var after := SetCursor(column, row) + tail;
    var save, cup, restore := Sequence([], Ascii('s')), Sequence([row % 100, column % 100], Ascii('H')),
                              Sequence([], Ascii('u'));
    assert Parse(tail) == Texts(text) + [restore] by {
      RestoreCursorThen([]);
      assert RestoreCursor() + [] == RestoreCursor();
      ParseText(text, RestoreCursor());
    }
    assert Parse(after) == [cup] + Parse(tail) by {
      SetCursorThen(column, row, tail);
    }
    assert Parse(SaveCursor() + after) == [save] + Parse(after) by {
      SaveCursorThen(after);
    }
    assert [save] + ([cup] + (Texts(text) + [restore])) == [save, cup] + Texts(text) + [restore];
  }

  /** `term_puts` of a string literal. */
  method PutsLiteral(s: seq<uint8>) returns (out: seq<uint8>)
    requires 0 !in s
    ensures out == s
  {
    out := Puts(s + [0]);
    PutsString(s, []);
    assert s + [0] + [] == s + [0];
  }

  /** `term_puts` of the buffer `wtoa` filled. */
  method PutsDigits(buf: seq<uint8>, n: nat) returns (out: seq<uint8>)
    requires buf == Digits(n) + [0]
    ensures out == Digits(n)
  {
    assert 0 !in Digits(n);
    out := Puts(buf);
    PutsString(Digits(n), []);
    assert Digits(n) + [0] + [] == buf;
  }

  /** `ui_print_level`: the level at column 55, row 13, with a leading '0'
      when it has a single digit.  Level 0 has no digits at all and prints
      an empty field. */
  method PrintLevel(level: uint8) returns (out: seq<uint8>)
    ensures level != 0 ==> out == Field(55, 13, ZeroPad(Digits(level), 2))
    ensures level == 0 ==> out == Field(55, 13, [])
  {
    var buf, i := Wtoa(level);
    var text := [];
    if i == 1 {
      var zero := PutsLiteral([Ascii('0')]);
      text := zero;
    }
    var digits := PutsDigits(buf, level);
    text := text + digits;
    assert level == 0 ==> text == [];
    assert level != 0 ==> text == ZeroPad(Digits(level), 2) by {
      if level != 0 {
        BufferFit(level);
      }
    }
    out := SaveCursor() + SetCursor(55, 13) + text + RestoreCursor();
    Regroup(SaveCursor(), SetCursor(55, 13), text, RestoreCursor());
  }

  /** The loop of `ui_print_line` and `ui_print_score`: zeros while the
      counter is below `width - i` (an `int` comparison, so a longer number
      gets none), then the digits. */
  method PrintPadded(value: uint16, column: uint8, row: uint8, width: uint8) returns (out: seq<uint8>)
    ensures out == Field(column, row, ZeroPad(Digits(value), width))
  {
    var buf, i := Wtoa(value);
    var text := [];
    var j: uint8 := 0;
    while j < width - i
      invariant j == 0 || j <= width - i
      invariant text == seq(j, _ => 0x30)
      decreases width - i - j
    {
      var zero := PutsLiteral([Ascii('0')]);
      text := text + zero;
      j := j + 1;
    }
    var digits := PutsDigits(buf, value);
    text := text + digits;
    assert text == ZeroPad(Digits(value), width);
    out := SaveCursor() + SetCursor(column, row) + text + RestoreCursor();
    Regroup(SaveCursor(), SetCursor(column, row), text, RestoreCursor());
  }

  /** `ui_print_line`: lines cleared at column 54, row 17, three digits wide. */
  method PrintLine(line: uint16) returns (out: seq<uint8>)
    ensures out == Field(54, 17, ZeroPad(Digits(line), 3))
  {
    out := PrintPadded(line, 54, 17, 3);
  }

  /** `ui_print_score`: the score at column 53, row 21, four digits wide. */
  method PrintScore(score: uint16) returns (out: seq<uint8>)
    ensures out == Field(53, 21, ZeroPad(Digits(score), 4))
  {
    out := PrintPadded(score, 53, 21, 4);
  }

  /** What the panel shows for a printed count: the padded text reads back
      as the number, at least `width` characters wide and wider only when
      the number itself is. */
  lemma PanelReadsBack(n: nat, column: uint8, row: uint8, width: int)
    ensures var text := ZeroPad(Digits(n), width);
            IsDigits(text) && DecimalValue(text) == n &&
            |text| == (if width > |Digits(n)| then width else |Digits(n)|) &&
            Parse(Field(column, row, text)) ==
              [Sequence([], Ascii('s')), Sequence([row % 100, column % 100], Ascii('H'))]
              + Texts(text) + [Sequence([], Ascii('u'))]
  {
    PaddedValue(n, width);
    FieldReadsBack(column, row, ZeroPad(Digits(n), width));
  }

  /* ---- Boxes ---- */

  /** A box of two character cells in a background colour. */
  datatype Box = Box(column: uint8, row: uint8, color: Color)

  /** What the reader sees for a box: its colour (none for `defaults`), its
      position (row first) and two blanks. */
  function BoxControls(b: Box): seq<Control>
  {
    BackgroundControls(b.color) + [CursorControl(b)] + [Text(0x20), Text(0x20)]
  }

  function BackgroundControls(color: Color): seq<Control>
  {
    if color == Defaults then [] else [Sequence([40 + color % 10], Ascii('m'))]
  }

  function CursorControl(b: Box): Control
  {
    Sequence([b.row % 100, b.column % 100], Ascii('H'))
  }

  /** The string `term_puts("  ")` writes. */
  const Blanks: seq<uint8> := [Ascii(' '), Ascii(' ')]

  /** `draw_box`: select the background, move the cursor, write two blanks. */
  function DrawBox(b: Box): seq<uint8>
  {
    SetBackground(b.color) + (SetCursor(b.column, b.row) + Blanks)
  }

  lemma BlanksThen(rest: seq<uint8>)
    ensures Parse(Blanks + rest) == [Text(0x20), Text(0x20)] + Parse(rest)
  {
    ParseText(Blanks, rest);
    assert Texts(Blanks) == [Text(0x20), Text(0x20)];
  }

  /** A box, followed by more output, reads back as the background colour
      (unless `defaults`), the cursor position and two blanks. */
  lemma DrawBoxThen(b: Box, rest: seq<uint8>)
    ensures Parse(DrawBox(b) + rest) == BoxControls(b) + Parse(rest)
  {
    DrawBoxBytes(b, rest);
    DrawBoxParts(b, rest);
  }

  lemma DrawBoxParts(b: Box, rest: seq<uint8>)
    ensures Parse(SetBackground(b.color) + (SetCursor(b.column, b.row) + (Blanks + rest))) ==
              BoxControls(b) + Parse(rest)
  {
    var tail := SetCursor(b.column, b.row) + (Blanks + rest);
    SetCursorThen(b.column, b.row, Blanks + rest);
    BackgroundThen(b.color, tail);
    BoxFromParts(SetBackground(b.color), SetCursor(b.column, b.row), rest,
                 BackgroundControls(b.color), [CursorControl(b)]);
  }

  lemma BackgroundThen(color: Color, rest: seq<uint8>)
    ensures Parse(SetBackground(color) + rest) == BackgroundControls(color) + Parse(rest)
  {
    SetBackgroundThen(color, rest);
    if color == Defaults {
      assert BackgroundControls(color) + Parse(rest) == Parse(rest);
    }
  }

  lemma BoxFromParts(bg: seq<uint8>, cup: seq<uint8>, rest: seq<uint8>, cx: seq<Control>, cy: seq<Control>)
    requires Parse(cup + (Blanks + rest)) == cy + Parse(Blanks + rest)
    requires Parse(bg + (cup + (Blanks + rest))) == cx + Parse(cup + (Blanks + rest))
    ensures Parse(bg + (cup + (Blanks + rest))) == cx + cy + [Text(0x20), Text(0x20)] + Parse(rest)
  {
    BlanksThen(rest);
    Compose(bg, cup, Blanks, rest, cx, cy, [Text(0x20), Text(0x20)]);
  }

  lemma DrawBoxBytes(b: Box, rest: seq<uint8>)
    ensures DrawBox(b) + rest == SetBackground(b.color) + (SetCursor(b.column, b.row) + (Blanks + rest))
  {
    assert DrawBox(b) == SetBackground(b.color) + SetCursor(b.column, b.row) + Blanks;
  }

  /** Three pieces of output, each read back on its own, read back in turn. */
  lemma Compose(x: seq<uint8>, y: seq<uint8>, z: seq<uint8>, rest: seq<uint8>,
                cx: seq<Control>, cy: seq<Control>, cz: seq<Control>)
    requires Parse(z + rest) == cz + Parse(rest)
    requires Parse(y + (z + rest)) == cy + Parse(z + rest)
    requires Parse(x + (y + (z + rest))) == cx + Parse(y + (z + rest))
    ensures Parse(x + (y + (z + rest))) == cx + cy + cz + Parse(rest)
  {
    Regroup(cx, cy, cz, Parse(rest));
  }

  // A proof step in sequence algebra, not a property of the screen layer.
  lemma Regroup<T>(a: seq<T>, b: seq<T>, c: seq<T>, d: seq<T>)
    ensures a + (b + (c + d)) == a + b + c + d
  {
  }

  const MapColumn := 20
  const MapRow := 3

  /** The screen box of playfield cell (x, y): the C arithmetic is done on
      `uint8_t`, so it wraps modulo 256. */
  function MapBox(x: uint8, y: uint8, box: bool): Box
  {
    Box((x * 2 + MapColumn) % 0x100, (y + MapRow) % 0x100, if box then Blue else Magenta)
  }

  /** `ui_draw_box`: a playfield cell of the 10 x 20 board is drawn at column
      2x+20, row y+3, blue when occupied and magenta when empty. */
  function DrawCell(x: uint8, y: uint8, box: bool): (r: seq<uint8>)
    ensures x < 10 && y < 20 ==>
              Parse(r) == [Sequence([if box then 44 else 45], Ascii('m')),
                           Sequence([y + 3, 2 * x + 20], Ascii('H')), Text(0x20), Text(0x20)]
  {
    var b := MapBox(x, y, box);
    DrawBoxThen(b, []);
    assert DrawBox(b) + [] == DrawBox(b);
    CellControls(x, y, box);
    DrawBox(b)
  }

  lemma CellControls(x: uint8, y: uint8, box: bool)
    ensures x < 10 && y < 20 ==>
              BoxControls(MapBox(x, y, box)) ==
                [Sequence([if box then 44 else 45], Ascii('m')),
                 Sequence([y + 3, 2 * x + 20], Ascii('H')), Text(0x20), Text(0x20)]
  {
  }

  /** Distinct cells of the board get disjoint pairs of character cells
      inside columns 20..39 and rows 3..22. */
  lemma MapCellsDisjoint(x: uint8, y: uint8, x': uint8, y': uint8, box: bool, box': bool)
    requires x < 10 && y < 20 && x' < 10 && y' < 20
    ensures var b, b' := MapBox(x, y, box), MapBox(x', y', box');
            20 <= b.column && b.column + 1 <= 39 && 3 <= b.row <= 22 &&
            ((x, y) != (x', y') ==> b.row != b'.row || b.column + 1 < b'.column || b'.column + 1 < b.column)
  {
  }

  const PreviewColumn := 45
  const PreviewRow := 4

  /** The sixteen boxes of the preview window in the order `ui_print_preview`
      draws them: row by row, cell (x, y) holding bit 15 - (4y + x). */
  function PreviewBoxes(brick: bv16): (r: seq<Box>)
    ensures |r| == 16
    ensures forall y, x | 0 <= y < 4 && 0 <= x < 4 :: r[4 * y + x] == PreviewCell(brick, y, x)
  {
    var r := seq(16, i requires 0 <= i < 16 => PreviewCell(brick, i / 4, i % 4));
    forall y, x | 0 <= y < 4 && 0 <= x < 4
      ensures r[4 * y + x] == PreviewCell(brick, y, x)
    {
      PreviewIndex(y, x);
    }
    r
  }

  /** Preview cell (x, y): column 2x+46, row y+5, blue when the shape holds
      the cell and cyan otherwise. */
  function PreviewCell(brick: bv16, y: int, x: int): Box
    requires 0 <= y < 4 && 0 <= x < 4
  {
    Box(2 * x + PreviewColumn + 1, y + PreviewRow + 1, if Occupied(brick, y, x) then Blue else Cyan)
  }

  lemma PreviewIndex(y: int, x: int)
    requires 0 <= y < 4 && 0 <= x < 4
    ensures (4 * y + x) % 4 == x && (4 * y + x) / 4 == y
  {
  }

  /** The bytes of a run of boxes, drawn in order. */
  function DrawBoxes(bs: seq<Box>): seq<uint8>
  {
    if bs == [] then [] else DrawBoxes(bs[..|bs| - 1]) + DrawBox(bs[|bs| - 1])
  }

  /** `ui_print_preview`: the sixteen boxes, then the white background and
      the cursor parked at column 76, row 24. */
  method PrintPreview(brick: bv16) returns (out: seq<uint8>)
    ensures out == DrawBoxes(PreviewBoxes(brick)) + SetBackground(White) + SetCursor(76, 24)
  {
    var boxes := PreviewBoxes(brick);
    out := [];
    var y: uint8 := 0;
    while y < 4
      invariant 0 <= y <= 4 && out == DrawBoxes(boxes[..4 * y])
    {
      var x: uint8 := 0;
      while x < 4
        invariant 0 <= x <= 4 && out == DrawBoxes(boxes[..4 * y + x])
      {
        // bit 15 - (4y + x), shifted down to bit 0
        var bit := Occupied(brick, y, x);
        var color := if bit then Blue else Cyan;
        var b := Box(x * 2 + PreviewColumn + 1, y + PreviewRow + 1, color);
        assert b == PreviewCell(brick, y, x);
        NextBox(boxes, 4 * y + x, b);
        out := out + DrawBox(b);
        x := x + 1;
      }
      y := y + 1;
    }
    assert boxes[..16] == boxes;
    out := out + SetBackground(White) + SetCursor(76, 24);
  }

  lemma NextBox(boxes: seq<Box>, k: nat, b: Box)
    requires k < |boxes| && boxes[k] == b
    ensures DrawBoxes(boxes[..k + 1]) == DrawBoxes(boxes[..k]) + DrawBox(b)
  {
    assert boxes[..k + 1][..k] == boxes[..k];
  }

  /** What the reader sees for a run of boxes. */
  function BoxesControls(bs: seq<Box>): seq<Control>
  {
    if bs == [] then [] else BoxesControls(bs[..|bs| - 1]) + BoxControls(bs[|bs| - 1])
  }

  /** A run of boxes reads back as the boxes, one after the other. */
  lemma {:induction false} DrawBoxesReadBack(bs: seq<Box>, rest: seq<uint8>)
    ensures Parse(DrawBoxes(bs) + rest) == BoxesControls(bs) + Parse(rest)
    decreases |bs|
  {
    if bs == [] {
      assert DrawBoxes(bs) + rest == rest;
    } else {
      var init, b := bs[..|bs| - 1], bs[|bs| - 1];
      DrawBoxThen(b, rest);
      DrawBoxesReadBack(init, DrawBox(b) + rest);
      Compose2(DrawBoxes(init), DrawBox(b), rest, BoxesControls(init), BoxControls(b));
      assert DrawBoxes(init) + DrawBox(b) + rest == DrawBoxes(init) + (DrawBox(b) + rest);
    }
  }

  /** Two pieces of output, each read back on its own, read back in turn. */
  lemma Compose2(x: seq<uint8>, y: seq<uint8>, rest: seq<uint8>, cx: seq<Control>, cy: seq<Control>)
    requires Parse(y + rest) == cy + Parse(rest)
    requires Parse(x + (y + rest)) == cx + Parse(y + rest)
    ensures Parse(x + (y + rest)) == cx + cy + Parse(rest)
  {
    assert cx + (cy + Parse(rest)) == cx + cy + Parse(rest);
  }

  /** The preview window read back: the boxes in drawing order, then the
      white background and the cursor parked at column 76, row 24. */
  lemma PreviewReadsBack(brick: bv16)
    ensures Parse(DrawBoxes(PreviewBoxes(brick)) + SetBackground(White) + SetCursor(76, 24)) ==
              BoxesControls(PreviewBoxes(brick)) + BackgroundControls(White) + [Sequence([24, 76], Ascii('H'))]
  {
    ParkedReadsBack(PreviewBoxes(brick), White, 76, 24);
  }

  lemma ParkedReadsBack(bs: seq<Box>, color: Color, column: uint8, row: uint8)
    ensures Parse(DrawBoxes(bs) + SetBackground(color) + SetCursor(column, row)) ==
              BoxesControls(bs) + BackgroundControls(color) + [Sequence([row % 100, column % 100], Ascii('H'))]
  {
    var x, y, z := DrawBoxes(bs), SetBackground(color), SetCursor(column, row);
    var cz := [Sequence([row % 100, column % 100], Ascii('H'))];
    SetCursorThen(column, row, []);
    BackgroundThen(color, z + []);
    DrawBoxesReadBack(bs, y + (z + []));
    Compose(x, y, z, [], BoxesControls(bs), BackgroundControls(color), cz);
    assert Parse([]) == [];
    assert z + [] == z && x + y + z == x + (y + z);
    assert BoxesControls(bs) + BackgroundControls(color) + cz + [] == BoxesControls(bs) + BackgroundControls(color) + cz;
  }
}
