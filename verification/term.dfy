/** The terminal layer of the MSP430 build: each operation writes a control
    function of ECMA-48 to the serial line.  Output is modelled as the byte
    sequence written, and every emitter is checked against an independent
    reader of ECMA-48 control functions (section 5.4: a control sequence is
    the CSI `ESC [`, parameter bytes 0x30..0x3F, then one final byte
    0x40..0x7E). */
module Term {
  import opened Bits

  /** `color_t`; `defaults` means "leave the colour alone". */
  type Color = c: int | 0 <= c <= 8
  const Black: Color := 0
  const Red: Color := 1
  const Green: Color := 2
  const Yellow: Color := 3
  const Blue: Color := 4
  const Magenta: Color := 5
  const Cyan: Color := 6
  const White: Color := 7
  const Defaults: Color := 8

  const Esc: uint8 := 0x1B

  /** The ASCII code of a character below 0x80. */
  function Ascii(c: char): uint8
    requires c < 128 as char
  {
    c as int
  }

  /** The ASCII digit of `n % 10`. */
  function Digit(n: nat): uint8
  {
    n % 10 + 0x30
  }

  /* ---- Reading control functions back ---- */

  /** A control function, or one plain byte of text. */
  datatype Control =
    | Text(b: uint8)
    | Escape(f: uint8)                    // ESC followed by one byte
    | Sequence(params: seq<nat>, f: uint8)  // ESC [ parameters final
    | Malformed

  predicate IsParameterByte(b: uint8) { 0x30 <= b <= 0x3F }
  predicate IsFinalByte(b: uint8) { 0x40 <= b <= 0x7E }

  /** Parameter strings this reader accepts: decimal digits separated by ';'. */
  predicate NumericParameters(p: seq<uint8>)
  {
    forall i | 0 <= i < |p| :: 0x30 <= p[i] <= 0x39 || p[i] == 0x3B
  }

  /** End of the parameter bytes starting at `i`. */
  function ParameterEnd(s: seq<uint8>, i: nat): (r: nat)
    requires i <= |s|
    ensures i <= r <= |s|
    ensures forall j | i <= j < r :: IsParameterByte(s[j])
    ensures r < |s| ==> !IsParameterByte(s[r])
    decreases |s| - i
  {
    if i == |s| || !IsParameterByte(s[i]) then i else ParameterEnd(s, i + 1)
  }

  /** Values of a parameter string: each field read as a decimal number,
      most significant digit first; an empty field reads as 0. */
  function Parameters(p: seq<uint8>): seq<nat>
    requires NumericParameters(p)
  {
    if p == [] then [] else Fields(p, 0)
  }

  function Fields(p: seq<uint8>, acc: nat): seq<nat>
    requires NumericParameters(p)
    decreases |p|
  {
    if p == [] then [acc]
    else if p[0] == 0x3B then [acc] + Fields(p[1..], 0)
    else Fields(p[1..], 10 * acc + (p[0] - 0x30))
  }

  /** Splits a byte stream into text and control functions. */
  function Parse(s: seq<uint8>): seq<Control>
    decreases |s|
  {
    if s == [] then []
    else if s[0] != Esc then [Text(s[0])] + Parse(s[1..])
    else if |s| == 1 then [Malformed]
    else if s[1] != 0x5B then [Escape(s[1])] + Parse(s[2..])
    else
      var k := ParameterEnd(s, 2);
      if k == |s| || !IsFinalByte(s[k]) || !NumericParameters(s[2..k]) then [Malformed]
      else [Sequence(Parameters(s[2..k]), s[k])] + Parse(s[k + 1..])
  }

  /** `ParameterEnd` stops at the first byte that is not a parameter byte. */
  lemma {:induction false} ParameterEndAt(s: seq<uint8>, i: nat, k: nat)
    requires i <= k < |s| && !IsParameterByte(s[k])
    requires forall j | i <= j < k :: IsParameterByte(s[j])
    ensures ParameterEnd(s, i) == k
    decreases k - i
  {
    if i < k {
      ParameterEndAt(s, i + 1, k);
    }
  }

  /** A single control sequence followed by more output. */
  lemma ParseSequence(p: seq<uint8>, f: uint8, rest: seq<uint8>)
    requires forall j | 0 <= j < |p| :: IsParameterByte(p[j])
    requires NumericParameters(p) && IsFinalByte(f)
    ensures Parse([Esc, 0x5B] + p + [f] + rest) == [Sequence(Parameters(p), f)] + Parse(rest)
  {
    var s := [Esc, 0x5B] + p + [f] + rest;
    ParameterEndAt(s, 2, |p| + 2);
    assert s[2..|p| + 2] == p;
    assert s[|p| + 3..] == rest;
  }

  /* ---- Emitters ---- */

  /** The colours `term_init` programs into the terminal. */
  datatype Colors = Colors(fg: Color, bg: Color)

  /** `color_fg` and `color_bg` before the first `term_init`. */
  const InitialColors := Colors(White, Black)

  /** `term_reset`: ESC c, RESET TO INITIAL STATE (section 8.3.105 of ECMA-48). */
  function Reset(): (r: seq<uint8>)
    ensures Parse(r) == [Escape(Ascii('c'))]
  {
    [Esc, Ascii('c')]
  }

  /** `term_cls`: ESC [ 2 J, ERASE IN PAGE of the whole page (section 8.3.42). */
  function Cls(): (r: seq<uint8>)
    ensures Parse(r) == [Sequence([2], Ascii('J'))]
  {
    var r := [Esc, Ascii('['), Ascii('2'), Ascii('J')];
    ParseSequence([Ascii('2')], Ascii('J'), []);
    assert r == [Esc, 0x5B] + [Ascii('2')] + [Ascii('J')] + [];
    assert Fields([Ascii('2')], 0) == [2];
    r
  }

  /** `term_save_cursor`: ESC [ s. */
  function SaveCursor(): (r: seq<uint8>)
    ensures Parse(r) == [Sequence([], Ascii('s'))]
  {
    var r := [Esc, Ascii('['), Ascii('s')];
    ParseSequence([], Ascii('s'), []);
    assert r == [Esc, 0x5B] + [] + [Ascii('s')] + [];
    r
  }

  /** `term_restore_cursor`: ESC [ u. */
  function RestoreCursor(): (r: seq<uint8>)
    ensures Parse(r) == [Sequence([], Ascii('u'))]
  {
    var r := [Esc, Ascii('['), Ascii('u')];
    ParseSequence([], Ascii('u'), []);
    assert r == [Esc, 0x5B] + [] + [Ascii('u')] + [];
    r
  }

  /** Two decimal digits, tens first, give the number modulo 100. */
  lemma TwoDigits(n: nat, rest: seq<uint8>)
    requires NumericParameters(rest)
    ensures NumericParameters([Digit(n / 10), Digit(n)] + rest)
    ensures Fields([Digit(n / 10), Digit(n)] + rest, 0) == Fields(rest, n % 100)
  {
    var p := [Digit(n / 10), Digit(n)] + rest;
    assert p[1..] == [Digit(n)] + rest && p[1..][1..] == rest;
    assert 10 * (n / 10 % 10) + n % 10 == n % 100;
  }

  /** `term_set_cursor(column, row)`: ESC [ row ; column H, CURSOR POSITION
      (section 8.3.21 of ECMA-48), each coordinate sent as two digits, so
      only its value modulo 100 reaches the terminal. */
  function SetCursor(column: uint8, row: uint8): (r: seq<uint8>)
    ensures Parse(r) == [Sequence([row % 100, column % 100], Ascii('H'))]
  {
    var p := CursorParameters(column, row);
    ParseSequence(p, Ascii('H'), []);
    assert [Esc, Ascii('[')] + p + [Ascii('H')] == [Esc, 0x5B] + p + [Ascii('H')] + [];
    [Esc, Ascii('[')] + p + [Ascii('H')]
  }

  /** The parameter bytes `term_set_cursor` sends: row ; column. */
  function CursorParameters(column: uint8, row: uint8): (p: seq<uint8>)
    ensures forall j | 0 <= j < |p| :: IsParameterByte(p[j])
    ensures NumericParameters(p) && Parameters(p) == [row % 100, column % 100]
  {
    var tail := [Digit(column / 10), Digit(column)];
    var p := [Digit(row / 10), Digit(row), Ascii(';')] + tail;
    assert Fields(tail, 0) == [column % 100] by {
      TwoDigits(column, []);
      assert tail == tail + [];
    }
    assert Fields(p, 0) == [row % 100] + Fields(tail, 0) by {
      TwoDigits(row, [Ascii(';')] + tail);
      assert p == [Digit(row / 10), Digit(row)] + ([Ascii(';')] + tail);
      assert ([Ascii(';')] + tail)[1..] == tail;
    }
    p
  }

  /** ESC and one more byte, followed by more output. */
  lemma ParseEscape(f: uint8, rest: seq<uint8>)
    requires f != 0x5B
    ensures Parse([Esc, f] + rest) == [Escape(f)] + Parse(rest)
  {
    assert ([Esc, f] + rest)[2..] == rest;
  }

  /** The two digits of a colour attribute: `lead` then `color % 10`. */
  function ColorParameters(lead: uint8, color: Color): (p: seq<uint8>)
    requires 0x30 <= lead <= 0x39
    ensures forall j | 0 <= j < |p| :: IsParameterByte(p[j])
    ensures NumericParameters(p) && Parameters(p) == [10 * (lead - 0x30) + color % 10]
  {
    var p := [lead, Digit(color)];
    assert p[1..] == [Digit(color)] && p[1..][1..] == [];
    assert Fields(p, 0) == Fields([Digit(color)], lead - 0x30);
    assert Digit(color) - 0x30 == color % 10;
    assert Fields([Digit(color)], lead - 0x30) == Fields([], 10 * (lead - 0x30) + color % 10);
    p
  }

  /** `term_set_foreground`: ESC [ 3 d m, SELECT GRAPHIC RENDITION (section
      8.3.117 of ECMA-48) with d = color % 10; nothing for `defaults`. */
  function SetForeground(color: Color): (r: seq<uint8>)
    ensures color == Defaults ==> r == []
    ensures color != Defaults ==> Parse(r) == [Sequence([30 + color % 10], Ascii('m'))]
  {
    if color == Defaults then []
    else
      var p := ColorParameters(Ascii('3'), color);
      ParseSequence(p, Ascii('m'), []);
      assert [Esc, Ascii('[')] + p + [Ascii('m')] == [Esc, 0x5B] + p + [Ascii('m')] + [];
      [Esc, Ascii('[')] + p + [Ascii('m')]
  }

  /** `term_set_background`: ESC [ 4 d m; nothing for `defaults`. */
  function SetBackground(color: Color): (r: seq<uint8>)
    ensures color == Defaults ==> r == []
    ensures color != Defaults ==> Parse(r) == [Sequence([40 + color % 10], Ascii('m'))]
  {
    if color == Defaults then []
    else
      var p := ColorParameters(Ascii('4'), color);
      ParseSequence(p, Ascii('m'), []);
      assert [Esc, Ascii('[')] + p + [Ascii('m')] == [Esc, 0x5B] + p + [Ascii('m')] + [];
      [Esc, Ascii('[')] + p + [Ascii('m')]
  }

  /** `term_init`: adopts the two colours unless either is `defaults`, then
      resets the terminal, selects bright rendition with the stored colours
      and erases the page. */
  function Init(t: Colors, fg: Color, bg: Color): (r: (Colors, seq<uint8>))
    ensures fg != Defaults && bg != Defaults ==> r.0 == Colors(fg, bg)
    ensures fg == Defaults || bg == Defaults ==> r.0 == t
    ensures r.1 == InitBytes(r.0)
  {
    var t' := if fg != Defaults && bg != Defaults then Colors(fg, bg) else t;
    (t', InitBytes(t'))
  }

  /** What `term_init` writes once the colours are settled. */
  function InitBytes(t: Colors): (r: seq<uint8>)
    ensures Parse(r) == [Escape(Ascii('c')),
                         Sequence([1, 30 + t.fg % 10, 40 + t.bg % 10], Ascii('m')),
                         Sequence([2], Ascii('J'))]
  {
    var rest := Rendition(t) + Cls();
    ParseEscape(Ascii('c'), rest);
    assert Reset() + rest == [Esc, Ascii('c')] + rest;
    Reset() + rest
  }

  /** The first `term_init(defaults, defaults)` keeps white on black: it reads
      back as reset, rendition 1;37;40, then erase the page. */
  lemma FirstInitWhiteOnBlack()
    ensures var (t, bytes) := Init(InitialColors, Defaults, Defaults);
      t == InitialColors &&
      Parse(bytes) == [Escape(Ascii('c')), Sequence([1, 37, 40], Ascii('m')), Sequence([2], Ascii('J'))]
  {
  }

  /** ESC [ 1 ; 3 fg ; 4 bg m, read back together with whatever follows. */
  function Rendition(t: Colors): (r: seq<uint8>)
    ensures forall rest: seq<uint8> {:trigger r + rest} :: Parse(r + rest) ==
              [Sequence([1, 30 + t.fg % 10, 40 + t.bg % 10], Ascii('m'))] + Parse(rest)
  {
    var p := InitParameters(t);
    forall rest: seq<uint8>
      ensures Parse([Esc, Ascii('[')] + p + [Ascii('m')] + rest) ==
              [Sequence([1, 30 + t.fg % 10, 40 + t.bg % 10], Ascii('m'))] + Parse(rest)
    {
      ParseSequence(p, Ascii('m'), rest);
    }
    [Esc, Ascii('[')] + p + [Ascii('m')]
  }

  /** The parameters `term_init` sends: 1 ; 3 fg ; 4 bg. */
  function InitParameters(t: Colors): (p: seq<uint8>)
    ensures forall j | 0 <= j < |p| :: IsParameterByte(p[j])
    ensures NumericParameters(p) && Parameters(p) == [1, 30 + t.fg % 10, 40 + t.bg % 10]
  {
    var b := ColorParameters(Ascii('4'), t.bg);
    var f := ColorParameters(Ascii('3'), t.fg);
    var fb := f + [Ascii(';')] + b;
    FieldsSplit(f, b, 0);
    assert Fields([Ascii('1')], 0) == [1];
    FieldsSplit([Ascii('1')], fb, 0);
    [Ascii('1')] + [Ascii(';')] + fb
  }

  /** Fields separated by ';' are read independently. */
  lemma {:induction false} FieldsSplit(x: seq<uint8>, y: seq<uint8>, acc: nat)
    requires forall j | 0 <= j < |x| :: 0x30 <= x[j] <= 0x39
    requires NumericParameters(y)
    ensures NumericParameters(x + [0x3B] + y)
    ensures Fields(x + [0x3B] + y, acc) == Fields(x, acc) + Fields(y, 0)
  {
    var s := x + [0x3B] + y;
    if x == [] {
      assert s[1..] == y;
    } else {
      assert s[1..] == x[1..] + [0x3B] + y;
      FieldsSplit(x[1..], y, 10 * acc + (x[0] - 0x30));
    }
  }

  /* ---- Emitters followed by more output ---- */

  lemma SaveCursorThen(rest: seq<uint8>)
    ensures Parse(SaveCursor() + rest) == [Sequence([], Ascii('s'))] + Parse(rest)
  {
    ParseSequence([], Ascii('s'), rest);
    assert SaveCursor() + rest == [Esc, 0x5B] + [] + [Ascii('s')] + rest;
  }

  lemma RestoreCursorThen(rest: seq<uint8>)
    ensures Parse(RestoreCursor() + rest) == [Sequence([], Ascii('u'))] + Parse(rest)
  {
    ParseSequence([], Ascii('u'), rest);
    assert RestoreCursor() + rest == [Esc, 0x5B] + [] + [Ascii('u')] + rest;
  }

  lemma SetCursorThen(column: uint8, row: uint8, rest: seq<uint8>)
    ensures Parse(SetCursor(column, row) + rest) ==
              [Sequence([row % 100, column % 100], Ascii('H'))] + Parse(rest)
  {
    var p := CursorParameters(column, row);
    ParseSequence(p, Ascii('H'), rest);
    assert SetCursor(column, row) + rest == [Esc, 0x5B] + p + [Ascii('H')] + rest;
  }

  lemma SetBackgroundThen(color: Color, rest: seq<uint8>)
    ensures color == Defaults ==> Parse(SetBackground(color) + rest) == Parse(rest)
    ensures color != Defaults ==>
              Parse(SetBackground(color) + rest) == [Sequence([40 + color % 10], Ascii('m'))] + Parse(rest)
  {
    if color == Defaults {
      assert SetBackground(color) + rest == rest;
    } else {
      var p := ColorParameters(Ascii('4'), color);
      ParseSequence(p, Ascii('m'), rest);
      assert SetBackground(color) + rest == [Esc, 0x5B] + p + [Ascii('m')] + rest;
    }
  }

  /** `term_puts`: every byte of the NUL-terminated string before the NUL, in
      order. */
  method Puts(str: seq<uint8>) returns (out: seq<uint8>)
    requires 0 in str
    ensures |out| < |str| && out == str[..|out|] && str[|out|] == 0
    ensures 0 !in out
  {
    var i := 0;
    out := [];
    while str[i] != 0
      invariant 0 <= i < |str| && 0 in str[i..]
      invariant out == str[..i] && 0 !in out
      decreases |str| - i
    {
      out := out + [str[i]];
      i := i + 1;
    }
  }

  /** A byte string followed by its NUL comes out unchanged, whatever follows. */
  lemma PutsString(s: seq<uint8>, after: seq<uint8>)
    requires 0 !in s
    ensures var str := s + [0] + after;
            0 in str && forall out: seq<uint8> |
              |out| < |str| && out == str[..|out|] && str[|out|] == 0 && 0 !in out :: out == s
  {
    var str := s + [0] + after;
    assert str[|s|] == 0;
    forall out: seq<uint8> | |out| < |str| && out == str[..|out|] && str[|out|] == 0 && 0 !in out
      ensures out == s
    {
      if |out| == |s| {
        assert str[..|s|] == s;
      }
    }
  }
}
