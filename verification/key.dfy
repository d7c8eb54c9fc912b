/** The key decoder of the MSP430 build: a three-state machine that reads the
    serial input byte by byte and turns the cursor-key control sequences
    ESC [ A/B/C/D (control sequences introduced by the 7-bit CSI `ESC [`,
    section 5.4 of ECMA-48) into the game's key codes.  Any other byte that is
    not ESC is handed through as its own key code.

    The serial input is the sequence of bytes available to `uart_getc`; a call
    returns the bytes it did not consume, and an empty sequence stands for
    `uart_getc` reporting that nothing has arrived. */
module KeyDecoder {
  import opened Bits

  /* `key_t`.  Plain bytes are returned as their own value, so a raw byte
     160..163 is indistinguishable from a decoded cursor key. */
  const KeyNull: uint8 := 0
  const KeyEnter: uint8 := 0x0D
  const KeySpace: uint8 := 0x20
  const KeyUp: uint8 := 160
  const KeyDown: uint8 := 161
  const KeyLeft: uint8 := 162
  const KeyRight: uint8 := 163

  const Lead1: uint8 := 0x1B  // ESC
  const Lead2: uint8 := 0x5B  // '['

  /** The static `state` of `key_get`. */
  datatype KeyState = WaitLead1 | WaitLead2 | Verify

  /** Result of one `key_get`: the new state, the key returned and the input
      left unread. */
  datatype Decoded = Decoded(state: KeyState, key: uint8, rest: seq<uint8>)

  /** Key code of the final byte of ESC [ x: A/B/C/D are up/down/right/left. */
  function FinalKey(b: uint8): uint8
  {
    if b == 0x41 then KeyUp
    else if b == 0x42 then KeyDown
    else if b == 0x44 then KeyLeft
    else if b == 0x43 then KeyRight
    else KeyNull
  }

  /* The three cases of the `switch`; a case that does not `break` falls
     through into the next one and reads another byte. */

  function InLead1(input: seq<uint8>): Decoded
  {
    if input == [] then Decoded(WaitLead1, KeyNull, [])
    else if input[0] != Lead1 then Decoded(WaitLead1, input[0], input[1..])
    else InLead2(input[1..])
  }

  function InLead2(input: seq<uint8>): Decoded
  {
    if input == [] then Decoded(WaitLead2, KeyNull, [])
    else if input[0] == Lead2 then InVerify(input[1..])
    else Decoded(WaitLead1, KeyNull, input[1..])
  }

  function InVerify(input: seq<uint8>): Decoded
  {
    if input == [] then Decoded(Verify, KeyNull, [])
    else Decoded(WaitLead1, FinalKey(input[0]), input[1..])
  }

  /** `key_get`. */
  function KeyGet(st: KeyState, input: seq<uint8>): (r: Decoded)
    ensures |r.rest| <= |input| <= |r.rest| + 3
    ensures r.rest == input[|input| - |r.rest|..]
    ensures input != [] ==> |r.rest| < |input|
    ensures input == [] ==> r == Decoded(st, KeyNull, [])
    ensures r.state != WaitLead1 ==> r.rest == [] && r.key == KeyNull
  {
    match st
    case WaitLead1 => InLead1(input)
    case WaitLead2 => InLead2(input)
    case Verify => InVerify(input)
  }

  /** The bytes of a sequence the machine has read but not yet decoded. */
  function Pending(st: KeyState): seq<uint8>
  {
    match st
    case WaitLead1 => []
    case WaitLead2 => [Lead1]
    case Verify => [Lead1, Lead2]
  }

  /** A sequence split across calls decodes as if it had arrived at once: the
      state stands exactly for the bytes already read. */
  lemma Resume(st: KeyState, input: seq<uint8>)
    ensures KeyGet(st, input) == KeyGet(WaitLead1, Pending(st) + input)
  {
    match st
    case WaitLead1 =>
      assert Pending(st) + input == input;
    case WaitLead2 =>
      assert (Pending(st) + input)[1..] == input;
    case Verify =>
      assert (Pending(st) + input)[1..][1..] == input;
  }

  /** What a user types: an ordinary byte, or one of the four cursor keys. */
  datatype Arrow = Up | Down | Right | Left
  datatype Keystroke = Plain(b: uint8) | Cursor(a: Arrow)

  /** Keystrokes the decoder can receive: an ESC on its own starts a sequence. */
  predicate Typable(k: Keystroke)
  {
    k.Plain? ==> k.b != Lead1
  }

  /** The bytes a terminal sends for a keystroke. */
  function Encode(k: Keystroke): (r: seq<uint8>)
    ensures 1 <= |r| <= 3
  {
    match k
    case Plain(b) => [b]
    case Cursor(Up) => [Lead1, Lead2, 0x41]
    case Cursor(Down) => [Lead1, Lead2, 0x42]
    case Cursor(Right) => [Lead1, Lead2, 0x43]
    case Cursor(Left) => [Lead1, Lead2, 0x44]
  }

  /** The key code the game should see for a keystroke. */
  function Value(k: Keystroke): uint8
  {
    match k
    case Plain(b) => b
    case Cursor(Up) => KeyUp
    case Cursor(Down) => KeyDown
    case Cursor(Right) => KeyRight
    case Cursor(Left) => KeyLeft
  }

  /** One call decodes one whole keystroke and leaves the machine ready for the next. */
  lemma DecodeEncode(k: Keystroke, rest: seq<uint8>)
    requires Typable(k)
    ensures KeyGet(WaitLead1, Encode(k) + rest) == Decoded(WaitLead1, Value(k), rest)
  {
    var s := Encode(k) + rest;
    if k.Cursor? {
      assert s[0] == Lead1 && s[1..][0] == Lead2 && s[1..][1..][1..] == rest;
    } else {
      assert s[1..] == rest;
    }
  }

  /** ESC followed by anything but '[' is dropped with its follower. */
  lemma BrokenLead(b: uint8, rest: seq<uint8>)
    requires b != Lead2
    ensures KeyGet(WaitLead1, [Lead1, b] + rest) == Decoded(WaitLead1, KeyNull, rest)
  {
    assert ([Lead1, b] + rest)[1..][1..] == rest;
  }

  /** An unknown final byte gives no key; the bytes after it are read as plain
      keys, as the `~` ending ESC [ 1 ~. */
  lemma UnknownFinal(rest: seq<uint8>)
    ensures KeyGet(WaitLead1, [Lead1, Lead2, 0x31, 0x7E] + rest) == Decoded(WaitLead1, KeyNull, [0x7E] + rest)
    ensures KeyGet(WaitLead1, [0x7E] + rest) == Decoded(WaitLead1, 0x7E, rest)
  {
    var s := [Lead1, Lead2, 0x31, 0x7E] + rest;
    assert s[1..][1..][1..] == [0x7E] + rest;
    assert ([0x7E] + rest)[1..] == rest;
  }

  /** The keys returned by calling `key_get` until the input is used up. */
  function Run(st: KeyState, input: seq<uint8>): seq<uint8>
    decreases |input|
  {
    if input == [] then []
    else
      var d := KeyGet(st, input);
      [d.key] + Run(d.state, d.rest)
  }

  function Values(ks: seq<Keystroke>): seq<uint8>
  {
    if ks == [] then [] else [Value(ks[0])] + Values(ks[1..])
  }

  function EncodeAll(ks: seq<Keystroke>): seq<uint8>
  {
    if ks == [] then [] else Encode(ks[0]) + EncodeAll(ks[1..])
  }

  /** Decoding is the inverse of what the terminal sends: typed keystrokes come
      back one key per call, in order. */
  lemma {:induction false} RunEncoded(ks: seq<Keystroke>)
    requires forall i | 0 <= i < |ks| :: Typable(ks[i])
    ensures Run(WaitLead1, EncodeAll(ks)) == Values(ks)
  {
    if ks != [] {
      DecodeEncode(ks[0], EncodeAll(ks[1..]));
      RunEncoded(ks[1..]);
    }
  }
}
