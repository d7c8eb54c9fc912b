/** Fixed-width integer ranges and single-bit access on 16-bit words, shared by
    the playfield engine (rows and shapes are 16-bit masks in the C source) and
    the platform layers.

    The lemmas about `Test` are proved by splitting on the bit index: each case
    is then a question about one constant mask. */
module Bits {

  type uint8 = x: int | 0 <= x < 0x100
  type uint16 = x: int | 0 <= x < 0x1_0000
  type uint32 = x: int | 0 <= x < 0x1_0000_0000

  /** The C expression `0x0001 << (bit)` on a 16-bit word. */
  function Mask(i: int): bv16
    requires 0 <= i < 16
  {
    match i
    case 0 => 0x0001
    case 1 => 0x0002
    case 2 => 0x0004
    case 3 => 0x0008
    case 4 => 0x0010
    case 5 => 0x0020
    case 6 => 0x0040
    case 7 => 0x0080
    case 8 => 0x0100
    case 9 => 0x0200
    case 10 => 0x0400
    case 11 => 0x0800
    case 12 => 0x1000
    case 13 => 0x2000
    case 14 => 0x4000
    case _ => 0x8000
  }

  /** `GET_BIT(dat, bit) != 0`. */
  predicate Test(v: bv16, i: int)
    requires 0 <= i < 16
  {
    match i
    case 0 => v & 0x0001 != 0
    case 1 => v & 0x0002 != 0
    case 2 => v & 0x0004 != 0
    case 3 => v & 0x0008 != 0
    case 4 => v & 0x0010 != 0
    case 5 => v & 0x0020 != 0
    case 6 => v & 0x0040 != 0
    case 7 => v & 0x0080 != 0
    case 8 => v & 0x0100 != 0
    case 9 => v & 0x0200 != 0
    case 10 => v & 0x0400 != 0
    case 11 => v & 0x0800 != 0
    case 12 => v & 0x1000 != 0
    case 13 => v & 0x2000 != 0
    case 14 => v & 0x4000 != 0
    case _ => v & 0x8000 != 0
  }

  lemma TestOr(a: bv16, b: bv16, i: int)
    requires 0 <= i < 16
    ensures Test(a | b, i) <==> Test(a, i) || Test(b, i)
  {
    match i
    case 0 => case 1 => case 2 => case 3 => case 4 => case 5 => case 6 => case 7 =>
    case 8 => case 9 => case 10 => case 11 => case 12 => case 13 => case 14 => case _ =>
  }

  lemma TestAndNot(a: bv16, b: bv16, i: int)
    requires 0 <= i < 16
    ensures Test(a & !b, i) <==> Test(a, i) && !Test(b, i)
  {
    match i
    case 0 => case 1 => case 2 => case 3 => case 4 => case 5 => case 6 => case 7 =>
    case 8 => case 9 => case 10 => case 11 => case 12 => case 13 => case 14 => case _ =>
  }

  /** Words below 0x400 (bits 0..9 only) stay so under `|` and `& ~`. */
  lemma OrBelow(a: bv16, b: bv16)
    requires a < 0x400 && b < 0x400
    ensures a | b < 0x400
  {
  }

  lemma AndNotBelow(a: bv16, b: bv16)
    requires a < 0x400
    ensures a & !b < 0x400
  {
  }
}
