/** The byte ring buffer of the MSP430 serial port: a power-of-two buffer
    with free-running 32-bit `in` and `out` counters.  The slot of a counter
    is `counter & (size - 1)`; the counters wrap around at 2^32 and the number
    of stored bytes is always `in - out` in 32-bit arithmetic.

    The abstract view of a buffer is the sequence of bytes it holds, oldest
    first; every operation is proved to act on that sequence as a queue. */
module RingBuffer {
  import opened Bits

  const Modulus := 0x1_0000_0000

  /** 32-bit unsigned subtraction and addition. */
  function Sub32(a: uint32, b: uint32): uint32 { (a - b) % Modulus }
  function Add32(a: uint32, b: uint32): uint32 { (a + b) % Modulus }

  /** Bitwise `&` of two naturals, bit by bit from the least significant. */
  function BitAnd(a: nat, b: nat): nat
  {
    if a == 0 || b == 0 then 0
    else 2 * BitAnd(a / 2, b / 2) + (if a % 2 == 1 && b % 2 == 1 then 1 else 0)
  }

  /** `p` is 1, 2, 4, 8, ... */
  predicate PowerOfTwo(p: nat)
  {
    p == 1 || (p >= 2 && p % 2 == 0 && PowerOfTwo(p / 2))
  }

  /** `is_pow_of_2`: `!(x & (x - 1))` on a 32-bit word. */
  predicate IsPowOf2(x: uint32)
  {
    BitAnd(x, Sub32(x, 1)) == 0
  }

  /** The number formed by the bits of `x` below the power of two `p`. */
  function LowBits(x: nat, p: nat): nat
  {
    if p <= 1 then 0 else 2 * LowBits(x / 2, p / 2) + x % 2
  }

  /** Masking with p - 1 keeps the bits below p: it is the remainder mod p. */
  lemma MaskIsMod(x: nat, p: nat)
    requires PowerOfTwo(p)
    ensures BitAnd(x, p - 1) == x % p
  {
    MaskIsLowBits(x, p);
    LowBitsIsMod(x, p);
  }

  lemma {:induction false} MaskIsLowBits(x: nat, p: nat)
    requires PowerOfTwo(p)
    ensures BitAnd(x, p - 1) == LowBits(x, p)
  {
    if p >= 2 {
      assert PowerOfTwo(p / 2);
      MaskIsLowBits(x / 2, p / 2);
      if x > 0 {
        assert (p - 1) % 2 == 1 && (p - 1) / 2 == p / 2 - 1;
        BitAndOdd(x, p - 1);
      }
    }
  }

  lemma {:induction false} LowBitsIsMod(x: nat, p: nat)
    requires PowerOfTwo(p)
    ensures LowBits(x, p) == x % p
  {
    if p >= 2 {
      var h := p / 2;
      assert PowerOfTwo(h) && p == 2 * h;
      LowBitsIsMod(x / 2, h);
      HalfMod(x, h);
    }
  }

  lemma BitAndOdd(x: nat, m: nat)
    requires x > 0 && m % 2 == 1
    ensures BitAnd(x, m) == 2 * BitAnd(x / 2, m / 2) + x % 2
  {
  }

  lemma HalfMod(x: nat, m: nat)
    requires m >= 1
    ensures 2 * ((x / 2) % m) + x % 2 == x % (2 * m)
  {
    var q := (x / 2) / m;
    var r := (x / 2) % m;
    assert x / 2 == q * m + r;
    assert x == q * (2 * m) + (2 * r + x % 2);
    DivModUnique(x, 2 * m, q, 2 * r + x % 2);
  }

  lemma DivModUnique(x: int, d: int, q: int, r: int)
    requires d > 0 && x == q * d + r && 0 <= r < d
    ensures x % d == r
  {
    var q' := x / d;
    var r' := x % d;
    assert x == q' * d + r';
    if q' < q {
      assert (q - q') * d >= d by { MulAtLeast(q - q', d); }
    } else if q' > q {
      assert (q' - q) * d >= d by { MulAtLeast(q' - q, d); }
    }
  }

  lemma MulAtLeast(k: int, d: int)
    requires k >= 1 && d > 0
    ensures k * d >= d
  {
  }

  lemma {:induction false} AndSelf(y: nat)
    ensures BitAnd(y, y) == y
  {
    if y > 0 {
      AndSelf(y / 2);
    }
  }

  /** A positive number with no bit in common with its predecessor is a power of two. */
  lemma {:induction false} DisjointPredecessor(x: nat)
    requires x >= 1 && BitAnd(x, x - 1) == 0
    ensures PowerOfTwo(x)
  {
    if x > 1 {
      if x % 2 == 0 {
        assert (x - 1) / 2 == x / 2 - 1 && (x - 1) % 2 == 1;
        assert BitAnd(x, x - 1) == 2 * BitAnd(x / 2, x / 2 - 1);
        DisjointPredecessor(x / 2);
      } else {
        assert (x - 1) / 2 == x / 2 && (x - 1) % 2 == 0;
        assert BitAnd(x, x - 1) == 2 * BitAnd(x / 2, x / 2);
        AndSelf(x / 2);
        assert false;
      }
    }
  }

  /** `is_pow_of_2` accepts exactly zero and the powers of two. */
  lemma IsPowOf2Correct(x: uint32)
    ensures IsPowOf2(x) <==> x == 0 || PowerOfTwo(x)
  {
    if x != 0 {
      assert Sub32(x, 1) == x - 1;
      if PowerOfTwo(x) {
        MaskIsMod(x, x);
      }
      if IsPowOf2(x) {
        DisjointPredecessor(x);
      }
    }
  }

  /** A smaller power of two divides a larger one. */
  lemma {:induction false} PowerDivides(p: nat, q: nat)
    requires PowerOfTwo(p) && PowerOfTwo(q) && p <= q
    ensures q % p == 0
  {
    if p > 1 {
      PowerDivides(p / 2, q / 2);
      assert q / 2 == (q / 2) / (p / 2) * (p / 2);
      DivModUnique(q, p, (q / 2) / (p / 2), 0);
    }
  }

  lemma PowerDouble(r: nat)
    requires PowerOfTwo(r)
    ensures PowerOfTwo(2 * r)
  {
    assert (2 * r) / 2 == r;
  }

  lemma {:induction false} PowerProduct(p: nat, q: nat)
    requires PowerOfTwo(p) && PowerOfTwo(q)
    ensures PowerOfTwo(p * q)
  {
    if p > 1 {
      var h := p / 2;
      assert PowerOfTwo(h) && p == 2 * h;
      PowerProduct(h, q);
      PowerDouble(h * q);
      DoubleProduct(h, q);
    }
  }

  lemma DoubleProduct(h: nat, q: nat)
    ensures (2 * h) * q == 2 * (h * q)
  {
  }

  lemma ModulusIsPower()
    ensures PowerOfTwo(Modulus)
  {
    assert PowerOfTwo(16);
    PowerProduct(16, 16);
    PowerProduct(256, 256);
    PowerProduct(0x1_0000, 0x1_0000);
  }

  /* ---- Arithmetic modulo a divisor of 2^32 ---- */

  lemma MultipleOfModulus(t: int, d: nat)
    requires d > 0 && Modulus % d == 0
    ensures (t * Modulus) % d == 0
  {
    var r := Modulus / d;
    assert Modulus == r * d;
    assert t * Modulus == (t * r) * d;
    DivModUnique(t * Modulus, d, t * r, 0);
  }

  /** Numbers that agree modulo 2^32 agree modulo every divisor of 2^32. */
  lemma Congruent(a: int, b: int, d: nat)
    requires d > 0 && Modulus % d == 0 && (a - b) % Modulus == 0
    ensures a % d == b % d
  {
    var t := (a - b) / Modulus;
    DivModUnique(a - b, Modulus, t, 0);
    MultipleOfModulus(t, d);
    var u := (t * Modulus) / d;
    DivModUnique(t * Modulus, d, u, 0);
    assert a == (b / d + u) * d + b % d;
    DivModUnique(a, d, b / d + u, b % d);
  }

  lemma WrapCongruent(a: int)
    ensures (a % Modulus - a) % Modulus == 0
  {
    DivModUnique(a % Modulus - a, Modulus, -(a / Modulus), 0);
  }

  /** `a % d == b % d` carries over to `a + c` and `b + c`. */
  lemma ShiftCongruent(a: int, b: int, c: int, d: nat)
    requires d > 0 && a % d == b % d
    ensures (a + c) % d == (b + c) % d
  {
    DivModUnique(a + c, d, a / d + (a % d + c) / d, (a % d + c) % d);
    DivModUnique(b + c, d, b / d + (b % d + c) / d, (b % d + c) % d);
  }

  /** Reducing a number below twice the divisor takes at most one subtraction. */
  lemma ModSmall(a: int, d: nat)
    requires d > 0 && 0 <= a < 2 * d
    ensures a % d == (if a < d then a else a - d)
  {
    if a < d {
      DivModUnique(a, d, 0, a);
    } else {
      DivModUnique(a, d, 1, a - d);
    }
  }

  /** The difference of two 32-bit numbers, once the subtrahend has moved forward. */
  lemma SubAfterAdvance(a: uint32, b: uint32, n: nat)
    requires n <= Sub32(a, b)
    ensures Sub32(a, Add32(b, n)) == Sub32(a, b) - n
  {
    var q := (a - b) / Modulus;
    var r := (b + n) / Modulus;
    assert a - Add32(b, n) == (q + r) * Modulus + (Sub32(a, b) - n);
    DivModUnique(a - Add32(b, n), Modulus, q + r, Sub32(a, b) - n);
  }

  /** The difference of two 32-bit numbers, once the minuend has moved forward. */
  lemma SubAfterGrow(a: uint32, b: uint32, n: nat)
    requires Sub32(a, b) + n < Modulus
    ensures Sub32(Add32(a, n), b) == Sub32(a, b) + n
  {
    var q := (a - b) / Modulus;
    var r := (a + n) / Modulus;
    assert Add32(a, n) - b == (q - r) * Modulus + (Sub32(a, b) + n);
    DivModUnique(Add32(a, n) - b, Modulus, q - r, Sub32(a, b) + n);
  }

  lemma Add32Assoc(c: uint32, a: uint32, b: nat)
    requires a + b < Modulus
    ensures Add32(Add32(c, a), b) == Add32(c, a + b)
  {
    var q := (c + a) / Modulus;
    DivModUnique(Add32(c, a) + b, Modulus, (c + a + b) / Modulus - q, Add32(c, a + b));
  }

  /* ---- The buffer ---- */

  /** `fifo_t`: the storage, its size and the two free-running counters. */
  datatype Fifo = Fifo(buffer: seq<uint8>, size: uint32, inCount: uint32, outCount: uint32)

  /** Number of stored bytes: `in - out` in 32-bit arithmetic. */
  function Used(f: Fifo): uint32 { Sub32(f.inCount, f.outCount) }

  /** A buffer as `CREATE_FIFO` lays it out and the operations keep it: the
      storage has `size` bytes, `size` passes `is_pow_of_2` and the counters
      are at most `size` apart. */
  predicate Valid(f: Fifo)
  {
    |f.buffer| == f.size && (f.size == 0 || PowerOfTwo(f.size)) && Used(f) <= f.size
  }

  /** Storage index of a counter: `counter & (size - 1)`. */
  function Slot(size: uint32, c: uint32): (r: nat)
    requires PowerOfTwo(size)
    ensures r < size
  {
    MaskIsMod(c, size);
    BitAnd(c, size - 1)
  }

  /** The stored bytes, oldest first: the k-th one sits in the slot of counter `out + k`. */
  function Contents(f: Fifo): (r: seq<uint8>)
    requires Valid(f)
    ensures |r| == Used(f)
  {
    if f.size == 0 then [] else seq(Used(f), k requires 0 <= k < Used(f) => f.buffer[Slot(f.size, Add32(f.outCount, k))])
  }

  /** Slots are counters reduced modulo the size. */
  lemma SlotIsMod(size: uint32, c: uint32)
    requires PowerOfTwo(size)
    ensures Slot(size, c) == c % size
  {
    MaskIsMod(c, size);
  }

  /** Moving a counter `j` places forward moves its slot `j` places, wrapping
      at most once, even when the counter itself wraps at 2^32. */
  lemma SlotAdvance(size: uint32, c: uint32, j: nat)
    requires PowerOfTwo(size) && j < size
    ensures Slot(size, Add32(c, j)) ==
            (if Slot(size, c) + j < size then Slot(size, c) + j else Slot(size, c) + j - size)
  {
    SlotIsMod(size, c);
    SlotIsMod(size, Add32(c, j));
    ModulusIsPower();
    PowerDivides(size, Modulus);
    WrapCongruent(c + j);
    Congruent(Add32(c, j), c + j, size);
    var o := c % size;
    ModSmall(o, size);
    ShiftCongruent(c, o, j, size);
    ModSmall(o + j, size);
  }

  function Min(a: int, b: int): (r: int)
    ensures r <= a && r <= b && (r == a || r == b)
  {
    if a < b then a else b
  }

  /** `memcpy(dst + at, src, |src|)`. */
  function Memcpy(dst: seq<uint8>, at: nat, src: seq<uint8>): (r: seq<uint8>)
    requires at + |src| <= |dst|
    ensures |r| == |dst|
    ensures forall i | 0 <= i < |dst| :: r[i] == if at <= i < at + |src| then src[i - at] else dst[i]
  {
    dst[..at] + src + dst[at + |src|..]
  }

  /* ---- Initialisation and status ---- */

  /** Outcome of `fifo_init`: a size that fails `is_pow_of_2` stops the program
      in an endless loop. */
  datatype Started = Hang | Ready(fifo: Fifo)

  /** `fifo_init`. */
  function Init(f: Fifo): (r: Started)
    requires |f.buffer| == f.size
    ensures r.Ready? <==> f.size == 0 || PowerOfTwo(f.size)
    ensures r.Ready? ==> Valid(r.fifo) && Contents(r.fifo) == []
    ensures r.Ready? ==> r.fifo.buffer == f.buffer && r.fifo.size == f.size
  {
    IsPowOf2Correct(f.size);
    if !IsPowOf2(f.size) then Hang else Ready(f.(inCount := 0, outCount := 0))
  }

  /** `fifo_is_empty`. */
  function IsEmpty(f: Fifo): (r: bool)
    requires Valid(f)
    ensures r <==> Contents(f) == []
  {
    f.inCount == f.outCount
  }

  /** `fifo_is_full`. */
  function IsFull(f: Fifo): (r: bool)
    requires Valid(f)
    ensures r <==> |Contents(f)| == f.size
  {
    FullCounters(f);
    Add32(f.outCount, f.size) == f.inCount
  }

  lemma FullCounters(f: Fifo)
    requires Valid(f)
    ensures Add32(f.outCount, f.size) == f.inCount <==> Used(f) == f.size
  {
    if Add32(f.outCount, f.size) == f.inCount {
      Congruent(f.inCount - f.outCount, f.size, Modulus);
    }
    if Used(f) == f.size {
      Congruent(f.outCount + f.size, f.inCount, Modulus);
    }
  }

  /* ---- Taking bytes out ---- */

  /** Moving `out` forward by `n` stored bytes drops the `n` oldest. */
  lemma AdvanceOut(f: Fifo, n: nat)
    requires Valid(f) && n <= Used(f)
    ensures Valid(f.(outCount := Add32(f.outCount, n)))
    ensures Contents(f.(outCount := Add32(f.outCount, n))) == Contents(f)[n..]
  {
    var g := f.(outCount := Add32(f.outCount, n));
    assert Used(g) == Used(f) - n by {
      SubAfterAdvance(f.inCount, f.outCount, n);
    }
    if f.size > 0 {
      forall k | 0 <= k < Used(g)
        ensures Contents(g)[k] == Contents(f)[n + k]
      {
        assert Add32(g.outCount, k) == Add32(f.outCount, n + k) by {
          Add32Assoc(f.outCount, n, k);
        }
      }
    }
  }

  /** `fifo_getc`: the oldest byte, or `false` and `*byte` untouched (`prior`)
      when the buffer is empty. */
  function GetC(f: Fifo, prior: uint8): (r: (Fifo, bool, uint8))
    requires Valid(f)
    ensures Valid(r.0) && r.0.size == f.size
    ensures r.1 <==> Contents(f) != []
    ensures r.1 ==> r.2 == Contents(f)[0] && Contents(r.0) == Contents(f)[1..]
    ensures !r.1 ==> r.0 == f && r.2 == prior
  {
    if f.inCount == f.outCount then
      (f, false, prior)
    else
      AdvanceOut(f, 1);
      assert Add32(f.outCount, 0) == f.outCount;
      (f.(outCount := Add32(f.outCount, 1)), true, f.buffer[Slot(f.size, f.outCount)])
  }

  /** `fifo_get`: takes up to `len` of the oldest bytes, in at most two pieces
      (up to the end of the storage, then from its start). */
  function Get(f: Fifo, len: uint32): (r: (Fifo, seq<uint8>))
    requires Valid(f)
    ensures Valid(r.0) && r.0.size == f.size
    ensures |r.1| == Min(len, |Contents(f)|)
    ensures r.1 == Contents(f)[..|r.1|]
    ensures Contents(r.0) == Contents(f)[|r.1|..]
  {
    var n := Min(len, Used(f));
    AdvanceOut(f, n);
    if f.size == 0 then
      (f, [])
    else
      var s := Slot(f.size, f.outCount);
      var l := Min(n, f.size - s);
      var data := f.buffer[s..s + l] + f.buffer[..n - l];
      GetTakes(f, n, data);
      (f.(outCount := Add32(f.outCount, n)), data)
  }

  lemma GetTakes(f: Fifo, n: nat, data: seq<uint8>)
    requires Valid(f) && f.size > 0 && n <= Used(f)
    requires var s := Slot(f.size, f.outCount);
             var l := Min(n, f.size - s);
             data == f.buffer[s..s + l] + f.buffer[..n - l]
    ensures data == Contents(f)[..n]
  {
    forall j | 0 <= j < n
      ensures data[j] == Contents(f)[j]
    {
      SlotAdvance(f.size, f.outCount, j);
    }
  }

  /* ---- Putting bytes in ---- */

  /** The `in` counter is `out` advanced by the number of stored bytes. */
  lemma InCounter(f: Fifo)
    requires Valid(f)
    ensures f.inCount == Add32(f.outCount, Used(f))
  {
    DivModUnique(f.inCount - f.outCount, Modulus, (f.inCount - f.outCount) / Modulus, Used(f));
  }

  /** `fifo_put`: copies as much of `data` as there is room for, in at most two
      pieces (up to the end of the storage, then from its start), and returns
      the number of bytes taken.  Both 32-bit subtractions are exact here (the
      stored count is at most `size`, a slot is below it).  With a zero size the
      mask `size - 1` would be all ones, but the length is then zero and nothing
      is copied. */
  function Put(f: Fifo, data: seq<uint8>): (r: (Fifo, uint32))
    requires Valid(f) && |data| < Modulus
    ensures Valid(r.0) && r.0.size == f.size
    ensures r.1 == Min(|data|, f.size - |Contents(f)|)
    ensures Contents(r.0) == Contents(f) + data[..r.1]
  {
    var n := Min(|data|, f.size - Used(f));
    if f.size == 0 then
      (f, n)
    else
      var s := Slot(f.size, f.inCount);
      var l := Min(n, f.size - s);
      var b := Memcpy(Memcpy(f.buffer, s, data[..l]), 0, data[l..n]);
      PutAppends(f, data, n, b);
      (f.(buffer := b, inCount := Add32(f.inCount, n)), n)
  }

  /** Where the two pieces of a `fifo_put` land, relative to the stored bytes:
      `o` is the slot of `out`, `s` that of `in`, `u` bytes are stored, `n` are
      added and the first piece holds `l` of them.  A stored byte's slot `p`
      is outside both pieces; the j-th added byte's slot is in the piece that
      holds it. */
  lemma PiecePositions(size: int, o: int, u: int, n: int, s: int, l: int, k: int, p: int)
    requires 0 <= o < size && 0 <= u && 0 < n && u + n <= size
    requires s == (if o + u < size then o + u else o + u - size)
    requires l == Min(n, size - s)
    requires 0 <= k < u + n && p == (if o + k < size then o + k else o + k - size)
    ensures k < u ==> !(s <= p < s + l) && !(p < n - l)
    ensures u <= k && k - u < l ==> p == s + (k - u)
    ensures u <= k && k - u >= l ==> p == k - u - l
  {
  }

  lemma PutAppends(f: Fifo, data: seq<uint8>, n: nat, b: seq<uint8>)
    requires Valid(f) && f.size > 0 && n <= |data| && n <= f.size - Used(f)
    requires var s := Slot(f.size, f.inCount);
             var l := Min(n, f.size - s);
             b == Memcpy(Memcpy(f.buffer, s, data[..l]), 0, data[l..n])
    ensures Valid(f.(buffer := b, inCount := Add32(f.inCount, n)))
    ensures Contents(f.(buffer := b, inCount := Add32(f.inCount, n))) == Contents(f) + data[..n]
  {
    var g := f.(buffer := b, inCount := Add32(f.inCount, n));
    assert Used(g) == Used(f) + n by {
      SubAfterGrow(f.inCount, f.outCount, n);
    }
    if n > 0 {
      forall k | 0 <= k < Used(f) + n
        ensures Contents(g)[k] == (Contents(f) + data[..n])[k]
      {
        PutElement(f, data, n, b, k);
      }
    } else {
      assert b == f.buffer;
    }
  }

  /** The k-th byte after a `fifo_put`: an old one where it was, or a new one
      where one of the two pieces put it. */
  lemma PutElement(f: Fifo, data: seq<uint8>, n: nat, b: seq<uint8>, k: nat)
    requires Valid(f) && f.size > 0 && 0 < n <= |data| && n <= f.size - Used(f)
    requires var s := Slot(f.size, f.inCount);
             var l := Min(n, f.size - s);
             b == Memcpy(Memcpy(f.buffer, s, data[..l]), 0, data[l..n])
    requires k < Used(f) + n
    ensures b[Slot(f.size, Add32(f.outCount, k))] == (Contents(f) + data[..n])[k]
  {
    var u := Used(f);
    var o := Slot(f.size, f.outCount);
    var s := Slot(f.size, f.inCount);
    var l := Min(n, f.size - s);
    var p := Slot(f.size, Add32(f.outCount, k));
    StoredSlots(f, k);
    PiecePositions(f.size, o, u, n, s, l, k, p);
    PieceRead(f.buffer, s, data[..l], data[l..n], p);
    if k < u {
      assert (Contents(f) + data[..n])[k] == Contents(f)[k];
    } else if k - u < l {
      assert b[p] == data[..l][k - u];
    } else {
      assert b[p] == data[l..n][k - u - l];
    }
  }

  /** The slot of `in` is `u` places after that of `out`, and so is the slot
      of the k-th byte k places after it, wrapping once. */
  lemma StoredSlots(f: Fifo, k: nat)
    requires Valid(f) && Used(f) < f.size && k < f.size
    ensures var o, u := Slot(f.size, f.outCount), Used(f);
      Slot(f.size, f.inCount) == (if o + u < f.size then o + u else o + u - f.size) &&
      Slot(f.size, Add32(f.outCount, k)) == (if o + k < f.size then o + k else o + k - f.size)
  {
    InCounter(f);
    SlotAdvance(f.size, f.outCount, Used(f));
    SlotAdvance(f.size, f.outCount, k);
  }

  /** A byte of the buffer after both pieces of a `fifo_put` are copied: the
      second piece wins at the front, then the first piece, else the old byte. */
  lemma PieceRead(buf: seq<uint8>, s: nat, x: seq<uint8>, y: seq<uint8>, p: nat)
    requires s + |x| <= |buf| && |y| <= |buf| && p < |buf|
    ensures Memcpy(Memcpy(buf, s, x), 0, y)[p] ==
            if p < |y| then y[p] else if s <= p < s + |x| then x[p - s] else buf[p]
  {
  }

  /** `fifo_putc`: appends one byte unless the buffer is full. */
  function PutC(f: Fifo, byte: uint8): (r: (Fifo, bool))
    requires Valid(f)
    ensures Valid(r.0) && r.0.size == f.size
    ensures r.1 <==> |Contents(f)| < f.size
    ensures r.1 ==> Contents(r.0) == Contents(f) + [byte]
    ensures !r.1 ==> r.0 == f
  {
    if f.size - Used(f) == 0 then
      (f, false)
    else
      var g := f.(buffer := f.buffer[Slot(f.size, f.inCount) := byte], inCount := Add32(f.inCount, 1));
      assert g == Put(f, [byte]).0;
      (g, true)
  }

  /* ---- How the operations fit together ---- */

  /** `fifo_putc` is `fifo_put` of a single byte. */
  lemma PutCIsPutOfOne(f: Fifo, byte: uint8)
    requires Valid(f)
    ensures PutC(f, byte).0 == Put(f, [byte]).0
    ensures PutC(f, byte).1 <==> Put(f, [byte]).1 == 1
  {
    if f.size - Used(f) == 0 {
      if f.size > 0 {
        var s := Slot(f.size, f.inCount);
        assert Memcpy(Memcpy(f.buffer, s, []), 0, []) == f.buffer;
      }
    }
  }

  /** `fifo_getc` is `fifo_get` of a single byte. */
  lemma GetCIsGetOfOne(f: Fifo, prior: uint8)
    requires Valid(f)
    ensures GetC(f, prior).0 == Get(f, 1).0
    ensures GetC(f, prior).1 <==> Get(f, 1).1 != []
    ensures GetC(f, prior).1 ==> Get(f, 1).1 == [GetC(f, prior).2]
  {
  }

  /** First in, first out: whatever `fifo_put` accepted comes back from
      `fifo_get` after the bytes that were already stored, and the buffer is
      then empty. */
  lemma PutThenGet(f: Fifo, data: seq<uint8>)
    requires Valid(f) && |data| < Modulus
    ensures var (g, n) := Put(f, data);
            var (h, out) := Get(g, f.size);
            out == Contents(f) + data[..n] && IsEmpty(h)
  {
  }
}
