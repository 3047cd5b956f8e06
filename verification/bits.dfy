/** Fixed-width integers as the C/C++ sources see them: unsigned bytes and
    16-bit words, two's-complement 32-bit integers, the byte swap of a
    16-bit word and C's truncating integer division. */
module Bits {

  type U8 = x: int | 0 <= x < 0x100
  type U16 = x: int | 0 <= x < 0x1_0000

  const MinI32: int := -0x8000_0000
  const MaxI32: int := 0x7FFF_FFFF
  type I32 = x: int | MinI32 <= x <= MaxI32

  predicate InI32(x: int) { MinI32 <= x <= MaxI32 }

  /** The low byte of a 16-bit word (`v & 0xFF`). */
  function Lo(v: U16): U8 { v % 0x100 }

  /** The high byte of a 16-bit word (`(v >> 8) & 0xFF`). */
  function Hi(v: U16): U8 { v / 0x100 }

  /** The word whose high byte is `hi` and low byte is `lo`. */
  function Word(hi: U8, lo: U8): (v: U16)
    ensures Hi(v) == hi && Lo(v) == lo
  {
    hi * 0x100 + lo
  }

  lemma WordOfBytes(v: U16)
    ensures Word(Hi(v), Lo(v)) == v
  {
  }

  /** Exchanges the two bytes of a word: `__builtin_bswap16`, and also the
      tools' `to_little_endian`. */
  function ByteSwap16(v: U16): (r: U16)
    ensures Hi(r) == Lo(v) && Lo(r) == Hi(v)
  {
    Word(Lo(v), Hi(v))
  }

  /** Swapping the bytes of a word built from two bytes builds it the
      other way round. */
  lemma SwapWord(hi: U8, lo: U8)
    ensures ByteSwap16(Word(hi, lo)) == Word(lo, hi)
  {
  }

  /** Swapping twice gives the word back. */
  lemma ByteSwapInvolution(v: U16)
    ensures ByteSwap16(ByteSwap16(v)) == v
  {
    WordOfBytes(v);
  }

  /** A word is left unchanged by the swap exactly when its two bytes agree. */
  lemma ByteSwapFixedPoints(v: U16)
    ensures ByteSwap16(v) == v <==> Hi(v) == Lo(v)
  {
    WordOfBytes(v);
  }

  /** Little-endian serialisation of a word: low byte first. */
  function LittleEndian(v: U16): (b: seq<U8>)
    ensures |b| == 2 && Word(b[1], b[0]) == v
  {
    WordOfBytes(v);
    [Lo(v), Hi(v)]
  }

  /** Big-endian serialisation of a word: high byte first. */
  function BigEndian(v: U16): (b: seq<U8>)
    ensures |b| == 2 && Word(b[0], b[1]) == v
  {
    WordOfBytes(v);
    [Hi(v), Lo(v)]
  }

  /** Storing a byte-swapped word little-endian puts the original's bytes
      on the wire in big-endian order. */
  lemma SwappedLittleIsBig(v: U16)
    ensures LittleEndian(ByteSwap16(v)) == BigEndian(v)
  {
  }

  /** Reading a little-endian pair big-endian gives the byte-swapped word. */
  lemma BigReadOfLittle(v: U16)
    ensures Word(LittleEndian(v)[0], LittleEndian(v)[1]) == ByteSwap16(v)
  {
  }

  /** Reduction of an integer into the two's-complement 32-bit range, the
      effect of storing an out-of-range result in an `int32_t`. */
  function Wrap32(x: int): (r: I32)
    ensures InI32(x) ==> r == x
  {
    (x - MinI32) % 0x1_0000_0000 + MinI32
  }

  /** The wrap moves its argument by a whole number of 2^32 steps. */
  lemma Wrap32Shift(x: int) returns (k: int)
    ensures Wrap32(x) == x + k * 0x1_0000_0000
  {
    k := -((x - MinI32) / 0x1_0000_0000);
  }

  /** The wrap is the only 32-bit value that differs from its argument by a
      multiple of 2^32. */
  lemma Wrap32Unique(x: int, r: I32, k: int)
    requires x == r + k * 0x1_0000_0000
    ensures Wrap32(x) == r
  {
    var k' := Wrap32Shift(x);
    assert Wrap32(x) - r == (k + k') * 0x1_0000_0000;
  }

  /** Two integers wrap to the same `int32_t` exactly when they agree
      modulo 2^32. */
  lemma Wrap32Congruent(a: int, b: int)
    ensures Wrap32(a) == Wrap32(b) <==> (a - b) % 0x1_0000_0000 == 0
  {
    var ka := Wrap32Shift(a);
    var kb := Wrap32Shift(b);
    if (a - b) % 0x1_0000_0000 == 0 {
      var m := (a - b) / 0x1_0000_0000;
      Wrap32Unique(a, Wrap32(b), m - kb);
    } else {
      assert (a - b) != (kb - ka) * 0x1_0000_0000;
    }
  }

  /** Wrapping an intermediate result does not change the final wrap. */
  lemma Wrap32Absorbs(a: int, b: int)
    ensures Wrap32(Wrap32(a) + b) == Wrap32(a + b)
  {
    var k1 := Wrap32Shift(a);
    var k2 := Wrap32Shift(Wrap32(a) + b);
    Wrap32Unique(a + b, Wrap32(Wrap32(a) + b), -(k1 + k2));
  }

  /** The same for a wrapped value that is subtracted. */
  lemma Wrap32AbsorbsNeg(a: int, b: int)
    ensures Wrap32(a - Wrap32(b)) == Wrap32(a - b)
  {
    var k1 := Wrap32Shift(b);
    var k2 := Wrap32Shift(a - Wrap32(b));
    Wrap32Unique(a - b, Wrap32(a - Wrap32(b)), k1 - k2);
  }

  /** Wrapped sum and difference of two values: their wrapped difference
      and sum are those of the unwrapped values. */
  lemma Wrap32SumDiff(h: int, b: int)
    ensures Wrap32(Wrap32(h + b) - Wrap32(b - h)) == Wrap32(2 * h)
    ensures Wrap32(Wrap32(h + b) + Wrap32(b - h)) == Wrap32(2 * b)
  {
    var k1 := Wrap32Shift(h + b);
    var k2 := Wrap32Shift(b - h);
    var d := Wrap32(h + b) - Wrap32(b - h);
    var k3 := Wrap32Shift(d);
    Wrap32Unique(2 * h, Wrap32(d), k2 - k1 - k3);
    var e := Wrap32(h + b) + Wrap32(b - h);
    var k4 := Wrap32Shift(e);
    Wrap32Unique(2 * b, Wrap32(e), -(k1 + k2 + k4));
  }

  /** Adding a multiple of 2^32 does not change the wrap. */
  lemma Wrap32Period(x: int, k: int)
    ensures Wrap32(x + k * 0x1_0000_0000) == Wrap32(x)
  {
    var k1 := Wrap32Shift(x);
    Wrap32Unique(x + k * 0x1_0000_0000, Wrap32(x), k - k1);
  }

  /** Wrapping preserves evenness: 2^32 is even. */
  lemma Wrap32Even(x: int)
    requires x % 2 == 0
    ensures Wrap32(x) % 2 == 0
  {
    var k := Wrap32Shift(x);
    assert Wrap32(x) == 2 * (x / 2 + k * 0x8000_0000);
  }

  /** Integers closer than 2^32 that wrap alike are equal. */
  lemma Wrap32Separates(a: int, b: int)
    requires -0x1_0000_0000 < a - b < 0x1_0000_0000
    ensures Wrap32(a) == Wrap32(b) <==> a == b
  {
    var k1 := Wrap32Shift(a);
    var k2 := Wrap32Shift(b);
    assert Wrap32(a) - Wrap32(b) == a - b + (k1 - k2) * 0x1_0000_0000;
  }

  /** Reduction of an integer into the two's-complement 16-bit range. */
  function Wrap16(x: int): (r: int)
    ensures -0x8000 <= r < 0x8000
    ensures (r - x) % 0x1_0000 == 0
    ensures -0x8000 <= x < 0x8000 ==> r == x
  {
    (x + 0x8000) % 0x1_0000 - 0x8000
  }

  /** Division of naturals, where every rounding agrees. */
  function NatDiv(n: nat, d: nat): nat
    requires d > 0
  {
    n / d
  }

  /** The quotient leaves a remainder less than the divisor. */
  lemma NatDivBounds(n: nat, d: nat)
    requires d > 0
    ensures NatDiv(n, d) * d <= n < NatDiv(n, d) * d + d
  {
  }

  lemma MulAtLeast(a: int, y: int)
    requires a >= 1 && y > 0
    ensures a * y >= y
  {
    assert a * y == (a - 1) * y + y;
  }

  /** Multiplying by a positive factor keeps a strict order. */
  lemma MulLess(x: int, y: int, k: int)
    requires x < y && k > 0
    ensures x * k < y * k
  {
    MulAtLeast(y - x, k);
    assert (y - x) * k == y * k - x * k;
  }

  /** Multiplying by a non-negative factor keeps a weak order. */
  lemma MulMonotone(x: int, y: int, k: int)
    requires x <= y && k >= 0
    ensures x * k <= y * k
  {
    if x < y && k > 0 {
      MulLess(x, y, k);
    }
  }

  /** Every row before `last` of a row-major table of `width` entries per
      row lies inside the first last * width entries. */
  lemma RowMajorIndex(row: nat, last: nat, width: nat)
    requires row < last
    ensures row * width + width <= last * width
  {
    MulMonotone(row + 1, last, width);
  }

  /** ... and so a strict order between products is one between factors. */
  lemma MulLessInv(x: int, y: int, k: int)
    requires x * k < y * k && k > 0
    ensures x < y
  {
    if y <= x {
      if y < x {
        MulLess(y, x, k);
      }
    }
  }

  /** A quotient and remainder with the remainder in range are the
      Euclidean ones. */
  lemma DivModUnique(x: int, d: int, q: int, r: int)
    requires d > 0 && x == q * d + r && 0 <= r < d
    ensures x / d == q && x % d == r
  {
    var q', r' := x / d, x % d;
    assert (q - q') * d == r' - r;
    if q > q' {
      MulAtLeast(q - q', d);
    } else if q < q' {
      MulAtLeast(q' - q, d);
    }
  }

  /** Only one quotient has the remainder bounds. */
  lemma NatDivUnique(n: nat, d: nat, q: int)
    requires d > 0
    requires q * d <= n < q * d + d
    ensures NatDiv(n, d) == q
  {
    var q' := NatDiv(n, d);
    NatDivBounds(n, d);
    assert (q + 1) * d == q * d + d && (q' + 1) * d == q' * d + d;
    MulLessInv(q, q' + 1, d);
    MulLessInv(q', q + 1, d);
  }

  /** Euclidean division by a positive divisor undoes multiplication. */
  lemma MulDivCancel(x: int, y: int)
    requires y > 0
    ensures (x * y) / y == x
  {
    var q, r := (x * y) / y, (x * y) % y;
    assert x * y == q * y + r;
    assert (x - q) * y == r;
    if x > q {
      MulAtLeast(x - q, y);
    } else if x < q {
      MulAtLeast(q - x, y);
    }
  }

  function Abs(x: int): nat { if x < 0 then -x else x }

  /** q is the quotient of a by b rounded toward zero: the remainder
      a - q * b has the sign of a and is smaller in magnitude than b. */
  predicate IsTruncQuotient(a: int, b: int, q: int)
  {
    && (0 <= a ==> 0 <= a - q * b < Abs(b))
    && (a < 0 ==> 0 <= q * b - a < Abs(b))
  }

  /** Integer division rounding toward zero, as C, C++ and the 64-bit
      `int64_t` division of the sources compute it: the quotient of the
      magnitudes, negated when the signs differ. */
  function TruncDiv(a: int, b: int): int
    requires b != 0
  {
    var q: int := NatDiv(Abs(a), Abs(b));
    if (a < 0) == (b < 0) then q else -q
  }

  /** The truncating quotient leaves a remainder with the sign of the
      dividend and smaller in magnitude than the divisor. */
  lemma TruncDivBounds(a: int, b: int)
    requires b != 0
    ensures IsTruncQuotient(a, b, TruncDiv(a, b))
  {
    var q := NatDiv(Abs(a), Abs(b));
    NatDivBounds(Abs(a), Abs(b));
    if b < 0 {
      assert q * b == -(q * Abs(b));
    }
    if (a < 0) != (b < 0) {
      assert -q * b == -(q * b);
    }
  }

  /** The truncating quotient is the only integer with those bounds. */
  lemma TruncDivUnique(a: int, b: int, q: int)
    requires b != 0 && IsTruncQuotient(a, b, q)
    ensures TruncDiv(a, b) == q
  {
    var m := if (a < 0) == (b < 0) then q else -q;
    assert m * Abs(b) == if a < 0 then -(q * b) else q * b by {
      if b < 0 {
        assert q * Abs(b) == -(q * b);
      }
    }
    NatDivUnique(Abs(a), Abs(b), m);
  }

  /** An exact quotient is found whatever the rounding. */
  lemma TruncDivExact(k: int, b: int)
    requires b != 0
    ensures TruncDiv(k * b, b) == k
  {
    TruncDivUnique(k * b, b, k);
  }

  /** Multiplying by a positive factor keeps the sign. */
  lemma MulSign(x: int, k: int)
    requires k > 0
    ensures (x * k < 0 <==> x < 0) && Abs(x * k) == Abs(x) * k
  {
    if x < 0 {
      MulLess(x, 0, k);
    } else if x > 0 {
      MulLess(0, x, k);
    }
  }

  /** A remainder bound survives scaling. */
  lemma ScaleRemainder(r: int, m: int, k: int)
    requires 0 <= r < m && k > 0
    ensures 0 <= r * k < m * k
  {
    MulSign(r, k);
    MulLess(r, m, k);
  }

  /** Scaling dividend and divisor by the same positive factor does not
      change a truncating quotient. */
  lemma TruncDivScale(a: int, b: int, k: int)
    requires b != 0 && k > 0
    ensures TruncDiv(a * k, b * k) == TruncDiv(a, b)
  {
    MulSign(a, k);
    MulSign(b, k);
    NatDivScale(Abs(a), Abs(b), k);
  }

  /** The same for naturals. */
  lemma NatDivScale(m: nat, n: nat, k: nat)
    requires n > 0 && k > 0
    ensures NatDiv(m * k, n * k) == NatDiv(m, n)
  {
    var q := NatDiv(m, n);
    NatDivBounds(m, n);
    MulMonotone(q * n, m, k);
    MulLess(m, q * n + n, k);
    assert (q * n) * k == q * (n * k);
    assert (q * n + n) * k == q * (n * k) + n * k;
    NatDivUnique(m * k, n * k, q);
  }
}
