/** `Fixed_q16`: a real number held as a 32-bit two's-complement integer
    scaled by 2^16 (Q16.16). A value is represented by that raw integer.
    Results that leave the 32-bit range wrap, which is what storing into the
    `int32_t raw` field does on the targets. */
module FixedPoint {
  import opened Bits

  newtype Fixed = x: int | MinI32 <= x <= MaxI32

  /** The default constructor. */
  const Zero: Fixed := 0

  /** `Fixed_q16(int32_t)`: `input << 16` on a 32-bit integer. */
  function FromInt(n: I32): (r: Fixed)
    ensures InI32(n * 0x1_0000) ==> r as int == n * 0x1_0000
    ensures (r as int - n * 0x1_0000) % 0x1_0000_0000 == 0
  {
    Wrap32Congruent(Wrap32(n * 0x1_0000), n * 0x1_0000);
    Wrap32(n * 0x1_0000) as Fixed
  }

  /** `Fixed_q16(1)` and `Fixed_q16(2)`, the latter being what the integer
      literal 2 converts to in `/ 2`. */
  const One: Fixed := 0x1_0000
  const Two: Fixed := 0x2_0000

  lemma SmallConstants()
    ensures One == FromInt(1) && Two == FromInt(2)
  {
  }

  /** `to_int`: an arithmetic shift right by 16, i.e. the floor of the real
      value (rounding toward negative infinity). */
  function ToInt(f: Fixed): (n: int)
    ensures n * 0x1_0000 <= f as int < n * 0x1_0000 + 0x1_0000
    ensures -0x8000 <= n < 0x8000
  {
    f as int / 0x1_0000
  }

  /** `operator+`: raw addition. */
  function Add(p: Fixed, q: Fixed): (r: Fixed)
    ensures InI32(p as int + q as int) ==> r as int == p as int + q as int
    ensures (r as int - (p as int + q as int)) % 0x1_0000_0000 == 0
  {
    Wrap32Congruent(Wrap32(p as int + q as int), p as int + q as int);
    Wrap32(p as int + q as int) as Fixed
  }

  /** `operator-`: raw subtraction. */
  function Sub(p: Fixed, q: Fixed): (r: Fixed)
    ensures InI32(p as int - q as int) ==> r as int == p as int - q as int
    ensures (r as int - (p as int - q as int)) % 0x1_0000_0000 == 0
  {
    Wrap32Congruent(Wrap32(p as int - q as int), p as int - q as int);
    Wrap32(p as int - q as int) as Fixed
  }

  /** `operator*`: the 64-bit product of the raws shifted right by 16 (a
      floor), then narrowed to 32 bits. The 64-bit product cannot overflow. */
  function Mul(p: Fixed, q: Fixed): (r: Fixed)
    ensures forall n: int :: n * 0x1_0000 <= (p as int) * (q as int) < n * 0x1_0000 + 0x1_0000 ==>
              (r as int - n) % 0x1_0000_0000 == 0
              && (InI32(n) ==> r as int == n)
  {
    var n := (p as int) * (q as int) / 0x1_0000;
    Wrap32Congruent(Wrap32(n), n);
    FloorUnique((p as int) * (q as int), n);
    Wrap32(n) as Fixed
  }

  /** The floor of a / 2^16 is the only n whose unit interval holds a. */
  lemma FloorUnique(a: int, n: int)
    requires n == a / 0x1_0000
    ensures forall m: int :: m * 0x1_0000 <= a < m * 0x1_0000 + 0x1_0000 ==> m == n
  {
    forall m: int | m * 0x1_0000 <= a < m * 0x1_0000 + 0x1_0000
      ensures m == n
    {
      if m < n {
        MulMonotone(m + 1, n, 0x1_0000);
      } else if m > n {
        MulMonotone(n + 1, m, 0x1_0000);
      }
    }
  }

  /** `operator/`: the raw shifted left by 16 in 64 bits, divided by the
      divisor's raw with C++ truncation toward zero, narrowed to 32 bits. A
      zero divisor traps on the targets, so the caller must exclude it. */
  function Div(p: Fixed, q: Fixed): (r: Fixed)
    requires q != 0
    ensures InI32(TruncDiv(p as int * 0x1_0000, q as int)) ==> IsTruncQuotient(p as int * 0x1_0000, q as int, r as int)
    ensures (r as int - TruncDiv(p as int * 0x1_0000, q as int)) % 0x1_0000_0000 == 0
  {
    var t := TruncDiv(p as int * 0x1_0000, q as int);
    TruncDivBounds(p as int * 0x1_0000, q as int);
    Wrap32Congruent(Wrap32(t), t);
    Wrap32(t) as Fixed
  }

  /** Unless it wraps, the product is the floor of the real product. */
  lemma MulFloors(p: Fixed, q: Fixed)
    requires InI32((p as int) * (q as int) / 0x1_0000)
    ensures var r := Mul(p, q) as int;
            r * 0x1_0000 <= (p as int) * (q as int) < r * 0x1_0000 + 0x1_0000
  {
  }

  /** Unless it wraps, the quotient is the real quotient truncated toward
      zero, in units of 2^-16. */
  lemma DivTruncates(p: Fixed, q: Fixed)
    requires q != 0 && InI32(TruncDiv(p as int * 0x1_0000, q as int))
    ensures IsTruncQuotient(p as int * 0x1_0000, q as int, Div(p, q) as int)
  {
    TruncDivBounds(p as int * 0x1_0000, q as int);
  }

  /** Whole numbers of the 16-bit range survive the trip through Q16.16. */
  lemma ToIntFromInt(n: I32)
    requires -0x8000 <= n < 0x8000
    ensures FromInt(n) as int == n * 0x1_0000
    ensures ToInt(FromInt(n)) == n
  {
  }

  /** The whole part is the one whole number whose unit interval holds the
      value. */
  lemma WholePartOf(f: Fixed, n: int)
    requires n * 0x1_0000 <= f as int < n * 0x1_0000 + 0x1_0000
    ensures ToInt(f) == n
  {
  }

  /** Outside the 16-bit range the shift loses the top bits: the whole part
      that survives is the 16-bit wrap of the input. */
  lemma FromIntWraps(n: I32)
    ensures FromInt(n) as int == Wrap16(n) * 0x1_0000
    ensures ToInt(FromInt(n)) == Wrap16(n)
  {
    var w := Wrap16(n);
    var k := (w - n) / 0x1_0000;
    assert w - n == k * 0x1_0000;
    assert w * 0x1_0000 == n * 0x1_0000 + k * 0x1_0000_0000;
    Wrap32Period(n * 0x1_0000, k);
  }

  /** `to_int` rounds toward negative infinity, not toward zero. */
  lemma ToIntFloors()
    ensures ToInt(-1) == -1
    ensures ToInt(0xFFFF) == 0
    ensures ToInt(-0x1_8000) == -2
  {
  }

  /** Adding two whole numbers in Q16.16 is adding them as integers, the
      16-bit wrap of the whole part included. */
  lemma AddFromInt(a: I32, b: I32)
    requires InI32(a + b)
    ensures Add(FromInt(a), FromInt(b)) == FromInt(a + b)
  {
    var k1 := Wrap32Shift(a * 0x1_0000);
    var k2 := Wrap32Shift(b * 0x1_0000);
    var k3 := Wrap32Shift(FromInt(a) as int + FromInt(b) as int);
    assert a * 0x1_0000 + b * 0x1_0000 == (a + b) * 0x1_0000;
    Wrap32Unique((a + b) * 0x1_0000, Add(FromInt(a), FromInt(b)) as int, -(k1 + k2 + k3));
  }

  /** Subtraction undoes addition, wrap-around included. */
  lemma AddSubCancel(p: Fixed, q: Fixed)
    ensures Sub(Add(p, q), q) == p
  {
    var k := Wrap32Shift(p as int + q as int);
    Wrap32Unique(Add(p, q) as int - q as int, p as int, k);
  }

  /** Zero is an identity for addition and subtraction. */
  lemma AddSubZero(p: Fixed)
    ensures Add(p, Zero) == p && Sub(p, Zero) == p
  {
  }

  /** `Fixed_q16(1)` is a two-sided identity for multiplication. */
  lemma MulOne(p: Fixed)
    ensures Mul(p, One) == p
    ensures Mul(One, p) == p
  {
    MulDivCancel(p as int, 0x1_0000);
  }

  /** Halving an even raw value is exact and stays within 2^30. */
  lemma HalfOfEven(p: Fixed)
    requires p as int % 2 == 0
    ensures Div(p, Two) as int * 2 == p as int
    ensures -0x4000_0000 <= Div(p, Two) as int < 0x4000_0000
  {
    DivTwo(p);
  }

  /** Division by `Fixed_q16(1)` gives the dividend back. */
  lemma DivOne(p: Fixed)
    ensures Div(p, One) == p
  {
    TruncDivExact(p as int, 0x1_0000);
  }

  /** Division by `Fixed_q16(2)` halves the raw value, truncating toward
      zero; the halving is exact for an even raw value. */
  lemma DivTwo(p: Fixed)
    ensures Div(p, Two) as int == TruncDiv(p as int, 2)
    ensures p as int % 2 == 0 ==> Div(p, Two) as int * 2 == p as int
  {
    TruncDivScale(p as int, 2, 0x1_0000);
    TruncDivBounds(p as int, 2);
  }
}
