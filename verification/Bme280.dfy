/** The BME280's fixed-point temperature formula. A right shift of a signed number rounds down, like a division by a
    positive number here. */
module Bme280 {
  import opened Bytes

  type i16 = x: int | -0x8000 <= x < 0x8000
  type u20 = x: int | 0 <= x < 0x10_0000

  predicate FitsI32(x: int) {
    -0x8000_0000 <= x < 0x8000_0000
  }

  /** The coarse reading, relative to the first coefficient. */
  function Offset(adcT: u20, t1: u16): int {
    adcT / 0x10 - t1
  }

  function Var1(adcT: u20, t1: u16, t2: i16): int {
    (adcT / 8 - t1 * 2) * t2 / 0x800
  }

  function Var2(adcT: u20, t1: u16, t3: i16): int {
    Offset(adcT, t1) * Offset(adcT, t1) / 0x1000 * t3 / 0x4000
  }

  function FineTemp(adcT: u20, t1: u16, t2: i16, t3: i16): int {
    Var1(adcT, t1, t2) + Var2(adcT, t1, t3)
  }

  /** Hundredths of a degree Celsius. */
  function CompensateTemp(adcT: u20, t1: u16, t2: i16, t3: i16): int {
    (FineTemp(adcT, t1, t2, t3) * 5 + 128) / 0x100
  }

  /** Every intermediate result fits 32 bits. */
  ghost predicate NoOverflow(adcT: u20, t1: u16, t2: i16, t3: i16) {
    var y := Offset(adcT, t1);
    var fine := FineTemp(adcT, t1, t2, t3);
    && FitsI32(t1 * 2) && FitsI32(adcT / 8 - t1 * 2) && FitsI32((adcT / 8 - t1 * 2) * t2)
    && FitsI32(Var1(adcT, t1, t2))
    && FitsI32(y) && FitsI32(y * y) && FitsI32(y * y / 0x1000 * t3) && FitsI32(Var2(adcT, t1, t3))
    && FitsI32(fine) && FitsI32(fine * 5) && FitsI32(fine * 5 + 128)
  }

  function Abs(x: int): nat {
    if x < 0 then -x else x
  }

  lemma MulBounds(a: int, b: int, m: nat, n: nat)
    requires Abs(a) <= m && Abs(b) <= n
    ensures Abs(a * b) <= m * n
  {
    AbsMul(a, b);
    MulMono(Abs(a), m, Abs(b));
    MulMono(Abs(b), n, m);
  }

  lemma AbsMul(a: int, b: int)
    ensures Abs(a * b) == Abs(a) * Abs(b)
  {
    if a >= 0 && b >= 0 {
    } else if a >= 0 {
      assert a * -b == -(a * b);
    } else if b >= 0 {
      assert -a * b == -(a * b);
    } else {
      assert -a * -b == a * b;
    }
    SignMul(Abs(a), Abs(b));
  }

  lemma SignMul(m: nat, n: nat)
    ensures m * n >= 0
  {
  }

  lemma MulMono(k: nat, m: nat, n: nat)
    requires k <= m
    ensures k * n <= m * n && n * k <= n * m
  {
  }

  lemma Floors(x: int, d: int)
    requires d > 0
    ensures d * (x / d) <= x < d * (x / d) + d
  {
  }

  lemma Square(y: int)
    ensures y * y == Abs(y) * Abs(y) && y * y >= 0
  {
    AbsMul(y, y);
  }

  /** Within 16384 coarse steps of the first coefficient, nothing overflows. */
  lemma SmallOffsetFits(adcT: u20, t1: u16, t2: i16, t3: i16)
    requires Abs(Offset(adcT, t1)) <= 0x4000
    ensures NoOverflow(adcT, t1, t2, t3)
  {
    var y := Offset(adcT, t1);
    var p := adcT / 8 - t1 * 2;
    assert 2 * y <= p <= 2 * y + 1;
    MulBounds(p, t2, 0x8001, 0x8000);
    MulBounds(y, y, 0x4000, 0x4000);
    Square(y);
    var q := y * y / 0x1000;
    assert 0 <= q <= 0x1_0000;
    SquareTimes(q, t3);
  }

  /** The one product that can reach the limit reaches it without going over. */
  lemma SquareTimes(q: nat, t3: i16)
    requires q <= 0x1_0000
    ensures FitsI32(q * t3)
  {
    var t: int := t3;
    if t < 0 {
      MulMono(-t, 0x8000, q);
      MulMono(q, 0x1_0000, 0x8000);
      assert q * -t == -(q * t);
    } else {
      MulMono(t, 0x7FFF, q);
      MulMono(q, 0x1_0000, 0x7FFF);
    }
  }

  lemma LargeOffsetOverflows(adcT: u20, t1: u16)
    requires Abs(Offset(adcT, t1)) > 0x4000
    ensures !NoOverflow(adcT, t1, 0, -0x8000)
  {
    var y := Offset(adcT, t1);
    Square(y);
    MulMono(0x4001, Abs(y), 0x4001);
    MulMono(0x4001, Abs(y), Abs(y));
    assert y * y >= 0x4001 * 0x4001;
    var q := y * y / 0x1000;
    assert q >= 0x1_0008;
    assert q * -0x8000 < -0x8000_0000;
  }

  /** Exactly the readings within 16384 coarse steps of the first coefficient are safe for all other coefficients. */
  lemma OverflowsExactly(adcT: u20, t1: u16)
    ensures (forall t2: i16, t3: i16 :: NoOverflow(adcT, t1, t2, t3)) <==> Abs(Offset(adcT, t1)) <= 0x4000
  {
    if Abs(Offset(adcT, t1)) <= 0x4000 {
      forall t2: i16, t3: i16
        ensures NoOverflow(adcT, t1, t2, t3)
      {
        SmallOffsetFits(adcT, t1, t2, t3);
      }
    } else {
      LargeOffsetOverflows(adcT, t1);
    }
  }

  /** The formula without rounding, in degrees Celsius. */
  function ExactTemp(adcT: u20, t1: u16, t2: i16, t3: i16): real {
    var a := adcT as real / 16384.0 - t1 as real / 1024.0;
    var b := adcT as real / 131072.0 - t1 as real / 8192.0;
    (a * t2 as real + b * b * t3 as real) / 5120.0
  }

  const SCALE: int := 0x4_0000_0000

  /** The exact fine temperature, times 2^34. */
  function ScaledFine(u: int, t2: int, t3: int): int {
    u * t2 * 0x10_0000 + u * u * t3
  }

  lemma Var1IsClose(adcT: u20, t1: u16, t2: i16)
    ensures Abs(0x4000 * Var1(adcT, t1, t2) - (adcT - 0x10 * t1) * t2) <= 245_752
  {
    var u, p := adcT - 0x10 * t1, adcT / 8 - t1 * 2;
    Floors(p * t2, 0x800);
    MulBounds(u - 8 * p, t2, 7, 0x8000);
    assert u * t2 == 8 * (p * t2) + (u - 8 * p) * t2 by {
      Distribute(u, 8 * p, t2);
      assert 8 * p * t2 == 8 * (p * t2);
    }
  }

  lemma Distribute(x: int, y: int, z: int)
    ensures x * z == y * z + (x - y) * z
  {
  }

  lemma SquareIsClose(u: int, y: int)
    requires 0x10 * y <= u < 0x10 * y + 0x10 && Abs(y) <= 0x4000
    ensures Abs(0x10_0000 * (y * y / 0x1000) - u * u) <= 8_912_865
  {
    var r := u - 0x10 * y;
    Floors(y * y, 0x1000);
    assert u * u == 0x100 * (y * y) + 0x20 * (y * r) + r * r by {
      assert u == 0x10 * y + r;
      SquareOfSum(0x10 * y, r);
      assert 0x10 * y * (0x10 * y) == 0x100 * (y * y);
      assert 2 * (0x10 * y * r) == 0x20 * (y * r);
    }
    MulBounds(y, r, 0x4000, 15);
    MulBounds(r, r, 15, 15);
  }

  lemma SquareOfSum(x: int, y: int)
    ensures (x + y) * (x + y) == x * x + 2 * (x * y) + y * y
  {
  }

  lemma Var2IsClose(adcT: u20, t1: u16, t3: i16)
    requires Abs(Offset(adcT, t1)) <= 0x4000
    ensures var u := adcT - 0x10 * t1;
      Abs(SCALE * Var2(adcT, t1, t3) - u * u * t3) <= 8_912_865 * 0x8000 + 0x10_0000 * 0x3FFF
  {
    var u, y := adcT - 0x10 * t1, Offset(adcT, t1);
    var q := y * y / 0x1000;
    SquareIsClose(u, y);
    Floors(q * t3, 0x4000);
    var gap := 0x10_0000 * q - u * u;
    MulBounds(gap, t3, 8_912_865, 0x8000);
    Distribute(0x10_0000 * q, u * u, t3);
    assert 0x10_0000 * q * t3 == 0x10_0000 * (q * t3);
  }

  lemma FineIsClose(adcT: u20, t1: u16, t2: i16, t3: i16)
    requires Abs(Offset(adcT, t1)) <= 0x4000
    ensures Abs(SCALE * FineTemp(adcT, t1, t2, t3) - ScaledFine(adcT - 0x10 * t1, t2, t3)) <= 33 * SCALE
  {
    Var1IsClose(adcT, t1, t2);
    Var2IsClose(adcT, t1, t3);
  }

  /** The result, scaled, is close to the exact value, scaled. */
  lemma ScaledIsClose(adcT: u20, t1: u16, t2: i16, t3: i16)
    requires Abs(Offset(adcT, t1)) <= 0x4000
    ensures Abs(0x100 * SCALE * CompensateTemp(adcT, t1, t2, t3) - 5 * ScaledFine(adcT - 0x10 * t1, t2, t3))
      <= 293 * SCALE
  {
    FineIsClose(adcT, t1, t2, t3);
    var fine := FineTemp(adcT, t1, t2, t3);
    Floors(fine * 5 + 128, 0x100);
  }

  lemma ExactIsScaled(adcT: u20, t1: u16, t2: i16, t3: i16)
    ensures ExactTemp(adcT, t1, t2, t3) * 5120.0 * SCALE as real == ScaledFine(adcT - 0x10 * t1, t2, t3) as real
  {
    var u := adcT - 0x10 * t1;
    var ur, r2, r3 := u as real, t2 as real, t3 as real;
    var a := adcT as real / 16384.0 - t1 as real / 1024.0;
    var b := adcT as real / 131072.0 - t1 as real / 8192.0;
    assert a == ur / 16384.0 && b == ur / 131072.0;
    assert (u * t2) as real == ur * r2 && (u * u) as real == ur * ur;
    assert (u * u * t3) as real == (u * u) as real * r3;
    assert (u * t2 * 0x10_0000) as real == ur * r2 * 1048576.0;
    assert ExactTemp(adcT, t1, t2, t3) * 5120.0 == a * r2 + b * b * r3;
    assert b * b == ur * ur / 17179869184.0;
  }

  /** The result is within 0.0125 degrees Celsius of the exact formula. */
  lemma TempIsAccurate(adcT: u20, t1: u16, t2: i16, t3: i16)
    requires Abs(Offset(adcT, t1)) <= 0x4000
    ensures -0.0125 <= CompensateTemp(adcT, t1, t2, t3) as real / 100.0 - ExactTemp(adcT, t1, t2, t3) <= 0.0125
  {
    ScaledIsClose(adcT, t1, t2, t3);
    ExactIsScaled(adcT, t1, t2, t3);
    var t, n := CompensateTemp(adcT, t1, t2, t3), ScaledFine(adcT - 0x10 * t1, t2, t3);
    hide CompensateTemp, ExactTemp, ScaledFine;
    var tr, nr := t as real, n as real;
    assert (0x100 * SCALE * t - 5 * n) as real == 4398046511104.0 * tr - 5.0 * nr;
  }

  /** How each shift rounds: all round down, and the last, with the half that was added before it, to the nearest. */
  lemma ShiftsRound(adcT: u20, t1: u16, t2: i16, t3: i16)
    ensures var p, y := adcT / 8 - 2 * t1, adcT / 16 - t1;
      var v1, v2, t := Var1(adcT, t1, t2), Var2(adcT, t1, t3), CompensateTemp(adcT, t1, t2, t3);
      && 0 <= p * t2 - 2048 * v1 < 2048
      && (exists q: nat :: 0 <= y * y - 4096 * q < 4096 && 0 <= q * t3 - 16384 * v2 < 16384)
      && FineTemp(adcT, t1, t2, t3) == v1 + v2
      && -128 < 256 * t - 5 * (v1 + v2) <= 128
  {
    var p, y := adcT / 8 - 2 * t1, adcT / 16 - t1;
    Square(y);
    var q: nat := y * y / 4096;
    Floors(p * t2, 2048);
    Floors(y * y, 4096);
    Floors(q * t3, 16384);
    Floors(FineTemp(adcT, t1, t2, t3) * 5 + 128, 256);
    hide FineTemp;
    assert 0 <= y * y - 4096 * q < 4096 && 0 <= q * t3 - 16384 * Var2(adcT, t1, t3) < 16384;
  }
}
