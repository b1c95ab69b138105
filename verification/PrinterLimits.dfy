/** How far the number printer goes when more digits are asked for than a 32-bit number has. */
module PrinterLimits {
  import opened Bytes
  import opened NumberPrinter
  import opened Wrappers

  /** How many digits can be asked for before the divisor has run out of bits. */
  function CountLimit(b: Base): nat {
    if b == 10 then 32 else 8
  }

  lemma {:induction false} GrownSplits(digit: u32, b: Base, m: nat, n: nat)
    ensures Grown(digit, b, m + n) == Grown(Grown(digit, b, m), b, n)
    decreases m
  {
    if m > 0 {
      GrownSplits(ToU32(digit * b), b, m - 1, n);
    }
  }

  lemma {:induction false} ZeroStays(b: Base, n: nat)
    ensures Grown(0, b, n) == 0
    decreases n
  {
    if n > 0 {
      ZeroStays(b, n - 1);
    }
  }

  lemma {:induction false} PowSplits(b: nat, m: nat, n: nat)
    ensures Pow(b, m + n) == Pow(b, m) * Pow(b, n)
  {
    if m > 0 {
      PowSplits(b, m - 1, n);
      Regroup3(b, Pow(b, m - 1), Pow(b, n));
    } else {
      assert Pow(b, 0) == 1;
    }
  }

  lemma Regroup3(x: nat, y: nat, z: nat)
    ensures x * (y * z) == x * y * z
  {
  }

  lemma TwoPow32()
    ensures Pow(2, 32) == TWO_POW_32
  {
    assert Pow(2, 4) == 16;
    PowSplits(2, 4, 4);
    PowSplits(2, 8, 8);
    PowSplits(2, 16, 16);
  }

  lemma GrownOnce(x: u32, b: Base)
    ensures Grown(x, b, 1) == ToU32(x * b)
  {
  }

  /** Each multiplication by ten shifts one more zero bit in: the divisor is an odd multiple of a power of two. */
  lemma {:induction false} TwosGrow(n: nat) returns (m: nat)
    requires n < 32
    ensures m % 2 == 1 && Grown(1, 10, n) == Pow(2, n) * m
  {
    if n == 0 {
      m := 1;
      assert Pow(2, 0) == 1;
    } else {
      hide Pow, Grown;
      var k := TwosGrow(n - 1);
      var x := Grown(1, 10, n - 1);
      GrownSplits(1, 10, n - 1, 1);
      GrownOnce(x, 10);
      m := OddPart(n, k, x);
    }
  }

  lemma OddPart(n: nat, k: nat, x: u32) returns (m: nat)
    requires 0 < n < 32 && k % 2 == 1 && x == Pow(2, n - 1) * k
    ensures m % 2 == 1 && ToU32(x * 10) == Pow(2, n) * m
  {
    hide Pow;
    var p, h, q: nat := Pow(2, n), Pow(2, 31 - n), x * 10 / TWO_POW_32;
    PowPositive(2, n);
    TwoPow32();
    PowSplits(2, n, 32 - n);
    PowStep(2, n - 1);
    PowStep(2, 31 - n);
    TenTimes(Pow(2, n - 1), k, p);
    assert TWO_POW_32 == p * (2 * h);
    m := WrapOnce(p, 5 * k, q, 2 * h, x * 10);
    OddMinusEven(k, q, h, m);
  }

  /** A multiple of a divisor of 2^32 stays one when it wraps. */
  lemma WrapOnce(p: nat, a: nat, q: nat, c: nat, x: nat) returns (d: nat)
    requires p > 0 && TWO_POW_32 == p * c && x == p * a && q == x / TWO_POW_32
    ensures ToU32(x) == p * d && d == a - q * c
  {
    assert ToU32(x) == x - q * TWO_POW_32;
    Factor(p, a, q, c);
    NonNegativeFactor(p, a - q * c);
    d := a - q * c;
  }

  lemma TenTimes(y: nat, k: nat, p: nat)
    requires p == 2 * y
    ensures y * k * 10 == p * (5 * k)
  {
  }

  lemma Factor(p: int, a: int, q: int, c: int)
    ensures p * a - q * (p * c) == p * (a - q * c)
  {
    assert q * (p * c) == p * (q * c);
  }

  lemma NonNegativeFactor(p: int, d: int)
    requires p > 0 && p * d >= 0
    ensures d >= 0
  {
  }

  lemma OddMinusEven(k: nat, q: nat, h: nat, m: nat)
    requires k % 2 == 1 && m == 5 * k - q * (2 * h)
    ensures m % 2 == 1
  {
    var i, j := k / 2, q * h;
    assert q * (2 * h) == 2 * j;
    assert m == 2 * (5 * i + 2 - j) + 1;
  }

  lemma TenRunsOut(n: nat)
    ensures Grown(1, 10, n) == 0 <==> n >= 32
  {
    hide Pow, Grown;
    if n < 32 {
      var m := TwosGrow(n);
      PowPositive(2, n);
      MulMono(1, m, Pow(2, n));
    } else {
      var m := TwosGrow(31);
      var x := Grown(1, 10, 31);
      LastBit(x, m);
      GrownSplits(1, 10, 31, 1);
      GrownOnce(x, 10);
      GrownSplits(1, 10, 32, n - 32);
      ZeroStays(10, n - 32);
    }
  }

  lemma LastBit(x: u32, m: nat)
    requires x == Pow(2, 31) * m
    ensures ToU32(x * 10) == 0
  {
    hide Pow;
    TwoPow32();
    PowStep(2, 31);
    TenTimes(Pow(2, 31), m, TWO_POW_32);
    WrapsToZero(5 * m);
  }

  lemma WrapsToZero(k: nat)
    ensures ToU32(TWO_POW_32 * k) == 0
  {
  }

  lemma SixteenRunsOut(n: nat)
    ensures Grown(1, 16, n) == 0 <==> n >= 8
  {
    PowersThatFit(16);
    assert Pow(16, 0) == 1;
    if n < 8 {
      PowMono(16, n, 7);
      GrownIsPow(16, 0, n);
      PowPositive(16, n);
    } else {
      GrownIsPow(16, 0, 7);
      GrownSplits(1, 16, 7, 1);
      GrownSplits(1, 16, 8, n - 8);
      var x := Grown(1, 16, 7);
      assert x == 0x1000_0000 by {
        assert Pow(16, 4) == 0x1_0000;
        assert Pow(16, 7) == 16 * (16 * (16 * Pow(16, 4)));
      }
      GrownOnce(x, 16);
      ZeroStays(16, n - 8);
    }
  }

  lemma {:induction false} FindsUnlessZero(v: u32, b: Base, digit: u32)
    ensures FindDigit(v, b, digit) == None <==> digit == 0
    decreases v - digit
  {
    if digit > 0 && v / digit >= b {
      NoWrap(v, digit, b);
      FindsUnlessZero(v, b, ToU32(digit * b));
    }
  }

  /** The printer divides by zero exactly if more than 32 decimal or 8 hexadecimal digits are asked for, whatever the
      number is. */
  lemma DividesByZeroExactly(v: u32, b: Base, numDigits: u32)
    ensures StartDigit(v, b, numDigits) == None <==> numDigits > CountLimit(b)
  {
    var n: nat := if numDigits > 1 then numDigits - 1 else 0;
    FindsUnlessZero(v, b, Grown(1, b, n));
    if b == 10 {
      TenRunsOut(n);
    } else {
      SixteenRunsOut(n);
    }
  }

  predicate AllDigits(qs: seq<nat>) {
    forall k :: 0 <= k < |qs| ==> qs[k] < 16
  }

  /** What every remainder leaves of the next quotients fits the table of sixteen digits. */
  predicate InTable(d: nat, b: Base)
    requires d > 0
    decreases d
  {
    d < b || ((d - 1) / (d / b) < 16 && InTable(d / b, b))
  }

  lemma DivMono(x: nat, y: nat, d: nat)
    requires x <= y && d > 0
    ensures x / d <= y / d
  {
    DivMod(x, d);
    DivMod(y, d);
    if x / d > y / d {
      MulMono(y / d + 1, x / d, d);
    }
  }

  lemma {:induction false} RestInTable(v: nat, d: nat, b: Base)
    requires v < d && b <= d && InTable(d, b)
    ensures AllDigits(Quotients(v, d / b, b))
    decreases d
  {
    var e := d / b;
    DivMono(v, d - 1, e);
    if b <= e {
      RestInTable(v % e, e, b);
    }
  }

  lemma FirstQuotient(v: nat, d: nat, b: Base)
    requires v < d && b <= d
    ensures d / b > 0
    ensures Quotients(v, d, b) == [0] + Quotients(v, d / b, b)
    ensures Quotients(v, d, b)[1] == v / (d / b)
  {
    hide Width;
    DivModUnique(v, d, 0, v);
    DivisorShrinks(d, b);
    assert Quotients(v, d / b, b)[0] == v / (d / b);
  }

  /** A number that needs a digit that the table does not have. */
  lemma {:induction false} FindsBadNumber(d: nat, b: Base) returns (v: nat)
    requires d > 0 && !InTable(d, b)
    ensures v < d && !AllDigits(Quotients(v, d, b))
    decreases d
  {
    var e := d / b;
    if (d - 1) / e >= 16 {
      v := d - 1;
      FirstQuotient(v, d, b);
    } else {
      v := FindsBadNumber(e, b);
      FirstQuotient(v, d, b);
      LaterQuotient(Quotients(v, e, b));
    }
  }

  lemma LaterQuotient(rest: seq<nat>)
    requires !AllDigits(rest)
    ensures !AllDigits([0] + rest)
  {
    var k :| 0 <= k < |rest| && rest[k] >= 16;
    assert ([0] + rest)[k + 1] == rest[k];
  }

  /** With a given divisor, the printer finds all digits of all numbers in its table exactly if this holds. */
  lemma StaysInTableExactly(d: u32, b: Base)
    requires d > 0
    ensures (forall v: u32 :: v / d < b ==> AllDigits(Quotients(v, d, b))) <==> InTable(d, b)
  {
    if InTable(d, b) {
      forall v: u32 | v / d < b
        ensures AllDigits(Quotients(v, d, b))
      {
        if b <= d {
          RestInTable(v % d, d, b);
        }
      }
    } else {
      var v := FindsBadNumber(d, b);
      SmallQuotient(v, d, b);
    }
  }

  lemma SmallQuotient(v: nat, d: nat, b: Base)
    requires v < d
    ensures v / d < b
  {
  }

  /** With the divisors for up to 10 or 8 digits it does. */
  lemma {:induction false} PowersStayInTable(b: Base, e: nat)
    ensures Pow(b, e) > 0 && InTable(Pow(b, e), b)
  {
    PowPositive(b, e);
    if e > 0 {
      PowersStayInTable(b, e - 1);
      PowStep(b, e - 1);
      LowerPower(b, e);
      var d, p := Pow(b, e), Pow(b, e - 1);
      assert (d - 1) / p < b by {
        if (d - 1) / p >= b {
          DivMod(d - 1, p);
          MulMono(b, (d - 1) / p, p);
        }
      }
    }
  }

  /** The first two digits of a decimal number. */
  function Lead(d: nat): nat {
    if d < 100 then d else Lead(d / 10)
  }

  lemma TenQuotient(d: nat, e: nat)
    requires e == d / 10 && e >= 2
    ensures (d - 1) / e < 16
  {
    DivMod(d - 1, e);
    if (d - 1) / e >= 16 {
      MulMono(16, (d - 1) / e, e);
    }
  }

  lemma LeadOfTwo(d: nat)
    requires 0 < d < 100
    ensures InTable(d, 10) <==> !(17 <= d <= 19)
  {
    if d >= 20 {
      TenQuotient(d, d / 10);
    } else if d >= 10 {
      assert d / 10 == 1;
    }
  }

  /** For decimal numbers only the first two digits of the divisor matter. */
  lemma {:induction false} LeadDecides(d: nat)
    requires d > 0
    ensures InTable(d, 10) <==> !(17 <= Lead(d) <= 19)
  {
    if d >= 100 {
      TenQuotient(d, d / 10);
      LeadDecides(d / 10);
    } else {
      LeadOfTwo(d);
    }
  }

  lemma {:induction false} LeadIs(d: nat, lead: nat, e: nat, p: nat)
    requires p == Pow(10, e) && 10 <= lead < 100 && lead * p <= d < (lead + 1) * p
    ensures Lead(d) == lead
    decreases e
  {
    PowPositive(10, e);
    if e > 0 {
      var q := Pow(10, e - 1);
      PowPositive(10, e - 1);
      PowStep(10, e - 1);
      assert lead * p == 10 * (lead * q) && (lead + 1) * p == 10 * ((lead + 1) * q);
      MulMono(10, lead, q);
      LeadIs(d / 10, lead, e - 1, q);
    }
  }

  lemma GrownTo(n: nat, x: u32, y: u32)
    requires n > 0 && Grown(1, 10, n - 1) == x && y == x * 10 % TWO_POW_32
    ensures Grown(1, 10, n) == y
  {
    GrownSplits(1, 10, n - 1, 1);
    GrownOnce(x, 10);
  }

  /** The decimal divisors beyond ten digits. */
  lemma DivisorsBeyondTen()
    ensures Grown(1, 10, 10) == 1_410_065_408
    ensures Grown(1, 10, 11) == 1_215_752_192
    ensures Grown(1, 10, 12) == 3_567_587_328
    ensures Grown(1, 10, 13) == 1_316_134_912
    ensures Grown(1, 10, 14) == 276_447_232
    ensures Grown(1, 10, 15) == 2_764_472_320
    ensures Grown(1, 10, 16) == 1_874_919_424
    ensures Grown(1, 10, 17) == 1_569_325_056
    ensures Grown(1, 10, 18) == 2_808_348_672
    ensures Grown(1, 10, 19) == 2_313_682_944
    ensures Grown(1, 10, 20) == 1_661_992_960
  {
    hide Grown;
    TenthDivisor();
    GrownTo(10, 1_000_000_000, 1_410_065_408);
    GrownTo(11, 1_410_065_408, 1_215_752_192);
    GrownTo(12, 1_215_752_192, 3_567_587_328);
    GrownTo(13, 3_567_587_328, 1_316_134_912);
    GrownTo(14, 1_316_134_912, 276_447_232);
    GrownTo(15, 276_447_232, 2_764_472_320);
    GrownTo(16, 2_764_472_320, 1_874_919_424);
    GrownTo(17, 1_874_919_424, 1_569_325_056);
    GrownTo(18, 1_569_325_056, 2_808_348_672);
    GrownTo(19, 2_808_348_672, 2_313_682_944);
    GrownTo(20, 2_313_682_944, 1_661_992_960);
  }

  lemma DivisorsBeyondTwentyOne()
    ensures Grown(1, 10, 21) == 3_735_027_712
    ensures Grown(1, 10, 22) == 2_990_538_752
    ensures Grown(1, 10, 23) == 4_135_583_744
    ensures Grown(1, 10, 24) == 2_701_131_776
    ensures Grown(1, 10, 25) == 1_241_513_984
    ensures Grown(1, 10, 26) == 3_825_205_248
    ensures Grown(1, 10, 27) == 3_892_314_112
    ensures Grown(1, 10, 28) == 268_435_456
    ensures Grown(1, 10, 29) == 2_684_354_560
    ensures Grown(1, 10, 30) == 1_073_741_824
    ensures Grown(1, 10, 31) == 2_147_483_648
  {
    hide Grown;
    DivisorsBeyondTen();
    GrownTo(21, 1_661_992_960, 3_735_027_712);
    GrownTo(22, 3_735_027_712, 2_990_538_752);
    GrownTo(23, 2_990_538_752, 4_135_583_744);
    GrownTo(24, 4_135_583_744, 2_701_131_776);
    GrownTo(25, 2_701_131_776, 1_241_513_984);
    GrownTo(26, 1_241_513_984, 3_825_205_248);
    GrownTo(27, 3_825_205_248, 3_892_314_112);
    GrownTo(28, 3_892_314_112, 268_435_456);
    GrownTo(29, 268_435_456, 2_684_354_560);
    GrownTo(30, 2_684_354_560, 1_073_741_824);
    GrownTo(31, 1_073_741_824, 2_147_483_648);
  }

  lemma TenthDivisor()
    ensures Grown(1, 10, 9) == 1_000_000_000
  {
    PowersThatFit(10);
    assert Pow(10, 0) == 1;
    GrownIsPow(10, 0, 9);
    TensToEight();
    PowStep(10, 8);
  }

  /** Of all divisors only the decimal one for seventeen digits leaves the table. */
  lemma DivisorsStayInTable(b: Base, n: nat)
    requires Grown(1, b, n) > 0 && (b == 16 || n != 16)
    ensures InTable(Grown(1, b, n), b)
  {
    hide Pow, Grown, InTable, Lead;
    if n < MaxDigits(b) {
      PowersThatFit(b);
      PowMono(b, n, MaxDigits(b) - 1);
      PowStep(b, 0);
      GrownIsPow(b, 0, n);
      PowersStayInTable(b, n);
    } else if b == 10 {
      TenRunsOut(n);
      DivisorsBeyondTen();
      DivisorsBeyondTwentyOne();
      LeadDecides(Grown(1, 10, n));
      LeadsAreSmall();
    } else {
      SixteenRunsOut(n);
    }
  }

  lemma TensToEight()
    ensures Pow(10, 7) == 10_000_000 && Pow(10, 8) == 100_000_000
  {
    assert Pow(10, 3) == 1000;
    PowStep(10, 3);
    PowStep(10, 4);
    PowStep(10, 5);
    PowStep(10, 6);
    PowStep(10, 7);
  }

  lemma LeadsAreSmall()
    ensures Lead(1_410_065_408) == 14
    ensures Lead(1_215_752_192) == 12
    ensures Lead(3_567_587_328) == 35
    ensures Lead(1_316_134_912) == 13
    ensures Lead(276_447_232) == 27
    ensures Lead(2_764_472_320) == 27
    ensures Lead(1_569_325_056) == 15
    ensures Lead(2_808_348_672) == 28
    ensures Lead(2_313_682_944) == 23
    ensures Lead(1_661_992_960) == 16
    ensures Lead(3_735_027_712) == 37
    ensures Lead(2_990_538_752) == 29
    ensures Lead(4_135_583_744) == 41
    ensures Lead(2_701_131_776) == 27
    ensures Lead(1_241_513_984) == 12
    ensures Lead(3_825_205_248) == 38
    ensures Lead(3_892_314_112) == 38
    ensures Lead(268_435_456) == 26
    ensures Lead(2_684_354_560) == 26
    ensures Lead(1_073_741_824) == 10
    ensures Lead(2_147_483_648) == 21
  {
    hide Pow, Lead;
    TensToEight();
    LeadIs(1_410_065_408, 14, 8, 100_000_000);
    LeadIs(1_215_752_192, 12, 8, 100_000_000);
    LeadIs(3_567_587_328, 35, 8, 100_000_000);
    LeadIs(1_316_134_912, 13, 8, 100_000_000);
    LeadIs(276_447_232, 27, 7, 10_000_000);
    LeadIs(2_764_472_320, 27, 8, 100_000_000);
    LeadIs(1_569_325_056, 15, 8, 100_000_000);
    LeadIs(2_808_348_672, 28, 8, 100_000_000);
    LeadIs(2_313_682_944, 23, 8, 100_000_000);
    LeadIs(1_661_992_960, 16, 8, 100_000_000);
    LeadIs(3_735_027_712, 37, 8, 100_000_000);
    LeadIs(2_990_538_752, 29, 8, 100_000_000);
    LeadIs(4_135_583_744, 41, 8, 100_000_000);
    LeadIs(2_701_131_776, 27, 8, 100_000_000);
    LeadIs(1_241_513_984, 12, 8, 100_000_000);
    LeadIs(3_825_205_248, 38, 8, 100_000_000);
    LeadIs(3_892_314_112, 38, 8, 100_000_000);
    LeadIs(268_435_456, 26, 7, 10_000_000);
    LeadIs(2_684_354_560, 26, 8, 100_000_000);
    LeadIs(1_073_741_824, 10, 8, 100_000_000);
    LeadIs(2_147_483_648, 21, 8, 100_000_000);
  }

  lemma {:induction false} FoundStaysInTable(v: u32, b: Base, digit: u32)
    requires digit > 0 && InTable(digit, b)
    ensures FindDigit(v, b, digit).Some?
    ensures var d := FindDigit(v, b, digit).value; v / d < b && InTable(d, b)
    decreases v - digit
  {
    if v / digit >= b {
      NoWrap(v, digit, b);
      assert InTable(digit * b, b) by {
        TimesBase(digit, b);
      }
      FoundStaysInTable(v, b, ToU32(digit * b));
    }
  }

  lemma TimesBase(d: nat, b: Base)
    requires d > 0
    ensures d * b / b == d && (d * b - 1) / d < b && d * b >= b
  {
    DivModUnique(d * b, b, d, 0);
    DivMod(d * b - 1, d);
    if (d * b - 1) / d >= b {
      MulMono(b, (d * b - 1) / d, d);
    }
    MulMono(1, d, b);
  }

  /** Unless it divides by zero, the printer finds every digit of every number in its table exactly if it is not asked
      for seventeen decimal digits. */
  lemma FindsAllDigitsExactly(b: Base, numDigits: u32)
    ensures
      (forall v: u32 :: StartDigit(v, b, numDigits).Some? ==>
        AllDigits(Quotients(v, StartDigit(v, b, numDigits).value, b)))
      <==> !(b == 10 && numDigits == 17)
  {
    hide InTable, Quotients, FindDigit, Grown, AllDigits;
    var n: nat := if numDigits > 1 then numDigits - 1 else 0;
    if b == 10 && numDigits == 17 {
      SeventeenOfSeventeen();
      NotAllDigits(Quotients(17, 1_874_919_424, 10));
    } else {
      forall v: u32 | StartDigit(v, b, numDigits).Some?
        ensures AllDigits(Quotients(v, StartDigit(v, b, numDigits).value, b))
      {
        FindsUnlessZero(v, b, Grown(1, b, n));
        DivisorsStayInTable(b, n);
        FoundStaysInTable(v, b, Grown(1, b, n));
        StaysInTableExactly(StartDigit(v, b, numDigits).value, b);
      }
    }
  }

  lemma NotAllDigits(qs: seq<nat>)
    requires 17 in qs
    ensures !AllDigits(qs)
  {
  }

  /** Seventeen decimal digits of the number 17 do not: the last of them is looked up at place 17 of the table. */
  lemma SeventeenOfSeventeen()
    ensures StartDigit(17, 10, 17) == Some(1_874_919_424)
    ensures 17 in Quotients(17, 1_874_919_424, 10)
  {
    DivisorsBeyondTen();
    assert FindDigit(17, 10, 1_874_919_424) == Some(1_874_919_424);
    assert Quotients(17, 1, 10) == [17];
    LastQuotient(187_491_942);
    LastQuotient(18_749_194);
    LastQuotient(1_874_919);
    LastQuotient(187_491);
    LastQuotient(18_749);
    LastQuotient(1_874);
    LastQuotient(187);
    LastQuotient(18);
    LastQuotient(1_874_919_424);
  }

  lemma LastQuotient(d: u32)
    requires d >= 18
    ensures Quotients(17, d, 10) == [0] + Quotients(17, d / 10, 10)
  {
    assert 17 / d == 0 && 17 % d == 17;
  }
}
