/** Printing numbers into a 64-byte buffer that is handed to RTT whenever it is full. */
module NumberPrinter {
  import opened Bytes
  import opened Wrappers

  const BUFFER_SIZE: nat := 64
  const DIGITS: string := "0123456789ABCDEF"

  /** The two bases that formats use. */
  type Base = b: nat | b == 10 || b == 16 witness 10

  /** The longest numeral that a base needs for 32 bits. */
  function MaxDigits(b: Base): nat {
    if b == 10 then 10 else 8
  }

  function Pow(b: nat, e: nat): (p: nat) {
    if e == 0 then 1 else b * Pow(b, e - 1)
  }

  lemma {:induction false} PowPositive(b: nat, e: nat)
    requires b > 0
    ensures Pow(b, e) > 0
  {
    if e > 0 {
      PowPositive(b, e - 1);
    }
  }

  function DigitChar(d: nat): char
    requires d < 16
  {
    DIGITS[d]
  }

  function DigitValue(c: char): nat {
    if '0' <= c <= '9' then c as nat - '0' as nat
    else if 'A' <= c <= 'F' then c as nat - 'A' as nat + 10
    else 0
  }

  /** The last `n` digits of `v`. */
  function Numeral(v: nat, b: Base, n: nat): (s: string)
    ensures |s| == n
  {
    if n == 0 then [] else Numeral(v / b, b, n - 1) + [DigitChar(v % b)]
  }

  /** What a reader makes of a numeral. */
  function Parse(s: string, b: Base): nat {
    if s == [] then 0 else Parse(s[..|s| - 1], b) * b + DigitValue(s[|s| - 1])
  }

  /** How many digits a number needs. */
  function Width(v: nat, b: Base): (n: nat)
    ensures n >= 1
  {
    if v < b then 1 else 1 + Width(v / b, b)
  }

  lemma DigitRoundTrip(d: nat)
    requires d < 16
    ensures DigitValue(DigitChar(d)) == d
  {
    if d < 10 {
      assert DIGITS[..10] == "0123456789";
      assert DIGITS[d] == "0123456789"[d];
    } else {
      assert DIGITS[10..] == "ABCDEF";
      assert DIGITS[d] == "ABCDEF"[d - 10];
    }
  }

  lemma DivSmaller(v: nat, b: Base, p: nat)
    requires v < b * p
    ensures v / b < p
  {
  }

  /** A numeral with enough digits parses back to its number. */
  lemma {:induction false} ParsesBack(v: nat, b: Base, n: nat)
    requires v < Pow(b, n)
    ensures Parse(Numeral(v, b, n), b) == v
  {
    if n > 0 {
      DivSmaller(v, b, Pow(b, n - 1));
      ParsesBack(v / b, b, n - 1);
      DigitRoundTrip(v % b);
      assert Numeral(v, b, n)[..n - 1] == Numeral(v / b, b, n - 1);
    }
  }

  /** The width is enough, and one less is not. */
  lemma {:induction false} WidthIsExact(v: nat, b: Base)
    ensures v < Pow(b, Width(v, b))
    ensures v > 0 ==> Pow(b, Width(v, b) - 1) <= v
    decreases v
  {
    if v >= b {
      WidthIsExact(v / b, b);
      assert v / b >= 1;
      DivBack(v, b, Pow(b, Width(v / b, b)));
      DivForth(v, b, Pow(b, Width(v / b, b) - 1));
    } else {
      assert Pow(b, 1) == b * Pow(b, 0);
    }
  }

  lemma DivBack(v: nat, b: Base, p: nat)
    requires v / b < p
    ensures v < b * p
  {
  }

  lemma DivForth(v: nat, b: Base, p: nat)
    requires p <= v / b
    ensures b * p <= v
  {
  }

  /** Digits can also be split off at the front, the way the loop prints them. */
  lemma {:induction false} NumeralFromFront(v: nat, b: Base, n: nat)
    requires v < Pow(b, n + 1) && Pow(b, n) > 0
    ensures v / Pow(b, n) < b
    ensures Numeral(v, b, n + 1) == [DigitChar(v / Pow(b, n))] + Numeral(v % Pow(b, n), b, n)
  {
    hide Numeral, Pow;
    LastDigit(v, b, n + 1);
    if n == 0 {
      PowStep(b, 0);
      NoDigits(v, b);
      NoDigits(v % Pow(b, 0), b);
    } else {
      var p, q := Pow(b, n - 1), Pow(b, n);
      PowPositive(b, n - 1);
      PowStep(b, n - 1);
      PowStep(b, n);
      DivSmaller(v, b, q);
      NumeralFromFront(v / b, b, n - 1);
      DivTwice(v, b, p, q);
      LastDigit(v % q, b, n);
    }
  }

  lemma LastDigit(v: nat, b: Base, n: nat)
    requires n > 0
    ensures Numeral(v, b, n) == Numeral(v / b, b, n - 1) + [DigitChar(v % b)]
  {
  }

  lemma NoDigits(v: nat, b: Base)
    ensures Numeral(v, b, 0) == []
  {
  }

  lemma PowStep(b: nat, e: nat)
    ensures Pow(b, 0) == 1 && Pow(b, e + 1) == b * Pow(b, e)
  {
  }

  lemma DivTwice(v: nat, b: Base, p: nat, bp: nat)
    requires p > 0 && bp == b * p
    ensures bp > 0 && v / bp == v / b / p
    ensures v % bp / b == v / b % p
    ensures v % bp % b == v % b
  {
    var x, t := v / b, v % b;
    DivMod(v, b);
    var q, r := x / p, x % p;
    DivMod(x, p);
    SplitTwice(v, x, b, p, bp, q, r, t);
    JoinTwice(v, b, bp, q, r, t);
  }

  lemma JoinTwice(v: nat, b: nat, bp: nat, q: nat, r: nat, t: nat)
    requires t < b && v == q * bp + (r * b + t) && r * b + t < bp
    ensures bp > 0 && v / bp == q && v % bp / b == r && v % bp % b == t
  {
    DivModUnique(v, bp, q, r * b + t);
    DivModUnique(r * b + t, b, r, t);
  }

  lemma DivMod(x: nat, d: nat)
    requires d > 0
    ensures x == x / d * d + x % d && x % d < d
  {
  }

  lemma SplitTwice(v: nat, x: nat, b: nat, p: nat, bp: nat, q: nat, r: nat, t: nat)
    requires v == x * b + t && x == q * p + r && r < p && t < b && bp == b * p
    ensures v == q * bp + (r * b + t) && r * b + t < bp
  {
    Regroup(q, p, r, b);
    MulMono(r + 1, p, b);
  }

  lemma Regroup(q: nat, p: nat, r: nat, b: nat)
    ensures (q * p + r) * b == q * (b * p) + r * b
  {
    assert q * p * b == q * (b * p);
  }

  lemma MulMono(k: nat, m: nat, n: nat)
    requires k <= m
    ensures k * n <= m * n
  {
  }

  lemma DivModUnique(x: nat, d: nat, q: nat, r: nat)
    requires d > 0 && x == q * d + r && r < d
    ensures x / d == q && x % d == r
  {
    var q' := x / d;
    if q < q' {
      MulMono(q + 1, q', d);
    } else if q' < q {
      MulMono(q' + 1, q, d);
    }
  }

  /** The divisor after `n` multiplications in 32-bit arithmetic. */
  function Grown(digit: u32, b: Base, n: nat): u32
    decreases n
  {
    if n == 0 then digit else Grown(ToU32(digit * b), b, n - 1)
  }

  lemma NoWrap(v: u32, digit: u32, b: Base)
    requires digit > 0 && v / digit >= b
    ensures digit < ToU32(digit * b) == digit * b <= v
  {
    MulMono(b, v / digit, digit);
    assert v / digit * digit <= v;
  }

  /** The divisor that the loop stops with; None for a division by zero. */
  function FindDigit(v: u32, b: Base, digit: u32): (r: Option<u32>)
    ensures r.Some? ==> r.value > 0
    decreases v - digit
  {
    if digit == 0 then None
    else if v / digit < b then Some(digit)
    else
      NoWrap(v, digit, b);
      FindDigit(v, b, ToU32(digit * b))
  }

  function StartDigit(v: u32, b: Base, numDigits: u32): Option<u32> {
    FindDigit(v, b, Grown(1, b, if numDigits > 1 then numDigits - 1 else 0))
  }

  lemma {:induction false} PowMono(b: nat, d: nat, e: nat)
    requires b > 0 && d <= e
    ensures Pow(b, d) <= Pow(b, e)
    decreases e
  {
    if d < e {
      PowMono(b, d, e - 1);
      PowPositive(b, e - 1);
      MulMono(1, b, Pow(b, e - 1));
    }
  }

  /** The powers that fit 32 bits. */
  lemma PowersThatFit(b: Base)
    ensures Pow(b, MaxDigits(b) - 1) < TWO_POW_32 <= Pow(b, MaxDigits(b))
  {
    assert Pow(b, 2) == b * Pow(b, 1) == b * b;
    assert Pow(b, 4) == b * (b * Pow(b, 2));
    assert Pow(b, 6) == b * (b * Pow(b, 4));
    assert Pow(b, 8) == b * (b * Pow(b, 6));
    assert Pow(b, 10) == b * (b * Pow(b, 8));
    if b == 10 {
      assert Pow(b, 8) == 100_000_000;
      assert Pow(b, 10) == b * Pow(b, 9) && Pow(b, 9) == b * Pow(b, 8);
    } else {
      assert Pow(b, 6) == 0x100_0000;
      assert Pow(b, 8) == b * Pow(b, 7) && Pow(b, 7) == b * Pow(b, 6);
    }
  }

  lemma {:induction false} GrownIsPow(b: Base, e: nat, n: nat)
    requires Pow(b, e + n) < TWO_POW_32 && Pow(b, e) < TWO_POW_32
    ensures Grown(Pow(b, e), b, n) == Pow(b, e + n)
    decreases n
  {
    if n > 0 {
      hide Pow, Grown;
      PowMono(b, e + 1, e + n);
      PowStep(b, e);
      GrowsOnce(Pow(b, e), b, n, Pow(b, e + 1));
      GrownIsPow(b, e + 1, n - 1);
    } else {
      hide Pow;
    }
  }

  lemma GrowsOnce(digit: u32, b: Base, n: nat, next: u32)
    requires n > 0 && next == b * digit
    ensures Grown(digit, b, n) == Grown(next, b, n - 1)
  {
    assert ToU32(next) == next;
  }

  lemma {:induction false} FindsPow(v: u32, b: Base, e: nat)
    requires Pow(b, e) < TWO_POW_32
    ensures FindDigit(v, b, Pow(b, e)) == Some(Pow(b, Max(e, Width(v, b) - 1)))
    decreases Width(v, b) - e
  {
    var p, w := Pow(b, e), Width(v, b);
    PowPositive(b, e);
    WidthIsExact(v, b);
    assert Pow(b, e + 1) == b * p;
    if w <= e + 1 {
      PowMono(b, w, e + 1);
      QuotientSmall(v, b, p);
    } else {
      PowMono(b, e + 1, w - 1);
      MulMono(b, v / p, p) by { QuotientLarge(v, b, p); }
      QuotientLarge(v, b, p);
      NoWrap(v, p, b);
      FindsPow(v, b, e + 1);
    }
  }

  lemma QuotientSmall(v: nat, b: Base, p: nat)
    requires p > 0 && v < b * p
    ensures v / p < b
  {
    if v / p >= b {
      MulMono(b, v / p, p);
    }
  }

  lemma QuotientLarge(v: nat, b: Base, p: nat)
    requires p > 0 && b * p <= v
    ensures b <= v / p
  {
    if v / p < b {
      MulMono(v / p + 1, b, p);
    }
  }

  /** The divisor is the power of the base that belongs to the first digit to be printed. */
  lemma StartsAtFirstDigit(v: u32, b: Base, numDigits: u32)
    requires numDigits <= MaxDigits(b)
    ensures StartDigit(v, b, numDigits) == Some(Pow(b, Max(Width(v, b), numDigits) - 1))
  {
    hide Pow, Grown, FindDigit, Width;
    var n: nat := if numDigits > 1 then numDigits - 1 else 0;
    PowersThatFit(b);
    PowMono(b, n, MaxDigits(b) - 1);
    PowStep(b, 0);
    GrownIsPow(b, 0, n);
    FindsPow(v, b, n);
  }

  /** How many digits come out: as many as the divisor has itself. */
  function DigitsPrinted(v: u32, b: Base, numDigits: u32): Option<nat> {
    match StartDigit(v, b, numDigits)
    case None => None
    case Some(digit) => Some(Width(digit, b))
  }

  lemma {:induction false} WidthOfPow(b: Base, e: nat)
    ensures Width(Pow(b, e), b) == e + 1
  {
    PowPositive(b, e);
    if e > 0 {
      PowPositive(b, e - 1);
      MulMono(1, Pow(b, e - 1), b);
      assert Pow(b, e) / b == Pow(b, e - 1);
      WidthOfPow(b, e - 1);
    } else {
      assert Pow(b, 0) == 1;
    }
  }

  lemma WidthIsBounded(v: u32, b: Base)
    ensures Width(v, b) <= MaxDigits(b)
  {
    WidthIsExact(v, b);
    PowersThatFit(b);
    var w: nat := Width(v, b) - 1;
    PowMono(b, MaxDigits(b), Max(w, MaxDigits(b)));
  }

  /** All digits asked for come out exactly when no more are asked for than a 32-bit number can have in the base. */
  lemma PrintsAllDigitsExactly(v: u32, b: Base, numDigits: u32)
    ensures DigitsPrinted(v, b, numDigits) == Some(Max(Width(v, b), numDigits)) <==> numDigits <= MaxDigits(b)
  {
    if numDigits <= MaxDigits(b) {
      StartsAtFirstDigit(v, b, numDigits);
      WidthOfPow(b, Max(Width(v, b), numDigits) - 1);
    } else if StartDigit(v, b, numDigits).Some? {
      WidthIsBounded(StartDigit(v, b, numDigits).value, b);
    }
  }

  datatype Flags = Flags(left: bool, padZero: bool, printSign: bool)

  function Fill(n: int, c: char): (s: string)
    ensures |s| == Max(n, 0)
  {
    if n <= 0 then [] else seq(n, _ => c)
  }

  /** The padding at one of the places where there can be some. */
  function Pad(here: bool, n: int, c: char): (s: string)
    ensures |s| == if here then Max(n, 0) else 0
    ensures forall k :: 0 <= k < |s| ==> s[k] == c
  {
    if here then Fill(n, c) else []
  }

  /** The digits of a number, at least `numDigits` of them. */
  function Body(v: u32, b: Base, numDigits: nat): (s: string)
    ensures |s| == Max(Width(v, b), numDigits)
  {
    Numeral(v, b, Max(Width(v, b), numDigits))
  }

  /** Digits in a field, which is padded as if they were `width` characters. */
  function FieldText(body: string, width: nat, numDigits: nat, fieldWidth: nat, f: Flags): string {
    var gap := fieldWidth - width;
    Pad(!f.left, gap, if f.padZero && numDigits == 0 then '0' else ' ') + body + Pad(f.left, gap, ' ')
  }

  function UnsignedText(v: u32, b: Base, numDigits: nat, fieldWidth: nat, f: Flags): string {
    var body := Body(v, b, numDigits);
    FieldText(body, |body|, numDigits, fieldWidth, f)
  }

  /** The numbers that can be negated in 32 bits. */
  type i32 = x: int | -0x7FFF_FFFF <= x < 0x8000_0000

  function SignOf(v: i32, f: Flags): string {
    if v < 0 then "-" else if f.printSign then "+" else ""
  }

  function Magnitude(v: i32): u32 {
    if v < 0 then 0 - v else v
  }

  /** Spaces stand before the sign, zeros after it. */
  function Front(v: i32, gap: int, f: Flags, zeros: bool): string {
    Pad(!f.left && !zeros, gap, ' ') + SignOf(v, f) + Pad(!f.left && zeros, gap, '0')
  }

  function SignedText(v: i32, body: string, width: nat, numDigits: nat, fieldWidth: nat, f: Flags): string {
    var gap := fieldWidth - |SignOf(v, f)| - width;
    Front(v, gap, f, f.padZero && numDigits == 0) + body + Pad(f.left, gap, ' ')
  }

  function IntText(v: i32, b: Base, numDigits: nat, fieldWidth: nat, f: Flags): string {
    var body := Body(Magnitude(v), b, numDigits);
    SignedText(v, body, |body|, numDigits, fieldWidth, f)
  }

  lemma BodyParses(v: u32, b: Base, numDigits: nat)
    ensures Parse(Body(v, b, numDigits), b) == v
  {
    var w := Max(Width(v, b), numDigits);
    WidthIsExact(v, b);
    PowMono(b, Width(v, b), w);
    ParsesBack(v, b, w);
  }

  /** The text is as long as the field, or as the digits if these are longer; the digits have the length asked for,
      parse back to the number, and stand at the left or the right end as the flags say; the rest is zeros or blanks. */
  lemma UnsignedTextIsRight(v: u32, b: Base, numDigits: nat, fieldWidth: nat, f: Flags)
    ensures
      var s, w := UnsignedText(v, b, numDigits, fieldWidth, f), Max(Width(v, b), numDigits);
      var at := if f.left then 0 else |s| - w;
      && |s| == Max(fieldWidth, w)
      && Parse(s[at..at + w], b) == v
      && forall k :: 0 <= k < at || at + w <= k < |s| ==>
        s[k] == if !f.left && f.padZero && numDigits == 0 then '0' else ' '
  {
    hide Width, Numeral, Parse, Pad, Body, UnsignedText;
    var body := Body(v, b, numDigits);
    var gap, zeros := fieldWidth - |body|, !f.left && f.padZero && numDigits == 0;
    BodyParses(v, b, numDigits);
    UnsignedTextParts(v, b, numDigits, fieldWidth, f);
    Surrounded(Pad(!f.left && !zeros, gap, ' '), "", Pad(zeros, gap, '0'), body, Pad(f.left, gap, ' '),
      if zeros then '0' else ' ');
  }

  /** The same with a sign, which stands before the zeros but behind the blanks. */
  lemma IntTextIsRight(v: i32, b: Base, numDigits: nat, fieldWidth: nat, f: Flags)
    ensures
      var s, sign := IntText(v, b, numDigits, fieldWidth, f), SignOf(v, f);
      var w, zeros := Max(Width(Magnitude(v), b), numDigits), !f.left && f.padZero && numDigits == 0;
      var at := if f.left then |sign| else |s| - w;
      var signAt := if f.left || zeros then 0 else at - |sign|;
      && |s| == Max(fieldWidth, |sign| + w)
      && s[signAt..signAt + |sign|] == sign && Parse(s[at..at + w], b) == Magnitude(v)
      && forall k :: 0 <= k < signAt || signAt + |sign| <= k < at || at + w <= k < |s| ==>
        s[k] == if zeros then '0' else ' '
  {
    hide Width, Numeral, Parse, Pad, Body, Magnitude, IntText;
    var sign, body := SignOf(v, f), Body(Magnitude(v), b, numDigits);
    var gap, zeros := fieldWidth - |sign| - |body|, !f.left && f.padZero && numDigits == 0;
    BodyParses(Magnitude(v), b, numDigits);
    IntTextParts(v, b, numDigits, fieldWidth, f);
    Surrounded(Pad(!f.left && !zeros, gap, ' '), sign, Pad(zeros, gap, '0'), body, Pad(f.left, gap, ' '),
      if zeros then '0' else ' ');
  }

  lemma IntTextParts(v: i32, b: Base, numDigits: nat, fieldWidth: nat, f: Flags)
    ensures
      var sign, body := SignOf(v, f), Body(Magnitude(v), b, numDigits);
      var gap, zeros := fieldWidth - |sign| - |body|, !f.left && f.padZero && numDigits == 0;
      IntText(v, b, numDigits, fieldWidth, f) ==
        Pad(!f.left && !zeros, gap, ' ') + sign + Pad(zeros, gap, '0') + body + Pad(f.left, gap, ' ')
  {
    hide Width, Numeral, Body, Fill, Magnitude;
  }

  lemma UnsignedTextParts(v: u32, b: Base, numDigits: nat, fieldWidth: nat, f: Flags)
    ensures
      var body := Body(v, b, numDigits);
      var gap, zeros := fieldWidth - |body|, !f.left && f.padZero && numDigits == 0;
      UnsignedText(v, b, numDigits, fieldWidth, f) ==
        Pad(!f.left && !zeros, gap, ' ') + "" + Pad(zeros, gap, '0') + body + Pad(f.left, gap, ' ')
  {
    hide Width, Numeral, Body, Fill;
  }

  /** Two texts between stretches of one character. */
  lemma Surrounded(p: string, s: string, q: string, t: string, r: string, c: char)
    requires forall k :: 0 <= k < |p| ==> p[k] == c
    requires forall k :: 0 <= k < |q| ==> q[k] == c
    requires forall k :: 0 <= k < |r| ==> r[k] == c
    ensures
      var all, i, j := p + s + q + t + r, |p|, |p| + |s| + |q|;
      && |all| == |p| + |s| + |q| + |t| + |r| && all[i..i + |s|] == s && all[j..j + |t|] == t
      && forall k :: 0 <= k < i || i + |s| <= k < j || j + |t| <= k < |all| ==> all[k] == c
  {
  }

  /** What the loop over the digits divides out, for any divisor: the digits, if the divisor is right. */
  function Quotients(v: nat, d: nat, b: Base): (qs: seq<nat>)
    requires d > 0
    ensures |qs| > 0 && qs[0] == v / d
    decreases d
  {
    if d < b then [v / d]
    else
      DivisorShrinks(d, b);
      [v / d] + Quotients(v % d, d / b, b)
  }

  lemma {:induction false} QuotientsLength(v: nat, d: nat, b: Base)
    requires d > 0
    ensures |Quotients(v, d, b)| == Width(d, b)
    decreases d
  {
    if b <= d {
      DivisorShrinks(d, b);
      QuotientsLength(v % d, d / b, b);
    }
  }

  lemma DivisorShrinks(d: nat, b: Base)
    requires b <= d
    ensures 0 < d / b < d
  {
    DivMod(d, b);
    MulMono(2, b, d / b);
  }

  /** A text that shows these quotients as far as there are digits for them. */
  predicate Shows(text: string, qs: seq<nat>) {
    |text| == |qs| && forall k :: 0 <= k < |qs| && qs[k] < 16 ==> text[k] == DigitChar(qs[k])
  }

  lemma ShowsOneMore(text: string, qs: seq<nat>, c: char, q: nat)
    requires Shows(text, qs) && (q < 16 ==> c == DigitChar(q))
    ensures Shows(text + [c], qs + [q])
  {
  }

  lemma QuotientsOfPower(v: nat, b: Base, e: nat, d: nat)
    requires d == Pow(b, e) > 0
    ensures e == 0 ==> Quotients(v, d, b) == [v / d] + []
    ensures e > 0 ==> Pow(b, e - 1) > 0 && Quotients(v, d, b) == [v / d] + Quotients(v % d, Pow(b, e - 1), b)
  {
    LowerPower(b, e);
    if e > 0 {
      PowPositive(b, e - 1);
      PowStep(b, e - 1);
      MulMono(1, Pow(b, e - 1), b);
    }
  }

  /** When the divisor is a power of the base, the quotients are the digits. */
  lemma {:induction false} ShowsNumeral(v: nat, b: Base, e: nat, text: string)
    requires v < Pow(b, e + 1) && Pow(b, e) > 0 && Shows(text, Quotients(v, Pow(b, e), b))
    ensures text == Numeral(v, b, e + 1)
  {
    hide Quotients, Pow, Numeral, DigitChar, Shows;
    var d := Pow(b, e);
    FrontDigit(v, b, e, d, v / d, v % d);
    QuotientsOfPower(v, b, e, d);
    if e == 0 {
      NoDigits(v % d, b);
      ShowsHead(text, v / d, []);
    } else {
      PowPositive(b, e - 1);
      var rest := Quotients(v % d, Pow(b, e - 1), b);
      ShowsHead(text, v / d, rest);
      ShowsTail(text, v / d, rest);
      ShowsNumeral(v % d, b, e - 1, text[1..]);
    }
  }

  lemma ShowsHead(text: string, q: nat, qs: seq<nat>)
    requires Shows(text, [q] + qs) && q < 16
    ensures text != [] && text == [DigitChar(q)] + text[1..] && |text| == 1 + |qs|
  {
    assert ([q] + qs)[0] == q;
  }

  lemma ShowsTail(text: string, q: nat, qs: seq<nat>)
    requires Shows(text, [q] + qs)
    ensures Shows(text[1..], qs)
  {
    forall k | 0 <= k < |qs| && qs[k] < 16
      ensures text[1..][k] == DigitChar(qs[k])
    {
      assert ([q] + qs)[k + 1] == qs[k];
    }
  }

  lemma QuotientsGoOn(v: nat, d: nat, b: Base, before: seq<nat>, all: seq<nat>)
    requires d > 0 && before + Quotients(v, d, b) == all
    ensures if d < b then d / b == 0 && before + [v / d] == all
      else d / b > 0 && before + [v / d] + Quotients(v % d, d / b, b) == all
  {
    var rest := if d < b then [] else Quotients(v % d, d / b, b);
    assert before + ([v / d] + rest) == before + [v / d] + rest;
  }

  lemma Leftover(x: nat, d: nat, q: nat)
    requires d > 0 && q == x / d
    ensures x - q * d == x % d
  {
  }

  lemma FrontDigit(v: nat, b: Base, n: nat, digit: nat, q: nat, r: nat)
    requires v < Pow(b, n + 1) && Pow(b, n) == digit > 0 && q == v / digit && r == v % digit
    ensures q < b && Numeral(v, b, n + 1) == [DigitChar(q)] + Numeral(r, b, n)
    ensures r < digit && digit / b == if n == 0 then 0 else Pow(b, n - 1)
  {
    hide Numeral, Pow, DigitChar;
    NumeralFromFront(v, b, n);
    LowerPower(b, n);
  }

  lemma LowerPower(b: Base, e: nat)
    ensures Pow(b, e) / b == if e == 0 then 0 else Pow(b, e - 1)
  {
    if e > 0 {
      assert Pow(b, e) == b * Pow(b, e - 1);
    }
  }

  class Printer {
    const buffer: array<char>
    var cnt: nat
    var returnValue: int
    ghost var sent: string
    ghost var failed: bool

    /** The return value is negative only after RTT has refused something. */
    ghost predicate Valid()
      reads this
    {
      && buffer.Length == BUFFER_SIZE && cnt <= BUFFER_SIZE
      && (returnValue >= 0 ==> cnt < BUFFER_SIZE)
      && (returnValue < 0 ==> failed)
    }

    /** Everything printed so far: what RTT has, and what is still in the buffer. */
    ghost function Text(): string
      requires Valid()
      reads this, buffer
    {
      sent + buffer[..cnt]
    }

    constructor (buffer: array<char>)
      requires buffer.Length == BUFFER_SIZE
      ensures Valid() && this.buffer == buffer && Text() == [] && returnValue == 0 && !failed
    {
      this.buffer := buffer;
      cnt, returnValue, sent, failed := 0, 0, [], false;
    }

    /** Hands the buffer to RTT, which may take only a part of it, or nothing. */
    method RttWrite() returns (ok: bool)
      requires cnt == BUFFER_SIZE == buffer.Length
      modifies this`sent, this`failed
      ensures failed <==> old(failed) || !ok
      ensures if ok then sent == old(sent) + buffer[..] else old(sent) <= sent <= old(sent) + buffer[..]
    {
      var taken: nat :| taken <= BUFFER_SIZE;
      ok := taken == BUFFER_SIZE;
      sent := sent + buffer[..taken];
      failed := failed || !ok;
      assert buffer[..] == buffer[..taken] + buffer[taken..];
    }

    /** Appends a character, and hands the buffer to RTT when that has filled it. */
    method StoreChar(c: char)
      requires Valid()
      modifies this, buffer
      ensures Valid() && (old(failed) ==> failed) && old(sent) <= sent
      ensures !failed ==> Text() == old(Text()) + [c] && returnValue == old(returnValue) + 1
      ensures failed && !old(failed) ==> returnValue == -1 && sent <= old(Text()) + [c]
    {
      if cnt + 1 <= BUFFER_SIZE {
        buffer[cnt] := c;
        cnt := cnt + 1;
        returnValue := returnValue + 1;
        assert buffer[..cnt] == old(buffer[..cnt]) + [c];
      }
      if cnt == BUFFER_SIZE {
        assert buffer[..cnt] == buffer[..];
        var ok := RttWrite();
        if !ok {
          returnValue := -1;
        } else {
          cnt := 0;
        }
      }
    }

    /** Exactly `s` was printed since the text was `text` and the return value `count`. */
    ghost predicate Added(text: string, count: int, s: string)
      requires Valid()
      reads this, buffer
    {
      Text() == text + s && returnValue == count + |s|
    }

    /** Fills up a field; returns the field width that is left. */
    method PadField(fieldWidth: nat, width: nat, c: char) returns (rest: nat)
      requires Valid()
      modifies this, buffer
      ensures Valid() && (old(failed) ==> failed) && rest <= fieldWidth
      ensures !failed ==>
        Added(old(Text()), old(returnValue), Fill(fieldWidth - width, c)) && rest == Min(fieldWidth, width)
    {
      rest := fieldWidth;
      ghost var n: nat := 0;
      while rest != 0 && width < rest
        invariant Valid() && rest + n == fieldWidth && (n > 0 ==> width <= rest) && (old(failed) ==> failed)
        invariant !failed ==> Added(old(Text()), old(returnValue), Fill(n, c))
      {
        rest := rest - 1;
        StoreChar(c);
        if returnValue < 0 {
          return;
        }
        n := n + 1;
        assert Fill(n, c) == Fill(n - 1, c) + [c];
      }
    }

    method FieldWidthOf(v: u32, b: Base, numDigits: u32) returns (width: nat)
      ensures width == Max(Width(v, b), numDigits)
    {
      var number: nat := v;
      width := 1;
      while number >= b
        invariant width + Width(number, b) - 1 == Width(v, b)
      {
        number := number / b;
        width := width + 1;
      }
      if numDigits > width {
        width := numDigits;
      }
    }

    /** The divisor for the first digit, or None if the loop comes to divide by zero. */
    method FirstDigit(v: u32, b: Base, numDigits: u32) returns (r: Option<u32>)
      ensures r == StartDigit(v, b, numDigits)
    {
      var digit: u32 := 1;
      var n := numDigits;
      while true
        invariant n <= numDigits
        invariant StartDigit(v, b, numDigits) == FindDigit(v, b, Grown(digit, b, if n > 1 then n - 1 else 0))
        decreases n, v - digit
      {
        if n > 1 {
          n := n - 1;
        } else {
          if digit == 0 {
            return None;
          }
          var div := v / digit;
          if div < b {
            return Some(digit);
          }
          NoWrap(v, digit, b);
        }
        digit := ToU32(digit * b);
      }
    }

    /** A look into the table of digits; behind its end there can be anything. */
    method Digit(q: nat) returns (c: char)
      ensures q < 16 ==> c == DigitChar(q)
    {
      if q < 16 {
        c := DIGITS[q];
      } else {
        var any: nat :| any < 256;
        c := any as char;
      }
    }

    /** Prints the quotients from the front; `text` is what they look like. */
    method PutDigits(v: u32, b: Base, first: u32) returns (ghost text: string)
      requires Valid() && first > 0
      modifies this, buffer
      ensures Valid() && (old(failed) ==> failed)
      ensures !failed ==> Added(old(Text()), old(returnValue), text) && Shows(text, Quotients(v, first, b))
      ensures !failed ==> |text| == Width(first, b)
    {
      hide Quotients, Shows, DigitChar, Width;
      var rest: nat, digit: nat := v, first;
      text := "";
      ghost var done: seq<nat>, all := [], Quotients(v, first, b);
      NothingShown(all);
      while digit != 0
        invariant Valid() && (old(failed) ==> failed)
        invariant !failed ==> Added(old(Text()), old(returnValue), text)
        invariant Shows(text, done)
        invariant if digit == 0 then done == all else done + Quotients(rest, digit, b) == all
        decreases digit
      {
        var div := rest / digit;
        Leftover(rest, digit, div);
        QuotientsGoOn(rest, digit, b, done, all);
        rest := rest - div * digit;
        var c := Digit(div);
        StoreChar(c);
        if returnValue < 0 {
          return;
        }
        ShowsOneMore(text, done, c, div);
        text, done := text + [c], done + [div];
        digit := digit / b;
      }
      ShownLength(text, v, first, b);
    }

    static lemma ShownLength(text: string, v: u32, first: u32, b: Base)
      requires first > 0 && Shows(text, Quotients(v, first, b))
      ensures |text| == Width(first, b)
    {
      QuotientsLength(v, first, b);
    }

    static lemma NothingShown(qs: seq<nat>)
      ensures Shows("", []) && [] + qs == qs
    {
    }

    /** Prints the digits, if there is no division by zero. */
    method PutBody(v: u32, b: Base, numDigits: u32) returns (ok: bool, ghost body: string)
      requires Valid()
      modifies this, buffer
      ensures Valid() && (old(failed) ==> failed) && (ok <==> StartDigit(v, b, numDigits).Some?)
      ensures !failed && ok ==>
        && Added(old(Text()), old(returnValue), body)
        && Shows(body, Quotients(v, StartDigit(v, b, numDigits).value, b))
        && DigitsPrinted(v, b, numDigits) == Some(|body|)
      ensures numDigits <= MaxDigits(b) ==> ok && (!failed ==> body == Body(v, b, numDigits))
    {
      hide Numeral, Pow, Width, StartDigit, FindDigit, Quotients, Shows;
      body := "";
      if numDigits <= MaxDigits(b) {
        StartsAtFirstDigit(v, b, numDigits);
      }
      var digit := FirstDigit(v, b, numDigits);
      if digit.None? {
        return false, "";
      }
      ok := true;
      StartIsPositive(v, b, numDigits);
      body := PutDigits(v, b, digit.value);
      if numDigits <= MaxDigits(b) && !failed {
        FitsWidth(v, b, Max(Width(v, b), numDigits));
        ShowsNumeral(v, b, Max(Width(v, b), numDigits) - 1, body);
      }
    }

    static lemma StartIsPositive(v: u32, b: Base, numDigits: u32)
      ensures StartDigit(v, b, numDigits).Some? ==> StartDigit(v, b, numDigits).value > 0
    {
    }

    /** Prints a number; `ok` is false if there is a division by zero. */
    method PrintUnsigned(v: u32, b: Base, numDigits: u32, fieldWidth: u32, f: Flags)
      returns (ok: bool, ghost body: string)
      requires Valid()
      modifies this, buffer
      ensures Valid() && (old(failed) ==> failed)
      ensures !failed ==> (ok <==> StartDigit(v, b, numDigits).Some?)
      ensures !failed && ok ==>
        && Shows(body, Quotients(v, StartDigit(v, b, numDigits).value, b))
        && DigitsPrinted(v, b, numDigits) == Some(|body|)
        && Added(old(Text()), old(returnValue),
             FieldText(body, Max(Width(v, b), numDigits), numDigits, fieldWidth, f))
      ensures !failed && numDigits <= MaxDigits(b) ==>
        ok && body == Body(v, b, numDigits)
        && Added(old(Text()), old(returnValue), UnsignedText(v, b, numDigits, fieldWidth, f))
    {
      hide Width, Numeral, Fill, Body, Pad, StartDigit, DigitsPrinted, Quotients, Shows;
      PadHere(fieldWidth - Max(Width(v, b), numDigits));
      var width := FieldWidthOf(v, b, numDigits);
      var rest: nat := fieldWidth;
      ghost var gap := fieldWidth - width;
      var c := if f.padZero && numDigits == 0 then '0' else ' ';
      ok, body := true, "";
      if !f.left {
        rest := PadField(rest, width, c);
      }
      if returnValue >= 0 {
        ghost var front := Pad(!f.left, gap, c);
        assert !failed ==> Added(old(Text()), old(returnValue), front) by {
          NoPad(old(Text()), gap, c);
        }
        ok, body := PutBody(v, b, numDigits);
        if ok && returnValue >= 0 {
          Regrouped(old(Text()), front, body);
          if f.left {
            rest := PadField(rest, width, ' ');
          }
          Regrouped(old(Text()), front + body, Pad(f.left, gap, ' '));
          NoPad(old(Text()) + (front + body), gap, ' ');
        }
      }
    }

    static lemma Regrouped(s: string, t: string, u: string)
      ensures s + t + u == s + (t + u)
    {
    }

    static lemma NoPad(s: string, n: int, c: char)
      ensures s + Pad(false, n, c) == s
    {
    }

    static lemma PadHere(n: int)
      ensures forall c: char :: Pad(true, n, c) == Fill(n, c)
    {
    }

    static lemma FitsWidth(v: u32, b: Base, width: nat)
      requires width >= Width(v, b)
      ensures v < Pow(b, width)
    {
      WidthIsExact(v, b);
      PowMono(b, Width(v, b), width);
    }

    method PutSign(v: i32, f: Flags)
      requires Valid()
      modifies this, buffer
      ensures Valid() && (old(failed) ==> failed)
      ensures !failed ==> Added(old(Text()), old(returnValue), SignOf(v, f))
    {
      if v < 0 {
        StoreChar('-');
      } else if f.printSign {
        StoreChar('+');
      }
    }

    /** Spaces, sign and zeros; returns the field width that is left. */
    method PutFront(v: i32, width: nat, numDigits: u32, field: nat, f: Flags) returns (rest: nat)
      requires Valid()
      modifies this, buffer
      ensures Valid() && (old(failed) ==> failed) && rest <= field
      ensures !failed ==> rest == if f.left then field else Min(field, width)
      ensures !failed ==> Added(old(Text()), old(returnValue), Front(v, field - width, f, f.padZero && numDigits == 0))
    {
      hide Fill, Pad;
      PadHere(field - width);
      ghost var zeros := f.padZero && numDigits == 0;
      ghost var lead, base := Pad(!f.left && !zeros, field - width, ' '), Text();
      NoPad(base, field - width, ' ');
      rest := field;
      if (!f.padZero || numDigits != 0) && !f.left {
        rest := PadField(rest, width, ' ');
      }
      if returnValue >= 0 {
        PutSign(v, f);
        Regrouped(base, lead, SignOf(v, f));
        Regrouped(base, lead + SignOf(v, f), Pad(!f.left && zeros, field - width, '0'));
        NoPad(base + (lead + SignOf(v, f)), field - width, '0');
        if returnValue >= 0 && f.padZero && !f.left && numDigits == 0 {
          rest := PadField(rest, width, '0');
        }
      }
    }

    method PrintInt(v: i32, b: Base, numDigits: u32, fieldWidth: u32, f: Flags) returns (ok: bool, ghost body: string)
      requires Valid()
      modifies this, buffer
      ensures Valid() && (old(failed) ==> failed)
      ensures !failed ==> (ok <==> StartDigit(Magnitude(v), b, numDigits).Some?)
      ensures !failed && ok ==>
        && Shows(body, Quotients(Magnitude(v), StartDigit(Magnitude(v), b, numDigits).value, b))
        && DigitsPrinted(Magnitude(v), b, numDigits) == Some(|body|)
        && Added(old(Text()), old(returnValue),
             SignedText(v, body, Max(Width(Magnitude(v), b), numDigits), numDigits, fieldWidth, f))
      ensures !failed && numDigits <= MaxDigits(b) ==>
        ok && Added(old(Text()), old(returnValue), IntText(v, b, numDigits, fieldWidth, f))
    {
      hide Width, Body, Fill, FieldText, SignedText, Front, Magnitude, StartDigit, DigitsPrinted, Quotients, Shows;
      var magnitude := Magnitude(v);
      var width := FieldWidthOf(magnitude, b, numDigits);
      var rest: nat := fieldWidth;
      if rest > 0 && (v < 0 || f.printSign) {
        rest := rest - 1;
      }
      ghost var field := rest;
      rest := PutFront(v, width, numDigits, rest, f);
      ok, body := true, "";
      if returnValue >= 0 {
        ok, body := PrintUnsigned(magnitude, b, numDigits, rest, f);
        if !failed && ok {
          TextInParts(v, body, width, numDigits, fieldWidth, f, field, rest);
        }
      }
    }

    /** What is printed before the digits, and what printing the magnitude in the rest of the field adds. */
    static lemma TextInParts(v: i32, body: string, width: nat, numDigits: nat, fieldWidth: nat, f: Flags, field: nat,
                             rest: nat)
      requires field == if v < 0 || f.printSign then Max(fieldWidth - 1, 0) else fieldWidth
      requires rest == if f.left then field else Min(field, width)
      ensures SignedText(v, body, width, numDigits, fieldWidth, f)
        == Front(v, field - width, f, f.padZero && numDigits == 0) + FieldText(body, width, numDigits, rest, f)
    {
      hide Fill;
    }
  }
}
