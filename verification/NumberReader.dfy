/** Reading back what was printed. The source has no such reader. It takes blanks away at both ends, then an optional
    sign, and accepts nothing but digits of the base after that. */
module NumberReader {
  import opened Bytes
  import opened NumberPrinter
  import opened Wrappers

  function DropFront(s: string): string {
    if s != [] && s[0] == ' ' then DropFront(s[1..]) else s
  }

  function DropBack(s: string): string {
    if s != [] && s[|s| - 1] == ' ' then DropBack(s[..|s| - 1]) else s
  }

  function Trimmed(s: string): string {
    DropBack(DropFront(s))
  }

  predicate IsDigit(c: char, b: Base) {
    c in DIGITS[..b]
  }

  predicate IsNumeral(s: string, b: Base) {
    s != [] && forall k :: 0 <= k < |s| ==> IsDigit(s[k], b)
  }

  function ReadDigits(s: string, b: Base): Option<nat> {
    if IsNumeral(s, b) then Some(Parse(s, b)) else None
  }

  function ReadUnsigned(s: string, b: Base): Option<nat> {
    ReadDigits(Trimmed(s), b)
  }

  function ReadInt(s: string, b: Base): Option<int> {
    var t := Trimmed(s);
    if t != [] && t[0] == '-' then
      match ReadDigits(t[1..], b)
      case None => None
      case Some(n) => Some(0 - n)
    else ReadDigits(if t != [] && t[0] == '+' then t[1..] else t, b)
  }

  /** A text that neither begins nor ends with a blank. */
  predicate Bare(t: string) {
    t != [] && t[0] != ' ' && t[|t| - 1] != ' '
  }

  lemma {:induction false} DropsFront(n: nat, t: string)
    requires t != [] && t[0] != ' '
    ensures DropFront(Fill(n, ' ') + t) == t
  {
    if n == 0 {
      assert Fill(n, ' ') + t == t;
    } else {
      DropsFront(n - 1, t);
      assert (Fill(n, ' ') + t)[1..] == Fill(n - 1, ' ') + t;
    }
  }

  lemma {:induction false} DropsBack(t: string, n: nat)
    requires t != [] && t[|t| - 1] != ' '
    ensures DropBack(t + Fill(n, ' ')) == t
  {
    if n == 0 {
      assert t + Fill(n, ' ') == t;
    } else {
      DropsBack(t, n - 1);
      var s := t + Fill(n, ' ');
      assert s[..|s| - 1] == t + Fill(n - 1, ' ');
    }
  }

  /** Padding with blanks is taken away, on either side. */
  lemma Trims(front: nat, t: string, back: nat)
    requires Bare(t)
    ensures Trimmed(Fill(front, ' ') + t + Fill(back, ' ')) == t
  {
    hide Fill, DropFront, DropBack;
    var s := t + Fill(back, ' ');
    assert Fill(front, ' ') + t + Fill(back, ' ') == Fill(front, ' ') + s;
    DropsFront(front, s);
    DropsBack(t, back);
  }

  lemma DigitIsPlain(c: char, b: Base)
    requires IsDigit(c, b)
    ensures c != ' ' && c != '-' && c != '+'
  {
    var k :| 0 <= k < b && DIGITS[..b][k] == c;
    DigitRoundTrip(k);
    assert c == DIGITS[k];
    assert DIGITS == ['0', '1', '2', '3', '4', '5', '6', '7', '8', '9', 'A', 'B', 'C', 'D', 'E', 'F'];
  }

  lemma {:induction false} NumeralHasDigits(v: nat, b: Base, n: nat)
    ensures forall k :: 0 <= k < n ==> IsDigit(Numeral(v, b, n)[k], b)
  {
    if n > 0 {
      NumeralHasDigits(v / b, b, n - 1);
      var d := v % b;
      assert DIGITS[..b][d] == DigitChar(d);
      hide IsDigit;
      forall k | 0 <= k < n
        ensures IsDigit(Numeral(v, b, n)[k], b)
      {
        assert Numeral(v, b, n)[k] == if k < n - 1 then Numeral(v / b, b, n - 1)[k] else DigitChar(d);
      }
    }
  }

  lemma {:induction false} ZerosAreNothing(n: nat, b: Base)
    ensures Parse(Fill(n, '0'), b) == 0
  {
    if n > 0 {
      ZerosAreNothing(n - 1, b);
      assert Fill(n, '0')[..n - 1] == Fill(n - 1, '0');
    }
  }

  /** Leading zeros make no difference. */
  lemma {:induction false} LeadingZeros(n: nat, t: string, b: Base)
    ensures Parse(Fill(n, '0') + t, b) == Parse(t, b)
    decreases |t|
  {
    var s := Fill(n, '0') + t;
    if t == [] {
      assert s == Fill(n, '0');
      ZerosAreNothing(n, b);
    } else {
      assert s[..|s| - 1] == Fill(n, '0') + t[..|t| - 1];
      hide Fill;
      LeadingZeros(n, t[..|t| - 1], b);
    }
  }

  /** The digits with zeros before them are read as the number. */
  lemma DigitsAreRead(v: u32, b: Base, numDigits: nat, zeros: nat)
    ensures ReadDigits(Fill(zeros, '0') + Body(v, b, numDigits), b) == Some(v)
  {
    var body := Body(v, b, numDigits);
    var s := Fill(zeros, '0') + body;
    assert IsNumeral(s, b) by {
      NumeralHasDigits(v, b, |body|);
      assert DIGITS[..b][0] == '0';
      forall k | 0 <= k < |s|
        ensures IsDigit(s[k], b)
      {
        assert s[k] == if k < zeros then '0' else body[k - zeros];
      }
    }
    hide Body, Fill, Parse, IsNumeral;
    LeadingZeros(zeros, body, b);
    BodyParses(v, b, numDigits);
  }

  lemma NumeralIsBare(s: string, b: Base)
    requires IsNumeral(s, b)
    ensures Bare(s) && s[0] != '-' && s[0] != '+'
  {
    DigitIsPlain(s[0], b);
    DigitIsPlain(s[|s| - 1], b);
  }

  lemma SignedIsBare(sign: string, s: string, b: Base)
    requires |sign| <= 1 && (sign != [] ==> sign[0] != ' ') && IsNumeral(s, b)
    ensures Bare(sign + s)
  {
    NumeralIsBare(s, b);
  }

  /** Whether the gap in the field is filled with zeros. */
  predicate ZeroPadded(numDigits: nat, f: Flags) {
    !f.left && f.padZero && numDigits == 0
  }

  /** The text is made of blanks, sign, zeros, digits and blanks. */
  lemma TextIsPadded(sign: string, body: string, n: int, numDigits: nat, f: Flags)
    ensures
      var zeros, gap := ZeroPadded(numDigits, f), Max(n, 0);
      Pad(!f.left && !zeros, n, ' ') + sign + Pad(zeros, n, '0') + body + Pad(f.left, n, ' ')
        == Fill(if f.left || zeros then 0 else gap, ' ') + (sign + (Fill(if zeros then gap else 0, '0') + body))
          + Fill(if f.left then gap else 0, ' ')
  {
    var zeros, gap := ZeroPadded(numDigits, f), Max(n, 0);
    var p, q, r := Pad(!f.left && !zeros, n, ' '), Pad(zeros, n, '0'), Pad(f.left, n, ' ');
    assert p == Fill(if f.left || zeros then 0 else gap, ' ');
    assert q == Fill(if zeros then gap else 0, '0');
    assert r == Fill(if f.left then gap else 0, ' ');
    hide Fill, Pad;
    Regroups(p, sign, q, body, r);
  }

  lemma Regroups(p: string, s: string, q: string, t: string, r: string)
    ensures p + s + q + t + r == p + (s + (q + t)) + r
  {
  }

  lemma NothingBefore(s: string)
    ensures "" + s == s
  {
  }

  /** Every number that is printed is read back, whatever the base, the count of digits, the field width and the flags
      are; and the gap in the field holds zeros if these are asked for, else blanks. */
  lemma ReadsUnsignedBack(v: u32, b: Base, numDigits: nat, fieldWidth: nat, f: Flags)
    ensures
      var s := UnsignedText(v, b, numDigits, fieldWidth, f);
      && ReadUnsigned(s, b) == Some(v)
      && |Trimmed(s)| == if ZeroPadded(numDigits, f) then |s| else Max(Width(v, b), numDigits)
  {
    var body := Body(v, b, numDigits);
    var gap, zeros := Max(fieldWidth - |body|, 0), ZeroPadded(numDigits, f);
    var core := Fill(if zeros then gap else 0, '0') + body;
    hide UnsignedText, Pad, Fill, Body, Width, Trimmed, IsNumeral, ReadDigits;
    UnsignedTextParts(v, b, numDigits, fieldWidth, f);
    TextIsPadded("", body, fieldWidth - |body|, numDigits, f);
    NothingBefore(core);
    DigitsAreRead(v, b, numDigits, if zeros then gap else 0);
    assert IsNumeral(core, b) by {
      ReadMeansNumeral(core, b);
    }
    NumeralIsBare(core, b);
    Trims(if f.left || zeros then 0 else gap, core, if f.left then gap else 0);
  }

  lemma ReadMeansNumeral(s: string, b: Base)
    requires ReadDigits(s, b).Some?
    ensures IsNumeral(s, b)
  {
  }

  /** Without the blanks around it, the text is the sign and a numeral. */
  lemma IntTextTrims(v: i32, b: Base, numDigits: nat, fieldWidth: nat, f: Flags) returns (core: string)
    ensures
      var s := IntText(v, b, numDigits, fieldWidth, f);
      && Trimmed(s) == SignOf(v, f) + core && IsNumeral(core, b) && ReadDigits(core, b) == Some(Magnitude(v))
      && core[0] != '-' && core[0] != '+'
      && |SignOf(v, f) + core| ==
        if ZeroPadded(numDigits, f) then |s| else |SignOf(v, f)| + Max(Width(Magnitude(v), b), numDigits)
  {
    var sign, body := SignOf(v, f), Body(Magnitude(v), b, numDigits);
    var gap, zeros := Max(fieldWidth - |sign| - |body|, 0), ZeroPadded(numDigits, f);
    core := Fill(if zeros then gap else 0, '0') + body;
    hide IntText, Pad, Fill, Body, Width, Trimmed, IsNumeral, ReadDigits;
    IntTextParts(v, b, numDigits, fieldWidth, f);
    TextIsPadded(sign, body, fieldWidth - |sign| - |body|, numDigits, f);
    DigitsAreRead(Magnitude(v), b, numDigits, if zeros then gap else 0);
    ReadMeansNumeral(core, b);
    SignedIsBare(sign, core, b);
    NumeralIsBare(core, b);
    Trims(if f.left || zeros then 0 else gap, sign + core, if f.left then gap else 0);
  }

  /** So is every signed number, with its sign. */
  lemma ReadsIntBack(v: i32, b: Base, numDigits: nat, fieldWidth: nat, f: Flags)
    ensures
      var s := IntText(v, b, numDigits, fieldWidth, f);
      && ReadInt(s, b) == Some(v)
      && |Trimmed(s)| ==
        if ZeroPadded(numDigits, f) then |s| else |SignOf(v, f)| + Max(Width(Magnitude(v), b), numDigits)
  {
    hide IntText, Width, Trimmed, IsNumeral, ReadDigits;
    var core := IntTextTrims(v, b, numDigits, fieldWidth, f);
    assert SignOf(v, f) != [] ==> (SignOf(v, f) + core)[1..] == core;
    assert SignOf(v, f) == [] ==> SignOf(v, f) + core == core;
  }

  /** A minus stands before negative numbers only, and a plus before the others if the flag asks for it. */
  lemma SignIsPrinted(v: i32, b: Base, numDigits: nat, fieldWidth: nat, f: Flags)
    ensures
      var t := Trimmed(IntText(v, b, numDigits, fieldWidth, f));
      t != [] && (t[0] == '+' <==> v >= 0 && f.printSign) && (t[0] == '-' <==> v < 0)
  {
    hide IntText, Width, Trimmed, ReadDigits;
    var core := IntTextTrims(v, b, numDigits, fieldWidth, f);
    assert SignOf(v, f) == [] ==> SignOf(v, f) + core == core;
  }
}
