/** What both checksums compute: the remainder of the message's bits, taken as a polynomial over two elements, when it
    is divided by x^8 + x^5 + x^4 + 1. */
module CrcDivision {
  import opened Crc8
  import opened Xor8

  /** The divisor's coefficients behind that of x^8. */
  const GENERATOR: seq<bool> := [false, false, true, true, false, false, false, true]

  /** Adds `g` to the first coefficients of `w`. */
  function Added(w: seq<bool>, g: seq<bool>): (s: seq<bool>)
    requires |g| <= |w|
    ensures |s| == |w|
  {
    seq(|w|, k requires 0 <= k < |w| => if k < |g| then w[k] != g[k] else w[k])
  }

  /** A polynomial times the divisor, highest coefficient first. */
  function Product(q: seq<bool>): (w: seq<bool>)
    ensures |w| == |q| + 8
  {
    if q == [] then seq(8, _ => false)
    else if q[0] then [true] + Added(Product(q[1..]), GENERATOR)
    else [false] + Product(q[1..])
  }

  ghost predicate Multiple(w: seq<bool>) {
    exists q :: w == Product(q)
  }

  /** What is left to divide when the first coefficient is done with. */
  function Divided(w: seq<bool>): seq<bool>
    requires |w| > 8
  {
    if w[0] then Added(w[1..], GENERATOR) else w[1..]
  }

  lemma AddedTwice(w: seq<bool>, g: seq<bool>)
    requires |g| <= |w|
    ensures Added(Added(w, g), g) == w
  {
  }

  /** A step of the division keeps multiples multiples, and others not. */
  lemma DividedIsMultiple(w: seq<bool>)
    requires |w| > 8
    ensures Multiple(Divided(w)) <==> Multiple(w)
  {
    if Multiple(Divided(w)) {
      var q :| Divided(w) == Product(q);
      AddedTwice(w[1..], GENERATOR);
      assert ([w[0]] + q)[1..] == q;
      assert w == Product([w[0]] + q);
    }
    if Multiple(w) {
      var q :| w == Product(q);
      AddedTwice(Product(q[1..]), GENERATOR);
      assert Divided(w) == Product(q[1..]);
    }
  }

  lemma MultipleOfLength8(w: seq<bool>)
    requires |w| == 8
    ensures Multiple(w) <==> forall k :: 0 <= k < 8 ==> !w[k]
  {
    if forall k :: 0 <= k < 8 ==> !w[k] {
      assert w == Product([]);
    }
  }

  /** The bits of a byte, lowest or highest first. */
  function Flags(o: Order, b: bv8): (s: seq<bool>)
    ensures |s| == 8
  {
    if o.LowFirst? then
      [b & 1 != 0, b & 2 != 0, b & 4 != 0, b & 8 != 0, b & 16 != 0, b & 32 != 0, b & 64 != 0, b & 128 != 0]
    else
      [b & 128 != 0, b & 64 != 0, b & 32 != 0, b & 16 != 0, b & 8 != 0, b & 4 != 0, b & 2 != 0, b & 1 != 0]
  }

  lemma LowFlags(b: bv8)
    ensures (b >> 1) & 1 != 0 <==> b & 2 != 0
    ensures (b >> 1) & 2 != 0 <==> b & 4 != 0
    ensures (b >> 1) & 4 != 0 <==> b & 8 != 0
    ensures (b >> 1) & 8 != 0 <==> b & 16 != 0
    ensures (b >> 1) & 16 != 0 <==> b & 32 != 0
    ensures (b >> 1) & 32 != 0 <==> b & 64 != 0
    ensures (b >> 1) & 64 != 0 <==> b & 128 != 0
    ensures (b >> 1) & 128 == 0
    ensures b & 1 != 0 <==> b & 1 == 1
  {
  }

  lemma HighFlags(b: bv8)
    ensures (b << 1) & 128 != 0 <==> b & 64 != 0
    ensures (b << 1) & 64 != 0 <==> b & 32 != 0
    ensures (b << 1) & 32 != 0 <==> b & 16 != 0
    ensures (b << 1) & 16 != 0 <==> b & 8 != 0
    ensures (b << 1) & 8 != 0 <==> b & 4 != 0
    ensures (b << 1) & 4 != 0 <==> b & 2 != 0
    ensures (b << 1) & 2 != 0 <==> b & 1 != 0
    ensures (b << 1) & 1 == 0
    ensures b & 128 != 0 <==> b & 0x80 == 0x80
  {
  }

  /** Shifting a register shifts its bits, and a zero comes in at the end. */
  lemma FlagsShifted(o: Order, r: bv8)
    ensures Flags(o, Shift(o, r)) == Flags(o, r)[1..] + [false]
    ensures Front(o, r) == Flags(o, r)[0]
  {
    hide Flags, Shift, Front;
    if o.LowFirst? {
      LowFlagsShifted(r);
    } else {
      HighFlagsShifted(r);
    }
  }

  lemma LowFlagsShifted(r: bv8)
    ensures Flags(LowFirst, Shift(LowFirst, r)) == Flags(LowFirst, r)[1..] + [false]
    ensures Front(LowFirst, r) == Flags(LowFirst, r)[0]
  {
    LowFlags(r);
    assert Shift(LowFirst, r) == r >> 1;
    hide Shift;
  }

  lemma HighFlagsShifted(r: bv8)
    ensures Flags(HighFirst, Shift(HighFirst, r)) == Flags(HighFirst, r)[1..] + [false]
    ensures Front(HighFirst, r) == Flags(HighFirst, r)[0]
  {
    HighFlags(r);
    assert Shift(HighFirst, r) == r << 1;
    hide Shift;
  }

  lemma {:induction false} BitsAreFlags(o: Order, r: bv8, n: nat)
    requires n <= 8
    ensures BitsLeft(o, r, n) == Flags(o, r)[..n]
    decreases n
  {
    FlagsShifted(o, r);
    hide Front, Shift, Flags;
    if n > 0 {
      OneMoreBit(o, r, n - 1);
      BitsAreFlags(o, Shift(o, r), n - 1);
      assert Flags(o, r)[..n] == [Flags(o, r)[0]] + Flags(o, r)[1..n];
      assert (Flags(o, r)[1..] + [false])[..n - 1] == Flags(o, r)[1..n];
    }
  }

  lemma BitsAre(o: Order, b: bv8)
    ensures Bits(o, b) == Flags(o, b)
  {
    hide Flags, BitsLeft;
    BitsAreFlags(o, b, 8);
    assert Flags(o, b)[..8] == Flags(o, b);
  }

  lemma XorSplits(o: Order, x: bv8, y: bv8)
    ensures Front(o, Xor(x, y)) == (Front(o, x) != Front(o, y))
    ensures Shift(o, Xor(x, y)) == Xor(Shift(o, x), Shift(o, y))
  {
    hide Front, Shift;
    FrontXor(o, x, y);
    ShiftXor(o, x, y);
  }

  lemma {:induction false} BitsXor(o: Order, x: bv8, y: bv8, n: nat, k: nat)
    requires k < n
    ensures BitsLeft(o, Xor(x, y), n)[k] == (BitsLeft(o, x, n)[k] != BitsLeft(o, y, n)[k])
    decreases n
  {
    hide Front, Shift, Xor;
    XorSplits(o, x, y);
    if k > 0 {
      BitsXor(o, Shift(o, x), Shift(o, y), n - 1, k - 1);
    }
  }

  lemma PolyIsGenerator(o: Order)
    ensures Bits(o, Poly(o)) == GENERATOR
  {
    hide Bits;
    BitsAre(o, Poly(o));
  }

  lemma StepBits(o: Order, r: bv8, bit: bool, k: nat)
    requires k < 8
    ensures Bits(o, Step(o, r, bit))[k] ==
      ((Bits(o, r)[1..] + [false])[k] != (Bits(o, r)[0] != bit && GENERATOR[k]))
  {
    hide Shift, Front, Poly, BitsLeft, Flags, Step, Xor;
    StepIs(o, r, bit);
    FlagsShifted(o, r);
    BitsAre(o, r);
    BitsAre(o, Shift(o, r));
    PolyIsGenerator(o);
    BitsXor(o, Shift(o, r), Poly(o), 8, k);
  }

  lemma StepIs(o: Order, r: bv8, bit: bool)
    ensures Step(o, r, bit) == if Front(o, r) != bit then Xor(Shift(o, r), Poly(o)) else Shift(o, r)
  {
    hide Shift, Front, Poly;
  }

  lemma AddsUp(w: seq<bool>, b: seq<bool>, b': seq<bool>)
    requires |w| > 8 == |b| == |b'|
    requires forall k :: 0 <= k < 8 ==> b'[k] == ((b[1..] + [false])[k] != (b[0] != w[0] && GENERATOR[k]))
    ensures Divided(Added(w, b)) == Added(w[1..], b')
  {
    forall k | 0 <= k < |w| - 1
      ensures Divided(Added(w, b))[k] == Added(w[1..], b')[k]
    {
      if k < 8 {
        assert b'[k] == ((b[1..] + [false])[k] != (b[0] != w[0] && GENERATOR[k]));
      }
    }
  }

  /** The register's bits, added to what is still to come, are what is left to divide. */
  lemma StepDivides(o: Order, r: bv8, w: seq<bool>)
    requires |w| > 8
    ensures Divided(Added(w, Bits(o, r))) == Added(w[1..], Bits(o, Step(o, r, w[0])))
  {
    hide Bits, Step, Added, Divided;
    forall k | 0 <= k < 8
      ensures Bits(o, Step(o, r, w[0]))[k] ==
        ((Bits(o, r)[1..] + [false])[k] != (Bits(o, r)[0] != w[0] && GENERATOR[k]))
    {
      StepBits(o, r, w[0], k);
    }
    AddsUp(w, Bits(o, r), Bits(o, Step(o, r, w[0])));
  }

  lemma {:induction false} RunDivides(o: Order, r: bv8, w: seq<bool>)
    requires |w| >= 8
    ensures Run(o, r, w) == 0 <==> Multiple(Added(w, Bits(o, r)))
    decreases |w|
  {
    hide Step, Bits, Multiple, Added, Divided;
    if |w| == 8 {
      WholeByte(o, r, w);
    } else {
      StepDivides(o, r, w);
      RunDivides(o, Step(o, r, w[0]), w[1..]);
      DividedIsMultiple(Added(w, Bits(o, r)));
    }
  }

  lemma WholeByte(o: Order, r: bv8, w: seq<bool>)
    requires |w| == 8
    ensures Run(o, r, w) == 0 <==> Multiple(Added(w, Bits(o, r)))
  {
    hide Run, BitsLeft, Pack, Multiple, Added;
    PackIsExact(o, w);
    ByteClears(o, r, Pack(o, w));
    ByteClears(o, r, r);
    MultipleOfLength8(Added(w, Bits(o, r)));
    SameBits(w, Bits(o, r));
  }

  lemma SameBits(w: seq<bool>, b: seq<bool>)
    requires |w| == |b| == 8
    ensures (forall k :: 0 <= k < 8 ==> !Added(w, b)[k]) <==> w == b
  {
    if forall k :: 0 <= k < 8 ==> !Added(w, b)[k] {
      forall k | 0 <= k < 8
        ensures w[k] == b[k]
      {
        assert !Added(w, b)[k];
      }
    }
  }

  /** A frame is accepted exactly if it is a multiple of the divisor, once the first eight bits are inverted where the
      register does not begin at zero. */
  lemma AcceptsExactlyMultiples(o: Order, frame: seq<bv8>)
    requires frame != []
    ensures Accepts(o, frame) <==> Multiple(Added(MessageBits(o, frame), seq(8, _ => o.HighFirst?)))
  {
    hide Run, BitsLeft, Multiple, Added, MessageBits;
    InitBits(o);
    RunDivides(o, Init(o), MessageBits(o, frame));
  }

  lemma InitBits(o: Order)
    ensures Bits(o, Init(o)) == seq(8, _ => o.HighFirst?)
  {
    hide Bits;
    BitsAre(o, Init(o));
  }
}
