/** The two 8-bit checksums: DS18B20 shifts right, lowest bit first, from 0; DHT20 and SGP30 shift left, highest bit
    first, from 0xFF. */
module Crc8 {
  import opened Xor8

  datatype Order = LowFirst | HighFirst

  function Init(o: Order): bv8 {
    if o.LowFirst? then 0 else 0xFF
  }

  /** The bit of a register or byte whose turn it is. */
  function Front(o: Order, r: bv8): bool {
    if o.LowFirst? then r & 1 == 1 else r & 0x80 == 0x80
  }

  function Shift(o: Order, r: bv8): bv8 {
    if o.LowFirst? then r >> 1 else r << 1
  }

  function Poly(o: Order): bv8 {
    if o.LowFirst? then 0x8C else 0x31
  }

  /** The checksum register after one more bit of the message. */
  function Step(o: Order, crc: bv8, bit: bool): bv8 {
    if Front(o, crc) != bit then Shift(o, crc) ^ Poly(o) else Shift(o, crc)
  }

  function Run(o: Order, crc: bv8, bits: seq<bool>): bv8
    decreases |bits|
  {
    if bits == [] then crc else Run(o, Step(o, crc, bits[0]), bits[1..])
  }

  /** The next `n` bits of a byte, in the order in which they are taken. */
  function BitsLeft(o: Order, r: bv8, n: nat): (s: seq<bool>)
    ensures |s| == n
    decreases n
  {
    if n == 0 then [] else [Front(o, r)] + BitsLeft(o, Shift(o, r), n - 1)
  }

  function Bits(o: Order, b: bv8): (s: seq<bool>)
    ensures |s| == 8
  {
    BitsLeft(o, b, 8)
  }

  function MessageBits(o: Order, data: seq<bv8>): (s: seq<bool>)
    ensures |s| == 8 * |data|
  {
    if data == [] then [] else MessageBits(o, data[..|data| - 1]) + Bits(o, data[|data| - 1])
  }

  /** The checksum of a message. */
  function Crc(o: Order, data: seq<bv8>): bv8 {
    Run(o, Init(o), MessageBits(o, data))
  }

  /** A message that carries its own checksum at the end leaves zero. */
  predicate Accepts(o: Order, frame: seq<bv8>) {
    Crc(o, frame) == 0
  }

  function ShiftedBy(o: Order, r: bv8, n: nat): bv8
    decreases n
  {
    if n == 0 then r else ShiftedBy(o, Shift(o, r), n - 1)
  }

  function Zeros(n: nat): (s: seq<bool>)
    ensures |s| == n
  {
    if n == 0 then [] else [false] + Zeros(n - 1)
  }

  lemma {:induction false} RunConcat(o: Order, crc: bv8, x: seq<bool>, y: seq<bool>)
    ensures Run(o, crc, x + y) == Run(o, Run(o, crc, x), y)
    decreases |x|
  {
    hide Step;
    if x == [] {
      assert x + y == y;
    } else {
      assert (x + y)[1..] == x[1..] + y;
      RunConcat(o, Step(o, crc, x[0]), x[1..], y);
    }
  }

  lemma StepXor(o: Order, crc: bv8, r: bv8)
    ensures Step(o, Xor(crc, r), false) == Xor(Step(o, crc, Front(o, r)), Shift(o, r))
  {
    hide Step, Front, Shift;
    StepAdds(o, crc, r);
  }

  lemma StepAdds(o: Order, crc: bv8, r: bv8)
    ensures Step(o, crc ^ r, false) == Step(o, crc, Front(o, r)) ^ Shift(o, r)
  {
    hide Front, Shift, Poly;
    FrontXor(o, crc, r);
    ShiftXor(o, crc, r);
  }

  lemma FrontXor(o: Order, x: bv8, y: bv8)
    ensures Front(o, x ^ y) <==> Front(o, x) != Front(o, y)
  {
    if o.LowFirst? {
      XorLowBit(x, y);
    } else {
      XorHighBit(x, y);
    }
  }

  lemma ShiftXor(o: Order, x: bv8, y: bv8)
    ensures Shift(o, x ^ y) == Shift(o, x) ^ Shift(o, y)
  {
    if o.LowFirst? {
      XorRight(x, y);
    } else {
      XorLeft(x, y);
    }
  }

  lemma StepTells(o: Order, x: bv8, y: bv8, bit: bool)
    requires x != y
    ensures Step(o, x, bit) != Step(o, y, bit)
  {
  }

  /** The same bits keep different registers different. */
  lemma {:induction false} RunTells(o: Order, x: bv8, y: bv8, bits: seq<bool>)
    requires x != y
    ensures Run(o, x, bits) != Run(o, y, bits)
    decreases |bits|
  {
    hide Step;
    if bits != [] {
      StepTells(o, x, y, bits[0]);
      RunTells(o, Step(o, x, bits[0]), Step(o, y, bits[0]), bits[1..]);
    }
  }

  lemma OneBit(o: Order, crc: bv8, r: bv8, n: nat)
    ensures Run(o, crc, BitsLeft(o, r, n + 1)) == Run(o, Step(o, crc, Front(o, r)), BitsLeft(o, Shift(o, r), n))
  {
    hide Step, Shift, Front;
    assert BitsLeft(o, r, n + 1)[1..] == BitsLeft(o, Shift(o, r), n);
  }

  lemma OneZero(o: Order, crc: bv8, n: nat)
    ensures Run(o, crc, Zeros(n + 1)) == Run(o, Step(o, crc, false), Zeros(n))
  {
    hide Step;
    assert Zeros(n + 1)[1..] == Zeros(n);
  }

  /** Taking in the bits of `r` one by one is the same as adding `r` to the register at once. */
  lemma {:induction false} RunXor(o: Order, crc: bv8, r: bv8, n: nat)
    ensures Xor(Run(o, crc, BitsLeft(o, r, n)), ShiftedBy(o, r, n)) == Run(o, Xor(crc, r), Zeros(n))
    decreases n
  {
    hide Step, Shift, Front, BitsLeft, Zeros;
    if n == 0 {
      RunXorNothing(o, crc, r);
    } else {
      hide Run, ShiftedBy, Xor;
      var crc', r' := Step(o, crc, Front(o, r)), Shift(o, r);
      OneBit(o, crc, r, n - 1);
      OneZero(o, Xor(crc, r), n - 1);
      OneShift(o, r, n - 1);
      StepXor(o, crc, r);
      RunXor(o, crc', r', n - 1);
    }
  }

  lemma RunXorNothing(o: Order, crc: bv8, r: bv8)
    ensures Xor(Run(o, crc, BitsLeft(o, r, 0)), ShiftedBy(o, r, 0)) == Run(o, Xor(crc, r), Zeros(0))
  {
    hide Xor;
  }

  lemma OneShift(o: Order, r: bv8, n: nat)
    ensures ShiftedBy(o, r, n + 1) == ShiftedBy(o, Shift(o, r), n)
  {
    hide Shift;
  }

  lemma {:induction false} ShiftsCompose(o: Order, r: bv8, n: nat)
    ensures ShiftedBy(o, r, n + 1) == Shift(o, ShiftedBy(o, r, n))
    decreases n
  {
    hide Shift;
    if n > 0 {
      ShiftsCompose(o, Shift(o, r), n - 1);
    }
  }

  lemma ShiftedAway(o: Order, r: bv8)
    ensures ShiftedBy(o, r, 8) == 0
  {
    var r1 := Shift(o, r);
    var r2 := Shift(o, r1);
    var r3 := Shift(o, r2);
    var r4 := Shift(o, r3);
    assert ShiftedBy(o, r, 8) == ShiftedBy(o, r4, 4) by {
      hide Shift;
      assert ShiftedBy(o, r, 8) == ShiftedBy(o, r1, 7);
      assert ShiftedBy(o, r1, 7) == ShiftedBy(o, r2, 6);
      assert ShiftedBy(o, r2, 6) == ShiftedBy(o, r3, 5);
    }
    assert r4 == if o.LowFirst? then r >> 4 else r << 4;
    var r6 := Shift(o, Shift(o, r4));
    assert ShiftedBy(o, r4, 4) == ShiftedBy(o, r6, 2) by {
      hide Shift;
      assert ShiftedBy(o, r4, 4) == ShiftedBy(o, Shift(o, r4), 3);
    }
    assert ShiftedBy(o, r6, 2) == Shift(o, Shift(o, r6)) by {
      hide Shift;
      assert ShiftedBy(o, r6, 2) == ShiftedBy(o, Shift(o, r6), 1);
    }
  }

  lemma {:induction false} ZeroStaysZero(o: Order, n: nat)
    ensures Run(o, 0, Zeros(n)) == 0
  {
    if n > 0 {
      assert Zeros(n)[1..] == Zeros(n - 1);
      ZeroStaysZero(o, n - 1);
    }
  }

  lemma RunByte(o: Order, crc: bv8, b: bv8)
    ensures Run(o, crc, Bits(o, b)) == Run(o, crc ^ b, Zeros(8))
  {
    hide Run, Shift;
    RunXor(o, crc, b, 8);
    ShiftedAway(o, b);
  }

  /** A byte brings the register to zero exactly when it equals the register. */
  lemma ByteClears(o: Order, crc: bv8, b: bv8)
    ensures Run(o, crc, Bits(o, b)) == 0 <==> crc == b
  {
    hide Run, Bits;
    RunByte(o, crc, b);
    ZeroStaysZero(o, 8);
    XorIsZero(crc, b);
    if crc ^ b != 0 {
      RunTells(o, crc ^ b, 0, Zeros(8));
    }
  }

  /** From the same register, different bytes lead to different registers. */
  lemma BytesTell(o: Order, crc: bv8, b: bv8, c: bv8)
    requires b != c
    ensures Run(o, crc, Bits(o, b)) != Run(o, crc, Bits(o, c))
  {
    hide Run, Bits;
    RunByte(o, crc, b);
    RunByte(o, crc, c);
    XorCancels(crc, b, c);
    RunTells(o, crc ^ b, crc ^ c, Zeros(8));
  }

  /** A message followed by a byte is accepted exactly when the byte is the message's checksum. */
  lemma AcceptsExactlyTheChecksum(o: Order, data: seq<bv8>, c: bv8)
    ensures Accepts(o, data + [c]) <==> c == Crc(o, data)
  {
    hide Run, Bits;
    assert (data + [c])[..|data|] == data;
    RunConcat(o, Init(o), MessageBits(o, data), Bits(o, c));
    ByteClears(o, Crc(o, data), c);
  }

  /** The byte whose next bits are `w`. */
  function Pack(o: Order, w: seq<bool>): bv8 {
    if w == [] then 0 else Prepend(o, w[0], Pack(o, w[1..]))
  }

  lemma {:induction false} ShiftedZero(o: Order, n: nat)
    ensures ShiftedBy(o, 0, n) == 0
  {
    if n > 0 {
      ShiftedZero(o, n - 1);
    }
  }

  lemma {:induction false} ShiftedFurther(o: Order, r: bv8, n: nat, m: nat)
    requires ShiftedBy(o, r, n) == 0 && n <= m
    ensures ShiftedBy(o, r, m) == 0
    decreases m
  {
    if n < m {
      ShiftedFurther(o, r, n, m - 1);
      ShiftsCompose(o, r, m - 1);
    }
  }

  lemma LastBitIsFree(o: Order, r: bv8)
    requires ShiftedBy(o, r, 7) == 0
    ensures if o.LowFirst? then r & 0x80 == 0 else r & 1 == 0
  {
    var r4 := Shift(o, Shift(o, Shift(o, Shift(o, r))));
    assert r4 == if o.LowFirst? then r >> 4 else r << 4;
    var r7 := Shift(o, Shift(o, Shift(o, r4)));
    assert r7 == if o.LowFirst? then r >> 7 else r << 7;
    assert ShiftedBy(o, r, 7) == r7 by {
      hide Shift;
      assert ShiftedBy(o, r, 7) == ShiftedBy(o, Shift(o, r), 6);
      assert ShiftedBy(o, Shift(o, r), 6) == ShiftedBy(o, Shift(o, Shift(o, r)), 5);
      assert ShiftedBy(o, Shift(o, Shift(o, r)), 5) == ShiftedBy(o, r4, 3);
      assert ShiftedBy(o, r4, 3) == ShiftedBy(o, Shift(o, r4), 2);
    }
  }

  /** The byte whose next bit is `first` and whose other bits are those of `r`. */
  function Prepend(o: Order, first: bool, r: bv8): bv8 {
    if o.LowFirst? then (r << 1) | (if first then 1 else 0) else (r >> 1) | (if first then 0x80 else 0)
  }

  lemma PrependLow(first: bool, r: bv8)
    requires r & 0x80 == 0
    ensures Prepend(LowFirst, first, r) >> 1 == r && (Prepend(LowFirst, first, r) & 1 == 1 <==> first)
  {
  }

  lemma PrependHigh(first: bool, r: bv8)
    requires r & 1 == 0
    ensures Prepend(HighFirst, first, r) << 1 == r && (Prepend(HighFirst, first, r) & 0x80 == 0x80 <==> first)
  {
  }

  /** A register with a free last bit comes back when the bit prepended to it is shifted out. */
  lemma PrependsOneBit(o: Order, first: bool, r: bv8)
    requires ShiftedBy(o, r, 7) == 0
    ensures Shift(o, Prepend(o, first, r)) == r && Front(o, Prepend(o, first, r)) == first
  {
    LastBitIsFree(o, r);
    hide Prepend;
    if o.LowFirst? {
      PrependLow(first, r);
    } else {
      PrependHigh(first, r);
    }
  }

  lemma OneMoreBit(o: Order, r: bv8, n: nat)
    ensures BitsLeft(o, r, n + 1) == [Front(o, r)] + BitsLeft(o, Shift(o, r), n)
    ensures ShiftedBy(o, r, n + 1) == ShiftedBy(o, Shift(o, r), n)
  {
    hide Front, Shift;
  }

  /** Any up to eight bits are the bits of some byte. */
  lemma {:induction false} PackIsExact(o: Order, w: seq<bool>)
    requires |w| <= 8
    ensures BitsLeft(o, Pack(o, w), |w|) == w
    ensures ShiftedBy(o, Pack(o, w), |w|) == 0
  {
    hide Front, Shift, Prepend;
    if w != [] {
      var r := Pack(o, w[1..]);
      PackIsExact(o, w[1..]);
      ShiftedFurther(o, r, |w| - 1, 7);
      PrependsOneBit(o, w[0], r);
      OneMoreBit(o, Pack(o, w), |w| - 1);
    }
  }

  /** Two messages of the same length whose bits differ only within a stretch of eight have different checksums,
      wherever the stretch lies. */
  lemma DetectsBurst(o: Order, x: seq<bool>, u: seq<bool>, v: seq<bool>, y: seq<bool>, crc: bv8)
    requires |u| == |v| == 8 && u != v
    ensures Run(o, crc, x + u + y) != Run(o, crc, x + v + y)
  {
    hide Run, Step, Pack;
    PackIsExact(o, u);
    PackIsExact(o, v);
    RunConcat(o, crc, x + u, y);
    RunConcat(o, crc, x, u);
    RunConcat(o, crc, x + v, y);
    RunConcat(o, crc, x, v);
    var s := Run(o, crc, x);
    BytesTell(o, s, Pack(o, u), Pack(o, v));
    RunTells(o, Run(o, s, u), Run(o, s, v), y);
  }

  /** The bits of the two frames agree except from `at` on for `length` bits. */
  ghost predicate Burst(o: Order, sent: seq<bv8>, got: seq<bv8>, at: nat, length: nat) {
    var a, b := MessageBits(o, sent), MessageBits(o, got);
    && |sent| == |got| && at + length <= |a|
    && forall k :: 0 <= k < |a| && !(at <= k < at + length) ==> a[k] == b[k]
  }

  lemma {:induction false} BitsDetermineBytes(o: Order, a: seq<bv8>, b: seq<bv8>)
    requires MessageBits(o, a) == MessageBits(o, b)
    ensures a == b
  {
    hide Bits;
    assert |a| == |b|;
    if a != [] {
      var n := |a| - 1;
      var x, y := MessageBits(o, a[..n]), MessageBits(o, b[..n]);
      assert MessageBits(o, a)[..|x|] == x && MessageBits(o, b)[..|y|] == y;
      assert MessageBits(o, a)[|x|..] == Bits(o, a[n]) && MessageBits(o, b)[|y|..] == Bits(o, b[n]);
      BitsDetermineBytes(o, a[..n], b[..n]);
      if a[n] != b[n] {
        BytesTell(o, 0, a[n], b[n]);
      }
      assert a == a[..n] + [a[n]] && b == b[..n] + [b[n]];
    }
  }

  /** A frame that was accepted when sent is not accepted after an error burst of at most eight bits, checksum
      included. */
  lemma BurstIsNotAccepted(o: Order, sent: seq<bv8>, got: seq<bv8>, at: nat, length: nat)
    requires Accepts(o, sent) && sent != got && length <= 8 && Burst(o, sent, got, at, length)
    ensures !Accepts(o, got)
  {
    hide Run;
    var a, b := MessageBits(o, sent), MessageBits(o, got);
    if a == b {
      BitsDetermineBytes(o, sent, got);
    }
    assert |a| != 0;
    hide MessageBits;
    var k := SplitBurst(a, b, at, length);
    DetectsBurst(o, a[..k], a[k..k + 8], b[k..k + 8], a[k + 8..], Init(o));
  }

  lemma SplitBurst(a: seq<bool>, b: seq<bool>, at: nat, length: nat) returns (k: nat)
    requires |a| == |b| >= 8 && length <= 8 && at + length <= |a| && a != b
    requires forall i :: 0 <= i < |a| && !(at <= i < at + length) ==> a[i] == b[i]
    ensures k + 8 <= |a| && a[k..k + 8] != b[k..k + 8]
    ensures a == a[..k] + a[k..k + 8] + a[k + 8..]
    ensures b == a[..k] + b[k..k + 8] + a[k + 8..]
  {
    k := if at + 8 <= |a| then at else |a| - 8;
    assert b == a[..k] + b[k..k + 8] + a[k + 8..];
  }

  /** The check of a frame whose last byte is its checksum. */
  method DS18B20Crc(data: seq<bv8>) returns (ok: bool)
    ensures ok <==> Accepts(LowFirst, data)
  {
    hide Run, Step, Front, MessageBits, BitsLeft;
    var crc: bv8 := 0;
    assert Run(LowFirst, 0, []) == 0 by {
      RunNothing(LowFirst, 0);
    }
    for n := 0 to |data|
      invariant crc == Crc(LowFirst, data[..n])
    {
      ghost var before := crc;
      var bit := data[n];
      for i := 0 to 8
        invariant Run(LowFirst, before, Bits(LowFirst, data[n])) == Run(LowFirst, crc, BitsLeft(LowFirst, bit, 8 - i))
      {
        ghost var crc0, bit0 := crc, bit;
        var sum := (crc ^ bit) & 0x01;
        crc := crc >> 1;
        if sum != 0 {
          crc := crc ^ 0x8C;
        }
        bit := bit >> 1;
        OneBit(LowFirst, crc0, bit0, 7 - i);
        LowStep(crc0, bit0);
        assert Shift(LowFirst, bit0) == bit;
      }
      RunNothing(LowFirst, crc);
      OneByte(LowFirst, data, n);
    }
    assert data[..|data|] == data;
    ok := crc == 0;
  }

  /** The checksum that is compared with a frame's last byte. */
  method DHT20Crc(data: seq<bv8>) returns (crc: bv8)
    ensures crc == Crc(HighFirst, data)
  {
    hide Run, Step, Bits;
    crc := 0xFF;
    assert Run(HighFirst, 0xFF, []) == 0xFF by {
      RunNothing(HighFirst, 0xFF);
    }
    for n := 0 to |data|
      invariant crc == Crc(HighFirst, data[..n])
    {
      ghost var before := crc;
      crc := crc ^ data[n];
      RunByte(HighFirst, before, data[n]);
      for j := 0 to 8
        invariant Run(HighFirst, before, Bits(HighFirst, data[n])) == Run(HighFirst, crc, Zeros(8 - j))
      {
        ghost var crc0 := crc;
        if crc & 0x80 != 0 {
          crc := (crc << 1) ^ 0x31;
        } else {
          crc := crc << 1;
        }
        HighStep(crc0);
        OneZero(HighFirst, crc0, 7 - j);
      }
      RunNothing(HighFirst, crc);
      OneByte(HighFirst, data, n);
    }
    assert data[..|data|] == data;
  }

  lemma RunNothing(o: Order, crc: bv8)
    ensures Run(o, crc, []) == crc
  {
  }

  lemma OneByte(o: Order, data: seq<bv8>, n: nat)
    requires n < |data|
    ensures Crc(o, data[..n + 1]) == Run(o, Crc(o, data[..n]), Bits(o, data[n]))
  {
    hide Run, Bits;
    assert data[..n + 1][..n] == data[..n];
    RunConcat(o, Init(o), MessageBits(o, data[..n]), Bits(o, data[n]));
  }

  lemma LowStep(crc: bv8, r: bv8)
    ensures Step(LowFirst, crc, Front(LowFirst, r)) ==
      if (crc ^ r) & 0x01 != 0 then (crc >> 1) ^ 0x8C else crc >> 1
  {
  }

  lemma HighStep(crc: bv8)
    ensures Step(HighFirst, crc, false) == if crc & 0x80 != 0 then (crc << 1) ^ 0x31 else crc << 1
  {
  }
}
