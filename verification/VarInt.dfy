/** SystemView's variable-length integers: seven bits per byte, least significant group first, the top bit set on
    every byte but the last. */
module VarInt {
  import opened Bytes
  import opened Wrappers

  function EncodeU32(v: nat): (s: seq<byte>)
    ensures |s| > 0
  {
    if v > 0x7F then [v % 0x80 + 0x80] + EncodeU32(v / 0x80) else [v]
  }

  /** The value and the number of bytes it takes up; None when the input ends before the value does. */
  function DecodeU32(s: seq<byte>): (r: Option<(nat, nat)>)
    ensures r.Some? ==> 0 < r.value.1 <= |s|
  {
    if s == [] then None
    else if s[0] < 0x80 then Some((s[0], 1))
    else
      match DecodeU32(s[1..])
      case None => None
      case Some(p) => Some((p.0 * 0x80 + s[0] - 0x80, p.1 + 1))
  }

  lemma {:induction false} EncodedLength(v: nat)
    ensures v < 0x80 <==> |EncodeU32(v)| == 1
    ensures v < 0x4000 <==> |EncodeU32(v)| <= 2
    ensures v < 0x20_0000 <==> |EncodeU32(v)| <= 3
    ensures v < 0x1000_0000 <==> |EncodeU32(v)| <= 4
    ensures v < 0x8_0000_0000 <==> |EncodeU32(v)| <= 5
  {
    if v > 0x7F {
      EncodedLength(v / 0x80);
    }
  }

  /** A 32-bit value takes one to five bytes. */
  function U32Bytes(v: u32): (s: seq<byte>)
    ensures 1 <= |s| <= 5
  {
    EncodedLength(v);
    EncodeU32(v)
  }

  lemma {:induction false} DecodesEncoded(v: nat, rest: seq<byte>)
    ensures DecodeU32(EncodeU32(v) + rest) == Some((v, |EncodeU32(v)|))
  {
    var s := EncodeU32(v) + rest;
    if v > 0x7F {
      assert s[1..] == EncodeU32(v / 0x80) + rest;
      DecodesEncoded(v / 0x80, rest);
    }
  }

  /** More input does not change what was decoded. */
  lemma {:induction false} DecodeU32Extends(s: seq<byte>, rest: seq<byte>)
    requires DecodeU32(s).Some?
    ensures DecodeU32(s + rest) == DecodeU32(s)
  {
    if s[0] >= 0x80 {
      assert (s + rest)[1..] == s[1..] + rest;
      DecodeU32Extends(s[1..], rest);
    }
  }

  /** The event id as `_SendPacket` prepends it, byte by byte from the last to the first. */
  function EncodeId(id: u32): (s: seq<byte>)
    ensures 1 <= |s| <= 5
  {
    if id < 127 then [id]
    else if id < 0x4000 then [id % 0x80 + 0x80, id / 0x80]
    else if id < 0x20_0000 then [id % 0x80 + 0x80, id / 0x80 % 0x80 + 0x80, id / 0x4000]
    else if id < 0x1000_0000 then
      [id % 0x80 + 0x80, id / 0x80 % 0x80 + 0x80, id / 0x4000 % 0x80 + 0x80, id / 0x20_0000]
    else
      [id % 0x80 + 0x80, id / 0x80 % 0x80 + 0x80, id / 0x4000 % 0x80 + 0x80, id / 0x20_0000 % 0x80 + 0x80,
       id / 0x1000_0000]
  }

  /** The payload length as `_SendPacket` prepends it; two bytes at most. */
  function EncodeLength(n: nat): (s: seq<byte>)
    requires n < 0x4000
    ensures 1 <= |s| <= 2
  {
    if n > 127 then [n % 0x80 + 0x80, n / 0x80] else [n]
  }

  lemma DivDiv(v: nat, a: nat, b: nat)
    requires a == 0x80 && (b == 0x80 || b == 0x4000 || b == 0x20_0000)
    ensures v / a / b == v / (a * b)
  {
  }

  /** The groups of seven bits of a 32-bit value. */
  lemma Groups(v: u32)
    ensures v / 0x80 / 0x80 == v / 0x4000 && v / 0x4000 / 0x80 == v / 0x20_0000
    ensures v / 0x20_0000 / 0x80 == v / 0x1000_0000
    ensures v / 0x1000_0000 < 0x80
  {
    DivDiv(v, 0x80, 0x80);
    DivDiv(v, 0x80, 0x4000);
    DivDiv(v, 0x80, 0x20_0000);
    DivDiv(v / 0x80, 0x80, 0x80);
    DivDiv(v / 0x80, 0x80, 0x4000);
    DivDiv(v / 0x80 / 0x80, 0x80, 0x80);
  }

  lemma OneGroup(v: nat)
    ensures EncodeU32(v) == if v > 0x7F then [v % 0x80 + 0x80] + EncodeU32(v / 0x80) else [v]
  {
  }

  /** The backwards encoding is the forwards one, but for 127: that id takes two bytes. */
  lemma IdIsVarInt(id: u32)
    ensures EncodeId(id) == if id == 127 then [0xFF, 0] else EncodeU32(id)
  {
    hide EncodeU32;
    Groups(id);
    OneGroup(id);
    if id >= 0x80 {
      OneGroup(id / 0x80);
      if id >= 0x4000 {
        OneGroup(id / 0x4000);
        if id >= 0x20_0000 {
          OneGroup(id / 0x20_0000);
          if id >= 0x1000_0000 {
            OneGroup(id / 0x1000_0000);
          }
        }
      }
    }
  }

  lemma DecodesId(id: u32, rest: seq<byte>)
    ensures DecodeU32(EncodeId(id) + rest) == Some((id, |EncodeId(id)|))
  {
    IdIsVarInt(id);
    if id == 127 {
      var s := [0xFF, 0] + rest;
      assert s[1..][0] == 0;
      assert DecodeU32(s[1..]) == Some((0, 1));
    } else {
      DecodesEncoded(id, rest);
    }
  }

  lemma DecodesLength(n: nat, rest: seq<byte>)
    requires n < 0x4000
    ensures DecodeU32(EncodeLength(n) + rest) == Some((n, |EncodeLength(n)|))
  {
    EncodedLength(n);
    if n > 127 {
      assert EncodeU32(n) == [n % 0x80 + 0x80] + EncodeU32(n / 0x80);
    }
    assert EncodeLength(n) == EncodeU32(n);
    DecodesEncoded(n, rest);
  }
}
