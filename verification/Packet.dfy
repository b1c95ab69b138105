/** SystemView packets, and a host-side decoder that the source does not contain. */
module Packet {
  import opened Bytes
  import opened VarInt
  import opened Wrappers

  /** A stored event. `delta` is the time since the packet stored before it, in ticks modulo 2^32.
      A length has at most two bytes, so no payload is longer than they can say. */
  datatype AnyPacket = Packet(id: u32, payload: seq<byte>, delta: u32)
  type Packet = p: AnyPacket | |p.payload| < LENGTH_LIMIT witness Packet(0, [], 0)
  const LENGTH_LIMIT: nat := 0x4000

  /** Ids below this one have a fixed structure and carry no length. */
  const FIRST_WITH_LENGTH: nat := 24

  datatype Field = Num | Text

  const EVTID_NOP: u32 := 0
  const EVTID_OVERFLOW: u32 := 1

  /** The structure of the packets that have no length. */
  function Layout(id: u32): seq<Field> {
    match id
    case 1 | 2 | 4 | 6 | 8 | 12 | 15 | 16 | 19 => [Num]
    case 7 | 13 | 23 => [Num, Num]
    case 9 | 22 => [Num, Num, Text]
    case 14 => [Text]
    case 21 => [Num, Num, Num, Num]
    case _ => []
  }

  /** How many bytes the fields take up at the front of `s`; None when `s` is too short. */
  function Extent(fields: seq<Field>, s: seq<byte>): (r: Option<nat>)
    ensures r.Some? ==> r.value <= |s|
  {
    if fields == [] then Some(0)
    else
      match FieldExtent(fields[0], s)
      case None => None
      case Some(n) =>
        match Extent(fields[1..], s[n..])
        case None => None
        case Some(m) => Some(n + m)
  }

  function FieldExtent(f: Field, s: seq<byte>): (r: Option<nat>)
    ensures r.Some? ==> r.value <= |s|
  {
    match f
    case Num => (match DecodeU32(s) case None => None case Some(p) => Some(p.1))
    case Text =>
      if s == [] then None
      else
        var count: nat := s[0];
        if |s| < 1 + count then None else Some(1 + count)
  }

  function Header(id: u32, length: nat): (h: seq<byte>)
    requires length < LENGTH_LIMIT
    ensures 1 <= |h| <= 7
  {
    if id < FIRST_WITH_LENGTH then [id] else EncodeId(id) + EncodeLength(length)
  }

  function Encode(p: Packet): (s: seq<byte>) {
    Header(p.id, |p.payload|) + p.payload + EncodeU32(p.delta)
  }

  /** The payload fits its id's structure; packets with a length can hold anything. */
  predicate WellFormed(p: Packet) {
    p.id < FIRST_WITH_LENGTH ==> Extent(Layout(p.id), p.payload) == Some(|p.payload|)
  }

  /** The first packet of `s` and the number of bytes it takes up. */
  function Decode(s: seq<byte>): (r: Option<(Packet, nat)>)
    ensures r.Some? ==> 0 < r.value.1 <= |s|
  {
    match DecodeU32(s)
    case None => None
    case Some((id, n)) =>
      if id >= TWO_POW_32 then None
      else if id < 24 then
        match Extent(Layout(id), s[n..])
        case None => None
        case Some(m) => DecodeDelta(id, s, n, m)
      else
        match DecodeU32(s[n..])
        case None => None
        case Some((m, k)) => DecodeDelta(id, s, n + k, m)
  }

  function DecodeDelta(id: u32, s: seq<byte>, at: nat, length: nat): (r: Option<(Packet, nat)>)
    requires at <= |s|
    ensures r.Some? ==> at < r.value.1 <= |s|
  {
    if |s| < at + length || LENGTH_LIMIT <= length then None
    else
      match DecodeU32(s[at + length..])
      case None => None
      case Some((delta, k)) =>
        if delta >= TWO_POW_32 then None
        else Some((Packet(id, s[at..at + length], delta), at + length + k))
  }

  /** More input does not change what was decoded. */
  lemma {:induction false} ExtentExtends(fields: seq<Field>, s: seq<byte>, rest: seq<byte>)
    requires Extent(fields, s).Some?
    ensures Extent(fields, s + rest) == Extent(fields, s)
  {
    hide FieldExtent;
    if fields != [] {
      FieldExtends(fields[0], s, rest);
      var n := FieldExtent(fields[0], s).value;
      DropOfConcat(s, rest, n);
      ExtentExtends(fields[1..], s[n..], rest);
    }
  }

  lemma FieldExtends(f: Field, s: seq<byte>, rest: seq<byte>)
    requires FieldExtent(f, s).Some?
    ensures FieldExtent(f, s + rest) == FieldExtent(f, s)
  {
    if f.Num? {
      DecodeU32Extends(s, rest);
    }
  }

  lemma DropOfConcat(s: seq<byte>, rest: seq<byte>, n: nat)
    requires n <= |s|
    ensures (s + rest)[n..] == s[n..] + rest
  {
  }

  lemma DecodeDeltaExtends(id: u32, s: seq<byte>, at: nat, length: nat, rest: seq<byte>)
    requires at <= |s| && DecodeDelta(id, s, at, length).Some?
    ensures DecodeDelta(id, s + rest, at, length) == DecodeDelta(id, s, at, length)
  {
    var t := s + rest;
    assert t[at + length..] == s[at + length..] + rest;
    DecodeU32Extends(s[at + length..], rest);
    assert t[at..at + length] == s[at..at + length];
  }

  lemma DecodeExtends(s: seq<byte>, rest: seq<byte>)
    requires Decode(s).Some?
    ensures Decode(s + rest) == Decode(s)
  {
    hide DecodeU32, Layout, Extent, DecodeDelta;
    DecodeU32Extends(s, rest);
    var (id, n) := DecodeU32(s).value;
    assert (s + rest)[n..] == s[n..] + rest;
    if id < FIRST_WITH_LENGTH {
      ExtentExtends(Layout(id), s[n..], rest);
      DecodeDeltaExtends(id, s, n, Extent(Layout(id), s[n..]).value, rest);
    } else {
      DecodeU32Extends(s[n..], rest);
      var (m, k) := DecodeU32(s[n..]).value;
      DecodeDeltaExtends(id, s, n + k, m, rest);
    }
  }

  lemma DecodesDelta(p: Packet, head: seq<byte>, rest: seq<byte>)
    ensures
      var s := head + p.payload + EncodeU32(p.delta) + rest;
      DecodeDelta(p.id, s, |head|, |p.payload|) ==
        Some((p, |head| + |p.payload| + |EncodeU32(p.delta)|))
  {
    var s := head + p.payload + EncodeU32(p.delta) + rest;
    assert s[|head| + |p.payload|..] == EncodeU32(p.delta) + rest;
    DecodesEncoded(p.delta, rest);
    assert s[|head|..|head| + |p.payload|] == p.payload;
  }

  /** The decoder gets back the id, the payload and the delta, whatever follows. */
  lemma DecodesPacket(p: Packet, rest: seq<byte>)
    requires WellFormed(p)
    ensures Decode(Encode(p) + rest) == Some((p, |Encode(p)|))
  {
    hide EncodeU32, DecodeU32, DecodeDelta, EncodeId, EncodeLength, Layout, Extent;
    var tail := p.payload + EncodeU32(p.delta) + rest;
    var h := Header(p.id, |p.payload|);
    var s := h + p.payload + EncodeU32(p.delta) + rest;
    assert s == Encode(p) + rest && s == h + tail;
    DecodesDelta(p, h, rest);
    if p.id < FIRST_WITH_LENGTH {
      IdIsVarInt(p.id);
      DecodesSmall(p.id, tail);
      assert s[1..] == p.payload + (EncodeU32(p.delta) + rest);
      ExtentExtends(Layout(p.id), p.payload, EncodeU32(p.delta) + rest);
    } else {
      var i, l := EncodeId(p.id), EncodeLength(|p.payload|);
      assert s == i + (l + tail);
      DecodesId(p.id, l + tail);
      assert s[|i|..] == l + tail;
      DecodesLength(|p.payload|, tail);
    }
  }

  lemma DecodesSmall(id: u32, tail: seq<byte>)
    requires id < FIRST_WITH_LENGTH
    ensures DecodeU32([id] + tail) == Some((id, 1))
  {
  }

  function EncodeAll(ps: seq<Packet>): seq<byte> {
    if ps == [] then [] else EncodeAll(ps[..|ps| - 1]) + Encode(ps[|ps| - 1])
  }

  /** All complete packets of `s`, in order. */
  function DecodeAll(s: seq<byte>): seq<Packet> {
    match Decode(s)
    case None => []
    case Some((p, n)) => [p] + DecodeAll(s[n..])
  }

  lemma {:induction false} EncodeAllFromFront(ps: seq<Packet>)
    requires ps != []
    ensures EncodeAll(ps) == Encode(ps[0]) + EncodeAll(ps[1..])
  {
    var front, last := ps[..|ps| - 1], ps[|ps| - 1];
    if front == [] {
      assert ps[1..] == [] && EncodeAll(ps) == [] + Encode(last);
    } else {
      EncodeAllFromFront(front);
      assert ps[1..][..|ps| - 2] == front[1..];
    }
  }

  /** `n` packets are complete in the first `k` bytes, and not one more. */
  ghost predicate Complete(ps: seq<Packet>, k: nat, n: nat) {
    && n <= |ps| && |EncodeAll(ps[..n])| <= k
    && (n < |ps| ==> k < |EncodeAll(ps[..n + 1])|)
  }

  lemma NoneComplete(ps: seq<Packet>, k: nat)
    requires ps != [] && k < |Encode(ps[0])|
    ensures Complete(ps, k, 0)
  {
    hide Encode;
    assert ps[..1][..0] == [] && ps[..1][0] == ps[0] && ps[..0] == [];
  }

  lemma OneMoreComplete(ps: seq<Packet>, k: nat, n: nat)
    requires ps != [] && |Encode(ps[0])| <= k && Complete(ps[1..], k - |Encode(ps[0])|, n)
    ensures Complete(ps, k, n + 1)
  {
    hide Encode, EncodeAll;
    assert ps[..n + 1][1..] == ps[1..][..n];
    EncodeAllFromFront(ps[..n + 1]);
    if n + 1 < |ps| {
      assert ps[..n + 2][1..] == ps[1..][..n + 1];
      EncodeAllFromFront(ps[..n + 2]);
    }
  }

  lemma DecodesFirst(p: Packet, rest: seq<byte>)
    requires WellFormed(p)
    ensures DecodeAll(Encode(p) + rest) == [p] + DecodeAll(rest)
  {
    DecodesPacket(p, rest);
    hide Decode, Encode, WellFormed;
    assert (Encode(p) + rest)[|Encode(p)|..] == rest;
  }

  lemma DecodesNothing(p: Packet, s: seq<byte>)
    requires WellFormed(p) && s < Encode(p)
    ensures DecodeAll(s) == []
  {
    TruncatedIsIncomplete(p, s);
    hide Decode, Encode, WellFormed;
  }

  lemma CutBehindFirst(e: seq<byte>, t: seq<byte>, k: nat)
    requires k <= |e + t|
    ensures if k < |e| then (e + t)[..k] < e else (e + t)[..k] == e + t[..k - |e|]
  {
  }

  predicate Formed(ps: seq<Packet>) {
    forall k :: 0 <= k < |ps| ==> WellFormed(ps[k])
  }

  lemma TailIsFormed(ps: seq<Packet>)
    requires ps != [] && Formed(ps)
    ensures WellFormed(ps[0]) && Formed(ps[1..])
  {
    hide WellFormed;
  }

  lemma FirstAndRest(ps: seq<Packet>, n: nat)
    requires n < |ps|
    ensures [ps[0]] + ps[1..][..n] == ps[..n + 1]
  {
  }

  lemma {:induction false} DecodesCut(ps: seq<Packet>, k: nat, s: seq<byte>)
    requires Formed(ps) && k <= |EncodeAll(ps)| && s == EncodeAll(ps)[..k]
    ensures Complete(ps, k, |DecodeAll(s)|) && DecodeAll(s) == ps[..|DecodeAll(s)|]
    decreases |ps|
  {
    if ps == [] {
      NothingToDecode();
    } else {
      EncodeAllFromFront(ps);
      TailIsFormed(ps);
      hide DecodeAll, EncodeAll, Encode, WellFormed, Complete, Formed;
      var e, t := Encode(ps[0]), EncodeAll(ps[1..]);
      CutBehindFirst(e, t, k);
      if k < |e| {
        DecodesNothing(ps[0], s);
        NoneComplete(ps, k);
      } else {
        var rest := t[..k - |e|];
        DecodesFirst(ps[0], rest);
        DecodesCut(ps[1..], k - |e|, rest);
        var n := |DecodeAll(rest)|;
        OneMoreComplete(ps, k, n);
        CompleteIsBounded(ps[1..], k - |e|, n);
        FirstAndRest(ps, n);
      }
    }
  }

  lemma CompleteIsBounded(ps: seq<Packet>, k: nat, n: nat)
    requires Complete(ps, k, n)
    ensures n <= |ps|
  {
  }

  /** From any front part of the stream, cut anywhere, the host gets the packets that are complete in it,
      and it gets them all: the stream has room for at most an incomplete packet behind them. */
  lemma DecodesAnyPrefix(ps: seq<Packet>, k: nat)
    requires forall p :: p in ps ==> WellFormed(p)
    requires k <= |EncodeAll(ps)|
    ensures var n := |DecodeAll(EncodeAll(ps)[..k])|;
      Complete(ps, k, n) && DecodeAll(EncodeAll(ps)[..k]) == ps[..n]
  {
    assert Formed(ps) by {
      hide WellFormed;
    }
    hide DecodeAll, EncodeAll, WellFormed, Complete, Formed;
    DecodesCut(ps, k, EncodeAll(ps)[..k]);
  }

  lemma NothingToDecode()
    ensures DecodeAll([]) == []
  {
  }

  lemma TruncatedIsIncomplete(p: Packet, s: seq<byte>)
    requires WellFormed(p) && s < Encode(p)
    ensures Decode(s) == None
  {
    hide WellFormed, Encode;
    if Decode(s).Some? {
      var rest := Encode(p)[|s|..];
      assert s + rest == Encode(p) == Encode(p) + [];
      DecodesPacket(p, []);
      DecodeExtends(s, rest);
    }
  }

  lemma AllComplete(ps: seq<Packet>, n: nat)
    requires Complete(ps, |EncodeAll(ps)|, n)
    ensures n == |ps| && ps[..n] == ps
  {
    hide EncodeAll;
    if n < |ps| {
      LongerIsLonger(ps, n + 1);
    }
  }

  lemma WholeSlice(s: seq<byte>)
    ensures s[..|s|] == s
  {
  }

  /** The whole stream decodes to all packets. */
  lemma DecodesWholeStream(ps: seq<Packet>)
    requires forall p :: p in ps ==> WellFormed(p)
    ensures DecodeAll(EncodeAll(ps)) == ps
  {
    hide DecodeAll, EncodeAll, WellFormed, Complete;
    var s := EncodeAll(ps);
    DecodesAnyPrefix(ps, |s|);
    WholeSlice(s);
    AllComplete(ps, |DecodeAll(s)|);
  }

  lemma {:induction false} LongerIsLonger(ps: seq<Packet>, n: nat)
    requires n <= |ps|
    ensures |EncodeAll(ps[..n])| <= |EncodeAll(ps)|
  {
    hide Encode;
    if n < |ps| {
      LongerIsLonger(ps[..|ps| - 1], n);
      assert ps[..|ps| - 1][..n] == ps[..n];
    } else {
      assert ps[..n] == ps;
    }
  }

  const NOP: Packet := Packet(EVTID_NOP, [], 0)

  function Nops(n: nat): (ps: seq<Packet>)
    ensures |ps| == n
  {
    seq(n, _ => NOP)
  }

  lemma {:induction false} NopsAreZeros(n: nat)
    ensures EncodeAll(Nops(n)) == seq(2 * n, _ => 0)
  {
    assert Encode(NOP) == [0, 0];
    hide Encode;
    if n > 0 {
      NopsAreZeros(n - 1);
      assert Nops(n)[..n - 1] == Nops(n - 1);
    }
  }

  /** The ten zero bytes of a synchronisation read as five empty packets that take no time. */
  lemma SyncIsFiveNops()
    ensures EncodeAll([NOP, NOP, NOP, NOP, NOP]) == seq(10, _ => 0)
    ensures WellFormed(NOP)
  {
    NopsAreZeros(5);
    hide EncodeAll;
    assert Nops(5) == [NOP, NOP, NOP, NOP, NOP];
  }
}
