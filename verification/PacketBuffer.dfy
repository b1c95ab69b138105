/** Building a SystemView packet in place: the payload is written forwards from a fixed start, then the header is
    written backwards in front of it, then the time delta is appended. */
module PacketBuffer {
  import opened Bytes
  import opened VarInt
  import opened Wrappers
  import opened Packet

  const PACKET_SIZE: nat := 227
  const PAYLOAD_START: nat := 7
  const MAX_STRING_LEN: nat := 128
  const MAX_PAYLOAD: nat := 215

  /** A parameter of a recording call. */
  datatype Arg = U32(v: u32) | Str(text: seq<byte>, limit: nat)

  /** A count byte and as much of the text as the limits allow. A missing text counts as empty. */
  function StrBytes(text: seq<byte>, limit: nat): (s: seq<byte>)
    ensures 1 <= |s| <= 1 + Min(limit, MAX_STRING_LEN)
  {
    var n := Min(|text|, Min(limit, MAX_STRING_LEN));
    [n] + text[..n]
  }

  function ArgBytes(a: Arg): (s: seq<byte>)
    ensures |s| >= 1
  {
    match a
    case U32(v) => U32Bytes(v)
    case Str(text, limit) => StrBytes(text, limit)
  }

  function PayloadOf(args: seq<Arg>): seq<byte> {
    if args == [] then [] else PayloadOf(args[..|args| - 1]) + ArgBytes(args[|args| - 1])
  }

  lemma {:induction false} PayloadGrows(args: seq<Arg>, n: nat)
    requires n <= |args|
    ensures |PayloadOf(args[..n])| <= |PayloadOf(args)|
  {
    if n == |args| {
      assert args[..n] == args;
    } else {
      assert args[..|args| - 1][..n] == args[..n];
      PayloadGrows(args[..|args| - 1], n);
    }
  }

  lemma Splits(p: array<byte>, from: nat, mid: nat, to: nat)
    requires from <= mid <= to <= p.Length
    ensures p[from..to] == p[from..mid] + p[mid..to]
  {
  }

  /** What is still to be stored when `done` is. */
  lemma EncodingGoesOn(v: nat, done: seq<byte>, all: seq<byte>)
    requires done + EncodeU32(v) == all
    ensures |done| < |all|
    ensures if v > 0x7F then done + [v % 0x80 + 0x80] + EncodeU32(v / 0x80) == all else done + [v] == all
  {
    if v > 0x7F {
      assert done + ([v % 0x80 + 0x80] + EncodeU32(v / 0x80)) == done + [v % 0x80 + 0x80] + EncodeU32(v / 0x80);
    }
  }

  lemma EncodingBegins(v: u32)
    ensures [] + EncodeU32(v) == U32Bytes(v)
  {
  }

  /** Stores `v` from slot `at` on. */
  method PutU32(p: array<byte>, at: nat, v: u32) returns (end: nat)
    requires at + |U32Bytes(v)| <= p.Length
    modifies p
    ensures end == at + |U32Bytes(v)|
    ensures p[at..end] == U32Bytes(v)
    ensures forall k :: 0 <= k < at || end <= k < p.Length ==> p[k] == old(p[k])
  {
    hide EncodeU32, U32Bytes;
    end := at;
    var data: nat := v;
    ghost var done: seq<byte> := [];
    EncodingBegins(v);
    while data > 0x7F
      invariant end == at + |done| <= p.Length
      invariant done + EncodeU32(data) == U32Bytes(v)
      invariant p[at..end] == done
      invariant forall k :: 0 <= k < at || end <= k < p.Length ==> p[k] == old(p[k])
    {
      EncodingGoesOn(data, done, U32Bytes(v));
      var b: byte := data % 0x80 + 0x80;
      p[end] := b;
      data := data / 0x80;
      end := end + 1;
      done := done + [b];
      assert p[at..end] == p[at..end - 1] + [b];
    }
    EncodingGoesOn(data, done, U32Bytes(v));
    p[end] := data;
    end := end + 1;
    assert p[at..end] == done + [data];
  }

  method PutStr(p: array<byte>, at: nat, text: seq<byte>, limit: nat) returns (end: nat)
    requires at + |StrBytes(text, limit)| <= p.Length
    modifies p
    ensures end == at + |StrBytes(text, limit)|
    ensures p[at..end] == StrBytes(text, limit)
    ensures forall k :: 0 <= k < at || end <= k < p.Length ==> p[k] == old(p[k])
  {
    var rest: nat := Min(limit, MAX_STRING_LEN);
    end := at + 1;
    var n: nat := 0;
    while rest > 0 && n < |text|
      invariant n <= |text| && rest + n == Min(limit, MAX_STRING_LEN) && end == at + 1 + n
      invariant forall k :: 0 <= k < n ==> p[at + 1 + k] == text[k]
      invariant forall k :: 0 <= k < at || end <= k < p.Length ==> p[k] == old(p[k])
    {
      rest := rest - 1;
      p[end] := text[n];
      end := end + 1;
      n := n + 1;
    }
    p[at] := n;
    Splits(p, at, at + 1, end);
    assert p[at..at + 1] == [p[at]] && p[at + 1..end] == text[..n];
  }

  method PutArg(p: array<byte>, at: nat, a: Arg) returns (end: nat)
    requires at + |ArgBytes(a)| <= p.Length
    modifies p
    ensures end == at + |ArgBytes(a)|
    ensures p[at..end] == ArgBytes(a)
    ensures p[..at] == old(p[..at])
  {
    hide U32Bytes, StrBytes;
    match a {
      case U32(v) => end := PutU32(p, at, v);
      case Str(text, limit) => end := PutStr(p, at, text, limit);
    }
  }

  /** Stores all parameters, one after the other. */
  method PutArgs(p: array<byte>, at: nat, args: seq<Arg>) returns (end: nat)
    requires at + |PayloadOf(args)| <= p.Length
    modifies p
    ensures end == at + |PayloadOf(args)|
    ensures p[at..end] == PayloadOf(args)
  {
    hide ArgBytes;
    end := at;
    for i := 0 to |args|
      invariant end == at + |PayloadOf(args[..i])| <= p.Length
      invariant p[at..end] == PayloadOf(args[..i])
    {
      PayloadGrows(args, i + 1);
      assert args[..i + 1][..i] == args[..i];
      ghost var before := p[..end];
      var next := PutArg(p, end, args[i]);
      Splits(p, at, end, next);
      assert p[at..end] == p[..end][at..] == before[at..] == PayloadOf(args[..i]);
      end := next;
    }
    assert args[..|args|] == args;
  }

  /** Writes `bytes` backwards so that they end just before slot `start`. */
  method PutBackwards(p: array<byte>, start: nat, bytes: seq<byte>) returns (at: nat)
    requires |bytes| <= start <= p.Length
    modifies p
    ensures at == start - |bytes|
    ensures p[at..start] == bytes
    ensures forall k :: 0 <= k < at || start <= k < p.Length ==> p[k] == old(p[k])
  {
    at := start;
    var n: nat := |bytes|;
    while n > 0
      invariant n <= |bytes| && at == start - |bytes| + n
      invariant forall k :: n <= k < |bytes| ==> p[start - |bytes| + k] == bytes[k]
      invariant forall k :: 0 <= k < at || start <= k < p.Length ==> p[k] == old(p[k])
    {
      n := n - 1;
      at := at - 1;
      p[at] := bytes[n];
    }
  }

  /** Prepends the length, low byte last. */
  method PutLength(p: array<byte>, start: nat, numBytes: nat) returns (at: nat)
    requires 2 <= start <= p.Length && numBytes < LENGTH_LIMIT
    modifies p
    ensures at == start - |EncodeLength(numBytes)|
    ensures p[at..start] == EncodeLength(numBytes)
    ensures forall k :: 0 <= k < at || start <= k < p.Length ==> p[k] == old(p[k])
  {
    at := start;
    if numBytes > 127 {
      at := at - 1;
      p[at] := numBytes / 0x80;
      at := at - 1;
      p[at] := numBytes % 0x80 + 0x80;
    } else {
      at := at - 1;
      p[at] := numBytes;
    }
  }

  /** Prepends the header to the payload in `p[start..end]`. It never needs more than seven slots. */
  method PutHeader(p: array<byte>, start: nat, end: nat, id: u32) returns (at: nat)
    requires PAYLOAD_START <= start <= end <= p.Length && end - start < LENGTH_LIMIT
    modifies p
    ensures at == start - |Header(id, end - start)|
    ensures p[at..end] == Header(id, end - start) + old(p[start..end])
    ensures forall k :: end <= k < p.Length ==> p[k] == old(p[k])
  {
    hide EncodeId, EncodeLength;
    at := start;
    if id < FIRST_WITH_LENGTH {
      at := at - 1;
      p[at] := id;
    } else {
      at := PutLength(p, start, end - start);
      ghost var length := p[at..start];
      var mid := at;
      at := PutBackwards(p, mid, EncodeId(id));
      assert p[mid..start] == length;
      Splits(p, at, mid, start);
    }
    assert p[start..end] == old(p[start..end]);
    Splits(p, at, start, end);
  }

  /** Every packet that starts out with a payload of at most 215 bytes stays inside the buffer; header and delta
      together can use it up exactly. */
  lemma StaysInBuffer(id: u32, payload: seq<byte>, delta: u32)
    requires |payload| <= MAX_PAYLOAD
    ensures |Header(id, |payload|)| <= PAYLOAD_START
    ensures PAYLOAD_START + |payload| + |U32Bytes(delta)| <= PACKET_SIZE
    ensures |Header(id, |payload|)| == PAYLOAD_START <==> id >= 0x1000_0000 && |payload| > 127
    ensures PAYLOAD_START + |payload| + |U32Bytes(delta)| == PACKET_SIZE
      <==> |payload| == MAX_PAYLOAD && delta >= 0x1000_0000
  {
    EncodedLength(delta);
  }

  /** How many of a format string's '%' signs are counted: sixteen at most. */
  function CountArgs(text: seq<byte>): (n: nat)
    ensures n <= 16
  {
    if text == [] then 0
    else
      var n := CountArgs(text[..|text| - 1]);
      if n < 16 && text[|text| - 1] == 0x25 then n + 1 else n
  }

  /** The parameters of a formatted print: format string, options, argument count, arguments. */
  function PrintArgs(text: seq<byte>, options: u32, params: seq<u32>): (args: seq<Arg>)
    requires CountArgs(text) <= |params|
  {
    [Str(text, MAX_STRING_LEN), U32(options), U32(CountArgs(text))] + Numbers(params[..CountArgs(text)])
  }

  lemma {:induction false} PayloadConcat(a: seq<Arg>, b: seq<Arg>)
    ensures PayloadOf(a + b) == PayloadOf(a) + PayloadOf(b)
  {
    hide ArgBytes;
    if b == [] {
      assert a + b == a;
    } else {
      PayloadConcat(a, b[..|b| - 1]);
      assert (a + b)[..|a + b| - 1] == a + b[..|b| - 1];
    }
  }

  lemma U32Length(v: u32)
    ensures |U32Bytes(v)| == 5 <==> v >= 0x1000_0000
  {
    EncodedLength(v);
  }

  /** All of these take five bytes. */
  predicate AllLong(params: seq<u32>) {
    forall k :: 0 <= k < |params| ==> params[k] >= 0x1000_0000
  }

  lemma AllLongSplits(params: seq<u32>)
    requires params != []
    ensures AllLong(params) <==> AllLong(params[..|params| - 1]) && params[|params| - 1] >= 0x1000_0000
  {
    if AllLong(params[..|params| - 1]) && params[|params| - 1] >= 0x1000_0000 {
      forall k | 0 <= k < |params|
        ensures params[k] >= 0x1000_0000
      {
        assert k < |params| - 1 ==> params[k] == params[..|params| - 1][k];
      }
    }
  }

  lemma {:induction false} NumbersBound(params: seq<u32>)
    ensures |params| <= |PayloadOf(Numbers(params))| <= 5 * |params|
    ensures |PayloadOf(Numbers(params))| == 5 * |params| <==> AllLong(params)
  {
    hide U32Bytes;
    if params != [] {
      var front, last := params[..|params| - 1], params[|params| - 1];
      NumbersBound(front);
      U32Length(last);
      assert Numbers(params)[..|params| - 1] == Numbers(front);
      AllLongSplits(params);
    }
  }

  lemma PayloadOfThree(a: Arg, b: Arg, c: Arg)
    ensures PayloadOf([a, b, c]) == ArgBytes(a) + ArgBytes(b) + ArgBytes(c)
  {
    hide ArgBytes;
    assert [a, b, c] == [a] + [b] + [c];
    PayloadConcat([a] + [b], [c]);
    PayloadConcat([a], [b]);
    PayloadOfOne(a);
    PayloadOfOne(b);
    PayloadOfOne(c);
  }

  lemma PayloadOfOne(a: Arg)
    ensures PayloadOf([a]) == ArgBytes(a)
  {
    hide ArgBytes;
    assert [a][..0] == [] && PayloadOf([]) == [];
  }

  function Numbers(params: seq<u32>): (args: seq<Arg>)
    ensures |args| == |params| && forall k :: 0 <= k < |params| ==> args[k] == U32(params[k])
  {
    seq(|params|, k requires 0 <= k < |params| => U32(params[k]))
  }

  lemma PrintLength(text: seq<byte>, options: u32, params: seq<u32>)
    requires CountArgs(text) <= |params|
    ensures |PayloadOf(PrintArgs(text, options, params))| ==
      1 + Min(|text|, MAX_STRING_LEN) + |U32Bytes(options)| + 1
      + |PayloadOf(Numbers(params[..CountArgs(text)]))|
  {
    hide PayloadOf, U32Bytes, CountArgs, Numbers;
    var n := CountArgs(text);
    var s, o, c := Str(text, MAX_STRING_LEN), U32(options), U32(n);
    PayloadConcat([s, o, c], Numbers(params[..n]));
    PayloadOfThree(s, o, c);
    ShortNumber(n);
  }

  lemma ShortNumber(n: u32)
    requires n < 0x80
    ensures |U32Bytes(n)| == 1
  {
  }

  /** A formatted print always fits, and it fills the payload area to the last byte exactly when the string is cut
      off at 128 characters or just that long, sixteen arguments are taken, and all numbers are five bytes long. */
  lemma PrintFits(text: seq<byte>, options: u32, params: seq<u32>)
    requires CountArgs(text) <= |params|
    ensures |PayloadOf(PrintArgs(text, options, params))| <= MAX_PAYLOAD
    ensures |PayloadOf(PrintArgs(text, options, params))| == MAX_PAYLOAD <==>
      && |text| >= MAX_STRING_LEN && options >= 0x1000_0000 && CountArgs(text) == 16
      && AllLong(params[..16])
  {
    hide PayloadOf, PrintArgs, U32Bytes, CountArgs, Numbers;
    var tail := params[..CountArgs(text)];
    PrintLength(text, options, params);
    U32Length(options);
    NumbersBound(tail);
  }

  /** The structure that a list of parameters has. */
  function Kinds(args: seq<Arg>): (fields: seq<Field>)
    ensures |fields| == |args|
  {
    seq(|args|, k requires 0 <= k < |args| => if args[k].U32? then Num else Text)
  }

  lemma ArgExtent(a: Arg, rest: seq<byte>)
    ensures FieldExtent(if a.U32? then Num else Text, ArgBytes(a) + rest) == Some(|ArgBytes(a)|)
  {
    if a.U32? {
      DecodesEncoded(a.v, rest);
    }
  }

  lemma PayloadFromFront(args: seq<Arg>)
    requires args != []
    ensures PayloadOf(args) == ArgBytes(args[0]) + PayloadOf(args[1..])
  {
    hide ArgBytes, PayloadOf;
    assert args == [args[0]] + args[1..];
    PayloadConcat([args[0]], args[1..]);
    PayloadOfOne(args[0]);
  }

  lemma ExtentFromFront(f: Field, fields: seq<Field>, head: seq<byte>, more: seq<byte>, m: nat)
    requires FieldExtent(f, head + more) == Some(|head|) && Extent(fields, more) == Some(m)
    ensures Extent([f] + fields, head + more) == Some(|head| + m)
  {
    hide FieldExtent;
    assert (head + more)[|head|..] == more;
    assert ([f] + fields)[1..] == fields;
  }

  lemma KindsFromFront(args: seq<Arg>)
    requires args != []
    ensures Kinds(args) == [if args[0].U32? then Num else Text] + Kinds(args[1..])
  {
  }

  lemma NoArgsAreReadable(rest: seq<byte>)
    ensures Extent(Kinds([]), PayloadOf([]) + rest) == Some(|PayloadOf([])|)
  {
  }

  lemma Regrouped(s: seq<byte>, t: seq<byte>, u: seq<byte>)
    ensures s + t + u == s + (t + u)
  {
  }

  /** Parameters recorded under an id whose structure they have can be told apart again. */
  lemma {:induction false} MatchingArgsAreReadable(args: seq<Arg>, rest: seq<byte>)
    ensures Extent(Kinds(args), PayloadOf(args) + rest) == Some(|PayloadOf(args)|)
  {
    hide ArgBytes, FieldExtent, PayloadOf, Extent, Kinds;
    if args == [] {
      NoArgsAreReadable(rest);
    } else {
      var head, tail := ArgBytes(args[0]), args[1..];
      var more := PayloadOf(tail) + rest;
      PayloadFromFront(args);
      KindsFromFront(args);
      ArgExtent(args[0], more);
      MatchingArgsAreReadable(tail, rest);
      ExtentFromFront(if args[0].U32? then Num else Text, Kinds(tail), head, more, |PayloadOf(tail)|);
      Regrouped(head, PayloadOf(tail), rest);
    }
  }

  /** Every call of the recording family fits: ten numbers, or two numbers and a text, are the most that there is. */
  lemma RecordCallsFit(params: seq<u32>, text: seq<byte>, limit: nat)
    ensures |params| <= 10 ==> |PayloadOf(Numbers(params))| <= 50
    ensures |params| <= 2 ==> |PayloadOf(Numbers(params) + [Str(text, limit)])| <= 5 * |params| + 129 <= 139
  {
    hide ArgBytes, Numbers;
    NumbersBound(params);
    PayloadConcat(Numbers(params), [Str(text, limit)]);
    PayloadOfOne(Str(text, limit));
    TextBound(text, limit);
  }

  lemma TextBound(text: seq<byte>, limit: nat)
    ensures |ArgBytes(Str(text, limit))| <= 129
    ensures limit == MAX_STRING_LEN ==> |ArgBytes(Str(text, limit))| == 1 + Min(|text|, MAX_STRING_LEN)
  {
  }

  /** A data source to be registered. Numbers of all kinds are given by their 32 bits, the scaling factor too. */
  datatype DataInfo = DataInfo(
    id: u32, name: seq<byte>, dataType: u32, offset: u32, rangeMin: u32, rangeMax: u32, scaling: u32,
    unit: Option<seq<byte>>)

  const EX_REGISTER_DATA: u32 := 6

  /** Only as much is sent as is needed: trailing zeros are left out when there is no unit. A floating-point zero has
      two representations. */
  function RegisteredNumbers(d: DataInfo): (params: seq<u32>)
    ensures |params| <= 5
  {
    if d.unit.Some? || d.scaling !in {0, 0x8000_0000} then [d.dataType, d.offset, d.rangeMin, d.rangeMax, d.scaling]
    else if d.rangeMax != 0 then [d.dataType, d.offset, d.rangeMin, d.rangeMax]
    else if d.rangeMin != 0 then [d.dataType, d.offset, d.rangeMin]
    else if d.offset != 0 then [d.dataType, d.offset]
    else if d.dataType != 0 then [d.dataType]
    else []
  }

  function RegisterArgs(d: DataInfo): seq<Arg> {
    [U32(EX_REGISTER_DATA), U32(d.id), Str(d.name, MAX_STRING_LEN)] + Numbers(RegisteredNumbers(d))
    + (match d.unit case None => [] case Some(unit) => [Str(unit, MAX_STRING_LEN)])
  }

  lemma RegisterLength(d: DataInfo)
    ensures |PayloadOf(RegisterArgs(d))| == 2 + |U32Bytes(d.id)| + Min(|d.name|, MAX_STRING_LEN)
      + |PayloadOf(Numbers(RegisteredNumbers(d)))|
      + (match d.unit case None => 0 case Some(unit) => 1 + Min(|unit|, MAX_STRING_LEN))
  {
    ShortNumber(EX_REGISTER_DATA);
    NothingIsEmpty();
    TextBound(d.name, MAX_STRING_LEN);
    hide PayloadOf, U32Bytes, StrBytes, Numbers, RegisteredNumbers;
    var a, b, c := U32(EX_REGISTER_DATA), U32(d.id), Str(d.name, MAX_STRING_LEN);
    var rest := Numbers(RegisteredNumbers(d));
    PayloadOfThree(a, b, c);
    PayloadConcat([a, b, c], rest);
    match d.unit
    case None =>
      PayloadConcat([a, b, c] + rest, []);
    case Some(unit) =>
      PayloadConcat([a, b, c] + rest, [Str(unit, MAX_STRING_LEN)]);
      PayloadOfOne(Str(unit, MAX_STRING_LEN));
      TextBound(unit, MAX_STRING_LEN);
  }

  lemma NothingIsEmpty()
    ensures PayloadOf([]) == []
  {
  }

  /** Without a unit a registration always fits. */
  lemma PlainRegistrationFits(d: DataInfo)
    requires d.unit.None?
    ensures |PayloadOf(RegisterArgs(d))| <= MAX_PAYLOAD
  {
    RegisterLength(d);
    NumbersBound(RegisteredNumbers(d));
    hide RegisterArgs, PayloadOf, U32Bytes, Numbers, RegisteredNumbers;
  }

  lemma WorstRegistration(name: seq<byte>, unit: seq<byte>, d: DataInfo)
    requires var big := 0x1000_0000; d == DataInfo(big, name, big, big, big, big, big, Some(unit))
    ensures |PayloadOf(RegisterArgs(d))| == 33 + Min(|name|, MAX_STRING_LEN) + Min(|unit|, MAX_STRING_LEN)
  {
    hide RegisterArgs, PayloadOf, U32Bytes, Numbers;
    assert AllLong(RegisteredNumbers(d)) && |RegisteredNumbers(d)| == 5;
    hide RegisteredNumbers;
    RegisterLength(d);
    NumbersBound(RegisteredNumbers(d));
    U32Length(d.id);
  }

  /** With a unit it fits the static buffer, whatever the numbers and the time delta are, exactly if both texts together
      have 182 characters at most, each counted up to 128. */
  lemma RegistrationFitsExactly(name: seq<byte>, unit: seq<byte>)
    ensures
      (forall d: DataInfo, delta: u32 :: d.name == name && d.unit == Some(unit) ==>
        PAYLOAD_START + |PayloadOf(RegisterArgs(d))| + |U32Bytes(delta)| <= PACKET_SIZE)
      <==> Min(|name|, MAX_STRING_LEN) + Min(|unit|, MAX_STRING_LEN) <= 182
  {
    var big: u32 := 0x1000_0000;
    var worst := DataInfo(big, name, big, big, big, big, big, Some(unit));
    WorstRegistration(name, unit, worst);
    U32Length(big);
    if Min(|name|, MAX_STRING_LEN) + Min(|unit|, MAX_STRING_LEN) <= 182 {
      forall d: DataInfo, delta: u32 | d.name == name && d.unit == Some(unit)
        ensures PAYLOAD_START + |PayloadOf(RegisterArgs(d))| + |U32Bytes(delta)| <= PACKET_SIZE
      {
        RegistrationFits(d);
        U32Length(delta);
      }
    } else {
      assert worst.name == name && worst.unit == Some(unit);
      assert PAYLOAD_START + |PayloadOf(RegisterArgs(worst))| + |U32Bytes(big)| > PACKET_SIZE;
    }
    hide RegisterArgs, PayloadOf, U32Bytes, Numbers, RegisteredNumbers;
  }

  lemma RegistrationFits(d: DataInfo)
    requires d.unit.Some? && Min(|d.name|, MAX_STRING_LEN) + Min(|d.unit.value|, MAX_STRING_LEN) <= 182
    ensures |PayloadOf(RegisterArgs(d))| <= MAX_PAYLOAD
  {
    RegisterLength(d);
    NumbersBound(RegisteredNumbers(d));
    hide RegisterArgs, PayloadOf, U32Bytes, Numbers, RegisteredNumbers;
  }
}
