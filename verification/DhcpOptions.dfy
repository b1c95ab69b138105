/** The option field of a DHCP message: code, length, data, one option after the other, closed by an end mark
    (RFC 2132, section 2). Padding is not treated specially. */
module DhcpOptions {
  import opened Bytes
  import opened Ring
  import opened Wrappers

  const OPT_END: byte := 255
  /** The size of the field behind the magic cookie. */
  const AREA: nat := 308

  type Field = s: seq<byte> | |s| == AREA witness seq(AREA, _ => 0)

  /** What lies in memory behind the field. The C code can look at up to five of these bytes. */
  type Behind = s: seq<byte> | |s| == 5 witness [0, 0, 0, 0, 0]

  datatype AnyOpt = Opt(code: byte, data: seq<byte>)
  type Opt = o: AnyOpt | |o.data| < 256 witness AnyOpt.Opt(0, [])

  function Encode(o: Opt): (s: seq<byte>)
    ensures |s| == 2 + |o.data|
  {
    [o.code, |o.data|] + o.data
  }

  function EncodeAll(opts: seq<Opt>): seq<byte> {
    if opts == [] then [] else Encode(opts[0]) + EncodeAll(opts[1..])
  }

  /** Where the scan from `i` on comes to rest. A header in the last slot has its length behind the field, and whatever
      that is, it ends the scan. */
  function FindFrom(s: Field, cmd: byte, i: nat): (r: Option<nat>)
    ensures r.Some? ==> r.value < AREA && s[r.value] == cmd
    decreases AREA - i
  {
    if i >= AREA || s[i] == OPT_END then None
    else if s[i] == cmd then Some(i)
    else if i == AREA - 1 then None
    else FindFrom(s, cmd, i + 2 + s[i + 1])
  }

  /** The slots that the scan from `i` on looks at. */
  function Looks(s: Field, cmd: byte, i: nat): (slots: set<nat>)
    ensures forall x :: x in slots ==> i <= x <= AREA
    decreases AREA - i
  {
    if i >= AREA then {}
    else if s[i] == OPT_END || s[i] == cmd then {i}
    else if i == AREA - 1 then {i, AREA}
    else {i, i + 1} + Looks(s, cmd, i + 2 + s[i + 1])
  }

  lemma ScanGoesOn(s: Field, cmd: byte, i: nat, length: byte, before: set<nat>)
    requires i < AREA && s[i] != OPT_END && s[i] != cmd && (i + 1 < AREA ==> length == s[i + 1])
    ensures FindFrom(s, cmd, i) == FindFrom(s, cmd, i + 2 + length)
    ensures before + Looks(s, cmd, i) == before + {i, i + 1} + Looks(s, cmd, i + 2 + length)
  {
    assert Looks(s, cmd, i) == {i, i + 1} + Looks(s, cmd, i + 2 + length);
  }

  lemma ScanStops(s: Field, cmd: byte, i: nat)
    requires i < AREA ==> s[i] == OPT_END || s[i] == cmd
    ensures FindFrom(s, cmd, i) == if i < AREA && s[i] != OPT_END then Some(i) else None
    ensures Looks(s, cmd, i) == if i < AREA then {i} else {}
  {
  }

  method OptFind(opt: array<byte>, behind: Behind, cmd: byte) returns (r: Option<nat>, ghost looks: set<nat>)
    requires opt.Length == AREA
    ensures r == FindFrom(opt[..], cmd, 0)
    ensures looks == Looks(opt[..], cmd, 0)
  {
    hide FindFrom, Looks;
    var i: nat := 0;
    looks := {};
    while i < AREA && opt[i] != OPT_END
      invariant FindFrom(opt[..], cmd, 0) == FindFrom(opt[..], cmd, i)
      invariant looks + Looks(opt[..], cmd, i) == Looks(opt[..], cmd, 0)
      decreases AREA - i
    {
      if opt[i] == cmd {
        ScanStops(opt[..], cmd, i);
        return Some(i), looks + {i};
      }
      var length: byte := if i + 1 < AREA then opt[i + 1] else behind[0];
      ScanGoesOn(opt[..], cmd, i, length, looks);
      looks := looks + {i, i + 1};
      i := i + 2 + length;
    }
    ScanStops(opt[..], cmd, i);
    return None, looks + if i < AREA then {i} else {};
  }

  /** The options that a scan passes over, by where they begin, up to where it is. */
  ghost predicate Passed(s: Field, cmd: byte, heads: seq<nat>) {
    && heads != [] && heads[0] == 0
    && forall k :: 0 <= k < |heads| - 1 ==>
      && heads[k] < AREA - 1 && s[heads[k]] != OPT_END && s[heads[k]] != cmd
      && heads[k + 1] == heads[k] + 2 + s[heads[k] + 1]
  }

  /** The scan looks behind the field exactly if the chain of lengths leads it to the last slot, and what stands there
      is neither the end mark nor the code that it looks for. */
  lemma LooksBehindExactly(s: Field, cmd: byte)
    ensures AREA in Looks(s, cmd, 0) <==>
      s[AREA - 1] != OPT_END && s[AREA - 1] != cmd
      && exists heads :: Passed(s, cmd, heads) && heads[|heads| - 1] == AREA - 1
  {
    if s[AREA - 1] != OPT_END && s[AREA - 1] != cmd
      && exists heads :: Passed(s, cmd, heads) && heads[|heads| - 1] == AREA - 1 {
      var heads :| Passed(s, cmd, heads) && heads[|heads| - 1] == AREA - 1;
      LooksAlong(s, cmd, heads, 0);
    }
    if AREA in Looks(s, cmd, 0) {
      assert Passed(s, cmd, [0]);
      var heads := ChainTo(s, cmd, [0]);
    }
  }

  /** Two long host names that leave one slot, and a zero in that. */
  function NamesToTheEnd(): Field {
    seq(AREA, k => if k == 0 || k == 257 then 12 else if k == 1 then 255 else if k == 258 then 48 else 0)
  }

  /** In such a message the scan looks behind the field for any option but host names and padding. */
  lemma LooksBehindNames(cmd: byte)
    requires cmd != 12 && cmd != 0
    ensures AREA in Looks(NamesToTheEnd(), cmd, 0)
  {
    var f := NamesToTheEnd();
    assert Looks(f, cmd, 257) == {257, 258} + Looks(f, cmd, 307);
    assert Looks(f, cmd, 0) == {0, 1} + Looks(f, cmd, 257);
  }

  lemma {:induction false} LooksAlong(s: Field, cmd: byte, heads: seq<nat>, k: nat)
    requires Passed(s, cmd, heads) && k < |heads| && heads[|heads| - 1] == AREA - 1
    requires s[AREA - 1] != OPT_END && s[AREA - 1] != cmd
    ensures AREA in Looks(s, cmd, heads[k])
    decreases |heads| - k
  {
    if k < |heads| - 1 {
      LooksAlong(s, cmd, heads, k + 1);
    }
  }

  lemma {:induction false} ChainTo(s: Field, cmd: byte, heads: seq<nat>) returns (all: seq<nat>)
    requires Passed(s, cmd, heads) && AREA in Looks(s, cmd, heads[|heads| - 1])
    ensures Passed(s, cmd, all) && all[|all| - 1] == AREA - 1
    ensures s[AREA - 1] != OPT_END && s[AREA - 1] != cmd
    decreases AREA - heads[|heads| - 1]
  {
    var i := heads[|heads| - 1];
    if i == AREA - 1 {
      all := heads;
    } else {
      LooksOn(s, cmd, i);
      hide Looks;
      OneMorePassed(s, cmd, heads);
      all := ChainTo(s, cmd, heads + [i + 2 + s[i + 1]]);
    }
  }

  lemma LooksOn(s: Field, cmd: byte, i: nat)
    requires AREA in Looks(s, cmd, i)
    ensures i < AREA && s[i] != OPT_END && s[i] != cmd
    ensures i < AREA - 1 ==> AREA in Looks(s, cmd, i + 2 + s[i + 1])
  {
  }

  lemma OneMorePassed(s: Field, cmd: byte, heads: seq<nat>)
    requires Passed(s, cmd, heads)
    requires var i := heads[|heads| - 1]; i < AREA - 1 && s[i] != OPT_END && s[i] != cmd
    ensures var i := heads[|heads| - 1]; Passed(s, cmd, heads + [i + 2 + s[i + 1]])
  {
  }

  /** The first option with the code, and where it begins. */
  function FirstWith(opts: seq<Opt>, cmd: byte): Option<(Opt, nat)> {
    if opts == [] then None
    else if opts[0].code == cmd then Some((opts[0], 0))
    else
      match FirstWith(opts[1..], cmd)
      case None => None
      case Some((o, at)) => Some((o, |Encode(opts[0])| + at))
  }

  lemma {:induction false} FindsFrom(s: Field, i: nat, opts: seq<Opt>, cmd: byte)
    requires i + |EncodeAll(opts)| < AREA
    requires s[i..i + |EncodeAll(opts)|] == EncodeAll(opts) && s[i + |EncodeAll(opts)|] == OPT_END
    requires forall o :: o in opts ==> o.code != OPT_END
    ensures match FirstWith(opts, cmd)
      case None => FindFrom(s, cmd, i) == None
      case Some((o, at)) =>
        && FindFrom(s, cmd, i) == Some(i + at)
        && i + at + 2 + |o.data| <= AREA
        && s[i + at..i + at + 2 + |o.data|] == Encode(o)
    decreases |opts|
  {
    hide Encode, FindFrom;
    if opts == [] {
      FindsEnd(s, cmd, i);
    } else {
      var o := opts[0];
      var next := i + |Encode(o)|;
      SliceSplits(s, i, Encode(o), EncodeAll(opts[1..]));
      StartShows(s, i, o);
      FindsOrPasses(s, i, o, cmd);
      if o.code != cmd {
        FindsFrom(s, next, opts[1..], cmd);
      }
    }
  }

  lemma FindsEnd(s: Field, cmd: byte, i: nat)
    requires i < AREA && s[i] == OPT_END
    ensures FindFrom(s, cmd, i) == None
  {
  }

  lemma FindsOrPasses(s: Field, i: nat, o: Opt, cmd: byte)
    requires i + 2 + |o.data| < AREA && s[i] == o.code != OPT_END && s[i + 1] == |o.data|
    ensures FindFrom(s, cmd, i) == if o.code == cmd then Some(i) else FindFrom(s, cmd, i + 2 + |o.data|)
  {
  }

  lemma SliceSplits(s: seq<byte>, i: nat, a: seq<byte>, b: seq<byte>)
    requires i + |a + b| <= |s| && s[i..i + |a + b|] == a + b
    ensures s[i..i + |a|] == a && s[i + |a|..i + |a| + |b|] == b
  {
    var t := s[i..i + |a + b|];
    assert s[i..i + |a|] == t[..|a|] && s[i + |a|..i + |a| + |b|] == t[|a|..];
  }

  lemma StartShows(s: seq<byte>, i: nat, o: Opt)
    requires i + |Encode(o)| <= |s| && s[i..i + |Encode(o)|] == Encode(o)
    ensures s[i] == o.code && s[i + 1] == |o.data|
  {
    EncodeStarts(o);
    var t := s[i..i + |Encode(o)|];
    assert t[0] == s[i] && t[1] == s[i + 1];
  }

  lemma EncodeStarts(o: Opt)
    ensures Encode(o)[0] == o.code && Encode(o)[1] == |o.data| && Encode(o)[2..] == o.data
  {
  }

  /** Of options that were written in order and closed, the scan finds the first with the wanted code, with its length
      and data, and finds nothing when there is none. */
  lemma FindsWhatWasWritten(s: Field, opts: seq<Opt>, cmd: byte)
    requires |EncodeAll(opts)| < AREA
    requires EncodeAll(opts) + [OPT_END] <= s
    requires forall o :: o in opts ==> o.code != OPT_END
    ensures match FirstWith(opts, cmd)
      case None => FindFrom(s, cmd, 0) == None
      case Some((o, at)) =>
        && FindFrom(s, cmd, 0) == Some(at)
        && at + 2 + |o.data| <= AREA
        && s[at + 1] == |o.data| && s[at + 2..at + 2 + |o.data|] == o.data
  {
    hide Encode, EncodeAll, FindFrom, FirstWith;
    var n := |EncodeAll(opts)|;
    assert s[0..n] == EncodeAll(opts) && s[n] == OPT_END;
    FindsFrom(s, 0, opts, cmd);
    if FirstWith(opts, cmd).Some? {
      var (o, at) := FirstWith(opts, cmd).value;
      DataBehindHeader(s, at, o);
    }
  }

  lemma DataBehindHeader(s: Field, at: nat, o: Opt)
    requires at + 2 + |o.data| <= AREA && s[at..at + 2 + |o.data|] == Encode(o)
    ensures s[at + 1] == |o.data| && s[at + 2..at + 2 + |o.data|] == o.data
  {
    hide Encode;
    var t := s[at..at + 2 + |o.data|];
    EncodeStarts(o);
    assert t[1] == s[at + 1] && t[2..] == s[at + 2..at + 2 + |o.data|];
  }

  predicate IsFirst(opts: seq<Opt>, cmd: byte, k: nat) {
    k < |opts| && opts[k].code == cmd && forall j :: 0 <= j < k ==> opts[j].code != cmd
  }

  /** FirstWith means what it says. */
  lemma {:induction false} FirstWithIsFirst(opts: seq<Opt>, cmd: byte)
    ensures match FirstWith(opts, cmd)
      case None => forall o :: o in opts ==> o.code != cmd
      case Some((o, at)) =>
        && o.code == cmd
        && exists k: nat :: IsFirst(opts, cmd, k) && opts[k] == o && at == |EncodeAll(opts[..k])|
  {
    hide Encode;
    if opts != [] {
      if opts[0].code == cmd {
        assert opts[..0] == [] && IsFirst(opts, cmd, 0);
      } else {
        var tail := opts[1..];
        FirstWithIsFirst(tail, cmd);
        var found := FirstWith(tail, cmd);
        if found.Some? {
          var (o, at) := found.value;
          var k: nat :| IsFirst(tail, cmd, k) && tail[k] == o && at == |EncodeAll(tail[..k])|;
          forall j | 0 <= j < k + 1
            ensures opts[j].code != cmd
          {
            assert j > 0 ==> opts[j] == tail[j - 1];
          }
          assert IsFirst(opts, cmd, k + 1);
          TailOfTake(opts, k);
        } else {
          assert forall o :: o in opts ==> o == opts[0] || o in tail;
        }
      }
    }
  }

  lemma TailOfTake(opts: seq<Opt>, k: nat)
    requires k < |opts|
    ensures opts[..k + 1][0] == opts[0] && opts[..k + 1][1..] == opts[1..][..k]
  {
  }

  /** Stores one option and returns the slot behind it. A length is a single byte. */
  method OptWriteN(opt: array<byte>, at: nat, cmd: byte, data: seq<byte>) returns (end: nat)
    requires |data| < 256 && at + 2 + |data| <= opt.Length
    modifies opt
    ensures end == at + 2 + |data|
    ensures opt[..] == Patched(old(opt[..]), at, Encode(Opt(cmd, data)))
  {
    opt[at] := cmd;
    opt[at + 1] := |data|;
    end := at + 2;
    for i := 0 to |data|
      invariant end == at + 2 + i
      invariant opt[at] == cmd && opt[at + 1] == |data|
      invariant forall k :: 0 <= k < i ==> opt[at + 2 + k] == data[k]
      invariant forall k :: 0 <= k < at || end <= k < opt.Length ==> opt[k] == old(opt[k])
    {
      opt[end] := data[i];
      end := end + 1;
    }
    PatchedIs(old(opt[..]), opt[..], at, Encode(Opt(cmd, data)));
  }

  lemma PatchedIs(before: seq<byte>, after: seq<byte>, at: nat, d: seq<byte>)
    requires |before| == |after| && at + |d| <= |before|
    requires forall k :: 0 <= k < |d| ==> after[at + k] == d[k]
    requires forall k :: 0 <= k < at || at + |d| <= k < |before| ==> after[k] == before[k]
    ensures after == Patched(before, at, d)
  {
  }

  method OptWriteU8(opt: array<byte>, at: nat, cmd: byte, val: byte) returns (end: nat)
    requires at + 3 <= opt.Length
    modifies opt
    ensures end == at + 3
    ensures opt[..] == Patched(old(opt[..]), at, Encode(Opt(cmd, [val])))
  {
    opt[at] := cmd;
    opt[at + 1] := 1;
    opt[at + 2] := val;
    end := at + 3;
    assert opt[at..end] == Encode(Opt(cmd, [val]));
  }

  /** The bytes of a 32-bit number in network order. */
  function BigEndian(v: u32): (s: seq<byte>)
    ensures |s| == 4
  {
    [v / 0x100_0000, v / 0x1_0000 % 0x100, v / 0x100 % 0x100, v % 0x100]
  }

  lemma BigEndianValue(v: u32)
    ensures var s := BigEndian(v);
      var a: int, b: int, c: int, d: int := s[0], s[1], s[2], s[3];
      a * 0x100_0000 + b * 0x1_0000 + c * 0x100 + d == v
  {
    assert v / 0x1_0000 / 0x100 == v / 0x100_0000 && v / 0x100 / 0x100 == v / 0x1_0000;
  }

  method OptWriteU32(opt: array<byte>, at: nat, cmd: byte, val: u32) returns (end: nat)
    requires at + 6 <= opt.Length
    modifies opt
    ensures end == at + 6
    ensures opt[..] == Patched(old(opt[..]), at, Encode(Opt(cmd, BigEndian(val))))
  {
    opt[at] := cmd;
    opt[at + 1] := 4;
    opt[at + 2] := val / 0x100_0000;
    opt[at + 3] := val / 0x1_0000 % 0x100;
    opt[at + 4] := val / 0x100 % 0x100;
    opt[at + 5] := val % 0x100;
    end := at + 6;
    assert opt[at + 2..end] == BigEndian(val);
    hide BigEndian;
    assert opt[at..end] == [opt[at], opt[at + 1]] + opt[at + 2..end];
  }

  /** Writing an option right behind others keeps them. */
  lemma {:induction false} WriteAppends(s: seq<byte>, opts: seq<Opt>, o: Opt)
    requires EncodeAll(opts) <= s && |EncodeAll(opts)| + |Encode(o)| <= |s|
    ensures EncodeAll(opts + [o]) <= Patched(s, |EncodeAll(opts)|, Encode(o))
    ensures |EncodeAll(opts + [o])| == |EncodeAll(opts)| + |Encode(o)|
  {
    EncodeAllAppends(opts, o);
  }

  lemma {:induction false} EncodeAllAppends(opts: seq<Opt>, o: Opt)
    ensures EncodeAll(opts + [o]) == EncodeAll(opts) + Encode(o)
  {
    hide Encode;
    if opts == [] {
      assert [] + [o] == [o] && [o][1..] == [];
    } else {
      EncodeAllAppends(opts[1..], o);
      assert (opts + [o])[1..] == opts[1..] + [o];
    }
  }
}
