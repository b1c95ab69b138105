/** Sixteen virtual terminals multiplexed over RTT channel 0. A switch is the escape byte 0xFF followed by the
    terminal's letter. */
module Terminal {
  import opened Bytes
  import opened Ring
  import opened RttBuffer
  import opened Wrappers

  const ESCAPE: byte := 0xFF
  const NUM_TERMINALS: nat := 16

  type TerminalId = t: nat | t < NUM_TERMINALS

  /** '0'..'9', 'A'..'F' */
  function Letter(t: TerminalId): byte {
    if t < 10 then 0x30 + t else 0x41 + t - 10
  }

  function Switch(t: TerminalId): seq<byte> {
    [ESCAPE, Letter(t)]
  }

  /** One completed call, with the bytes that it really stored. */
  datatype Op =
    | Select(t: TerminalId)
    | Out(t: TerminalId, text: seq<byte>)
    | Write(text: seq<byte>)
  {
    predicate Plain() {
      Select? || ESCAPE !in text
    }
  }

  function Active(ops: seq<Op>): TerminalId {
    if ops == [] then 0
    else if ops[|ops| - 1].Select? then ops[|ops| - 1].t
    else Active(ops[..|ops| - 1])
  }

  function Encode(active: TerminalId, op: Op): seq<byte> {
    match op
    case Select(t) => Switch(t)
    case Out(t, text) => Switch(t) + text + Switch(active)
    case Write(text) => text
  }

  function EncodeAll(ops: seq<Op>): seq<byte> {
    if ops == [] then []
    else EncodeAll(ops[..|ops| - 1]) + Encode(Active(ops[..|ops| - 1]), ops[|ops| - 1])
  }

  lemma OneMore(ops: seq<Op>, op: Op)
    ensures Active(ops + [op]) == if op.Select? then op.t else Active(ops)
    ensures EncodeAll(ops + [op]) == EncodeAll(ops) + Encode(Active(ops), op)
  {
    assert (ops + [op])[..|ops|] == ops;
  }

  /** Each byte together with the terminal it is meant for. */
  function Tagged(t: TerminalId, text: seq<byte>): (r: seq<(TerminalId, byte)>)
    ensures |r| == |text|
  {
    seq(|text|, k requires 0 <= k < |text| => (t, text[k]))
  }

  function Intended(ops: seq<Op>): seq<(TerminalId, byte)> {
    if ops == [] then []
    else
      var front, last := ops[..|ops| - 1], ops[|ops| - 1];
      match last
      case Select(_) => Intended(front)
      case Out(t, text) => Intended(front) + Tagged(t, text)
      case Write(text) => Intended(front) + Tagged(Active(front), text)
  }

  /** The host's view while it scans the stream. */
  datatype Scan = Scan(t: TerminalId, escaped: bool, shown: seq<(TerminalId, byte)>)

  function ScanByte(s: Scan, b: byte): Scan {
    if s.escaped then
      if 0x30 <= b < 0x3A then Scan(b - 0x30, false, s.shown)
      else if 0x41 <= b < 0x47 then Scan(b - 0x41 + 10, false, s.shown)
      else s.(escaped := false)
    else if b == ESCAPE then s.(escaped := true)
    else s.(shown := s.shown + [(s.t, b)])
  }

  function ScanAll(s: Scan, stream: seq<byte>): Scan {
    if stream == [] then s else ScanByte(ScanAll(s, stream[..|stream| - 1]), stream[|stream| - 1])
  }

  function Demultiplex(stream: seq<byte>): Scan {
    ScanAll(Scan(0, false, []), stream)
  }

  lemma {:induction false} ScanConcat(s: Scan, x: seq<byte>, y: seq<byte>)
    ensures ScanAll(s, x + y) == ScanAll(ScanAll(s, x), y)
  {
    if y == [] {
      assert x + y == x;
    } else {
      var y' := y[..|y| - 1];
      ScanConcat(s, x, y');
      assert (x + y)[..|x + y| - 1] == x + y';
    }
  }

  lemma ScanSwitch(s: Scan, t: TerminalId)
    requires !s.escaped
    ensures ScanAll(s, Switch(t)) == s.(t := t)
  {
    var w := Switch(t);
    assert w[..1] == [ESCAPE] && w[..1][..0] == [];
    assert ScanAll(s, w[..1]) == s.(escaped := true);
  }

  lemma {:induction false} ScanText(s: Scan, text: seq<byte>)
    requires !s.escaped && ESCAPE !in text
    ensures ScanAll(s, text) == s.(shown := s.shown + Tagged(s.t, text))
  {
    if text == [] {
      assert s.shown + Tagged(s.t, text) == s.shown;
    } else {
      var text' := text[..|text| - 1];
      ScanText(s, text');
      assert Tagged(s.t, text) == Tagged(s.t, text') + [(s.t, text[|text| - 1])];
      assert s.shown + Tagged(s.t, text') + [(s.t, text[|text| - 1])] == s.shown + Tagged(s.t, text);
    }
  }

  lemma ScanOp(s: Scan, op: Op)
    requires !s.escaped && op.Plain()
    ensures ScanAll(s, Encode(s.t, op)) == match op
      case Select(t) => s.(t := t)
      case Out(t, text) => s.(shown := s.shown + Tagged(t, text))
      case Write(text) => s.(shown := s.shown + Tagged(s.t, text))
  {
    match op
    case Select(t) => ScanSwitch(s, t);
    case Write(text) => ScanText(s, text);
    case Out(t, text) =>
      ScanConcat(s, Switch(t) + text, Switch(s.t));
      ScanConcat(s, Switch(t), text);
      ScanSwitch(s, t);
      ScanText(s.(t := t), text);
      ScanSwitch(s.(t := t, shown := s.shown + Tagged(t, text)), s.t);
  }

  /** Whatever calls were made, the host shows every byte on the terminal it was meant for, and ends up on the
      terminal that is active. */
  lemma {:induction false} DemultiplexesAll(ops: seq<Op>)
    requires forall op :: op in ops ==> op.Plain()
    ensures Demultiplex(EncodeAll(ops)) == Scan(Active(ops), false, Intended(ops))
  {
    if ops != [] {
      var front, last := ops[..|ops| - 1], ops[|ops| - 1];
      DemultiplexesAll(front);
      ScanConcat(Scan(0, false, []), EncodeAll(front), Encode(Active(front), last));
      ScanOp(Demultiplex(EncodeAll(front)), last);
    }
  }

  /** The host never shows an escape byte. */
  lemma {:induction false} NeverShowsEscape(s: Scan, stream: seq<byte>)
    requires forall x :: x in s.shown ==> x.1 != ESCAPE
    ensures forall x :: x in ScanAll(s, stream).shown ==> x.1 != ESCAPE
  {
    if stream != [] {
      NeverShowsEscape(s, stream[..|stream| - 1]);
    }
  }

  lemma {:induction false} EscapeIsIntended(ops: seq<Op>, op: Op)
    requires op in ops && !op.Plain()
    ensures exists x :: x in Intended(ops) && x.1 == ESCAPE
  {
    var front, last := ops[..|ops| - 1], ops[|ops| - 1];
    if op != last {
      EscapeIsIntended(front, op);
      var x :| x in Intended(front) && x.1 == ESCAPE;
      assert x in Intended(ops);
    } else {
      var t := if last.Out? then last.t else Active(front);
      var k :| 0 <= k < |last.text| && last.text[k] == ESCAPE;
      assert Tagged(t, last.text)[k] == (t, ESCAPE);
      assert (t, ESCAPE) in Intended(ops);
    }
  }

  /** The multiplexing is faithful exactly when no text contains the escape byte. */
  lemma {:induction false} DemultiplexesExactly(ops: seq<Op>)
    ensures Demultiplex(EncodeAll(ops)) == Scan(Active(ops), false, Intended(ops))
      <==> (forall op :: op in ops ==> op.Plain())
  {
    if op :| op in ops && !op.Plain() {
      EscapeIsIntended(ops, op);
      NeverShowsEscape(Scan(0, false, []), EncodeAll(ops));
    } else {
      DemultiplexesAll(ops);
    }
  }

  lemma Regroup(base: seq<byte>, x: seq<byte>, y: seq<byte>, z: seq<byte>)
    ensures base + x + y + z == base + (x + y + z)
  {
  }

  class Terminals {
    const ring: RttBuffer
    var activeTerminal: nat
    ghost var ops: seq<Op>

    /** `ops` lists the calls completed so far; what they stored is all that was ever published. */
    ghost predicate Valid()
      reads this, ring, ring.buffer
    {
      && ring.Valid()
      && activeTerminal == Active(ops)
      && ring.Stream() == EncodeAll(ops)
    }

    constructor (ring: RttBuffer)
      requires ring.Valid() && ring.Stream() == []
      ensures Valid() && this.ring == ring && ops == [] && activeTerminal == 0
    {
      this.ring := ring;
      activeTerminal, ops := 0, [];
    }

    method PostTerminalSwitch(t: TerminalId, host: seq<u32>) returns (done: bool)
      requires ring.Valid()
      modifies ring`wrOff, ring`rdOff, ring`received, ring.buffer
      ensures ring.Valid()
      ensures done ==> ring.Stream() == old(ring.Stream()) + Switch(t)
      ensures 2 <= old(ring.Free()) && 2 <= |host| ==> done && ring.Free() >= old(ring.Free()) - 2
    {
      hide Letter;
      var written, rounds;
      written, rounds, done := ring.WriteBlocking(Switch(t), host);
      assert Switch(t)[..2] == Switch(t);
    }

    /** The active terminal for all plain writes to come. */
    method SetTerminal(t: u32, host: seq<u32>) returns (r: int, done: bool)
      requires Valid()
      modifies this`activeTerminal, this`ops, ring`wrOff, ring`rdOff, ring`received, ring.buffer
      ensures done ==> Valid()
      ensures ring.flags % 4 != MODE_BLOCK_IF_FIFO_FULL ==> done
      ensures done ==>
        if t < NUM_TERMINALS && (ring.flags % 4 == MODE_BLOCK_IF_FIFO_FULL || 2 <= old(ring.Free()))
        then r == 0 && ops == old(ops) + [Select(t)]
        else r == -1 && ops == old(ops) && ring.Stream() == old(ring.Stream())
    {
      hide Letter, Held, Stored, EncodeAll, Active;
      done := true;
      if t >= NUM_TERMINALS {
        return -1, true;
      }
      assert Switch(t)[..2] == Switch(t);
      if ring.flags % 4 == MODE_BLOCK_IF_FIFO_FULL {
        activeTerminal := t;
        done := PostTerminalSwitch(t, host);
      } else {
        var avail := ring.GetAvailWriteSpace();
        if avail < 2 {
          return -1, true;
        }
        activeTerminal := t;
        ring.WriteNoCheck(Switch(t));
      }
      ops := ops + [Select(t)];
      OneMore(old(ops), Select(t));
      r := 0;
    }

    /** Writes `text` to terminal `t` without changing the active terminal. `host1`, `host2` and `host3` are the
        host's visits during the three writes. */
    method TerminalOut(t: u32, text: seq<byte>, host1: seq<u32>, host2: seq<u32>, host3: seq<u32>)
      returns (status: int, done: bool)
      requires Valid()
      modifies this`ops, ring`wrOff, ring`rdOff, ring`received, ring.buffer
      ensures done ==> Valid()
      ensures ring.flags % 4 != MODE_BLOCK_IF_FIFO_FULL && 2 <= |host1| && 2 <= |host2| && 2 <= |host3| ==> done
      ensures done && OutLength(t, ring.flags % 4, old(ring.Free()), |text|).Some? ==>
        && status == OutLength(t, ring.flags % 4, old(ring.Free()), |text|).value
        && ops == old(ops) + [Out(t, text[..status])]
      ensures done && OutLength(t, ring.flags % 4, old(ring.Free()), |text|).None? ==>
        && status == Refusal(t, ring.flags % 4) && ops == old(ops)
        && ring.Stream() == old(ring.Stream()) && ring.received == old(ring.received)
      ensures done && t < 16 && ring.flags % 4 == 0 ==>
        if |text| + 4 <= old(ring.Free()) then status == |text| && ops == old(ops) + [Out(t, text)]
        else status == 0 && ops == old(ops)
      ensures done && t < 16 && ring.flags % 4 == 1 ==>
        if 4 <= old(ring.Free()) then
          status == Min(|text|, old(ring.Free()) - 4) && ops == old(ops) + [Out(t, text[..status])]
        else status == -1 && ops == old(ops)
      ensures done && t < 16 && ring.flags % 4 == 2 ==>
        status == |text| && ops == old(ops) + [Out(t, text)]
      ensures done && (t >= 16 || ring.flags % 4 == 3) ==> status == -1 && ops == old(ops)
    {
      hide EncodeAll, Active, Held, Space;
      assert text[..|text|] == text;
      if t >= NUM_TERMINALS {
        return -1, true;
      }
      var avail := ring.GetAvailWriteSpace();
      var n := |text|;
      if ring.flags % 4 == MODE_NO_BLOCK_SKIP {
        if avail < n + 4 {
          return 0, true;
        }
      } else if ring.flags % 4 == MODE_NO_BLOCK_TRIM {
        if avail < 4 {
          return -1, true;
        }
        n := if n < avail - 4 then n else avail - 4;
      } else if ring.flags % 4 != MODE_BLOCK_IF_FIFO_FULL {
        return -1, true;
      }
      status, done := OutBetweenSwitches(t, text[..n], host1, host2, host3);
    }

    method OutBetweenSwitches(t: TerminalId, text: seq<byte>, host1: seq<u32>, host2: seq<u32>, host3: seq<u32>)
      returns (status: nat, done: bool)
      requires Valid()
      modifies this`ops, ring`wrOff, ring`rdOff, ring`received, ring.buffer
      ensures |text| + 4 <= old(ring.Free()) && 2 <= |host1| && 2 <= |host2| && 2 <= |host3| ==> done
      ensures done ==> Valid() && status == |text| && ops == old(ops) + [Out(t, text)]
    {
      hide Switch, Space, Used, Held, EncodeAll, Active;
      ghost var base := ring.Stream();
      status := 0;
      done := PostTerminalSwitch(t, host1);
      if !done {
        return;
      }
      var rounds;
      status, rounds, done := ring.WriteBlocking(text, host2);
      if !done {
        return;
      }
      assert text[..|text|] == text;
      done := PostTerminalSwitch(activeTerminal, host3);
      if !done {
        return;
      }
      ops := ops + [Out(t, text)];
      OneMore(old(ops), Out(t, text));
      Regroup(base, Switch(t), text, Switch(activeTerminal));
    }

    /** A plain write to channel 0, as `SEGGER_RTT_WriteNoLock` does it. */
    method WriteActive(text: seq<byte>, host: seq<u32>) returns (status: nat, done: bool)
      requires Valid()
      modifies this`ops, ring`wrOff, ring`rdOff, ring`received, ring.buffer
      ensures Valid() && status <= |text| && ops == old(ops) + [Write(text[..status])]
      ensures ring.flags != MODE_BLOCK_IF_FIFO_FULL ==>
        done && text[..status] == Accepted(ring.flags, old(ring.Free()), text)
      ensures ring.flags == 0 ==> status == if |text| <= old(ring.Free()) then |text| else 0
      ensures ring.flags == 1 ==> status == Min(|text|, old(ring.Free()))
      ensures ring.flags == MODE_BLOCK_IF_FIFO_FULL && done ==> status == |text|
    {
      hide Space, Held, Stored, At, Accepted, EncodeAll, Active;
      status, done := ring.WriteNoLock(text, host);
      ops := ops + [Write(text[..status])];
      OneMore(old(ops), Write(text[..status]));
    }

    /** What the host shows once it has read everything. */
    lemma ShownAsIntended()
      requires Valid() && forall op :: op in ops ==> op.Plain()
      ensures Demultiplex(ring.Stream()) == Scan(activeTerminal, false, Intended(ops))
    {
      DemultiplexesAll(ops);
    }
  }

  /** How much of a text of length `n` is written to terminal `t`, or None when nothing is, not even a switch. */
  function OutLength(t: nat, mode: nat, space: nat, n: nat): (r: Option<nat>)
    ensures r.Some? ==> t < NUM_TERMINALS && r.value <= n
    ensures r.Some? && mode != MODE_BLOCK_IF_FIFO_FULL ==> r.value + 4 <= space
    ensures t < NUM_TERMINALS && mode == MODE_NO_BLOCK_SKIP ==>
      (r.Some? <==> n + 4 <= space) && (r.Some? ==> r.value == n)
    ensures t < NUM_TERMINALS && mode == MODE_NO_BLOCK_TRIM ==>
      (r.Some? <==> 4 <= space) && (r.Some? ==> r.value == n || r.value + 4 == space)
    ensures t < NUM_TERMINALS && mode == MODE_BLOCK_IF_FIFO_FULL ==> r == Some(n)
  {
    if t >= NUM_TERMINALS then None
    else if mode == MODE_NO_BLOCK_SKIP then if n + 4 <= space then Some(n) else None
    else if mode == MODE_NO_BLOCK_TRIM then if 4 <= space then Some(Min(n, space - 4)) else None
    else if mode == MODE_BLOCK_IF_FIFO_FULL then Some(n)
    else None
  }

  /** What is returned when nothing is written: only a full ring in skip mode is no error. */
  function Refusal(t: nat, mode: nat): int {
    if t < NUM_TERMINALS && mode == MODE_NO_BLOCK_SKIP then 0 else -1
  }
}
