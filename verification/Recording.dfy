/** What SystemView recording does, event by event: the off / on / dropping state machine, the count of dropped
    packets, and the time stamps. `trace` tells the whole story of a run; the recorder itself keeps only the first
    four fields. How much room the ring has at each write is part of the input, so every behaviour of the host
    is covered. */
module Recording {
  import opened Bytes
  import opened VarInt
  import opened Wrappers
  import opened Packet

  const STATE_OFF: nat := 0
  const STATE_ON: nat := 1
  const STATE_DROPPING: nat := 2

  datatype Kind = Sync | Overflow | Event

  datatype Mark =
    | Stored(kind: Kind, p: Packet, time: u32)
    | Full                      // an event did not fit while recording was on; dropping begins
    | Dropped(masked: bool)     // the overflow packet did not fit; the event at hand is not looked at
    | Restarted
    | Stopped
  {
    predicate IsLoss() {
      Full? || Dropped?
    }
  }

  /** `attempts` counts the events that were to be recorded: those posted while recording was not off, unless
      masked. */
  datatype State = State(
    enable: nat, drops: u32, last: u32, disabled: set<u32>, attempts: nat, trace: seq<Mark>)

  /** `free1` and `free2` are the room in the ring when the overflow packet and the event are written. */
  datatype Input =
    | Post(id: u32, payload: Payload, ts1: u32, free1: nat, ts2: u32, free2: nat)
    | Start(free: nat)
    | Stop
    | SetMask(disabled: set<u32>)

  type Payload = s: seq<byte> | |s| < LENGTH_LIMIT

  function Initial(t0: u32): State {
    State(STATE_OFF, 0, t0, {}, 0, [])
  }

  predicate Masked(s: State, id: u32) {
    id < 32 && id in s.disabled
  }

  function OverflowPacket(s: State, ts: u32): Packet {
    Packet(EVTID_OVERFLOW, U32Bytes(s.drops), ToU32(ts - s.last))
  }

  function EventPacket(s: State, id: u32, payload: Payload, ts: u32): Packet {
    Packet(id, payload, ToU32(ts - s.last))
  }

  function TryOverflow(s: State, ts: u32, free: nat, masked: bool): State
    requires s.enable > 0
  {
    var p := OverflowPacket(s, ts);
    if |Encode(p)| <= free
    then s.(last := ts, enable := s.enable - 1, trace := s.trace + [Stored(Overflow, p, ts)])
    else s.(drops := ToU32(s.drops + 1), trace := s.trace + [Dropped(masked)])
  }

  function TryEvent(s: State, id: u32, payload: Payload, ts: u32, free: nat): State {
    var p := EventPacket(s, id, payload, ts);
    if |Encode(p)| <= free
    then s.(last := ts, trace := s.trace + [Stored(Event, p, ts)])
    else s.(enable := s.enable + 1, trace := s.trace + [Full])
  }

  function OneNop(s: State): State {
    s.(trace := s.trace + [Stored(Sync, NOP, s.last)])
  }

  function Step(s: State, i: Input): State {
    match i
    case Post(id, payload, ts1, free1, ts2, free2) =>
      if s.enable == STATE_OFF then s
      else
        var s1 := if s.enable == STATE_DROPPING then TryOverflow(s, ts1, free1, Masked(s, id)) else s;
        if Masked(s, id) then s1
        else
          var s2 := s1.(attempts := s.attempts + 1);
          if s2.enable != STATE_ON then s2 else TryEvent(s2, id, payload, ts2, free2)
    case Start(free) =>
      var s1 := s.(enable := STATE_ON, trace := s.trace + [Restarted]);
      if 10 <= free then OneNop(OneNop(OneNop(OneNop(OneNop(s1))))) else s1
    case Stop =>
      s.(enable := STATE_OFF, trace := s.trace + [Stopped])
    case SetMask(disabled) =>
      s.(disabled := disabled)
  }

  function Run(s: State, inputs: seq<Input>): State {
    if inputs == [] then s
    else Step(Run(s, inputs[..|inputs| - 1]), inputs[|inputs| - 1])
  }

  /** The packets in the stream. */
  function Log(trace: seq<Mark>): (ps: seq<Packet>) {
    if trace == [] then []
    else
      var ps := Log(trace[..|trace| - 1]);
      var m := trace[|trace| - 1];
      if m.Stored? then ps + [m.p] else ps
  }

  /** The times at which they were stored. */
  function Times(trace: seq<Mark>): (ts: seq<u32>)
    ensures |ts| == |Log(trace)|
  {
    if trace == [] then []
    else
      var ts := Times(trace[..|trace| - 1]);
      var m := trace[|trace| - 1];
      if m.Stored? then ts + [m.time] else ts
  }

  /** What a host computes: the initial time plus all deltas so far, modulo 2^32. */
  function Clock(t0: u32, ps: seq<Packet>): u32 {
    if ps == [] then t0 else ToU32(Clock(t0, ps[..|ps| - 1]) + ps[|ps| - 1].delta)
  }

  /** What can be counted on a trace. */
  datatype Tally = Events | Fulls | Drops | MaskedDrops {
    predicate Covers(m: Mark) {
      match this
      case Events => m.Stored? && m.kind == Event
      case Fulls => m.Full?
      case Drops => m.Dropped?
      case MaskedDrops => m.Dropped? && m.masked
    }
  }

  function Count(trace: seq<Mark>, tally: Tally): nat {
    if trace == [] then 0
    else Count(trace[..|trace| - 1], tally) + (if tally.Covers(trace[|trace| - 1]) then 1 else 0)
  }

  /** Mark `j` has the right time, is an overflow packet if and only if a loss comes just before it, and then
      carries the number of drops so far. */
  ghost predicate MarkOk(t0: u32, trace: seq<Mark>, j: nat)
    requires j < |trace|
  {
    trace[j].Stored? ==>
      && trace[j].time == Clock(t0, Log(trace[..j + 1]))
      && (trace[j].kind == Overflow <==> 0 < j && trace[j - 1].IsLoss())
      && (trace[j].kind == Overflow ==>
        && trace[j].p.id == EVTID_OVERFLOW
        && trace[j].p.payload == U32Bytes(ToU32(Count(trace[..j], Drops))))
  }

  ghost predicate Inv(s: State, t0: u32) {
    && s.enable <= STATE_DROPPING
    && (s.enable == STATE_DROPPING <==> s.trace != [] && s.trace[|s.trace| - 1].IsLoss())
    && s.drops == ToU32(Count(s.trace, Drops))
    && s.last == Clock(t0, Log(s.trace))
    && s.attempts + Count(s.trace, MaskedDrops) ==
      Count(s.trace, Events) + Count(s.trace, Fulls) + Count(s.trace, Drops)
    && forall j :: 0 <= j < |s.trace| ==> MarkOk(t0, s.trace, j)
  }

  /** Everything that is read off a trace, for a trace that is one mark longer. */
  lemma OneMark(trace: seq<Mark>, m: Mark)
    ensures (trace + [m])[..|trace|] == trace
    ensures Log(trace + [m]) == Log(trace) + (if m.Stored? then [m.p] else [])
    ensures Times(trace + [m]) == Times(trace) + (if m.Stored? then [m.time] else [])
    ensures forall tally: Tally ::
      Count(trace + [m], tally) == Count(trace, tally) + (if tally.Covers(m) then 1 else 0)
  {
    var t := trace + [m];
    assert t[..|t| - 1] == trace;
  }

  lemma OneTick(t0: u32, ps: seq<Packet>, p: Packet)
    ensures Clock(t0, ps + [p]) == ToU32(Clock(t0, ps) + p.delta)
  {
    assert (ps + [p])[..|ps + [p]| - 1] == ps;
  }

  lemma DeltaAddsUp(ts: u32, last: u32)
    ensures ToU32(last + ToU32(ts - last)) == ts
  {
  }

  lemma MarksStayOk(t0: u32, trace: seq<Mark>, m: Mark)
    requires forall j :: 0 <= j < |trace| ==> MarkOk(t0, trace, j)
    requires MarkOk(t0, trace + [m], |trace|)
    ensures forall j :: 0 <= j < |trace + [m]| ==> MarkOk(t0, trace + [m], j)
  {
    hide Clock, Log, Count, U32Bytes;
    var t := trace + [m];
    forall j | 0 <= j < |t|
      ensures MarkOk(t0, t, j)
    {
      if j < |trace| {
        assert MarkOk(t0, trace, j);
        assert t[..j] == trace[..j] && t[..j + 1] == trace[..j + 1];
      }
    }
  }

  lemma StoredMarkIsOk(t0: u32, s: State, m: Mark)
    requires Inv(s, t0)
    requires m.Stored? ==>
      && ToU32(s.last + m.p.delta) == m.time
      && (m.kind == Overflow <==> s.enable == STATE_DROPPING)
      && (m.kind == Overflow ==> m.p.id == EVTID_OVERFLOW && m.p.payload == U32Bytes(s.drops))
    ensures forall j :: 0 <= j < |s.trace + [m]| ==> MarkOk(t0, s.trace + [m], j)
    ensures Clock(t0, Log(s.trace + [m])) == if m.Stored? then m.time else s.last
  {
    OneMark(s.trace, m);
    if m.Stored? {
      OneTick(t0, Log(s.trace), m.p);
    }
    var t := s.trace + [m];
    assert t[..|s.trace| + 1] == t;
    assert MarkOk(t0, t, |s.trace|) by {
      hide Clock, Log, Count, U32Bytes;
    }
    MarksStayOk(t0, s.trace, m);
  }

  /** A state that differs by one mark, and by what that mark entails, keeps the invariant. */
  lemma MarkKeepsInv(s: State, s': State, t0: u32, m: Mark)
    requires Inv(s, t0) && s'.trace == s.trace + [m]
    requires m.Stored? ==>
      && ToU32(s.last + m.p.delta) == m.time
      && (m.kind == Overflow <==> s.enable == STATE_DROPPING)
      && (m.kind == Overflow ==> m.p.id == EVTID_OVERFLOW && m.p.payload == U32Bytes(s.drops))
    requires s'.enable <= STATE_DROPPING && (s'.enable == STATE_DROPPING <==> m.IsLoss())
    requires s'.drops == (if m.Dropped? then ToU32(s.drops + 1) else s.drops)
    requires s'.last == (if m.Stored? then m.time else s.last)
    requires s'.attempts == s.attempts +
      (if m.Full? || (m.Dropped? && !m.masked) || (m.Stored? && m.kind == Event) then 1 else 0)
    ensures Inv(s', t0)
  {
    hide U32Bytes, Clock, Log, Count, MarkOk, ToU32;
    OneMark(s.trace, m);
    StoredMarkIsOk(t0, s, m);
    OneMoreDrop(Count(s.trace, Drops));
    assert s'.trace[|s'.trace| - 1] == m;
  }

  lemma OneMoreDrop(n: nat)
    ensures ToU32(ToU32(n) + 1) == ToU32(n + 1)
  {
  }

  lemma TryOverflowKeepsInv(s: State, t0: u32, ts: u32, free: nat, masked: bool)
    requires Inv(s, t0) && s.enable == STATE_DROPPING
    ensures var s' := TryOverflow(s, ts, free, masked);
      && (s'.enable == STATE_ON || s'.enable == STATE_DROPPING)
      && if s'.enable == STATE_ON || masked then Inv(s', t0) else Inv(s'.(attempts := s'.attempts + 1), t0)
  {
    hide Encode, U32Bytes, Inv;
    var s' := TryOverflow(s, ts, free, masked);
    DeltaAddsUp(ts, s.last);
    var m := if s'.enable == STATE_DROPPING then Dropped(masked) else Stored(Overflow, OverflowPacket(s, ts), ts);
    MarkKeepsInv(s, if s'.enable == STATE_ON || masked then s' else s'.(attempts := s'.attempts + 1), t0, m);
  }

  lemma TryEventKeepsInv(s: State, t0: u32, id: u32, payload: Payload, ts: u32, free: nat)
    requires Inv(s, t0) && s.enable == STATE_ON
    ensures Inv(TryEvent(s.(attempts := s.attempts + 1), id, payload, ts, free), t0)
  {
    hide Encode, U32Bytes, Inv;
    var s' := TryEvent(s.(attempts := s.attempts + 1), id, payload, ts, free);
    DeltaAddsUp(ts, s.last);
    var m := if s'.enable == STATE_DROPPING then Full else Stored(Event, EventPacket(s, id, payload, ts), ts);
    MarkKeepsInv(s, s', t0, m);
  }

  lemma PlainMarkKeepsInv(s: State, t0: u32, m: Mark, enable: nat)
    requires Inv(s, t0) && enable <= STATE_ON
    requires m.Restarted? || m.Stopped? || (m == Stored(Sync, NOP, s.last) && s.enable == STATE_ON)
    ensures Inv(s.(enable := enable, trace := s.trace + [m]), t0)
  {
    hide Inv;
    MarkKeepsInv(s, s.(enable := enable, trace := s.trace + [m]), t0, m);
  }

  /** What posting an event comes down to in each state. */
  lemma PostWhenOff(s: State, i: Input)
    requires s.enable == STATE_OFF && i.Post?
    ensures Step(s, i) == s
  {
  }

  lemma PostWhenOn(s: State, i: Input)
    requires s.enable == STATE_ON && i.Post?
    ensures Step(s, i) == if Masked(s, i.id) then s
      else TryEvent(s.(attempts := s.attempts + 1), i.id, i.payload, i.ts2, i.free2)
  {
    hide TryEvent, Masked;
  }

  lemma PostWhenDropping(s: State, i: Input)
    requires s.enable == STATE_DROPPING && i.Post?
    ensures var masked := Masked(s, i.id);
      var s1 := TryOverflow(s, i.ts1, i.free1, masked);
      Step(s, i) == if masked then s1
        else if s1.enable != STATE_ON then s1.(attempts := s1.attempts + 1)
        else TryEvent(s1.(attempts := s1.attempts + 1), i.id, i.payload, i.ts2, i.free2)
  {
    assert TryOverflow(s, i.ts1, i.free1, Masked(s, i.id)).disabled == s.disabled;
    hide TryEvent, TryOverflow;
  }

  lemma PostKeepsInv(s: State, t0: u32, i: Input)
    requires Inv(s, t0) && i.Post?
    ensures Inv(Step(s, i), t0)
  {
    EnableIsBounded(s, t0);
    hide Inv, Step, TryOverflow, TryEvent, Masked;
    if s.enable == STATE_OFF {
      PostWhenOff(s, i);
    } else if s.enable == STATE_ON {
      PostWhenOn(s, i);
      if !Masked(s, i.id) {
        TryEventKeepsInv(s, t0, i.id, i.payload, i.ts2, i.free2);
      }
    } else {
      DroppingKeepsInv(s, t0, i);
    }
  }

  lemma DroppingKeepsInv(s: State, t0: u32, i: Input)
    requires Inv(s, t0) && i.Post? && s.enable == STATE_DROPPING
    ensures Inv(Step(s, i), t0)
  {
    hide Inv, Step, TryOverflow, TryEvent, Masked;
    var masked := Masked(s, i.id);
    var s1 := TryOverflow(s, i.ts1, i.free1, masked);
    PostWhenDropping(s, i);
    TryOverflowKeepsInv(s, t0, i.ts1, i.free1, masked);
    if s1.enable == STATE_ON && !masked {
      TryEventKeepsInv(s1, t0, i.id, i.payload, i.ts2, i.free2);
    }
  }

  lemma EnableIsBounded(s: State, t0: u32)
    requires Inv(s, t0)
    ensures s.enable <= STATE_DROPPING
  {
  }

  lemma StartKeepsInv(s: State, t0: u32, free: nat)
    requires Inv(s, t0)
    ensures Inv(Step(s, Start(free)), t0)
  {
    hide Inv;
    PlainMarkKeepsInv(s, t0, Restarted, STATE_ON);
    if 10 <= free {
      var s1 := s.(enable := STATE_ON, trace := s.trace + [Restarted]);
      var m := Stored(Sync, NOP, s.last);
      PlainMarkKeepsInv(s1, t0, m, STATE_ON);
      PlainMarkKeepsInv(OneNop(s1), t0, m, STATE_ON);
      PlainMarkKeepsInv(OneNop(OneNop(s1)), t0, m, STATE_ON);
      PlainMarkKeepsInv(OneNop(OneNop(OneNop(s1))), t0, m, STATE_ON);
      PlainMarkKeepsInv(OneNop(OneNop(OneNop(OneNop(s1)))), t0, m, STATE_ON);
    }
  }

  lemma StepKeepsInv(s: State, t0: u32, i: Input)
    requires Inv(s, t0)
    ensures Inv(Step(s, i), t0)
  {
    hide Clock, Log, Count, MarkOk;
    match i
    case Post(_, _, _, _, _, _) => PostKeepsInv(s, t0, i);
    case Start(free) => StartKeepsInv(s, t0, free);
    case Stop => PlainMarkKeepsInv(s, t0, Stopped, STATE_OFF);
    case SetMask(_) =>
  }

  /** The invariant holds after every run. */
  lemma {:induction false} RunKeepsInv(t0: u32, inputs: seq<Input>)
    ensures Inv(Run(Initial(t0), inputs), t0)
  {
    hide Step;
    if inputs != [] {
      RunKeepsInv(t0, inputs[..|inputs| - 1]);
      StepKeepsInv(Run(Initial(t0), inputs[..|inputs| - 1]), t0, inputs[|inputs| - 1]);
    }
  }

  /** Recording is off, on or dropping; an event moves it only from on to dropping or back, and in off does
      nothing. */
  lemma StateMachine(t0: u32, inputs: seq<Input>, i: Input)
    ensures
      var s := Run(Initial(t0), inputs);
      var s' := Step(s, i);
      && s'.enable in {STATE_OFF, STATE_ON, STATE_DROPPING}
      && (i.Post? && s'.enable != s.enable ==> {s.enable, s'.enable} == {STATE_ON, STATE_DROPPING})
      && (i.Post? && s.enable == STATE_OFF ==> s' == s)
      && (i.Start? ==> s'.enable == STATE_ON)
      && (i.Stop? ==> s'.enable == STATE_OFF)
  {
    hide Encode, U32Bytes, Clock, Log, Count, MarkOk, Run;
    RunKeepsInv(t0, inputs);
    StepKeepsInv(Run(Initial(t0), inputs), t0, i);
  }

  /** No loss goes unseen: unless Start or Stop comes between, the first packet stored after a loss is an overflow
      packet, and it carries the number of drops so far. */
  lemma LossIsVisible(t0: u32, inputs: seq<Input>, i: nat, j: nat)
    requires var t := Run(Initial(t0), inputs).trace;
      && i < j < |t| && t[i].IsLoss() && t[j].Stored?
      && forall k :: i < k < j ==> !t[k].Stored? && !t[k].Restarted? && !t[k].Stopped?
    ensures var t := Run(Initial(t0), inputs).trace;
      && t[j].kind == Overflow
      && t[j].p.id == EVTID_OVERFLOW
      && t[j].p.payload == U32Bytes(ToU32(Count(t[..j], Drops)))
  {
    hide U32Bytes, Clock, Log, Count, Run;
    RunKeepsInv(t0, inputs);
    var t := Run(Initial(t0), inputs).trace;
    assert t[j - 1].IsLoss();
    assert MarkOk(t0, t, j);
  }

  /** An overflow packet is stored only to report a loss that came just before it. */
  lemma OverflowMeansLoss(t0: u32, inputs: seq<Input>, j: nat)
    requires var t := Run(Initial(t0), inputs).trace;
      j < |t| && t[j].Stored? && t[j].kind == Overflow
    ensures 0 < j && Run(Initial(t0), inputs).trace[j - 1].IsLoss()
  {
    hide U32Bytes, Clock, Log, Count, Run;
    RunKeepsInv(t0, inputs);
    assert MarkOk(t0, Run(Initial(t0), inputs).trace, j);
  }

  lemma {:induction false} TimesAddUp(t0: u32, trace: seq<Mark>, k: nat)
    requires k < |Log(trace)|
    requires forall j :: 0 <= j < |trace| ==> MarkOk(t0, trace, j)
    ensures Clock(t0, Log(trace)[..k + 1]) == Times(trace)[k]
  {
    hide Clock, Count, U32Bytes;
    var front, m := trace[..|trace| - 1], trace[|trace| - 1];
    assert trace == front + [m];
    OneMark(front, m);
    if k < |Log(front)| {
      forall j | 0 <= j < |front|
        ensures MarkOk(t0, front, j)
      {
        assert MarkOk(t0, trace, j);
        assert front[..j] == trace[..j] && front[..j + 1] == trace[..j + 1];
      }
      TimesAddUp(t0, front, k);
      assert Log(trace)[..k + 1] == Log(front)[..k + 1];
    } else {
      assert MarkOk(t0, trace, |trace| - 1);
      assert trace[..|trace|] == trace;
      assert Log(trace)[..k + 1] == Log(trace);
    }
  }

  /** Adding up deltas modulo 2^32 gives the exact time of every stored packet, whatever was lost in between. */
  lemma TimesAreExact(t0: u32, inputs: seq<Input>, k: nat)
    requires k < |Log(Run(Initial(t0), inputs).trace)|
    ensures var t := Run(Initial(t0), inputs).trace;
      Clock(t0, Log(t)[..k + 1]) == Times(t)[k]
  {
    RunKeepsInv(t0, inputs);
    TimesAddUp(t0, Run(Initial(t0), inputs).trace, k);
  }

  /** How many events were to be recorded: those posted while recording was not off, unless masked. */
  function Attempts(t0: u32, inputs: seq<Input>): nat {
    if inputs == [] then 0
    else
      var front, i := inputs[..|inputs| - 1], inputs[|inputs| - 1];
      var s := Run(Initial(t0), front);
      Attempts(t0, front)
      + if i.Post? && s.enable != STATE_OFF && !(i.id < 32 && i.id in s.disabled) then 1 else 0
  }

  lemma StepAttempts(s: State, i: Input)
    requires s.enable <= STATE_DROPPING
    ensures Step(s, i).attempts ==
      s.attempts + if i.Post? && s.enable != STATE_OFF && !(i.id < 32 && i.id in s.disabled) then 1 else 0
  {
    hide Encode, U32Bytes;
    if i.Post? {
      if s.enable == STATE_OFF {
        PostWhenOff(s, i);
      } else if s.enable == STATE_ON {
        PostWhenOn(s, i);
      } else {
        PostWhenDropping(s, i);
      }
    }
  }

  lemma {:induction false} AttemptsAreCounted(t0: u32, inputs: seq<Input>)
    ensures Run(Initial(t0), inputs).attempts == Attempts(t0, inputs)
  {
    hide Step;
    if inputs != [] {
      var front := inputs[..|inputs| - 1];
      AttemptsAreCounted(t0, front);
      RunKeepsInv(t0, front);
      EnableIsBounded(Run(Initial(t0), front), t0);
      StepAttempts(Run(Initial(t0), front), inputs[|inputs| - 1]);
    }
  }

  /** The events lost to a full ring are those dropped, which `drops` counts modulo 2^32, and those that turned
      recording from on to dropping. An event that was masked anyway is counted as dropped without being lost. */
  lemma LossIsAccountedFor(t0: u32, inputs: seq<Input>)
    ensures
      var s := Run(Initial(t0), inputs);
      var lost := Attempts(t0, inputs) - Count(s.trace, Events);
      && s.attempts == Attempts(t0, inputs)
      && lost == Count(s.trace, Drops) - Count(s.trace, MaskedDrops) + Count(s.trace, Fulls)
      && s.drops == ToU32(Count(s.trace, Drops))
  {
    hide Run, Attempts, Count;
    RunKeepsInv(t0, inputs);
    AttemptsAreCounted(t0, inputs);
  }

  /** What one event, posted in state `s`, may add to the trace: whatever it stores as an event is this very event, not
      masked, with its own time stamp; whatever else it stores is an OVERFLOW packet. */
  ghost predicate MarkOf(s: State, i: Input, m: Mark) {
    && (m.Stored? && m.kind == Event ==>
      && i.Post? && m.p.id == i.id && m.p.payload == i.payload && m.time == i.ts2
      && !(i.id < 32 && i.id in s.disabled))
    && (m.Stored? && m.kind == Overflow ==> i.Post? && m.time == i.ts1)
    && (m.Full? ==> i.Post? && !(i.id < 32 && i.id in s.disabled))
    && (m.Dropped? ==> i.Post? && (m.masked <==> i.id < 32 && i.id in s.disabled))
    && (m.Stored? && m.kind == Sync ==> i.Start? && m.p == AnyPacket.Packet(0, [], 0))
  }

  lemma NopsAdded(s: State)
    ensures OneNop(OneNop(OneNop(OneNop(OneNop(s))))).trace == s.trace + Nops5(s.last)
  {
  }

  function Nops5(last: u32): seq<Mark> {
    var m := Stored(Sync, NOP, last);
    [m, m, m, m, m]
  }

  /** A step adds marks to the trace and takes none away, and each stored one is what the input asked for. */
  lemma StepStoresInput(s: State, i: Input)
    requires s.enable <= STATE_DROPPING
    ensures s.trace <= Step(s, i).trace
    ensures forall j :: |s.trace| <= j < |Step(s, i).trace| ==> MarkOf(s, i, Step(s, i).trace[j])
  {
    hide Encode, U32Bytes;
    match i
    case Post(_, _, _, _, _, _) =>
      if s.enable == STATE_OFF {
        PostWhenOff(s, i);
      } else if s.enable == STATE_ON {
        PostWhenOn(s, i);
      } else {
        PostWhenDropping(s, i);
      }
    case Start(free) => NopsAdded(s.(enable := STATE_ON, trace := s.trace + [Restarted]));
    case Stop =>
    case SetMask(_) =>
  }

  /** In every run, what an input adds to the stream as an event is that event. */
  lemma StoredIsPosted(t0: u32, inputs: seq<Input>, i: Input, j: nat)
    requires var s := Run(Initial(t0), inputs); |s.trace| <= j < |Step(s, i).trace|
    ensures var s := Run(Initial(t0), inputs); MarkOf(s, i, Step(s, i).trace[j])
  {
    hide Step, Run, MarkOf;
    RunKeepsInv(t0, inputs);
    EnableIsBounded(Run(Initial(t0), inputs), t0);
    StepStoresInput(Run(Initial(t0), inputs), i);
  }

  /** Conversely, an event that is posted while recording is not off, is not masked, and finds room for itself and for
      the OVERFLOW packet that may have to come first, is stored. */
  lemma PostedIsStored(t0: u32, inputs: seq<Input>, i: Input)
    requires var s := Run(Initial(t0), inputs);
      && i.Post? && s.enable != STATE_OFF && !(i.id < 32 && i.id in s.disabled)
      && 17 <= i.free1 && |i.payload| + 12 <= i.free2
    ensures var s, s' := Run(Initial(t0), inputs), Step(Run(Initial(t0), inputs), i);
      && s'.enable == STATE_ON
      && Log(s'.trace) == Log(s.trace)
        + (if s.enable == STATE_DROPPING
           then [AnyPacket.Packet(1, U32Bytes(s.drops), ToU32(i.ts1 - s.last)),
                 AnyPacket.Packet(i.id, i.payload, ToU32(i.ts2 - i.ts1))]
           else [AnyPacket.Packet(i.id, i.payload, ToU32(i.ts2 - s.last))])
  {
    hide Run, Step, U32Bytes, Log, TryOverflow, TryEvent, Inv;
    RunKeepsInv(t0, inputs);
    var s := Run(Initial(t0), inputs);
    EnableIsBounded(s, t0);
    if s.enable == STATE_ON {
      PostWhenOn(s, i);
      EventIsStored(s.(attempts := s.attempts + 1), i);
    } else {
      PostWhenDropping(s, i);
      OverflowIsStored(s, i);
      var s1 := TryOverflow(s, i.ts1, i.free1, Masked(s, i.id));
      EventIsStored(s1.(attempts := s1.attempts + 1), i);
    }
  }

  lemma EventIsStored(s: State, i: Input)
    requires i.Post? && |i.payload| + 12 <= i.free2
    ensures var s' := TryEvent(s, i.id, i.payload, i.ts2, i.free2);
      && s'.enable == s.enable
      && Log(s'.trace) == Log(s.trace) + [AnyPacket.Packet(i.id, i.payload, ToU32(i.ts2 - s.last))]
  {
    hide Encode, Log;
    PacketBound(EventPacket(s, i.id, i.payload, i.ts2));
    OneMark(s.trace, Stored(Event, EventPacket(s, i.id, i.payload, i.ts2), i.ts2));
  }

  lemma OverflowIsStored(s: State, i: Input)
    requires i.Post? && s.enable == STATE_DROPPING && 17 <= i.free1
    ensures var s' := TryOverflow(s, i.ts1, i.free1, Masked(s, i.id));
      && s'.enable == STATE_ON && s'.last == i.ts1
      && Log(s'.trace) == Log(s.trace) + [AnyPacket.Packet(1, U32Bytes(s.drops), ToU32(i.ts1 - s.last))]
  {
    hide Encode, Log, U32Bytes, Masked;
    PacketBound(OverflowPacket(s, i.ts1));
    OneMark(s.trace, Stored(Overflow, OverflowPacket(s, i.ts1), i.ts1));
  }

  lemma PacketBound(p: Packet)
    ensures |Encode(p)| <= |p.payload| + 12
  {
    EncodedLength(p.delta);
    hide EncodeU32, Header;
  }

  /** The reports among these packets: those that are neither synchronisation nor overflow. */
  function Reports(ps: seq<Packet>): seq<Packet> {
    if ps == [] then []
    else
      var p := ps[|ps| - 1];
      Reports(ps[..|ps| - 1]) + if p.id > 1 then [p] else []
  }

  /** These packets are, in order, events among the inputs. */
  ghost predicate AmongPosts(ps: seq<Packet>, inputs: seq<Input>)
    decreases |inputs|
  {
    ps == [] ||
    (inputs != [] &&
     var front, i := inputs[..|inputs| - 1], inputs[|inputs| - 1];
     || AmongPosts(ps, front)
     || (i.Post? && ps[|ps| - 1].id == i.id && ps[|ps| - 1].payload == i.payload
         && AmongPosts(ps[..|ps| - 1], front)))
  }

  lemma {:induction false} ReportsConcat(a: seq<Packet>, b: seq<Packet>)
    ensures Reports(a + b) == Reports(a) + Reports(b)
  {
    if b == [] {
      assert a + b == a;
    } else {
      ReportsConcat(a, b[..|b| - 1]);
      LastReport(a + b);
      LastReport(b);
      hide Reports;
      assert (a + b)[..|a + b| - 1] == a + b[..|b| - 1];
    }
  }

  lemma LastReport(ps: seq<Packet>)
    requires ps != []
    ensures var p := ps[|ps| - 1]; Reports(ps) == Reports(ps[..|ps| - 1]) + if p.id > 1 then [p] else []
  {
  }

  lemma ReportsOfOne(p: Packet)
    ensures Reports([p]) == if p.id > 1 then [p] else []
  {
    assert [p][..0] == [];
  }

  lemma {:induction false} AmongPostsPrefix(ps: seq<Packet>, more: seq<Packet>, inputs: seq<Input>)
    requires AmongPosts(ps + more, inputs)
    ensures AmongPosts(ps, inputs)
    decreases |inputs|
  {
    if ps != [] {
      var all, front, i := ps + more, inputs[..|inputs| - 1], inputs[|inputs| - 1];
      if AmongPosts(all, front) {
        AmongPostsPrefix(ps, more, front);
      } else if more != [] {
        assert all[..|all| - 1] == ps + more[..|more| - 1];
        AmongPostsPrefix(ps, more[..|more| - 1], front);
      } else {
        assert all == ps;
      }
    }
  }

  /** What a step adds to the stream has at most one report, of the event that was posted. */
  lemma StepReports(s: State, i: Input)
    requires s.enable <= STATE_DROPPING
    ensures Log(s.trace) <= Log(Step(s, i).trace)
    ensures var r := Reports(Log(Step(s, i).trace)[|Log(s.trace)|..]);
      r == [] || (i.Post? && |r| == 1 && r[0].id == i.id && r[0].payload == i.payload)
  {
    hide Encode, U32Bytes, Log, Reports;
    match i
    case Post(_, _, _, _, _, _) => PostReports(s, i);
    case Start(free) =>
      var s1 := s.(enable := STATE_ON, trace := s.trace + [Restarted]);
      OneMark(s.trace, Restarted);
      ReportsOfNone(Log(s.trace));
      if 10 <= free {
        NopsReport(s1);
        assert Log(s1.trace) == Log(s.trace);
      }
    case Stop =>
      OneMark(s.trace, Stopped);
      ReportsOfNone(Log(s.trace));
    case SetMask(_) => ReportsOfNone(Log(s.trace));
  }

  lemma ReportsOfNone(ps: seq<Packet>)
    ensures Reports([]) == [] && Reports(ps[|ps|..]) == []
  {
    assert ps[|ps|..] == [];
  }

  lemma NopsReport(s: State)
    ensures var t := OneNop(OneNop(OneNop(OneNop(OneNop(s))))).trace;
      Log(s.trace) <= Log(t) && Reports(Log(t)[|Log(s.trace)|..]) == []
  {
    hide Log, Reports;
    var m := Stored(Sync, NOP, s.last);
    OneMark(s.trace, m);
    OneMark(OneNop(s).trace, m);
    OneMark(OneNop(OneNop(s)).trace, m);
    OneMark(OneNop(OneNop(OneNop(s))).trace, m);
    OneMark(OneNop(OneNop(OneNop(OneNop(s)))).trace, m);
    var n: seq<Packet> := [NOP];
    ReportsOfOne(NOP);
    ReportsConcat(n, n);
    ReportsConcat(n + n, n);
    ReportsConcat(n + n + n, n);
    ReportsConcat(n + n + n + n, n);
    var t := OneNop(OneNop(OneNop(OneNop(OneNop(s))))).trace;
    assert Log(t) == Log(s.trace) + (n + n + n + n + n);
  }

  lemma PostReports(s: State, i: Input)
    requires s.enable <= STATE_DROPPING && i.Post?
    ensures Log(s.trace) <= Log(Step(s, i).trace)
    ensures var r := Reports(Log(Step(s, i).trace)[|Log(s.trace)|..]);
      r == [] || (|r| == 1 && r[0].id == i.id && r[0].payload == i.payload)
  {
    hide Encode, U32Bytes, Log, Reports, Step, TryOverflow, TryEvent, Masked;
    ReportsOfNone(Log(s.trace));
    if s.enable == STATE_OFF {
      PostWhenOff(s, i);
    } else if s.enable == STATE_ON {
      PostWhenOn(s, i);
      if !Masked(s, i.id) {
        EventReports(s.(attempts := s.attempts + 1), i);
      }
    } else {
      PostWhenDropping(s, i);
      OverflowReports(s, i);
      var s1 := TryOverflow(s, i.ts1, i.free1, Masked(s, i.id));
      if !Masked(s, i.id) && s1.enable == STATE_ON {
        EventReports(s1.(attempts := s1.attempts + 1), i);
        ReportsAddUp(Log(s.trace), Log(s1.trace), Log(Step(s, i).trace));
      }
    }
  }

  lemma ReportsAddUp(a: seq<Packet>, b: seq<Packet>, c: seq<Packet>)
    requires a <= b <= c && Reports(b[|a|..]) == []
    ensures Reports(c[|a|..]) == Reports(c[|b|..])
  {
    hide Reports;
    ReportsConcat(b[|a|..], c[|b|..]);
    assert c[|a|..] == b[|a|..] + c[|b|..];
  }

  lemma OverflowReports(s: State, i: Input)
    requires s.enable == STATE_DROPPING && i.Post?
    ensures var t := TryOverflow(s, i.ts1, i.free1, Masked(s, i.id)).trace;
      Log(s.trace) <= Log(t) && Reports(Log(t)[|Log(s.trace)|..]) == []
  {
    hide Encode, U32Bytes, Log, Reports, Masked;
    var t := TryOverflow(s, i.ts1, i.free1, Masked(s, i.id)).trace;
    OneMark(s.trace, t[|s.trace|]);
    assert t == s.trace + [t[|s.trace|]];
    ReportsOfNone(Log(s.trace));
    ReportsOfOne(OverflowPacket(s, i.ts1));
  }

  lemma EventReports(s: State, i: Input)
    requires i.Post?
    ensures var t := TryEvent(s, i.id, i.payload, i.ts2, i.free2).trace;
      && Log(s.trace) <= Log(t)
      && var r := Reports(Log(t)[|Log(s.trace)|..]);
        r == [] || (|r| == 1 && r[0].id == i.id && r[0].payload == i.payload)
  {
    hide Encode, Log, Reports;
    var t := TryEvent(s, i.id, i.payload, i.ts2, i.free2).trace;
    OneMark(s.trace, t[|s.trace|]);
    assert t == s.trace + [t[|s.trace|]];
    ReportsOfNone(Log(s.trace));
    ReportsOfOne(EventPacket(s, i.id, i.payload, i.ts2));
  }

  /** In every run, the reports in the stream are, in order, events that were posted. */
  lemma {:induction false} ReportsArePosted(t0: u32, inputs: seq<Input>)
    ensures AmongPosts(Reports(Log(Run(Initial(t0), inputs).trace)), inputs)
  {
    hide Step, Log, Reports;
    if inputs != [] {
      var front, i := inputs[..|inputs| - 1], inputs[|inputs| - 1];
      var s := Run(Initial(t0), front);
      ReportsArePosted(t0, front);
      RunKeepsInv(t0, front);
      EnableIsBounded(s, t0);
      StepReports(s, i);
      var before, after := Log(s.trace), Log(Step(s, i).trace);
      ReportsConcat(before, after[|before|..]);
      assert after == before + after[|before|..];
      OneMoreReport(Reports(before), Reports(after[|before|..]), front, i);
      assert front + [i] == inputs;
    } else {
      NothingLogged(t0);
    }
  }

  lemma NothingLogged(t0: u32)
    ensures Reports(Log(Run(Initial(t0), []).trace)) == []
  {
  }

  lemma OneMoreReport(ps: seq<Packet>, r: seq<Packet>, front: seq<Input>, i: Input)
    requires AmongPosts(ps, front)
    requires r == [] || (i.Post? && |r| == 1 && r[0].id == i.id && r[0].payload == i.payload)
    ensures AmongPosts(ps + r, front + [i])
  {
    assert (front + [i])[..|front|] == front;
    if r == [] {
      assert ps + r == ps;
    } else {
      assert (ps + r)[..|ps|] == ps;
    }
  }

  /** So are those that a host has decoded so far. */
  lemma DecodedReportsArePosted(t0: u32, inputs: seq<Input>, n: nat)
    requires n <= |Log(Run(Initial(t0), inputs).trace)|
    ensures AmongPosts(Reports(Log(Run(Initial(t0), inputs).trace)[..n]), inputs)
  {
    hide Run, Log, Reports, AmongPosts;
    var ps := Log(Run(Initial(t0), inputs).trace);
    ReportsArePosted(t0, inputs);
    ReportsConcat(ps[..n], ps[n..]);
    assert ps == ps[..n] + ps[n..];
    AmongPostsPrefix(Reports(ps[..n]), Reports(ps[n..]), inputs);
  }

  /** An event that a host can take apart: its payload has the structure that its id stands for. */
  predicate Readable(i: Input) {
    i.Post? ==> WellFormed(Packet(i.id, i.payload, 0))
  }

  lemma OverflowIsWellFormed(v: u32, delta: u32)
    ensures WellFormed(Packet(EVTID_OVERFLOW, U32Bytes(v), delta))
  {
    var s := U32Bytes(v);
    DecodesEncoded(v, []);
    assert s + [] == s;
    assert Layout(EVTID_OVERFLOW) == [Num] && [Num][1..] == [];
    assert Extent([], s[|s|..]) == Some(0);
  }

  lemma OneMoreReadable(trace: seq<Mark>, m: Mark)
    requires forall p :: p in Log(trace) ==> WellFormed(p)
    requires m.Stored? ==> WellFormed(m.p)
    ensures forall p :: p in Log(trace + [m]) ==> WellFormed(p)
  {
    hide WellFormed, Log;
    OneMark(trace, m);
  }

  lemma DeltaDoesNotMatter(id: u32, payload: Payload, delta: u32)
    requires WellFormed(Packet(id, payload, 0))
    ensures WellFormed(Packet(id, payload, delta))
  {
  }

  ghost predicate AllReadable(trace: seq<Mark>) {
    forall p :: p in Log(trace) ==> WellFormed(p)
  }

  lemma StepKeepsReadable(s: State, i: Input)
    requires Readable(i) && AllReadable(s.trace)
    ensures AllReadable(Step(s, i).trace)
  {
    hide Encode, U32Bytes, Log, WellFormed;
    match i
    case Post(id, payload, ts1, free1, ts2, free2) =>
      if s.enable != STATE_OFF {
        var s1 := s;
        if s.enable == STATE_DROPPING {
          s1 := TryOverflow(s, ts1, free1, Masked(s, id));
          OverflowIsWellFormed(s.drops, ToU32(ts1 - s.last));
          OneMoreReadable(s.trace, s1.trace[|s.trace|]);
        }
        if s1.enable == STATE_ON && !Masked(s, id) {
          DeltaDoesNotMatter(id, payload, ToU32(ts2 - s1.last));
          OneMoreReadable(s1.trace, TryEvent(s1, id, payload, ts2, free2).trace[|s1.trace|]);
        }
      }
    case Start(free) =>
      OneMoreReadable(s.trace, Restarted);
      if 10 <= free {
        NopsKeepReadable(s.(enable := STATE_ON, trace := s.trace + [Restarted]));
      }
    case Stop => OneMoreReadable(s.trace, Stopped);
    case SetMask(_) =>
  }

  lemma NopsKeepReadable(s: State)
    requires AllReadable(s.trace)
    ensures AllReadable(OneNop(OneNop(OneNop(OneNop(OneNop(s))))).trace)
  {
    hide Log, WellFormed;
    NopIsWellFormed();
    var m := Stored(Sync, NOP, s.last);
    OneMoreReadable(s.trace, m);
    OneMoreReadable(OneNop(s).trace, m);
    OneMoreReadable(OneNop(OneNop(s)).trace, m);
    OneMoreReadable(OneNop(OneNop(OneNop(s))).trace, m);
    OneMoreReadable(OneNop(OneNop(OneNop(OneNop(s)))).trace, m);
  }

  lemma NopIsWellFormed()
    ensures WellFormed(NOP)
  {
  }

  lemma {:induction false} LogIsWellFormed(t0: u32, inputs: seq<Input>)
    requires forall i :: i in inputs ==> Readable(i)
    ensures AllReadable(Run(Initial(t0), inputs).trace)
  {
    hide Step, WellFormed;
    if inputs != [] {
      var front := inputs[..|inputs| - 1];
      LogIsWellFormed(t0, front);
      StepKeepsReadable(Run(Initial(t0), front), inputs[|inputs| - 1]);
    }
  }

  lemma PrefixOfPrefix(ps: seq<Packet>, n: nat, m: nat)
    requires m <= n <= |ps|
    ensures ps[..n][..m] == ps[..m]
  {
  }

  /** From whatever part of the stream the host has received, it decodes stored packets, in order, leaving out none
      that is complete; and the clock it keeps gives each one's exact time. */
  lemma HostReadsTrueStory(t0: u32, inputs: seq<Input>, k: nat)
    requires forall i :: i in inputs ==> Readable(i)
    requires k <= |EncodeAll(Log(Run(Initial(t0), inputs).trace))|
    ensures
      var t := Run(Initial(t0), inputs).trace;
      var got := DecodeAll(EncodeAll(Log(t))[..k]);
      && Complete(Log(t), k, |got|) && got == Log(t)[..|got|]
      && forall n :: 0 <= n < |got| ==> Clock(t0, got[..n + 1]) == Times(t)[n]
  {
    hide WellFormed, Clock, Times, Log, Run, EncodeAll, DecodeAll;
    var t := Run(Initial(t0), inputs).trace;
    LogIsWellFormed(t0, inputs);
    DecodesAnyPrefix(Log(t), k);
    var got := DecodeAll(EncodeAll(Log(t))[..k]);
    forall n | 0 <= n < |got|
      ensures Clock(t0, got[..n + 1]) == Times(t)[n]
    {
      TimesAreExact(t0, inputs, n);
      PrefixOfPrefix(Log(t), |got|, n + 1);
    }
  }
}
