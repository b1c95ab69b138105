/** One target writer and one host reader share an RTT ring without a lock. Each step below touches the shared
    ring once: it reads the other side's offset, copies one byte, or publishes its own offset.
    The steps of the two sides may interleave in any order. */
module RttProtocol {
  import opened Bytes
  import opened Ring

  datatype Mode = Skip | Trim | Block

  /** `Sample`: about to read the read offset. `Copy`: `copied` bytes of `chunk` are in the buffer but not published,
      and `room` is the space that there was when it was planned. `base` is what had been published when the call
      began, `data` is what the caller passed, `sent` how much of it is published. */
  datatype Writer =
    | Idle
    | Sample(mode: Mode, base: seq<byte>, data: seq<byte>, sent: nat)
    | Copy(mode: Mode, base: seq<byte>, data: seq<byte>, sent: nat, room: nat, chunk: seq<byte>,
           copied: nat)

  /** `Copying`: `got` holds the bytes copied out so far, of `total` planned. */
  datatype Reader = Resting | Copying(total: nat, got: seq<byte>)

  datatype State = State(
    b: seq<byte>, rdOff: nat, wrOff: nat,
    writer: Writer, reader: Reader,
    published: seq<byte>, received: seq<byte>)

  datatype Step =
    | Call(mode: Mode, data: seq<byte>)
    | ReadRdOff
    | CopyIn
    | PublishWrOff
    | ReadWrOff(bufferSize: u32)
    | CopyOut
    | PublishRdOff

  ghost predicate Init(s: State) {
    && 0 < |s.b| < TWO_POW_32
    && s.rdOff == s.wrOff == 0
    && s.writer == Idle && s.reader == Resting
    && s.published == s.received == []
  }

  /** How many of `n` bytes the writer copies in one go, from the read offset it has just seen. */
  function Plan(mode: Mode, rd: nat, wr: nat, size: nat, n: nat): (k: nat)
    requires rd < size && wr < size
    ensures k <= n && k <= Space(rd, wr, size)
    ensures mode == Skip ==> k == if n <= Space(rd, wr, size) then n else 0
    ensures mode == Trim ==> k == Min(Space(rd, wr, size), n)
    ensures mode == Block ==>
      && (k > 0 <==> n > 0 && Space(rd, wr, size) > 0)
      && (k == n || k == Space(rd, wr, size) || wr + k == size)
  {
    var avail := if rd <= wr then size - 1 - wr + rd else rd - wr - 1;
    match mode
    case Skip => if avail < n then 0 else n
    case Trim => if avail < n then avail else n
    case Block => Min(Min(avail, size - wr), n)
  }

  /** How many bytes the reader takes, from the write offset it has just seen, in its two chunks. */
  function Take(rd: nat, wr: nat, size: nat, bufferSize: nat): nat
    requires rd < size && wr < size
  {
    var n := FirstCut(rd, wr, bufferSize, size);
    n + SecondCut(if rd + n == size then 0 else rd + n, wr, bufferSize - n)
  }

  /** The writer's loop condition: only a blocking write goes round again. */
  function AfterPublish(w: Writer): Writer
    requires w.Copy?
  {
    var sent := w.sent + |w.chunk|;
    if w.mode == Block && sent < |w.data| then Sample(w.mode, w.base, w.data, sent) else Idle
  }

  function Offsets(s: State): bool {
    s.rdOff < |s.b| && s.wrOff < |s.b| && |s.b| < TWO_POW_32
  }

  /** The space that the writer sees. */
  function Room(s: State): nat
    requires Offsets(s)
  {
    Space(s.rdOff, s.wrOff, |s.b|)
  }

  function Next(s: State, step: Step): (s': State)
    requires Offsets(s)
  {
    var size := |s.b|;
    match step
    case Call(mode, data) =>
      if s.writer.Idle? then s.(writer := Sample(mode, s.published, data, 0)) else s
    case ReadRdOff =>
      if s.writer.Sample? && s.writer.sent <= |s.writer.data| then
        var w := s.writer;
        var k := Plan(w.mode, s.rdOff, s.wrOff, size, |w.data| - w.sent);
        s.(writer := Copy(w.mode, w.base, w.data, w.sent, Room(s), w.data[w.sent..w.sent + k], 0))
      else s
    case CopyIn =>
      if s.writer.Copy? && s.writer.copied < |s.writer.chunk| <= size then
        var w := s.writer;
        s.(b := s.b[At(s.wrOff, w.copied, size) := w.chunk[w.copied]], writer := w.(copied := w.copied + 1))
      else s
    case PublishWrOff =>
      if s.writer.Copy? && s.writer.copied == |s.writer.chunk| < size then
        s.(wrOff := At(s.wrOff, |s.writer.chunk|, size), writer := AfterPublish(s.writer),
           published := s.published + s.writer.chunk)
      else s
    case ReadWrOff(bufferSize) =>
      if s.reader.Resting? then s.(reader := Copying(Take(s.rdOff, s.wrOff, size, bufferSize), [])) else s
    case CopyOut =>
      if s.reader.Copying? && |s.reader.got| < s.reader.total <= size then
        s.(reader := s.reader.(got := s.reader.got + [s.b[At(s.rdOff, |s.reader.got|, size)]]))
      else s
    case PublishRdOff =>
      if s.reader.Copying? && |s.reader.got| == s.reader.total < size then
        s.(rdOff := At(s.rdOff, s.reader.total, size), reader := Resting, received := s.received + s.reader.got)
      else s
  }

  /** What holds after every step of every run. */
  ghost predicate Inv(s: State) {
    && Offsets(s)
    && s.published == s.received + Held(s.b, s.rdOff, s.wrOff)
    && WriterInv(s)
    && ReaderInv(s)
  }

  /** What a writer copies of `n` bytes when it sees `room`: in skip mode all or nothing, in trim mode what fits, in
      blocking mode something whenever there is room. */
  predicate Planned(mode: Mode, n: nat, room: nat, k: nat) {
    match mode
    case Skip => k == if n <= room then n else 0
    case Trim => k == Min(room, n)
    case Block => k > 0 <==> n > 0 && room > 0
  }

  /** A writer's bytes lie in slots the reader does not own, and a call publishes a prefix of its data. */
  ghost predicate WriterInv(s: State)
    requires Offsets(s)
  {
    match s.writer
    case Idle => true
    case Sample(mode, base, data, sent) =>
      && sent <= |data| && s.published == base + data[..sent] && (mode != Block ==> sent == 0)
    case Copy(mode, base, data, sent, room, chunk, copied) =>
      && sent + |chunk| <= |data| && chunk == data[sent..sent + |chunk|] && s.published == base + data[..sent]
      && (mode != Block ==> sent == 0)
      && Planned(mode, |data| - sent, room, |chunk|)
      && copied <= |chunk| <= Space(s.rdOff, s.wrOff, |s.b|)
      && forall k :: 0 <= k < copied ==> s.b[At(s.wrOff, k, |s.b|)] == chunk[k]
  }

  /** A reader's copy is the front of the queue, however far the writer has moved since. */
  ghost predicate ReaderInv(s: State)
    requires Offsets(s)
  {
    s.reader.Copying? ==>
      && |s.reader.got| <= s.reader.total <= Used(s.rdOff, s.wrOff, |s.b|)
      && s.reader.got == Held(s.b, s.rdOff, s.wrOff)[..|s.reader.got|]
  }

  lemma InitKeepsInv(s: State)
    requires Init(s)
    ensures Inv(s)
  {
  }

  lemma CopyInSlotIsFree(s: State)
    requires Inv(s) && s.writer.Copy? && s.writer.copied < |s.writer.chunk|
    ensures
      var i := At(s.wrOff, s.writer.copied, |s.b|);
      && i < |s.b|
      && (forall k :: 0 <= k < Used(s.rdOff, s.wrOff, |s.b|) ==> At(s.rdOff, k, |s.b|) != i)
      && (forall k :: 0 <= k < s.writer.copied ==> At(s.wrOff, k, |s.b|) != i)
  {
  }

  /** No unread byte is overwritten: copying in does not change the queue. */
  lemma CopyInKeepsQueue(s: State)
    requires Inv(s) && s.writer.Copy? && s.writer.copied < |s.writer.chunk|
    ensures
      var i := At(s.wrOff, s.writer.copied, |s.b|);
      && i < |s.b|
      && Held(s.b[i := s.writer.chunk[s.writer.copied]], s.rdOff, s.wrOff) == Held(s.b, s.rdOff, s.wrOff)
  {
    CopyInSlotIsFree(s);
    var i := At(s.wrOff, s.writer.copied, |s.b|);
    var b' := s.b[i := s.writer.chunk[s.writer.copied]];
    forall k | 0 <= k < Used(s.rdOff, s.wrOff, |s.b|)
      ensures Held(b', s.rdOff, s.wrOff)[k] == Held(s.b, s.rdOff, s.wrOff)[k]
    {
      HeldAt(b', s.rdOff, s.wrOff, k);
      HeldAt(s.b, s.rdOff, s.wrOff, k);
    }
  }

  /** Once a chunk is copied, moving the write offset appends exactly that chunk to the queue. */
  lemma PublishAppends(b: seq<byte>, rd: nat, wr: nat, chunk: seq<byte>)
    requires rd < |b| && wr < |b| && |chunk| <= Space(rd, wr, |b|)
    requires forall k :: 0 <= k < |chunk| ==> b[At(wr, k, |b|)] == chunk[k]
    ensures Held(b, rd, At(wr, |chunk|, |b|)) == Held(b, rd, wr) + chunk
  {
    var wr' := At(wr, |chunk|, |b|);
    var used := Used(rd, wr, |b|);
    forall k | 0 <= k < used + |chunk|
      ensures Held(b, rd, wr')[k] == (Held(b, rd, wr) + chunk)[k]
    {
      HeldAt(b, rd, wr', k);
      if k < used {
        HeldAt(b, rd, wr, k);
      } else {
        assert At(rd, k, |b|) == At(wr, k - used, |b|);
      }
    }
  }

  lemma TakeIsBounded(b: seq<byte>, rd: nat, wr: nat, bufferSize: nat)
    requires rd < |b| && wr < |b| < TWO_POW_32
    ensures Take(rd, wr, |b|, bufferSize) == Min(bufferSize, Used(rd, wr, |b|))
  {
    ReadInChunks(b, rd, wr, bufferSize);
  }

  lemma OneMoreCopied(b: seq<byte>, wr: nat, copied: nat, chunk: seq<byte>)
    requires wr < |b| && copied < |chunk| <= |b|
    requires forall k :: 0 <= k < copied ==> b[At(wr, k, |b|)] == chunk[k]
    ensures forall k :: 0 <= k < copied + 1 ==> b[At(wr, copied, |b|) := chunk[copied]][At(wr, k, |b|)] == chunk[k]
  {
  }

  lemma CopyInKeepsWriter(s: State)
    requires Inv(s) && s.writer.Copy? && s.writer.copied < |s.writer.chunk|
    ensures WriterInv(Next(s, CopyIn))
  {
    OneMoreCopied(s.b, s.wrOff, s.writer.copied, s.writer.chunk);
    hide Held, Used, At, Planned, Space, ReaderInv;
  }

  lemma CopyInKeepsReader(s: State)
    requires Inv(s) && s.writer.Copy? && s.writer.copied < |s.writer.chunk|
    ensures var s' := Next(s, CopyIn);
      ReaderInv(s') && s'.published == s'.received + Held(s'.b, s'.rdOff, s'.wrOff)
  {
    CopyInKeepsQueue(s);
    hide Held, Used, At, WriterInv, Space;
  }

  lemma CopyInKeepsInv(s: State)
    requires Inv(s)
    ensures Inv(Next(s, CopyIn))
  {
    if Next(s, CopyIn) != s {
      CopyInKeepsWriter(s);
      CopyInKeepsReader(s);
      hide Held, At, WriterInv, ReaderInv;
    }
  }

  lemma PublishKeepsReader(s: State)
    requires Inv(s) && s.writer.Copy? && s.writer.copied == |s.writer.chunk|
    ensures ReaderInv(Next(s, PublishWrOff))
    ensures var s' := Next(s, PublishWrOff); s'.published == s'.received + Held(s'.b, s'.rdOff, s'.wrOff)
  {
    var s', chunk := Next(s, PublishWrOff), s.writer.chunk;
    var q, q' := Held(s.b, s.rdOff, s.wrOff), Held(s'.b, s'.rdOff, s'.wrOff);
    assert q' == q + chunk by {
      PublishAppends(s.b, s.rdOff, s.wrOff, chunk);
    }
    hide Held, At, AfterPublish, WriterInv;
    Regrouped(s.received, q, chunk);
    if s.reader.Copying? {
      FrontStays(q, chunk, |s.reader.got|);
    }
  }

  lemma Regrouped(r: seq<byte>, q: seq<byte>, d: seq<byte>)
    ensures r + q + d == r + (q + d)
  {
  }

  lemma FrontStays(q: seq<byte>, d: seq<byte>, n: nat)
    requires n <= |q|
    ensures (q + d)[..n] == q[..n]
  {
  }

  lemma PublishKeepsWriter(s: State)
    requires Inv(s) && s.writer.Copy? && s.writer.copied == |s.writer.chunk|
    ensures WriterInv(Next(s, PublishWrOff))
  {
    hide Held, Used, At;
    var w := s.writer;
    SliceAppends(w.base, w.data, w.sent, |w.chunk|);
  }

  lemma PublishKeepsInv(s: State)
    requires Inv(s)
    ensures Inv(Next(s, PublishWrOff))
  {
    if Next(s, PublishWrOff) != s {
      PublishKeepsReader(s);
      PublishKeepsWriter(s);
      hide Held, Used, AfterPublish, WriterInv, ReaderInv;
    }
  }

  lemma WriterStepKeepsInv(s: State, step: Step)
    requires Inv(s) && (step.Call? || step.ReadRdOff? || step.CopyIn? || step.PublishWrOff?)
    ensures Inv(Next(s, step))
  {
    if step.CopyIn? {
      CopyInKeepsInv(s);
    } else if step.PublishWrOff? {
      PublishKeepsInv(s);
    } else {
      hide Held;
      if step.ReadRdOff? && s.writer.Sample? {
        assert s.writer.data[0..|s.writer.data|] == s.writer.data;
      } else if step.Call? {
        assert s.published == s.published + step.data[..0];
      }
    }
  }

  lemma ReaderStartKeepsInv(s: State, bufferSize: u32)
    requires Inv(s)
    ensures Inv(Next(s, ReadWrOff(bufferSize)))
  {
    TakeIsBounded(s.b, s.rdOff, s.wrOff, bufferSize);
    hide Held, Take, At;
  }

  lemma CopyOutKeepsInv(s: State)
    requires Inv(s)
    ensures Inv(Next(s, CopyOut))
  {
    if Next(s, CopyOut) != s {
      var k := |s.reader.got|;
      HeldAt(s.b, s.rdOff, s.wrOff, k);
      hide Held, At, WriterInv;
      var q := Held(s.b, s.rdOff, s.wrOff);
      assert q[..k] + [q[k]] == q[..k + 1];
    }
  }

  lemma TakingKeepsInv(s: State)
    requires Inv(s)
    ensures Inv(Next(s, PublishRdOff))
  {
    if Next(s, PublishRdOff) != s {
      ReadDrops(s.b, s.rdOff, s.wrOff, s.reader.total);
      TakingKeepsWriter(s);
      hide Held, WriterInv, At;
      SplitAfter(s.received, Held(s.b, s.rdOff, s.wrOff), s.reader.total);
    }
  }

  lemma SplitAfter(r: seq<byte>, q: seq<byte>, n: nat)
    requires n <= |q|
    ensures r + q == r + q[..n] + q[n..]
  {
  }

  lemma TakingKeepsWriter(s: State)
    requires Inv(s) && s.reader.Copying? && |s.reader.got| == s.reader.total
    ensures Offsets(Next(s, PublishRdOff)) && WriterInv(Next(s, PublishRdOff))
  {
    TakingFrees(s);
    hide Held, Planned;
  }

  lemma ReaderStepKeepsInv(s: State, step: Step)
    requires Inv(s) && (step.ReadWrOff? || step.CopyOut? || step.PublishRdOff?)
    ensures Inv(Next(s, step))
  {
    hide Inv, Next;
    match step
    case ReadWrOff(bufferSize) => ReaderStartKeepsInv(s, bufferSize);
    case CopyOut => CopyOutKeepsInv(s);
    case PublishRdOff => TakingKeepsInv(s);
  }

  lemma StepKeepsInv(s: State, step: Step)
    requires Inv(s)
    ensures Inv(Next(s, step))
  {
    if step.ReadWrOff? || step.CopyOut? || step.PublishRdOff? {
      ReaderStepKeepsInv(s, step);
    } else {
      WriterStepKeepsInv(s, step);
    }
  }

  /** The queue a reader and a writer see between them. */
  function Queue(s: State): seq<byte>
    requires Offsets(s)
  {
    Held(s.b, s.rdOff, s.wrOff)
  }

  ghost predicate FifoStep(s: State, step: Step, s': State)
    requires Offsets(s) && Offsets(s')
  {
    match step
    case PublishWrOff =>
      exists d :: Queue(s') == Queue(s) + d && s'.published == s.published + d && s'.received == s.received
    case PublishRdOff =>
      exists d :: Queue(s) == d + Queue(s') && s'.received == s.received + d && s'.published == s.published
    case _ =>
      Queue(s') == Queue(s) && s'.received == s.received && s'.published == s.published
  }

  lemma PublishIsFifoStep(s: State)
    requires Inv(s)
    ensures Offsets(Next(s, PublishWrOff)) && FifoStep(s, PublishWrOff, Next(s, PublishWrOff))
  {
    var s' := Next(s, PublishWrOff);
    if s' == s {
      assert Queue(s') == Queue(s) + [] && s'.published == s.published + [];
    } else {
      PublishAppends(s.b, s.rdOff, s.wrOff, s.writer.chunk);
      hide Held, ReaderInv;
      assert Queue(s') == Queue(s) + s.writer.chunk;
    }
  }

  lemma TakingIsFifoStep(s: State)
    requires Inv(s)
    ensures Offsets(Next(s, PublishRdOff)) && FifoStep(s, PublishRdOff, Next(s, PublishRdOff))
  {
    var s' := Next(s, PublishRdOff);
    if s' == s {
      assert Queue(s) == [] + Queue(s') && s'.received == s.received + [];
    } else {
      ReadDrops(s.b, s.rdOff, s.wrOff, s.reader.total);
      hide Held, WriterInv;
      assert Queue(s) == s.reader.got + Queue(s');
    }
  }

  lemma OtherStepsAreSilent(s: State, step: Step)
    requires Inv(s) && !step.PublishWrOff? && !step.PublishRdOff?
    ensures Offsets(Next(s, step)) && FifoStep(s, step, Next(s, step))
  {
    hide Held, ReaderInv, WriterInv;
    if step == CopyIn && Next(s, step) != s {
      CopyInKeepsQueue(s);
    }
  }

  /** Every step is a step of an unbounded FIFO queue, or leaves it alone. */
  lemma RefinesFifo(s: State, step: Step)
    requires Inv(s)
    ensures Offsets(Next(s, step)) && FifoStep(s, step, Next(s, step))
  {
    hide Next, FifoStep;
    if step == PublishWrOff {
      PublishIsFifoStep(s);
    } else if step == PublishRdOff {
      TakingIsFifoStep(s);
    } else {
      OtherStepsAreSilent(s, step);
    }
  }

  ghost function Run(s: State, steps: seq<Step>): (s': State)
    requires Inv(s)
    ensures Inv(s')
    decreases |steps|
  {
    if steps == [] then s
    else
      StepKeepsInv(s, steps[0]);
      Run(Next(s, steps[0]), steps[1..])
  }

  /** In every interleaving, what the host has received followed by what is in the ring is exactly what the target
      has published; both offsets stay inside the buffer; the ring holds at most size - 1 bytes; a reader
      that is half-way holds the very bytes that come next. */
  lemma EveryInterleaving(s0: State, steps: seq<Step>)
    requires Init(s0)
    ensures Inv(s0)
    ensures var s := Run(s0, steps);
      && s.rdOff < |s.b| && s.wrOff < |s.b| && |Queue(s)| <= |s.b| - 1
      && s.received + Queue(s) == s.published
      && (s.reader.Copying? ==> s.received + s.reader.got <= s.published)
  {
    InitKeepsInv(s0);
    var s := Run(s0, steps);
    if s.reader.Copying? {
      var k := |s.reader.got|;
      assert Queue(s) == Queue(s)[..k] + Queue(s)[k..];
    }
  }

  /** A call that ends has published: in blocking mode all of its data; in skip mode all if they fitted into the room
      that it saw, else nothing; in trim mode as many as fitted. While it runs, what it has published so far is a
      prefix. */
  lemma CallPublishes(s: State)
    requires Inv(s) && s.writer.Copy? && s.writer.copied == |s.writer.chunk| && Next(s, PublishWrOff).writer.Idle?
    ensures var w := s.writer; var out := Next(s, PublishWrOff).published;
      match w.mode
      case Block => out == w.base + w.data
      case Skip => out == w.base + if |w.data| <= w.room then w.data else []
      case Trim => out == w.base + w.data[..Min(w.room, |w.data|)]
  {
    hide Held, At, Used;
    var w := s.writer;
    SliceAppends(w.base, w.data, w.sent, |w.chunk|);
    WholeAndEmpty(w.data);
  }

  lemma SliceAppends(base: seq<byte>, data: seq<byte>, sent: nat, n: nat)
    requires sent + n <= |data|
    ensures base + data[..sent] + data[sent..sent + n] == base + data[..sent + n]
  {
    assert data[..sent] + data[sent..sent + n] == data[..sent + n];
  }

  lemma WholeAndEmpty(data: seq<byte>)
    ensures data[..|data|] == data && data[..0] == []
  {
  }

  lemma PublishedIsPrefix(s: State)
    requires Inv(s) && !s.writer.Idle?
    ensures s.writer.base <= s.published <= s.writer.base + s.writer.data
  {
    hide Held, At, Used;
    PrefixOfConcat(s.writer.base, s.writer.data, s.writer.sent);
  }

  lemma PrefixOfConcat(base: seq<byte>, data: seq<byte>, n: nat)
    requires n <= |data|
    ensures base <= base + data[..n] <= base + data
  {
  }

  /** How many more rounds with room a blocking call can still need. */
  function RoundsLeft(w: Writer): nat
    requires w.Sample? ==> w.sent <= |w.data|
    requires w.Copy? ==> w.sent + |w.chunk| <= |w.data|
  {
    match w
    case Idle => 0
    case Sample(_, _, data, sent) => if sent < |data| then |data| - sent else 1
    case Copy(_, _, data, sent, _, chunk, _) => |data| - sent - |chunk|
  }

  /** A round begins, and the ring is not full. */
  predicate GoodRound(s: State, step: Step)
    requires Offsets(s)
  {
    step == ReadRdOff && s.writer.Sample? && Room(s) > 0
  }

  ghost function GoodRounds(s: State, steps: seq<Step>): nat
    requires Inv(s)
    decreases |steps|
  {
    if steps == [] then 0
    else
      StepKeepsInv(s, steps[0]);
      (if GoodRound(s, steps[0]) then 1 else 0) + GoodRounds(Next(s, steps[0]), steps[1..])
  }

  /** The call is still going on at the end of each of the steps. */
  ghost predicate GoesOn(s: State, steps: seq<Step>)
    requires Inv(s)
    decreases |steps|
  {
    && !s.writer.Idle? && s.writer.mode == Block
    && if steps == [] then true
       else
         StepKeepsInv(s, steps[0]);
         GoesOn(Next(s, steps[0]), steps[1..])
  }

  lemma GoodRoundCounts(s: State, step: Step)
    requires Inv(s) && Inv(Next(s, step)) && !s.writer.Idle? && s.writer.mode == Block && !Next(s, step).writer.Idle?
    ensures RoundsLeft(Next(s, step).writer) + (if GoodRound(s, step) then 1 else 0) <= RoundsLeft(s.writer)
  {
    hide Held, At, Used, ReaderInv;
  }

  /** However the steps interleave, a blocking call that is still going on has had no more rounds with room than it had
      bytes left: each such round publishes at least one. Only a call of no bytes has a round for nothing. */
  lemma {:induction false} BlockingCallEnds(s: State, steps: seq<Step>)
    requires Inv(s) && GoesOn(s, steps)
    ensures GoodRounds(s, steps) <= RoundsLeft(s.writer)
    decreases |steps|
  {
    hide Next, RoundsLeft, WriterInv, ReaderInv, Held;
    if steps != [] {
      StepKeepsInv(s, steps[0]);
      GoodRoundCounts(s, steps[0]);
      BlockingCallEnds(Next(s, steps[0]), steps[1..]);
    }
  }

  /** The reader finishes having taken something. */
  predicate Takes(s: State, step: Step) {
    step == PublishRdOff && s.reader.Copying? && |s.reader.got| == s.reader.total > 0
  }

  /** Only publishing takes room away. */
  lemma RoomStays(s: State, step: Step)
    requires Inv(s) && step != PublishWrOff
    ensures Offsets(Next(s, step)) && Room(Next(s, step)) >= Room(s)
  {
    hide Held, WriterInv;
  }

  /** A reader that finishes having taken something leaves room, and there is still room when the writer comes to read
      the read offset, unless that has published in between: a reader that keeps taking makes every round a good one. */
  lemma {:induction false} TakingMakesRoom(s: State, steps: seq<Step>)
    requires Inv(s) && PublishWrOff !in steps
    requires Room(s) > 0 || (steps != [] && Takes(s, steps[0]))
    ensures Room(Run(s, steps)) > 0
    decreases |steps|
  {
    if steps != [] {
      StepKeepsInv(s, steps[0]);
      RoomStays(s, steps[0]);
      if Takes(s, steps[0]) {
        TakingFrees(s);
      }
      hide Next, Room, WriterInv, ReaderInv, Held;
      TakingMakesRoom(Next(s, steps[0]), steps[1..]);
    }
  }

  lemma TakingFrees(s: State)
    requires Inv(s) && s.reader.Copying? && |s.reader.got| == s.reader.total
    ensures Offsets(Next(s, PublishRdOff)) && Room(Next(s, PublishRdOff)) == Room(s) + s.reader.total
  {
    hide Held, WriterInv;
  }

  /** A reader that begins while the ring is full has something to take. */
  lemma FullRingIsTaken(s: State, bufferSize: u32)
    requires Inv(s) && s.reader.Resting? && Room(s) == 0 && |s.b| > 1 && bufferSize > 0
    ensures Next(s, ReadWrOff(bufferSize)).reader == Copying(Min(bufferSize, |s.b| - 1), [])
  {
    TakeIsBounded(s.b, s.rdOff, s.wrOff, bufferSize);
    hide Held, Take, WriterInv;
  }

  /** What the writer will have left of the room when it has published what it is copying. */
  function Spare(s: State): int
    requires Offsets(s)
  {
    Room(s) - if s.writer.Copy? then |s.writer.chunk| else 0
  }

  predicate BeginsRound(s: State, step: Step) {
    step == ReadRdOff && s.writer.Sample?
  }

  /** Whether the reader has taken something since the last round began. */
  predicate TakenAfter(s: State, step: Step, taken: bool) {
    !BeginsRound(s, step) && (taken || Takes(s, step))
  }

  /** How many rounds begin after the reader has taken something since the one before. */
  ghost function RoundsAfterTaking(s: State, steps: seq<Step>, taken: bool): nat
    requires Inv(s)
    decreases |steps|
  {
    if steps == [] then 0
    else
      StepKeepsInv(s, steps[0]);
      (if BeginsRound(s, steps[0]) && taken then 1 else 0)
      + RoundsAfterTaking(Next(s, steps[0]), steps[1..], TakenAfter(s, steps[0], taken))
  }

  lemma TakingLeavesSpare(s: State, step: Step, taken: bool)
    requires Inv(s) && Inv(Next(s, step)) && (taken ==> Spare(s) > 0)
    ensures TakenAfter(s, step, taken) ==> Spare(Next(s, step)) > 0
  {
    hide Held, Planned, ReaderInv;
    if s.reader.Copying? && |s.reader.got| == s.reader.total {
      TakingFrees(s);
    }
  }

  lemma {:induction false} TakenRoundsAreGood(s: State, steps: seq<Step>, taken: bool)
    requires Inv(s) && (taken ==> Spare(s) > 0)
    ensures RoundsAfterTaking(s, steps, taken) <= GoodRounds(s, steps)
    decreases |steps|
  {
    if steps != [] {
      StepKeepsInv(s, steps[0]);
      TakingLeavesSpare(s, steps[0], taken);
      hide Inv, Next, Room, TakenAfter;
      TakenRoundsAreGood(Next(s, steps[0]), steps[1..], TakenAfter(s, steps[0], taken));
    }
  }

  /** A reader that keeps taking lets every blocking call end: however the steps of the two sides interleave, a call
      that is still going on has begun no more rounds after the reader had taken something than it had bytes left. */
  lemma {:induction false} TakingEndsBlockingCall(s: State, steps: seq<Step>)
    requires Inv(s) && GoesOn(s, steps)
    ensures RoundsAfterTaking(s, steps, false) <= RoundsLeft(s.writer)
  {
    hide Inv, Next, RoundsLeft, GoesOn, GoodRounds, RoundsAfterTaking;
    TakenRoundsAreGood(s, steps, false);
    BlockingCallEnds(s, steps);
  }

  /** The writer goes from a call to its end in just these steps: it is idle after the last of them, and not before. */
  ghost predicate CallEnds(s: State, steps: seq<Step>)
    requires Inv(s)
    decreases |steps|
  {
    if steps == [] then s.writer.Idle?
    else
      StepKeepsInv(s, steps[0]);
      !s.writer.Idle? && CallEnds(Next(s, steps[0]), steps[1..])
  }

  /** The room that a call of one round sees: the one that it has seen, or else the one at its round's beginning. */
  ghost function RoomSeen(s: State, steps: seq<Step>): nat
    requires Inv(s)
    decreases |steps|
  {
    if s.writer.Copy? then s.writer.room
    else if steps == [] then 0
    else if BeginsRound(s, steps[0]) then Room(s)
    else
      StepKeepsInv(s, steps[0]);
      RoomSeen(Next(s, steps[0]), steps[1..])
  }

  /** What a call with these data is to publish. */
  predicate Fulfils(mode: Mode, data: seq<byte>, room: nat, out: seq<byte>) {
    match mode
    case Block => out == data
    case Skip => out == if |data| <= room then data else []
    case Trim => out <= data && (|out| == |data| || |out| == room) && |out| <= room
  }

  /** A step that does not end the call keeps what it is about. */
  lemma CallGoesOn(s: State, step: Step)
    requires Inv(s) && !s.writer.Idle? && !Next(s, step).writer.Idle?
    ensures var w, w' := s.writer, Next(s, step).writer;
      && w'.mode == w.mode && w'.base == w.base && w'.data == w.data
      && (w.Copy? && w.mode != Block ==> w'.Copy? && w'.room == w.room)
      && (w.Sample? && BeginsRound(s, step) ==> w'.Copy? && w'.room == Room(s))
      && (w.Sample? && !BeginsRound(s, step) ==> w'.Sample?)
  {
    hide Held, At, Used, ReaderInv, Space, Plan, Take;
  }

  lemma OnlyPublishingEnds(s: State, step: Step)
    requires Inv(s) && !s.writer.Idle? && Next(s, step).writer.Idle?
    ensures step == PublishWrOff && s.writer.Copy? && s.writer.copied == |s.writer.chunk|
  {
    hide Held, At, Used, ReaderInv, Space, Plan, Take;
  }

  lemma LastStep(s: State, step: Step)
    requires Inv(s) && !s.writer.Idle? && Next(s, step).writer.Idle?
    ensures var w := s.writer;
      && w.Copy?
      && exists out :: Next(s, step).published == w.base + out && Fulfils(w.mode, w.data, w.room, out)
  {
    OnlyPublishingEnds(s, step);
    CallPublishes(s);
    hide Held, At, Used, ReaderInv, WriterInv, Space;
    var w := s.writer;
    var out := match w.mode
      case Block => w.data
      case Skip => if |w.data| <= w.room then w.data else []
      case Trim => w.data[..Min(w.room, |w.data|)];
    assert Next(s, step).published == w.base + out && Fulfils(w.mode, w.data, w.room, out);
  }

  lemma {:induction false} RunningCallFulfils(s: State, steps: seq<Step>)
    requires Inv(s) && !s.writer.Idle? && CallEnds(s, steps)
    ensures var w := s.writer;
      exists out :: Run(s, steps).published == w.base + out && Fulfils(w.mode, w.data, RoomSeen(s, steps), out)
    decreases |steps|
  {
    assert Offsets(s);
    hide Inv, Next, Fulfils;
    StepKeepsInv(s, steps[0]);
    var s' := Next(s, steps[0]);
    if s'.writer.Idle? {
      LastStep(s, steps[0]);
      EndsAtOnce(s', steps[1..]);
    } else {
      CallGoesOn(s, steps[0]);
      RunningCallFulfils(s', steps[1..]);
      BlockIgnoresRoom(s.writer.data);
      var out :| Run(s, steps).published == s.writer.base + out
        && Fulfils(s.writer.mode, s.writer.data, RoomSeen(s', steps[1..]), out);
      assert Fulfils(s.writer.mode, s.writer.data, RoomSeen(s, steps), out);
    }
  }

  lemma EndsAtOnce(s: State, steps: seq<Step>)
    requires Inv(s) && s.writer.Idle? && CallEnds(s, steps)
    ensures Run(s, steps) == s
  {
  }

  lemma BlockIgnoresRoom(data: seq<byte>)
    ensures forall out, m, n :: Fulfils(Block, data, m, out) == Fulfils(Block, data, n, out)
  {
  }

  /** In every interleaving, a call that has come to its end has published just what it was given: in blocking mode all
      of it; in skip mode all of it if it fitted into the room at its only round's beginning, else nothing; in trim mode
      as much from the front as fitted. */
  lemma CallFulfils(s: State, mode: Mode, data: seq<byte>, steps: seq<Step>)
    requires Inv(s) && s.writer.Idle? && Inv(Next(s, Call(mode, data))) && CallEnds(Next(s, Call(mode, data)), steps)
    ensures var s' := Next(s, Call(mode, data));
      var t := Run(s', steps);
      s.published <= t.published && Fulfils(mode, data, RoomSeen(s', steps), t.published[|s.published|..])
  {
    var s' := Next(s, Call(mode, data));
    assert s'.writer.Sample? && s'.writer.base == s.published && s'.writer.data == data && s'.writer.mode == mode;
    hide Inv, Next, Fulfils, CallEnds, Run, RoomSeen;
    RunningCallFulfils(s', steps);
    var out :| Run(s', steps).published == s.published + out && Fulfils(mode, data, RoomSeen(s', steps), out);
    assert Run(s', steps).published[|s.published|..] == out;
  }

  /** What a writer does when nothing but itself comes in between: it reads the offset, copies, and publishes. */
  function CopyAndPublish(n: nat): seq<Step> {
    if n == 0 then [PublishWrOff] else [CopyIn] + CopyAndPublish(n - 1)
  }

  lemma RunsFirst(s: State, step: Step, steps: seq<Step>)
    requires Inv(s)
    ensures Inv(Next(s, step)) && Run(s, [step] + steps) == Run(Next(s, step), steps)
  {
    StepKeepsInv(s, step);
    hide Next, Inv;
    assert ([step] + steps)[1..] == steps;
  }

  lemma CopyInDoes(s: State)
    requires Inv(s) && s.writer.Copy? && s.writer.copied < |s.writer.chunk|
    ensures var t := Next(s, CopyIn);
      && t.writer == s.writer.(copied := s.writer.copied + 1)
      && t.published == s.published && Offsets(t) && Room(t) == Room(s)
  {
    hide Held, ReaderInv;
  }

  lemma PublishDoes(s: State)
    requires Inv(s) && s.writer.Copy? && s.writer.copied == |s.writer.chunk|
    ensures var t, w := Next(s, PublishWrOff), s.writer;
      && t.writer == AfterPublish(w) && t.published == s.published + w.chunk
      && Offsets(t) && Room(t) == Room(s) - |w.chunk|
  {
    hide Held, ReaderInv;
  }

  lemma RunNothing(s: State)
    requires Inv(s)
    ensures Run(s, []) == s
  {
  }

  lemma {:induction false} CopyingCompletes(s: State)
    requires Inv(s) && Offsets(s) && s.writer.Copy? && s.writer.copied <= |s.writer.chunk|
    ensures var w := s.writer;
      var t := Run(s, CopyAndPublish(|w.chunk| - w.copied));
      && t.published == s.published + w.chunk && t.writer == AfterPublish(w)
      && Offsets(t) && Room(t) == Room(s) - |w.chunk|
    decreases |s.writer.chunk| - s.writer.copied
  {
    hide Inv, Next, Run, Offsets, Room, AfterPublish, CopyAndPublish;
    var w := s.writer;
    var n: nat := |w.chunk| - w.copied;
    CopiesLeft(n);
    if n > 0 {
      CopyInDoes(s);
      RunsFirst(s, CopyIn, CopyAndPublish(n - 1));
      CopyingCompletes(Next(s, CopyIn));
      SameAfterPublish(w, w.(copied := w.copied + 1));
    } else {
      PublishDoes(s);
      RunsFirst(s, PublishWrOff, []);
      RunNothing(Next(s, PublishWrOff));
    }
  }

  lemma CopiesLeft(n: nat)
    ensures CopyAndPublish(n) == if n == 0 then [PublishWrOff] + [] else [CopyIn] + CopyAndPublish(n - 1)
  {
  }

  lemma SameAfterPublish(w: Writer, w': Writer)
    requires w.Copy? && w' == w.(copied := w.copied + 1)
    ensures AfterPublish(w') == AfterPublish(w)
  {
  }

  /** A round that is not disturbed publishes all that was planned from the room it saw; what is published next follows
      in the buffer. */
  lemma RoundCompletes(s: State)
    requires Inv(s) && Offsets(s) && s.writer.Sample? && s.writer.sent <= |s.writer.data|
    ensures var w := s.writer;
      var k := Plan(w.mode, s.rdOff, s.wrOff, |s.b|, |w.data| - w.sent);
      var t := Run(s, [ReadRdOff] + CopyAndPublish(k));
      && t.published == s.published + w.data[w.sent..w.sent + k] && Room(t) == Room(s) - k
      && (t.writer.Idle? <==> w.mode != Block || w.sent + k == |w.data|)
  {
    RoundBegins(s);
    hide Inv, Next, Run, Room, Plan, CopyAndPublish, AfterPublish, WriterInv, ReaderInv, Held;
    var w, s' := s.writer, Next(s, ReadRdOff);
    var k := Plan(w.mode, s.rdOff, s.wrOff, |s.b|, |w.data| - w.sent);
    RunsFirst(s, ReadRdOff, CopyAndPublish(k));
    CopyingCompletes(s');
    GoesRoundAgain(s'.writer);
  }

  lemma GoesRoundAgain(w: Writer)
    requires w.Copy? && w.sent + |w.chunk| <= |w.data|
    ensures AfterPublish(w).Idle? <==> w.mode != Block || w.sent + |w.chunk| == |w.data|
  {
  }

  lemma RoundBegins(s: State)
    requires Inv(s) && s.writer.Sample?
    ensures var w, t := s.writer, Next(s, ReadRdOff);
      var k := Plan(w.mode, s.rdOff, s.wrOff, |s.b|, |w.data| - w.sent);
      && w.sent + k <= |w.data| && Offsets(t) && Room(t) == Room(s) && t.published == s.published
      && t.writer == Copy(w.mode, w.base, w.data, w.sent, Room(s), w.data[w.sent..w.sent + k], 0)
  {
    hide Held, ReaderInv, Plan;
  }

  /** The reader goes from its beginning to its end in just these steps. */
  ghost predicate ReadEnds(s: State, steps: seq<Step>)
    requires Inv(s)
    decreases |steps|
  {
    if steps == [] then s.reader.Resting?
    else
      StepKeepsInv(s, steps[0]);
      !s.reader.Resting? && ReadEnds(Next(s, steps[0]), steps[1..])
  }

  lemma ReadGoesOn(s: State, step: Step)
    requires Inv(s) && s.reader.Copying? && Inv(Next(s, step))
    ensures var s', n := Next(s, step), s.reader.total;
      if s'.reader.Copying?
      then s'.reader.total == n && s'.received == s.received && n <= |Queue(s')| && Queue(s')[..n] == Queue(s)[..n]
      else s'.received == s.received + Queue(s)[..n]
  {
    RefinesFifo(s, step);
    hide Held, WriterInv, At, Space;
    if step == PublishWrOff {
      var d :| Queue(Next(s, step)) == Queue(s) + d;
      FrontStays(Queue(s), d, s.reader.total);
    }
  }

  lemma {:induction false} RunningReadTakes(s: State, steps: seq<Step>)
    requires Inv(s) && s.reader.Copying? && ReadEnds(s, steps)
    ensures s.reader.total <= |Queue(s)| && Run(s, steps).received == s.received + Queue(s)[..s.reader.total]
    decreases |steps|
  {
    assert Offsets(s) && s.reader.total <= |Queue(s)|;
    StepKeepsInv(s, steps[0]);
    ReadGoesOn(s, steps[0]);
    hide Inv, Next, Held;
    if Next(s, steps[0]).reader.Copying? {
      RunningReadTakes(Next(s, steps[0]), steps[1..]);
    }
  }

  /** In every interleaving, a reader that has come to its end has taken the bytes that were at the front of the queue
      when it began, as many as it asked for or as there were. */
  lemma ReadTakes(s: State, bufferSize: u32, steps: seq<Step>)
    requires Inv(s) && s.reader.Resting? && Inv(Next(s, ReadWrOff(bufferSize)))
    requires ReadEnds(Next(s, ReadWrOff(bufferSize)), steps)
    ensures Run(Next(s, ReadWrOff(bufferSize)), steps).received ==
      s.received + Queue(s)[..Min(bufferSize, |Queue(s)|)]
  {
    TakeIsBounded(s.b, s.rdOff, s.wrOff, bufferSize);
    hide Held, Take, WriterInv;
    var s' := Next(s, ReadWrOff(bufferSize));
    assert s'.reader == Copying(Min(bufferSize, |Queue(s)|), []) && Queue(s') == Queue(s);
    RunningReadTakes(s', steps);
  }

  function CopyOutAndPublish(n: nat): seq<Step> {
    if n == 0 then [PublishRdOff] else [CopyOut] + CopyOutAndPublish(n - 1)
  }

  lemma CopyOutDoes(s: State)
    requires Inv(s) && s.reader.Copying? && |s.reader.got| < s.reader.total
    ensures var t := Next(s, CopyOut).reader;
      t.Copying? && t.total == s.reader.total && |t.got| == |s.reader.got| + 1
    ensures Inv(Next(s, CopyOut))
  {
    StepKeepsInv(s, CopyOut);
    hide Held, WriterInv, At;
  }

  lemma TakingRests(s: State)
    requires Inv(s) && s.reader.Copying? && |s.reader.got| == s.reader.total
    ensures Next(s, PublishRdOff).reader.Resting? && Inv(Next(s, PublishRdOff))
  {
    StepKeepsInv(s, PublishRdOff);
    hide Held, WriterInv, At;
  }

  /** A reader that is not disturbed comes to its end. */
  lemma {:induction false} ReadCompletes(s: State)
    requires Inv(s) && Offsets(s) && s.reader.Copying? && |s.reader.got| <= s.reader.total
    ensures ReadEnds(s, CopyOutAndPublish(s.reader.total - |s.reader.got|))
    decreases s.reader.total - |s.reader.got|
  {
    hide Inv, Next, ReadEnds, Offsets, CopyOutAndPublish;
    var n: nat := s.reader.total - |s.reader.got|;
    CopiesOutLeft(n);
    if n > 0 {
      CopyOutDoes(s);
      InvOffsets(Next(s, CopyOut));
      ReadCompletes(Next(s, CopyOut));
      EndsLater(s, CopyOut, CopyOutAndPublish(n - 1));
    } else {
      TakingRests(s);
      NothingLeft(Next(s, PublishRdOff));
      EndsLater(s, PublishRdOff, []);
    }
  }

  lemma InvOffsets(s: State)
    requires Inv(s)
    ensures Offsets(s)
  {
  }

  lemma CopiesOutLeft(n: nat)
    ensures CopyOutAndPublish(n) == if n == 0 then [PublishRdOff] + [] else [CopyOut] + CopyOutAndPublish(n - 1)
  {
  }

  lemma NothingLeft(s: State)
    requires Inv(s) && s.reader.Resting?
    ensures ReadEnds(s, [])
  {
  }

  lemma EndsLater(s: State, step: Step, steps: seq<Step>)
    requires Inv(s) && Offsets(s) && s.reader.Copying? && Inv(Next(s, step)) && ReadEnds(Next(s, step), steps)
    ensures ReadEnds(s, [step] + steps)
  {
    hide Inv, Next;
    assert ([step] + steps)[1..] == steps;
  }
}
