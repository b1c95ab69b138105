/** The SystemView recorder: it frames events in a static buffer, posts them to an RTT up channel, and obeys the
    host's commands, which it looks for after each event. A command may itself record events; a guard keeps that from
    nesting any deeper. */
module SysView {
  import opened Bytes
  import opened Ring
  import opened VarInt
  import opened Packet
  import opened PacketBuffer
  import opened Recording
  import opened RttBuffer

  const EVTID_ISR_ENTER: u32 := 2
  const EVTID_ISR_EXIT: u32 := 3
  const EVTID_TASK_START_EXEC: u32 := 4
  const EVTID_TASK_STOP_EXEC: u32 := 5
  const EVTID_TASK_START_READY: u32 := 6
  const EVTID_TASK_STOP_READY: u32 := 7
  const EVTID_TASK_CREATE: u32 := 8
  const EVTID_TASK_INFO: u32 := 9
  const EVTID_TRACE_START: u32 := 10
  const EVTID_TRACE_STOP: u32 := 11
  const EVTID_SYSTIME_CYCLES: u32 := 12
  const EVTID_SYSTIME_US: u32 := 13
  const EVTID_SYSDESC: u32 := 14
  const EVTID_MARK_START: u32 := 15
  const EVTID_MARK_STOP: u32 := 16
  const EVTID_IDLE: u32 := 17
  const EVTID_ISR_TO_SCHEDULER: u32 := 18
  const EVTID_TIMER_ENTER: u32 := 19
  const EVTID_TIMER_EXIT: u32 := 20
  const EVTID_STACK_INFO: u32 := 21
  const EVTID_MODULEDESC: u32 := 22
  const EVTID_DATA_SAMPLE: u32 := 23
  const EVTID_INIT: u32 := 24
  const EVTID_PRINT_FORMATTED: u32 := 26
  const EVTID_NUMMODULES: u32 := 27
  const EVTID_END_CALL: u32 := 28
  const EVTID_TASK_TERMINATE: u32 := 29
  const EVTID_EX: u32 := 31
  const EVTID_EX_MARK: u32 := 0

  const COMMAND_START: byte := 1
  const COMMAND_STOP: byte := 2
  const COMMAND_GET_SYSTIME: byte := 3
  const COMMAND_GET_TASKLIST: byte := 4
  const COMMAND_GET_SYSDESC: byte := 5
  const COMMAND_GET_NUMMODULES: byte := 6
  const COMMAND_GET_MODULEDESC: byte := 7
  const COMMAND_GET_MODULE: byte := 128

  /** One recording call: an event id and its parameters, small enough for the static buffer. */
  datatype AnyCall = Call(id: u32, args: seq<Arg>)
  type Call = c: AnyCall | |PayloadOf(c.args)| <= MAX_PAYLOAD witness Call(0, [])

  datatype TaskInfo = TaskInfo(
    taskId: u32, prio: u32, name: seq<byte>, stackBase: u32, stackSize: u32, stackUsage: u32)
  datatype Module = Module(name: seq<byte>, eventOffset: u32, descriptions: seq<seq<byte>>)

  /** What the application has told the recorder: frequencies, callbacks (as the texts and tasks that they send), and
      registered modules. */
  datatype Config = Config(
    sysFreq: u32, cpuFreq: u32, ramBase: u32, hasTime: bool,
    sysDesc: seq<seq<byte>>, tasks: seq<TaskInfo>, modules: seq<Module>)

  lemma Bound4(a: Arg, b: Arg, c: Arg, d: Arg)
    requires a.U32? && b.U32? && c.U32? && d.U32?
    ensures |PayloadOf([a, b, c, d])| <= 20
  {
    hide ArgBytes;
    assert [a, b, c, d] == [a, b, c] + [d];
    PayloadConcat([a, b, c], [d]);
    PayloadOfThree(a, b, c);
    PayloadOfOne(d);
    assert |ArgBytes(a)| <= 5 && |ArgBytes(b)| <= 5 && |ArgBytes(c)| <= 5 && |ArgBytes(d)| <= 5 by {
      ArgBound(a);
      ArgBound(b);
      ArgBound(c);
      ArgBound(d);
    }
  }

  lemma ArgBound(a: Arg)
    ensures |ArgBytes(a)| <= if a.U32? then 5 else 1 + MAX_STRING_LEN
  {
  }

  lemma Bound3(a: Arg, b: Arg, c: Arg)
    requires a.U32? && b.U32?
    ensures |PayloadOf([a, b, c])| <= 139
  {
    hide ArgBytes;
    PayloadOfThree(a, b, c);
    ArgBound(a);
    ArgBound(b);
    ArgBound(c);
  }

  lemma Bound1(a: Arg)
    ensures |PayloadOf([a])| <= 129
  {
    hide ArgBytes;
    PayloadOfOne(a);
    ArgBound(a);
  }

  function ShrinkId(cfg: Config, id: u32): u32 {
    ToU32(id - cfg.ramBase)
  }

  function InitCall(cfg: Config): Call {
    Bound4(U32(cfg.sysFreq), U32(cfg.cpuFreq), U32(cfg.ramBase), U32(0));
    Call(EVTID_INIT, [U32(cfg.sysFreq), U32(cfg.cpuFreq), U32(cfg.ramBase), U32(0)])
  }

  function TextCall(id: u32, text: seq<byte>): Call {
    Bound1(Str(text, MAX_STRING_LEN));
    Call(id, [Str(text, MAX_STRING_LEN)])
  }

  function NumberCall(id: u32, v: u32): Call {
    Bound1(U32(v));
    Call(id, [U32(v)])
  }

  function ModuleCall(index: byte, m: Module, text: seq<byte>): Call {
    Bound3(U32(index), U32(m.eventOffset), Str(text, MAX_STRING_LEN));
    Call(EVTID_MODULEDESC, [U32(index), U32(m.eventOffset), Str(text, MAX_STRING_LEN)])
  }

  function TaskCalls(cfg: Config, t: TaskInfo): seq<Call> {
    var id := U32(ShrinkId(cfg, t.taskId));
    Bound3(id, U32(t.prio), Str(t.name, 32));
    Bound4(id, U32(t.stackBase), U32(t.stackSize), U32(t.stackUsage));
    [Call(EVTID_TASK_INFO, [id, U32(t.prio), Str(t.name, 32)]),
     Call(EVTID_STACK_INFO, [id, U32(t.stackBase), U32(t.stackSize), U32(t.stackUsage)])]
  }

  /** What the application reports by the calls that its scheduler, its interrupt handlers and its code make. */
  datatype AppEvent =
    | EnterIsr(interrupt: u32) | ExitIsr | ExitIsrToScheduler
    | EnterTimer(timerId: u32) | ExitTimer
    | EndCall(eventId: u32) | EndCallWith(eventId: u32, value: u32)
    | Idle | CreateTask(taskId: u32) | TerminateTask(taskId: u32)
    | StartTask(taskId: u32) | StopTask | ReadyTask(taskId: u32) | BlockTask(taskId: u32, cause: u32)
    | StartMark(marker: u32) | StopMark(marker: u32) | SetMark(marker: u32)
    | SampleData(dataId: u32, bits: u32)

  function NumbersCall(id: u32, params: seq<u32>): Call
    requires |params| <= 10
  {
    RecordCallsFit(params, [], 0);
    Call(id, Numbers(params))
  }

  /** The id and the parameters of a report. Ids of tasks and timers are sent as offsets. */
  function EventOf(cfg: Config, e: AppEvent): (r: (u32, seq<u32>))
    ensures |r.1| <= 2
  {
    match e
    case EnterIsr(interrupt) => (EVTID_ISR_ENTER, [interrupt])
    case ExitIsr => (EVTID_ISR_EXIT, [])
    case ExitIsrToScheduler => (EVTID_ISR_TO_SCHEDULER, [])
    case EnterTimer(timerId) => (EVTID_TIMER_ENTER, [ShrinkId(cfg, timerId)])
    case ExitTimer => (EVTID_TIMER_EXIT, [])
    case EndCall(eventId) => (EVTID_END_CALL, [eventId])
    case EndCallWith(eventId, value) => (EVTID_END_CALL, [eventId, value])
    case Idle => (EVTID_IDLE, [])
    case CreateTask(taskId) => (EVTID_TASK_CREATE, [ShrinkId(cfg, taskId)])
    case TerminateTask(taskId) => (EVTID_TASK_TERMINATE, [ShrinkId(cfg, taskId)])
    case StartTask(taskId) => (EVTID_TASK_START_EXEC, [ShrinkId(cfg, taskId)])
    case StopTask => (EVTID_TASK_STOP_EXEC, [])
    case ReadyTask(taskId) => (EVTID_TASK_START_READY, [ShrinkId(cfg, taskId)])
    case BlockTask(taskId, cause) => (EVTID_TASK_STOP_READY, [ShrinkId(cfg, taskId), cause])
    case StartMark(marker) => (EVTID_MARK_START, [marker])
    case StopMark(marker) => (EVTID_MARK_STOP, [marker])
    case SetMark(marker) => (EVTID_EX, [EVTID_EX_MARK, marker])
    case SampleData(dataId, bits) => (EVTID_DATA_SAMPLE, [dataId, bits])
  }

  function EventCall(cfg: Config, e: AppEvent): Call {
    var (id, params) := EventOf(cfg, e);
    NumbersCall(id, params)
  }

  function TaskListCalls(cfg: Config, tasks: seq<TaskInfo>): seq<Call> {
    if tasks == [] then []
    else TaskListCalls(cfg, tasks[..|tasks| - 1]) + TaskCalls(cfg, tasks[|tasks| - 1])
  }

  function TextCalls(id: u32, texts: seq<seq<byte>>): seq<Call> {
    if texts == [] then [] else TextCalls(id, texts[..|texts| - 1]) + [TextCall(id, texts[|texts| - 1])]
  }

  function DescriptionCalls(index: byte, m: Module, texts: seq<seq<byte>>): seq<Call> {
    if texts == [] then []
    else DescriptionCalls(index, m, texts[..|texts| - 1]) + [ModuleCall(index, m, texts[|texts| - 1])]
  }

  function AllDescriptionCalls(modules: seq<Module>): seq<Call>
    requires |modules| < 256
  {
    if modules == [] then []
    else
      var i := |modules| - 1;
      AllDescriptionCalls(modules[..i]) + DescriptionCalls(i, modules[i], modules[i].descriptions)
  }

  /** The system time, in two halves. */
  datatype Time = Time(low: u32, high: u32)

  lemma TwoNumbers(a: u32, b: u32)
    ensures |PayloadOf([U32(a), U32(b)])| <= 10
  {
    assert [U32(a), U32(b)] == [U32(a)] + [U32(b)];
    PayloadConcat([U32(a)], [U32(b)]);
    PayloadOfOne(U32(a));
    PayloadOfOne(U32(b));
  }

  /** The application's own time if it has one, else the time stamp. */
  function SystimeCall(cfg: Config, time: Time): Call {
    TwoNumbers(time.low, time.high);
    if cfg.hasTime then Call(EVTID_SYSTIME_US, [U32(time.low), U32(time.high)])
    else NumberCall(EVTID_SYSTIME_CYCLES, time.low)
  }

  function NumModulesCall(cfg: Config): Call {
    NumberCall(EVTID_NUMMODULES, |cfg.modules| % 0x100)
  }

  function SysDescCalls(cfg: Config): seq<Call> {
    [InitCall(cfg)] + TextCalls(EVTID_SYSDESC, cfg.sysDesc)
  }

  function SendModuleCalls(cfg: Config, index: byte): seq<Call> {
    if index < |cfg.modules| then
      [ModuleCall(index, cfg.modules[index], cfg.modules[index].name)] +
      DescriptionCalls(index, cfg.modules[index], cfg.modules[index].descriptions)
    else []
  }

  /** What a call asks of the recorder, whether or not the ring has room for it. */
  datatype Request = Record(id: u32, payload: Payload) | DoStart | DoStop | DoMask

  function Requests(calls: seq<Call>): (rs: seq<Request>)
    ensures |rs| == |calls|
  {
    seq(|calls|, k requires 0 <= k < |calls| => Record(calls[k].id, PayloadOf(calls[k].args)))
  }

  /** The start sequence. */
  function StartRequests(cfg: Config, time: Time): seq<Request> {
    [DoStart] + Requests([Call(EVTID_TRACE_START, [])] + SysDescCalls(cfg)) +
    Requests([SystimeCall(cfg, time)]) + Requests(TaskListCalls(cfg, cfg.tasks) + [NumModulesCall(cfg)])
  }

  function StopRequests(on: bool): seq<Request> {
    if on then [Record(EVTID_TRACE_STOP, []), DoStop] else []
  }

  /** How a command is answered. `bytes` is what is taken from the down channel: the command, and for commands from
      128 on a parameter, if it is there already. */
  function Response(cfg: Config, bytes: seq<byte>, on: bool, time: Time): seq<Request>
    requires bytes != [] && |cfg.modules| < 256
  {
    var cmd := bytes[0];
    if cmd == COMMAND_START then StartRequests(cfg, time)
    else if cmd == COMMAND_STOP then StopRequests(on)
    else if cmd == COMMAND_GET_SYSTIME then Requests([SystimeCall(cfg, time)])
    else if cmd == COMMAND_GET_TASKLIST then Requests(TaskListCalls(cfg, cfg.tasks))
    else if cmd == COMMAND_GET_SYSDESC then Requests(SysDescCalls(cfg))
    else if cmd == COMMAND_GET_NUMMODULES then Requests([NumModulesCall(cfg)])
    else if cmd == COMMAND_GET_MODULEDESC then Requests(AllDescriptionCalls(cfg.modules))
    else if cmd == COMMAND_GET_MODULE && |bytes| > 1 then Requests(SendModuleCalls(cfg, bytes[1]))
    else []
  }

  /** What happened: an input of the recording model, done for the application (level 0) or on a host's command
      (level 1), or a command taken from the down channel. */
  datatype Entry = Did(level: nat, input: Input) | Command(bytes: seq<byte>)

  /** What a command takes from the down channel: its code, and for codes from 128 on a parameter that is there. */
  predicate Taken(bytes: seq<byte>, down: seq<byte>) {
    0 < |bytes| && bytes <= down && |bytes| == if down[0] >= 128 && |down| > 1 then 2 else 1
  }

  function RequestOf(i: Input): Request {
    match i
    case Post(id, payload, _, _, _, _) => Record(id, payload)
    case Start(_) => DoStart
    case Stop => DoStop
    case SetMask(_) => DoMask
  }

  /** The requests at one level, in order. */
  function Own(level: nat, es: seq<Entry>): seq<Request> {
    if es == [] then []
    else
      var e := es[|es| - 1];
      Own(level, es[..|es| - 1]) + if e.Did? && e.level == level then [RequestOf(e.input)] else []
  }

  function Inputs(es: seq<Entry>): seq<Input> {
    if es == [] then []
    else
      var e := es[|es| - 1];
      Inputs(es[..|es| - 1]) + if e.Did? then [e.input] else []
  }

  predicate AllNested(es: seq<Entry>) {
    forall e :: e in es ==> e.Did? && e.level == 1
  }

  /** A command and everything done to answer it; `on` says whether recording was on when it came. */
  ghost predicate Answered(cfg: Config, es: seq<Entry>, on: bool) {
    && |cfg.modules| < 256 && es != [] && es[0].Command? && es[0].bytes != [] && AllNested(es[1..])
    && exists time: Time :: Own(1, es[1..]) == Response(cfg, es[0].bytes, on, time)
  }

  /** What one packet adds to the history in state `s`: itself, then perhaps one command with its answer, but not while
      a command is being answered. */
  ghost predicate Sent(cfg: Config, s: State, es: seq<Entry>, level: nat, id: u32, payload: Payload) {
    && es != [] && es[0].Did? && es[0].level == level && es[0].input.Post?
    && es[0].input.id == id && es[0].input.payload == payload
    && (|es| > 1 ==> level == 0 && Answered(cfg, es[1..], Step(s, es[0].input).enable != STATE_OFF))
  }

  /** Between two histories, exactly `rs` was requested at `level`; at level 1, nothing else happened. */
  ghost predicate Added(h: seq<Entry>, h': seq<Entry>, level: nat, rs: seq<Request>) {
    h <= h' && Own(level, h'[|h|..]) == rs && (level == 1 ==> AllNested(h'[|h|..]))
  }

  lemma {:induction false} OwnConcat(level: nat, a: seq<Entry>, b: seq<Entry>)
    ensures Own(level, a + b) == Own(level, a) + Own(level, b)
  {
    if b == [] {
      assert a + b == a;
    } else {
      OwnConcat(level, a, b[..|b| - 1]);
      assert (a + b)[..|a + b| - 1] == a + b[..|b| - 1];
    }
  }

  lemma {:induction false} NestedIsNotOwn(es: seq<Entry>)
    requires AllNested(es)
    ensures Own(0, es) == []
  {
    if es != [] {
      NestedIsNotOwn(es[..|es| - 1]);
    }
  }

  /** The parameters have the structure that the id stands for. */
  predicate Matches(c: Call) {
    c.id < FIRST_WITH_LENGTH ==> Kinds(c.args) == Layout(c.id)
  }

  predicate AllMatch(calls: seq<Call>) {
    forall c :: c in calls ==> Matches(c)
  }

  lemma MatchingIsReadable(c: Call)
    requires Matches(c)
    ensures WellFormed(Packet(c.id, PayloadOf(c.args), 0))
  {
    hide PayloadOf, Layout, Extent;
    MatchingArgsAreReadable(c.args, []);
    assert PayloadOf(c.args) + [] == PayloadOf(c.args);
  }

  lemma NumberKinds(params: seq<u32>)
    requires |params| <= 2
    ensures Kinds(Numbers(params)) == if params == [] then [] else if |params| == 1 then [Num] else [Num, Num]
  {
  }

  /** Every report of the application has the structure of its id. */
  lemma EventMatches(cfg: Config, e: AppEvent)
    ensures Matches(EventCall(cfg, e))
  {
    hide PayloadOf, Kinds, Numbers;
    NumberKinds(EventOf(cfg, e).1);
  }

  lemma {:induction false} TasksMatch(cfg: Config, tasks: seq<TaskInfo>)
    ensures AllMatch(TaskListCalls(cfg, tasks))
  {
    hide PayloadOf;
    if tasks != [] {
      TasksMatch(cfg, tasks[..|tasks| - 1]);
      var cs := TaskCalls(cfg, tasks[|tasks| - 1]);
      assert Kinds(cs[0].args) == [Num, Num, Text] && Kinds(cs[1].args) == [Num, Num, Num, Num];
    }
  }

  lemma {:induction false} TextsMatch(texts: seq<seq<byte>>)
    ensures AllMatch(TextCalls(EVTID_SYSDESC, texts))
  {
    hide PayloadOf;
    if texts != [] {
      TextsMatch(texts[..|texts| - 1]);
      assert Kinds(TextCall(EVTID_SYSDESC, texts[|texts| - 1]).args) == [Text];
    }
  }

  lemma ModuleMatches(index: byte, m: Module, text: seq<byte>)
    ensures Matches(ModuleCall(index, m, text))
  {
    hide PayloadOf;
    assert Kinds(ModuleCall(index, m, text).args) == [Num, Num, Text];
  }

  lemma {:induction false} DescriptionsMatch(index: byte, m: Module, texts: seq<seq<byte>>)
    ensures AllMatch(DescriptionCalls(index, m, texts))
  {
    hide Matches, ModuleCall;
    if texts != [] {
      DescriptionsMatch(index, m, texts[..|texts| - 1]);
      ModuleMatches(index, m, texts[|texts| - 1]);
    }
  }

  lemma {:induction false} AllDescriptionsMatch(modules: seq<Module>)
    requires |modules| < 256
    ensures AllMatch(AllDescriptionCalls(modules))
  {
    hide Matches;
    if modules != [] {
      var i := |modules| - 1;
      AllDescriptionsMatch(modules[..i]);
      DescriptionsMatch(i, modules[i], modules[i].descriptions);
    }
  }

  lemma OwnCallsMatch(cfg: Config, time: Time)
    ensures Matches(SystimeCall(cfg, time)) && Matches(NumModulesCall(cfg)) && AllMatch(SysDescCalls(cfg))
    ensures PayloadOf([]) == [] && Matches(Call(EVTID_TRACE_START, []))
  {
    SystimeMatches(cfg, time);
    TextsMatch(cfg.sysDesc);
    assert PayloadOf([]) == [];
    hide PayloadOf, Layout, SystimeCall, TextCalls;
    assert Matches(Call(EVTID_TRACE_START, [])) by {
      StartMatches();
    }
  }

  lemma SystimeMatches(cfg: Config, time: Time)
    ensures Matches(SystimeCall(cfg, time))
  {
    hide PayloadOf;
    assert Kinds(SystimeCall(cfg, time).args) == if cfg.hasTime then [Num, Num] else [Num];
  }

  lemma StartMatches()
    ensures Kinds([]) == Layout(EVTID_TRACE_START)
  {
  }

  predicate CanBeRead(rs: seq<Request>) {
    forall r :: r in rs && r.Record? ==> WellFormed(Packet(r.id, r.payload, 0))
  }

  lemma MatchingCanBeRead(calls: seq<Call>)
    requires AllMatch(calls)
    ensures CanBeRead(Requests(calls))
  {
    hide PayloadOf, Matches, WellFormed;
    forall k | 0 <= k < |calls|
      ensures WellFormed(Packet(calls[k].id, PayloadOf(calls[k].args), 0))
    {
      MatchingIsReadable(calls[k]);
    }
  }

  lemma StartCanBeRead(cfg: Config, time: Time)
    ensures CanBeRead(StartRequests(cfg, time))
  {
    OwnCallsMatch(cfg, time);
    TasksMatch(cfg, cfg.tasks);
    hide PayloadOf, Matches, WellFormed, Requests, TaskListCalls, SysDescCalls, SystimeCall, NumModulesCall;
    MatchingCanBeRead([Call(EVTID_TRACE_START, [])] + SysDescCalls(cfg));
    MatchingCanBeRead([SystimeCall(cfg, time)]);
    MatchingCanBeRead(TaskListCalls(cfg, cfg.tasks) + [NumModulesCall(cfg)]);
  }

  lemma StopCanBeRead(on: bool)
    ensures CanBeRead(StopRequests(on))
  {
    assert WellFormed(Packet(EVTID_TRACE_STOP, [], 0));
    hide WellFormed;
  }

  lemma ModuleCanBeRead(cfg: Config, index: byte)
    ensures CanBeRead(Requests(SendModuleCalls(cfg, index)))
  {
    hide Matches, DescriptionCalls, ModuleCall, CanBeRead;
    if index < |cfg.modules| {
      var m := cfg.modules[index];
      DescriptionsMatch(index, m, m.descriptions);
      ModuleMatches(index, m, m.name);
    }
    MatchingCanBeRead(SendModuleCalls(cfg, index));
  }

  /** Whatever the host asks, the events that answer it can be read. */
  lemma ResponseCanBeRead(cfg: Config, bytes: seq<byte>, on: bool, time: Time)
    requires bytes != [] && |cfg.modules| < 256
    ensures CanBeRead(Response(cfg, bytes, on, time))
  {
    hide Matches, CanBeRead, Requests, TaskListCalls, SysDescCalls, SystimeCall, NumModulesCall, AllDescriptionCalls,
      SendModuleCalls, StartRequests, StopRequests, PayloadOf;
    var cmd := bytes[0];
    OwnCallsMatch(cfg, time);
    if cmd == COMMAND_START {
      StartCanBeRead(cfg, time);
    } else if cmd == COMMAND_STOP {
      StopCanBeRead(on);
    } else if cmd == COMMAND_GET_SYSTIME {
      MatchingCanBeRead([SystimeCall(cfg, time)]);
    } else if cmd == COMMAND_GET_TASKLIST {
      TasksMatch(cfg, cfg.tasks);
      MatchingCanBeRead(TaskListCalls(cfg, cfg.tasks));
    } else if cmd == COMMAND_GET_SYSDESC {
      MatchingCanBeRead(SysDescCalls(cfg));
    } else if cmd == COMMAND_GET_NUMMODULES {
      MatchingCanBeRead([NumModulesCall(cfg)]);
    } else if cmd == COMMAND_GET_MODULEDESC {
      AllDescriptionsMatch(cfg.modules);
      MatchingCanBeRead(AllDescriptionCalls(cfg.modules));
    } else if cmd == COMMAND_GET_MODULE && |bytes| > 1 {
      ModuleCanBeRead(cfg, bytes[1]);
    } else {
      NothingCanBeRead();
    }
  }

  lemma NothingCanBeRead()
    ensures CanBeRead([])
  {
  }

  lemma {:induction false} OwnHasAll(level: nat, es: seq<Entry>, e: Entry)
    requires e in es && e.Did? && e.level == level
    ensures RequestOf(e.input) in Own(level, es)
  {
    if e != es[|es| - 1] {
      OwnHasAll(level, es[..|es| - 1], e);
    }
  }

  /** Everything recorded to answer commands can be read. */
  ghost predicate NestedReadable(es: seq<Entry>) {
    forall e :: e in es && e.Did? && e.level != 0 ==> Readable(e.input)
  }

  /** What the application records can be read. */
  ghost predicate OwnReadable(es: seq<Entry>) {
    forall e :: e in es && e.Did? && e.level == 0 ==> Readable(e.input)
  }

  lemma {:induction false} AllReadableInputs(es: seq<Entry>)
    requires NestedReadable(es) && OwnReadable(es)
    ensures forall i :: i in Inputs(es) ==> Readable(i)
  {
    hide Readable;
    if es != [] {
      AllReadableInputs(es[..|es| - 1]);
    }
  }

  lemma OwnEventKeeps(es: seq<Entry>, e: Entry)
    requires e.Did?
    ensures e.level == 0 && NestedReadable(es) ==> NestedReadable(es + [e])
  {
  }

  lemma AnswerIsReadable(cfg: Config, es: seq<Entry>, on: bool)
    requires Answered(cfg, es, on)
    ensures NestedReadable(es)
  {
    hide Own, Response, WellFormed;
    var time :| Own(1, es[1..]) == Response(cfg, es[0].bytes, on, time);
    ResponseCanBeRead(cfg, es[0].bytes, on, time);
    forall e | e in es && e.Did? && e.level != 0
      ensures Readable(e.input)
    {
      assert e in es[1..];
      OwnHasAll(1, es[1..], e);
    }
  }

  /** Answers to commands are not the application's. */
  lemma AnswerKeepsReadable(cfg: Config, h: seq<Entry>, h': seq<Entry>, on: bool)
    requires h <= h' && OwnReadable(h) && Answered(cfg, h'[|h|..], on)
    ensures OwnReadable(h')
  {
    hide Own, Response, Readable;
    var es := h'[|h|..];
    assert h' == h + es && es == [es[0]] + es[1..];
  }

  /** What the application has recorded stays readable if the requests that were added can be read. */
  lemma AddedKeepsReadable(h: seq<Entry>, h': seq<Entry>, level: nat, rs: seq<Request>)
    requires Added(h, h', level, rs) && level <= 1 && CanBeRead(rs) && OwnReadable(h)
    ensures OwnReadable(h')
  {
    hide Own, WellFormed;
    var es := h'[|h|..];
    assert h' == h + es;
    forall e | e in es && e.Did? && e.level == 0
      ensures Readable(e.input)
    {
      OwnHasAll(0, es, e);
    }
  }

  lemma SentKeepsReadable(cfg: Config, s: State, h: seq<Entry>, h': seq<Entry>, level: nat, c: Call)
    requires h <= h' && Sent(cfg, s, h'[|h|..], level, c.id, PayloadOf(c.args)) && level <= 1
    requires Matches(c) && OwnReadable(h)
    ensures OwnReadable(h')
  {
    hide Own, Response, Step, PayloadOf, WellFormed, Matches, Added;
    assert h + h'[|h|..] == h';
    SentIsAdded(cfg, s, h, h'[|h|..], level, c.id, PayloadOf(c.args));
    MatchingIsReadable(c);
    AddedKeepsReadable(h, h', level, [Record(c.id, PayloadOf(c.args))]);
  }

  lemma AddedNothing(h: seq<Entry>, level: nat)
    ensures Added(h, h, level, [])
  {
    assert h[|h|..] == [];
  }

  lemma AddedTwice(h0: seq<Entry>, h1: seq<Entry>, h2: seq<Entry>, level: nat, a: seq<Request>, b: seq<Request>)
    requires Added(h0, h1, level, a) && Added(h1, h2, level, b)
    ensures Added(h0, h2, level, a + b)
  {
    hide Own;
    assert h2[|h0|..] == h1[|h0|..] + h2[|h1|..];
    OwnConcat(level, h1[|h0|..], h2[|h1|..]);
  }

  lemma AddedOne(h: seq<Entry>, level: nat, i: Input)
    ensures Added(h, h + [Did(level, i)], level, [RequestOf(i)])
  {
    var es := [Did(level, i)];
    assert (h + es)[|h|..] == es && es[..0] == [];
    assert Own(level, es) == Own(level, []) + [RequestOf(i)];
  }

  lemma SentIsAdded(cfg: Config, s: State, h: seq<Entry>, es: seq<Entry>, level: nat, id: u32, payload: Payload)
    requires Sent(cfg, s, es, level, id, payload)
    ensures Added(h, h + es, level, [Record(id, payload)])
  {
    hide Own, Response, Step;
    var first, answer := es[..1], es[1..];
    assert (h + es)[|h|..] == es == first + answer;
    OwnConcat(level, first, answer);
    AddedOne([], level, es[0].input);
    assert [] + [Did(level, es[0].input)] == first && first[0..] == first;
    if answer != [] {
      assert answer == [answer[0]] + answer[1..];
      OwnConcat(0, [answer[0]], answer[1..]);
      NestedIsNotOwn(answer[1..]);
      CommandIsNotOwn(answer[0]);
    } else {
      NestedIsNotOwn([]);
      OwnNothing(level);
    }
  }

  lemma GrownBy(h: seq<Entry>, e: Entry, h': seq<Entry>)
    requires h + [e] <= h'
    ensures h < h' && h'[|h|..] == [e] + h'[|h + [e]|..] && h'[|h|] == e
    ensures h'[|h|..][1..] == h'[|h + [e]|..]
  {
  }

  lemma OwnNothing(level: nat)
    ensures Own(level, []) == []
  {
  }

  lemma CommandIsNotOwn(e: Entry)
    requires e.Command?
    ensures Own(0, [e]) == []
  {
    assert [e][..0] == [];
  }

  lemma OneInput(h: seq<Entry>, e: Entry, s: State)
    ensures Run(s, Inputs(h + [e])) == if e.Did? then Step(Run(s, Inputs(h)), e.input) else Run(s, Inputs(h))
  {
    assert (h + [e])[..|h|] == h;
    if e.Did? {
      var ins := Inputs(h) + [e.input];
      assert ins[..|ins| - 1] == Inputs(h);
      assert Inputs(h + [e]) == ins;
    } else {
      assert Inputs(h) + [] == Inputs(h);
    }
  }

  lemma StreamGrows(trace: seq<Mark>, m: Mark)
    ensures EncodeAll(Log(trace + [m])) == EncodeAll(Log(trace)) + (if m.Stored? then Encode(m.p) else [])
  {
    hide Encode;
    OneMark(trace, m);
    if m.Stored? {
      var ps := Log(trace) + [m.p];
      assert ps[..|ps| - 1] == Log(trace);
    }
  }

  class Recorder {
    const up: RttBuffer
    const packet: array<byte>
    const cfg: Config
    var down: seq<byte>
    var enableState: nat
    var dropCount: u32
    var lastTxTimeStamp: u32
    var recursionCnt: nat
    var disabledEvents: set<u32>
    ghost const t0: u32
    ghost var history: seq<Entry>

    /** The fields are what the recording model says, and the up channel carries exactly its packets. */
    ghost predicate Coupled(m: State)
      reads this, up, up.buffer
    {
      && up.Valid() && up.buffer != packet && packet.Length == PACKET_SIZE
      && up.Stream() == EncodeAll(Log(m.trace))
      && enableState == m.enable && dropCount == m.drops && lastTxTimeStamp == m.last
      && disabledEvents == m.disabled
    }

    ghost function Model(): State
      reads this
    {
      Run(Initial(t0), Inputs(history))
    }

    ghost predicate Valid()
      reads this, up, up.buffer
    {
      && Coupled(Model()) && recursionCnt <= 1 && |cfg.modules| < 256
      && (recursionCnt == 0 ==> NestedReadable(history))
    }

    constructor (up: RttBuffer, packet: array<byte>, cfg: Config, now: u32)
      requires up.Valid() && up.Stream() == [] && up.buffer != packet && packet.Length == PACKET_SIZE
      requires |cfg.modules| < 256
      ensures Valid() && history == [] && recursionCnt == 0
      ensures this.up == up && this.packet == packet && this.cfg == cfg && t0 == now
    {
      this.up, this.packet, this.cfg, this.t0 := up, packet, cfg, now;
      down, history, recursionCnt := [], [], 0;
      enableState, dropCount, lastTxTimeStamp, disabledEvents := STATE_OFF, 0, now, {};
    }

    /** The clock is not part of the model: any value may come. */
    method GetTimestamp() returns (t: u32) {
      t :| 0 <= t < TWO_POW_32;
    }

    /** The host's turn: it may take bytes out of the up channel and put commands into the down channel. */
    method HostTurn()
      requires up.Valid()
      modifies this`down, up`rdOff, up`received
      ensures up.Valid() && up.Stream() == old(up.Stream()) && old(down) <= down && up.Free() >= old(up.Free())
    {
      hide Held;
      var n: u32 :| 0 <= n < TWO_POW_32;
      up.HostTakes(n);
      var commands: seq<byte> :| |commands| >= 0;
      down := down + commands;
    }

    method TrySendOverflowPacket(ghost m: State, ghost masked: bool) returns (ghost ts: u32, ghost free: nat)
      requires Coupled(m) && enableState == STATE_DROPPING
      modifies this`enableState, this`dropCount, this`lastTxTimeStamp, up`wrOff, up.buffer
      ensures Coupled(TryOverflow(m, ts, free, masked)) && free == old(up.Free())
    {
      hide Held, Ring.Stored, U32Bytes, Encode, EncodeAll, Log;
      var time := GetTimestamp();
      ts := time;
      free := up.Free();
      var bytes := OverflowBytes(time);
      assert bytes == Encode(OverflowPacket(m, ts));
      var status := up.WriteSkipNoLock(bytes);
      if status != 0 {
        lastTxTimeStamp := time;
        enableState := enableState - 1;
        StreamGrows(m.trace, Recording.Stored(Overflow, OverflowPacket(m, ts), ts));
      } else {
        dropCount := ToU32(dropCount + 1);
        StreamGrows(m.trace, Dropped(masked));
      }
    }

    method OverflowBytes(time: u32) returns (bytes: seq<byte>)
      ensures bytes == Encode(Packet(EVTID_OVERFLOW, U32Bytes(dropCount), ToU32(time - lastTxTimeStamp)))
    {
      hide U32Bytes, Encode;
      var p := new byte[11];
      p[0] := EVTID_OVERFLOW;
      var mid := PutU32(p, 1, dropCount);
      ghost var front := p[0..mid];
      Splits(p, 0, 1, mid);
      assert p[0..1] == [p[0]];
      var delta := ToU32(time - lastTxTimeStamp);
      var end := PutU32(p, mid, delta);
      bytes := p[..end];
      Splits(p, 0, mid, end);
      assert p[0..mid] == front && p[..end] == p[0..end];
      OverflowEncoding(dropCount, delta);
    }

    static lemma OverflowEncoding(drops: u32, delta: u32)
      ensures Encode(Packet(EVTID_OVERFLOW, U32Bytes(drops), delta)) ==
        [EVTID_OVERFLOW] + U32Bytes(drops) + U32Bytes(delta)
    {
      hide EncodeU32;
    }

    /** Puts the header in front of the payload and the time delta behind it. */
    method FrameEvent(start: nat, end: nat, id: u32, time: u32) returns (bytes: seq<byte>)
      requires packet.Length == PACKET_SIZE && PAYLOAD_START <= start <= end <= PAYLOAD_START + MAX_PAYLOAD
      modifies packet
      ensures bytes == Encode(Packet(id, old(packet[start..end]), ToU32(time - lastTxTimeStamp)))
    {
      hide EncodeU32, Header;
      var at := PutHeader(packet, start, end, id);
      ghost var head := packet[at..end];
      var last := PutU32(packet, end, ToU32(time - lastTxTimeStamp));
      bytes := packet[at..last];
      assert packet[at..end] == head;
      Splits(packet, at, end, last);
    }

    /** Tries to store one event while recording is on. */
    method PostEvent(ghost m: State, start: nat, end: nat, id: u32) returns (ghost ts: u32, ghost free: nat)
      requires Coupled(m) && enableState == STATE_ON
      requires PAYLOAD_START <= start <= end <= PAYLOAD_START + MAX_PAYLOAD
      modifies this`enableState, this`lastTxTimeStamp, up`wrOff, up.buffer, packet
      ensures Coupled(TryEvent(m, id, old(packet[start..end]), ts, free)) && free == old(up.Free())
    {
      hide Held, Ring.Stored, Encode, EncodeAll, Log;
      ghost var payload := packet[start..end];
      var time := GetTimestamp();
      ts := time;
      free := up.Free();
      var bytes := FrameEvent(start, end, id, time);
      assert Coupled(m);
      var status := up.WriteSkipNoLock(bytes);
      if status != 0 {
        lastTxTimeStamp := time;
        StreamGrows(m.trace, Recording.Stored(Event, EventPacket(m, id, payload, ts), ts));
      } else {
        enableState := enableState + 1;
        StreamGrows(m.trace, Full);
      }
    }

    /** The part of `_SendPacket` that needs no history. */
    method TryToStore(ghost m: State, start: nat, end: nat, id: u32) returns (ghost e: Input)
      requires Coupled(m)
      requires PAYLOAD_START <= start <= end <= PAYLOAD_START + MAX_PAYLOAD
      modifies this`down, this`enableState, this`dropCount, this`lastTxTimeStamp
      modifies up`wrOff, up`rdOff, up`received, up.buffer, packet
      ensures e.Post? && e.id == id && e.payload == old(packet[start..end])
      ensures Coupled(Step(m, e)) && old(down) <= down
      ensures old(enableState) == STATE_DROPPING ==> e.free1 >= old(up.Free())
      ensures old(enableState) == STATE_ON && !Masked(m, id) ==> e.free2 >= old(up.Free())
    {
      hide Held, Encode, EncodeAll, Log, TryOverflow, TryEvent;
      ghost var m1, payload := m, packet[start..end];
      ghost var ts1: u32, free1: nat, ts2: u32, free2: nat := 0, 0, 0, 0;
      if enableState != STATE_OFF {
        if enableState == STATE_DROPPING {
          HostTurn();
          ts1, free1 := TrySendOverflowPacket(m, Masked(m, id));
          m1 := TryOverflow(m, ts1, free1, Masked(m, id));
        }
        if enableState == STATE_ON && !(id < 32 && id in disabledEvents) {
          HostTurn();
          ts2, free2 := PostEvent(m1.(attempts := m.attempts + 1), start, end, id);
        }
      }
      e := Post(id, payload, ts1, free1, ts2, free2);
    }

    /** Everything `_SendPacket` does before it looks for commands. */
    method StoreEvent(start: nat, end: nat, id: u32) returns (ghost e: Input)
      requires Valid() && PAYLOAD_START <= start <= end <= PAYLOAD_START + MAX_PAYLOAD
      modifies this`down, this`enableState, this`dropCount, this`lastTxTimeStamp, this`history
      modifies up`wrOff, up`rdOff, up`received, up.buffer, packet
      ensures Valid() && old(down) <= down
      ensures e.Post? && e.id == id && e.payload == old(packet[start..end])
      ensures history == old(history) + [Did(recursionCnt, e)]
      ensures old(enableState) == STATE_DROPPING ==> e.free1 >= old(up.Free())
      ensures old(enableState) == STATE_ON && !Masked(old(Model()), id) ==> e.free2 >= old(up.Free())
    {
      hide Run, Inputs, Step, NestedReadable;
      e := TryToStore(Model(), start, end, id);
      OneInput(history, Did(recursionCnt, e), Initial(t0));
      OwnEventKeeps(history, Did(recursionCnt, e));
      history := history + [Did(recursionCnt, e)];
    }

    /** Records one event, then looks for a command from the host. */
    method SendPacket(start: nat, end: nat, id: u32)
      requires Valid() && PAYLOAD_START <= start <= end <= PAYLOAD_START + MAX_PAYLOAD
      modifies this, up`wrOff, up`rdOff, up`received, up.buffer, packet
      ensures Valid() && recursionCnt == old(recursionCnt)
      ensures old(history) <= history
      ensures Sent(cfg, old(Model()), history[|old(history)|..], recursionCnt, id, old(packet[start..end]))
      ensures recursionCnt == 0 && old(down) != [] ==> |history| > |old(history)| + 1
      decreases 1 - recursionCnt, 1
    {
      hide Held, EncodeAll, Log, Run, Inputs, Own, Response, Step;
      ghost var h0 := history;
      ghost var e := StoreEvent(start, end, id);
      OneInput(h0, Did(recursionCnt, e), Initial(t0));
      assert history[|h0|..] == [Did(recursionCnt, e)];
      ghost var h1 := history;
      HostTurn();
      PollCommands();
      GrownBy(h0, Did(recursionCnt, e), history);
    }

    /** Handles a command, if there is one and none is being handled. */
    method PollCommands()
      requires Valid()
      modifies this, up`wrOff, up`rdOff, up`received, up.buffer, packet
      ensures Valid() && recursionCnt == old(recursionCnt)
      ensures old(history) <= history
      ensures if recursionCnt == 0 && old(down) != []
        then Answered(cfg, history[|old(history)|..], old(enableState) != STATE_OFF)
          && Taken(history[|old(history)|].bytes, old(down))
        else history == old(history)
      decreases 1 - recursionCnt, 0
    {
      hide Held, EncodeAll, Log, Run, Inputs, Own, Response, Step;
      ghost var h := history;
      if down != [] {
        if recursionCnt == 0 {
          recursionCnt := 1;
          ghost var wasOn := enableState != STATE_OFF;
          HandleIncomingPacket();
          recursionCnt := 0;
          AnswerIsReadable(cfg, history[|h|..], wasOn);
          assert history == h + history[|h|..];
        }
      }
    }

    /** Handles a command as well, and tells whether recording is on. */
    method IsStarted() returns (state: nat)
      requires Valid()
      modifies this, up`wrOff, up`rdOff, up`received, up.buffer, packet
      ensures Valid() && recursionCnt == old(recursionCnt) && state == enableState
      ensures old(history) <= history
      ensures if recursionCnt == 0 && old(down) != []
        then Answered(cfg, history[|old(history)|..], old(enableState) != STATE_OFF)
          && Taken(history[|old(history)|].bytes, old(down))
        else history == old(history)
      ensures OwnReadable(old(history)) ==> OwnReadable(history)
    {
      hide Coupled, Run, Inputs, Answered, OwnReadable;
      ghost var h, on, asked := history, enableState != STATE_OFF, down != [];
      PollCommands();
      state := enableState;
      if OwnReadable(h) && recursionCnt == 0 && asked {
        AnswerKeepsReadable(cfg, h, history, on);
      }
    }

    /** Takes one byte out of the down channel. */
    method ReadCommandByte() returns (b: byte)
      requires down != []
      modifies this`down
      ensures b == old(down)[0] && down == old(down)[1..]
    {
      b := down[0];
      down := down[1..];
    }

    /** Takes one command out of the down channel and answers it. */
    method HandleIncomingPacket()
      requires Valid() && recursionCnt == 1 && down != []
      modifies this, up`wrOff, up`rdOff, up`received, up.buffer, packet
      ensures Valid() && recursionCnt == 1
      ensures old(history) < history
      ensures Answered(cfg, history[|old(history)|..], old(enableState) != STATE_OFF)
      ensures Taken(history[|old(history)|].bytes, old(down))
      decreases 1 - recursionCnt, 7
    {
      hide Held, EncodeAll, Log, Run, Inputs, Own, Response;
      ghost var h0 := history;
      var cmd := ReadCommandByte();
      var param: seq<byte> := [];
      if cmd >= 128 && down != [] {
        var p := ReadCommandByte();
        param := [p];
      }
      OneInput(history, Command([cmd] + param), Initial(t0));
      history := history + [Command([cmd] + param)];
      ghost var h1 := history;
      assert [cmd] + param <= old(down);
      ghost var time := Answer(cmd, param);
      GrownBy(h0, Command([cmd] + param), history);
      ghost var es, on := history[|h0|..], old(enableState) != STATE_OFF;
      assert es[0].bytes == [cmd] + param && Own(1, es[1..]) == Response(cfg, es[0].bytes, on, time);
    }

    method Answer(cmd: byte, param: seq<byte>) returns (ghost time: Time)
      requires Valid() && recursionCnt == 1
      modifies this, up`wrOff, up`rdOff, up`received, up.buffer, packet
      ensures Valid() && recursionCnt == 1
      ensures
        Added(old(history), history, 1, Response(cfg, [cmd] + param, old(enableState) != STATE_OFF, time))
      decreases 1 - recursionCnt, 6
    {
      hide Coupled, Run, Inputs, Added;
      time := Time(0, 0);
      AddedNothing(history, 1);
      if cmd == COMMAND_START {
        time := StartRecording();
      } else if cmd == COMMAND_STOP {
        StopRecording();
      } else if cmd == COMMAND_GET_SYSTIME {
        time := RecordSystime();
      } else if cmd == COMMAND_GET_TASKLIST {
        SendCalls(TaskListCalls(cfg, cfg.tasks));
      } else if cmd == COMMAND_GET_SYSDESC {
        SendCalls(SysDescCalls(cfg));
      } else if cmd == COMMAND_GET_NUMMODULES {
        SendCalls([NumModulesCall(cfg)]);
      } else if cmd == COMMAND_GET_MODULEDESC {
        SendCalls(AllDescriptionCalls(cfg.modules));
      } else if cmd == COMMAND_GET_MODULE && param != [] {
        SendCalls(SendModuleCalls(cfg, param[0]));
      }
    }

    /** A recording call: it encodes its parameters and sends the packet. */
    method RecordCall(c: Call)
      requires Valid()
      modifies this, up`wrOff, up`rdOff, up`received, up.buffer, packet
      ensures Valid() && recursionCnt == old(recursionCnt)
      ensures old(history) <= history
      ensures Sent(cfg, old(Model()), history[|old(history)|..], recursionCnt, c.id, PayloadOf(c.args))
      decreases 1 - recursionCnt, 2
    {
      hide Held, EncodeAll, Log, Run, Inputs, Own, Response, PayloadOf;
      var end := PutArgs(packet, PAYLOAD_START, c.args);
      SendPacket(PAYLOAD_START, end, c.id);
    }

    /** A report of the application; the host can read it. */
    method RecordEvent(e: AppEvent)
      requires Valid()
      modifies this, up`wrOff, up`rdOff, up`received, up.buffer, packet
      ensures Valid() && recursionCnt == old(recursionCnt)
      ensures old(history) <= history
      ensures var c := EventCall(cfg, e);
        Sent(cfg, old(Model()), history[|old(history)|..], recursionCnt, c.id, PayloadOf(c.args))
      ensures OwnReadable(old(history)) ==> OwnReadable(history)
    {
      hide Coupled, Run, Inputs, Sent, PayloadOf, EventCall, OwnReadable, Matches;
      ghost var h, m := history, Model();
      EventMatches(cfg, e);
      RecordCall(EventCall(cfg, e));
      if OwnReadable(h) {
        SentKeepsReadable(cfg, m, h, history, recursionCnt, EventCall(cfg, e));
      }
    }

    /** Up to ten numbers: the calls that `SEGGER_SYSVIEW_RecordVoid` to `RecordU32x10` stand for. */
    method RecordNumbers(id: u32, params: seq<u32>)
      requires Valid() && |params| <= 10
      modifies this, up`wrOff, up`rdOff, up`received, up.buffer, packet
      ensures Valid() && recursionCnt == old(recursionCnt)
      ensures old(history) <= history
      ensures |PayloadOf(Numbers(params))| <= 50
      ensures Sent(cfg, old(Model()), history[|old(history)|..], recursionCnt, id, PayloadOf(Numbers(params)))
      ensures Matches(Call(id, Numbers(params))) && OwnReadable(old(history)) ==> OwnReadable(history)
    {
      hide Coupled, Run, Inputs, Sent, PayloadOf, Numbers, OwnReadable, Matches;
      ghost var h, m, c := history, Model(), NumbersCall(id, params);
      RecordCallsFit(params, [], 0);
      RecordCall(Call(id, Numbers(params)));
      if Matches(c) && OwnReadable(h) {
        SentKeepsReadable(cfg, m, h, history, recursionCnt, c);
      }
    }

    /** A text, with up to two numbers before it. */
    method RecordText(id: u32, params: seq<u32>, text: seq<byte>)
      requires Valid() && |params| <= 2
      modifies this, up`wrOff, up`rdOff, up`received, up.buffer, packet
      ensures Valid() && recursionCnt == old(recursionCnt)
      ensures old(history) <= history
      ensures |PayloadOf(Numbers(params) + [Str(text, MAX_STRING_LEN)])| <= 139
      ensures Sent(cfg, old(Model()), history[|old(history)|..], recursionCnt, id,
                PayloadOf(Numbers(params) + [Str(text, MAX_STRING_LEN)]))
      ensures Matches(Call(id, Numbers(params) + [Str(text, MAX_STRING_LEN)])) && OwnReadable(old(history)) ==>
        OwnReadable(history)
    {
      hide Coupled, Run, Inputs, Sent, PayloadOf, Numbers, OwnReadable, Matches;
      ghost var h, m := history, Model();
      RecordCallsFit(params, text, MAX_STRING_LEN);
      var c: Call := Call(id, Numbers(params) + [Str(text, MAX_STRING_LEN)]);
      RecordCall(c);
      if Matches(c) && OwnReadable(h) {
        SentKeepsReadable(cfg, m, h, history, recursionCnt, c);
      }
    }

    /** Registers a data source whose texts are short enough for the static buffer. */
    method RegisterData(d: DataInfo)
      requires Valid()
      requires d.unit.Some? ==> Min(|d.name|, MAX_STRING_LEN) + Min(|d.unit.value|, MAX_STRING_LEN) <= 182
      modifies this, up`wrOff, up`rdOff, up`received, up.buffer, packet
      ensures Valid() && recursionCnt == old(recursionCnt)
      ensures old(history) <= history
      ensures |PayloadOf(RegisterArgs(d))| <= MAX_PAYLOAD
      ensures Sent(cfg, old(Model()), history[|old(history)|..], recursionCnt, EVTID_EX, PayloadOf(RegisterArgs(d)))
      ensures OwnReadable(old(history)) ==> OwnReadable(history)
    {
      hide Coupled, Run, Inputs, Sent, PayloadOf, RegisterArgs, OwnReadable;
      ghost var h, m := history, Model();
      if d.unit.Some? {
        RegistrationFits(d);
      } else {
        PlainRegistrationFits(d);
      }
      RecordCall(Call(EVTID_EX, RegisterArgs(d)));
      if OwnReadable(h) {
        SentKeepsReadable(cfg, m, h, history, recursionCnt, Call(EVTID_EX, RegisterArgs(d)));
      }
    }

    /** The calls that a callback makes, one after the other. */
    method SendCalls(calls: seq<Call>)
      requires Valid()
      modifies this, up`wrOff, up`rdOff, up`received, up.buffer, packet
      ensures Valid() && recursionCnt == old(recursionCnt)
      ensures Added(old(history), history, recursionCnt, Requests(calls))
      ensures AllMatch(calls) && OwnReadable(old(history)) ==> OwnReadable(history)
      decreases 1 - recursionCnt, 3
    {
      hide Held, EncodeAll, Log, Run, Inputs, Own, Response, Sent, Added, PayloadOf, OwnReadable, CanBeRead, AllMatch;
      AddedNothing(history, recursionCnt);
      for i := 0 to |calls|
        invariant Valid() && recursionCnt == old(recursionCnt)
        invariant Added(old(history), history, recursionCnt, Requests(calls[..i]))
      {
        ghost var h, m := history, Model();
        RecordCall(calls[i]);
        SentIsAdded(cfg, m, h, history[|h|..], recursionCnt, calls[i].id, PayloadOf(calls[i].args));
        assert h + history[|h|..] == history;
        AddedTwice(old(history), h, history, recursionCnt, Requests(calls[..i]),
          [Record(calls[i].id, PayloadOf(calls[i].args))]);
        assert Requests(calls[..i + 1]) == Requests(calls[..i]) + [Record(calls[i].id, PayloadOf(calls[i].args))];
      }
      assert calls[..|calls|] == calls;
      if AllMatch(calls) && OwnReadable(old(history)) {
        MatchingCanBeRead(calls);
        AddedKeepsReadable(old(history), history, recursionCnt, Requests(calls));
      }
    }

    /** The system time comes from the application when it has a clock of its own, else from the time stamp. */
    method RecordSystime() returns (ghost time: Time)
      requires Valid()
      modifies this, up`wrOff, up`rdOff, up`received, up.buffer, packet
      ensures Valid() && recursionCnt == old(recursionCnt)
      ensures Added(old(history), history, recursionCnt, Requests([SystimeCall(cfg, time)]))
      ensures OwnReadable(old(history)) ==> OwnReadable(history)
      decreases 1 - recursionCnt, 4
    {
      hide Coupled, Run, Inputs, Added, OwnReadable, CanBeRead, Requests, SystimeCall;
      ghost var h := history;
      var low := GetTimestamp();
      var high: u32 := 0;
      if cfg.hasTime {
        high := GetTimestamp();
      }
      time := Time(low, high);
      SendCalls([SystimeCall(cfg, Time(low, high))]);
      SystimeMatches(cfg, time);
      MatchingCanBeRead([SystimeCall(cfg, time)]);
      if OwnReadable(h) {
        AddedKeepsReadable(h, history, recursionCnt, Requests([SystimeCall(cfg, time)]));
      }
    }

    /** Notes a step of the model that is no event. */
    ghost method Note(i: Input)
      requires Coupled(Step(Model(), i)) && !i.Post? && recursionCnt <= 1 && |cfg.modules| < 256
      requires recursionCnt == 0 ==> NestedReadable(history)
      modifies this`history
      ensures Valid() && history == old(history) + [Did(recursionCnt, i)]
      ensures Added(old(history), history, recursionCnt, [RequestOf(i)])
    {
      hide Held, EncodeAll, Log, Run, Inputs, Own, Response, Step;
      OneInput(history, Did(recursionCnt, i), Initial(t0));
      AddedOne(history, recursionCnt, i);
      history := history + [Did(recursionCnt, i)];
    }

    /** Switches recording on and posts the synchronisation. */
    method SwitchOn()
      requires Valid()
      modifies this`enableState, this`history, up`wrOff, up.buffer
      ensures Valid() && history == old(history) + [Did(recursionCnt, Start(old(up.Free())))]
      ensures Added(old(history), history, recursionCnt, [DoStart])
    {
      hide Held, Ring.Stored, Encode, EncodeAll, Log, Run, Inputs, Own, Response, Added;
      ghost var m, free := Model(), up.Free();
      enableState := STATE_ON;
      var status := up.WriteSkipNoLock(seq(10, _ => 0));
      StreamAfterSync(m.(enable := STATE_ON, trace := m.trace + [Restarted]));
      StreamGrows(m.trace, Restarted);
      Note(Start(free));
    }

    static lemma StreamAfterSync(m: State)
      ensures EncodeAll(Log(OneNop(OneNop(OneNop(OneNop(OneNop(m))))).trace)) ==
        EncodeAll(Log(m.trace)) + seq(10, _ => 0)
    {
      hide EncodeAll, Log;
      var k := Recording.Stored(Recording.Sync, NOP, m.last);
      assert Encode(NOP) == [0, 0];
      hide Encode;
      StreamGrows(m.trace, k);
      StreamGrows(m.trace + [k], k);
      StreamGrows(m.trace + [k] + [k], k);
      StreamGrows(m.trace + [k] + [k] + [k], k);
      StreamGrows(m.trace + [k] + [k] + [k] + [k], k);
      var z: seq<byte> := [0, 0];
      assert z + z + z + z + z == seq(10, _ => 0);
    }

    /** Starts recording: synchronisation, start event, and a description of the system. */
    method StartRecording() returns (ghost time: Time)
      requires Valid()
      modifies this, up`wrOff, up`rdOff, up`received, up.buffer, packet
      ensures Valid() && recursionCnt == old(recursionCnt)
      ensures Added(old(history), history, recursionCnt, StartRequests(cfg, time))
      ensures OwnReadable(old(history)) ==> OwnReadable(history)
      decreases 1 - recursionCnt, 5
    {
      hide Held, EncodeAll, Log, Run, Inputs, Own, Response, Added, OwnReadable, CanBeRead;
      ghost var h0 := history;
      SwitchOn();
      ghost var h1 := history;
      EmptyCall();
      SendCalls([Call(EVTID_TRACE_START, [])] + SysDescCalls(cfg));
      ghost var h2 := history;
      time := RecordSystime();
      ghost var h3 := history;
      SendCalls(TaskListCalls(cfg, cfg.tasks) + [NumModulesCall(cfg)]);
      ghost var r1, r2 := [DoStart], Requests([Call(EVTID_TRACE_START, [])] + SysDescCalls(cfg));
      ghost var r3 := Requests([SystimeCall(cfg, time)]);
      ghost var r4 := Requests(TaskListCalls(cfg, cfg.tasks) + [NumModulesCall(cfg)]);
      AddedTwice(h0, h1, h2, recursionCnt, r1, r2);
      AddedTwice(h0, h2, h3, recursionCnt, r1 + r2, r3);
      AddedTwice(h0, h3, history, recursionCnt, r1 + r2 + r3, r4);
      StartCanBeRead(cfg, time);
      if OwnReadable(h0) {
        AddedKeepsReadable(h0, history, recursionCnt, StartRequests(cfg, time));
      }
    }

    static lemma EmptyCall()
      ensures PayloadOf([]) == []
    {
    }

    /** Records a last event and switches recording off. */
    method StopRecording()
      requires Valid()
      modifies this, up`wrOff, up`rdOff, up`received, up.buffer, packet
      ensures Valid() && recursionCnt == old(recursionCnt)
      ensures Added(old(history), history, recursionCnt, StopRequests(old(enableState) != STATE_OFF))
      ensures OwnReadable(old(history)) ==> OwnReadable(history)
      decreases 1 - recursionCnt, 4
    {
      hide Held, EncodeAll, Log, Run, Inputs, Own, Response, Sent, Added, OwnReadable, CanBeRead;
      ghost var h0, m, on := history, Model(), enableState != STATE_OFF;
      if enableState != STATE_OFF {
        assert packet[PAYLOAD_START..PAYLOAD_START] == [];
        SendPacket(PAYLOAD_START, PAYLOAD_START, EVTID_TRACE_STOP);
        ghost var h1 := history;
        SentIsAdded(cfg, m, h0, h1[|h0|..], recursionCnt, EVTID_TRACE_STOP, []);
        assert h0 + h1[|h0|..] == h1;
        enableState := STATE_OFF;
        StreamGrows(Model().trace, Stopped);
        Note(Stop);
        AddedTwice(h0, h1, history, recursionCnt, [Record(EVTID_TRACE_STOP, [])], [DoStop]);
        assert [Record(EVTID_TRACE_STOP, [])] + [DoStop] == StopRequests(true);
      } else {
        AddedNothing(h0, recursionCnt);
      }
      StopCanBeRead(on);
      if OwnReadable(h0) {
        AddedKeepsReadable(h0, history, recursionCnt, StopRequests(on));
      }
    }

    /** Records a formatted print: the text, the options, and as many of the parameters as the text has '%' signs. */
    method PrintHost(text: seq<byte>, options: u32, params: seq<u32>)
      requires Valid() && CountArgs(text) <= |params|
      modifies this, up`wrOff, up`rdOff, up`received, up.buffer, packet
      ensures Valid() && recursionCnt == old(recursionCnt)
      ensures old(history) <= history
      ensures |PayloadOf(PrintArgs(text, options, params))| <= MAX_PAYLOAD
      ensures Sent(cfg, old(Model()), history[|old(history)|..], recursionCnt, EVTID_PRINT_FORMATTED,
                PayloadOf(PrintArgs(text, options, params)))
      ensures OwnReadable(old(history)) ==> OwnReadable(history)
      decreases 1 - recursionCnt, 3
    {
      hide Held, EncodeAll, Log, Run, Inputs, Own, Response, Sent, PayloadOf, OwnReadable;
      ghost var h, m := history, Model();
      var n := 0;
      var i := 0;
      while i < |text| && n < 16
        invariant i <= |text| && n == CountArgs(text[..i])
      {
        assert text[..i + 1][..i] == text[..i];
        if text[i] == 0x25 {
          n := n + 1;
        }
        i := i + 1;
      }
      CountStops(text, i);
      PrintFits(text, options, params);
      RecordCall(Call(EVTID_PRINT_FORMATTED, [Str(text, MAX_STRING_LEN), U32(options), U32(n)] + Numbers(params[..n])));
      if OwnReadable(h) {
        SentKeepsReadable(cfg, m, h, history, recursionCnt,
          Call(EVTID_PRINT_FORMATTED, PrintArgs(text, options, params)));
      }
    }

    static lemma {:induction false} CountStops(text: seq<byte>, i: nat)
      requires i <= |text| && (i == |text| || CountArgs(text[..i]) == 16)
      ensures CountArgs(text) == CountArgs(text[..i])
    {
      if i == |text| {
        assert text[..i] == text;
      } else {
        assert text[..|text| - 1][..i] == text[..i];
        if i == |text| - 1 {
        } else {
          CountStops(text[..|text| - 1], i);
        }
      }
    }

    method EnableEvents(mask: set<u32>)
      requires Valid()
      modifies this`disabledEvents, this`history
      ensures Valid() && disabledEvents == old(disabledEvents) - mask
      ensures Added(old(history), history, recursionCnt, [DoMask])
      ensures OwnReadable(old(history)) ==> OwnReadable(history)
    {
      hide Held, EncodeAll, Log, Run, Inputs, Added, OwnReadable;
      ghost var h := history;
      disabledEvents := disabledEvents - mask;
      Note(SetMask(disabledEvents));
      if OwnReadable(h) {
        AddedKeepsReadable(h, history, recursionCnt, [DoMask]);
      }
    }

    method DisableEvents(mask: set<u32>)
      requires Valid()
      modifies this`disabledEvents, this`history
      ensures Valid() && disabledEvents == old(disabledEvents) + mask
      ensures Added(old(history), history, recursionCnt, [DoMask])
      ensures OwnReadable(old(history)) ==> OwnReadable(history)
    {
      hide Held, EncodeAll, Log, Run, Inputs, Added, OwnReadable;
      ghost var h := history;
      disabledEvents := disabledEvents + mask;
      Note(SetMask(disabledEvents));
      if OwnReadable(h) {
        AddedKeepsReadable(h, history, recursionCnt, [DoMask]);
      }
    }

    /** What the host has received at any time, provided that the application's events have the structure of their ids:
        it decodes to stored packets in order, with exact times; those that are neither synchronisation nor overflow
        are, in order, events that were recorded; the state is off, on or dropping; and losses add up. */
    lemma HostStory()
      requires Valid() && recursionCnt == 0 && OwnReadable(history)
      ensures
        var m := Model();
        var got := DecodeAll(up.received);
        && |got| <= |Log(m.trace)| && got == Log(m.trace)[..|got|]
        && (forall n :: 0 <= n < |got| ==> Clock(t0, got[..n + 1]) == Times(m.trace)[n])
        && AmongPosts(Reports(got), Inputs(history))
        && (up.Contents() == [] ==> got == Log(m.trace))
        && enableState in {STATE_OFF, STATE_ON, STATE_DROPPING}
        && dropCount == ToU32(Count(m.trace, Drops))
        && Attempts(t0, Inputs(history)) - Count(m.trace, Events) ==
          Count(m.trace, Drops) - Count(m.trace, MaskedDrops) + Count(m.trace, Fulls)
    {
      hide Held, EncodeAll, Log, Run, Inputs, WellFormed, Clock, Times, Count, MarkOk, Readable, AmongPosts, Reports,
        Attempts;
      AllReadableInputs(history);
      var m := Model();
      var k := |up.received|;
      assert up.received == EncodeAll(Log(m.trace))[..k];
      HostReadsTrueStory(t0, Inputs(history), k);
      DecodedReportsArePosted(t0, Inputs(history), |DecodeAll(up.received)|);
      RunKeepsInv(t0, Inputs(history));
      AttemptsAreCounted(t0, Inputs(history));
      LogIsWellFormed(t0, Inputs(history));
      if up.Contents() == [] {
        assert up.received == EncodeAll(Log(m.trace));
        DecodesWholeStream(Log(m.trace));
      }
    }
  }
}
