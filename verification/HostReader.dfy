/** A host that takes apart what the recorder sends: it knows the numbers of the events and the order of their
    parameters, and nothing of the recorder. The source has no such reader. */
module HostReader {
  import opened Bytes
  import opened VarInt
  import opened Wrappers
  import opened Packet
  import opened PacketBuffer
  import opened SysView

  datatype Value = Number(v: nat) | Characters(s: seq<byte>)

  /** One value from the front, and the bytes behind it. */
  function ReadValue(f: Field, s: seq<byte>): Option<(Value, seq<byte>)> {
    match f
    case Num => (match DecodeU32(s) case None => None case Some((v, n)) => Some((Number(v), s[n..])))
    case Text =>
      if s == [] then None
      else
        var count: nat := s[0];
        if |s| < 1 + count then None else Some((Characters(s[1..1 + count]), s[1 + count..]))
  }

  /** Values for all fields, and the bytes behind them. */
  function ReadValues(fields: seq<Field>, s: seq<byte>): Option<(seq<Value>, seq<byte>)> {
    if fields == [] then Some(([], s))
    else
      match ReadValue(fields[0], s)
      case None => None
      case Some((v, rest)) =>
        match ReadValues(fields[1..], rest)
        case None => None
        case Some((vs, end)) => Some(([v] + vs, end))
  }

  /** A text arrives up to its limit, and up to 128 bytes. */
  function Cut(text: seq<byte>, limit: nat): seq<byte> {
    text[..Min(|text|, Min(limit, 128))]
  }

  function ValueOf(a: Arg): Value {
    match a
    case U32(v) => Number(v)
    case Str(text, limit) => Characters(Cut(text, limit))
  }

  function ValuesOf(args: seq<Arg>): (vs: seq<Value>)
    ensures |vs| == |args|
  {
    seq(|args|, k requires 0 <= k < |args| => ValueOf(args[k]))
  }

  lemma ArgReadsBack(a: Arg, rest: seq<byte>)
    ensures ReadValue(if a.U32? then Num else Text, ArgBytes(a) + rest) == Some((ValueOf(a), rest))
  {
    match a
    case U32(v) =>
      DecodesEncoded(v, rest);
      assert (U32Bytes(v) + rest)[|U32Bytes(v)|..] == rest;
    case Str(text, limit) =>
      var s := StrBytes(text, limit) + rest;
      assert s[1..1 + s[0]] == Cut(text, limit) && s[1 + s[0]..] == rest;
  }

  lemma ReadsFirst(f: Field, fields: seq<Field>, head: seq<byte>, more: seq<byte>, v: Value)
    requires ReadValue(f, head + more) == Some((v, more)) && ReadValues(fields, more).Some?
    ensures ReadValues([f] + fields, head + more) ==
      Some(([v] + ReadValues(fields, more).value.0, ReadValues(fields, more).value.1))
  {
    hide ReadValue;
    assert ([f] + fields)[1..] == fields;
  }

  lemma NoArgsReadBack(rest: seq<byte>)
    ensures ReadValues(Kinds([]), PayloadOf([]) + rest) == Some((ValuesOf([]), rest))
  {
    assert PayloadOf([]) + rest == rest;
  }

  /** Every list of parameters is read back, texts up to their limits, whatever follows. */
  lemma {:induction false} ArgsReadBack(args: seq<Arg>, rest: seq<byte>)
    ensures ReadValues(Kinds(args), PayloadOf(args) + rest) == Some((ValuesOf(args), rest))
  {
    hide ArgBytes, ReadValue, PayloadOf, ReadValues, Kinds;
    if args == [] {
      NoArgsReadBack(rest);
    } else {
      var head, tail := ArgBytes(args[0]), args[1..];
      var more := PayloadOf(tail) + rest;
      PayloadFromFront(args);
      KindsFromFront(args);
      ArgReadBackAndMore(args, rest);
      ArgsReadBack(tail, rest);
      ReadsFirst(if args[0].U32? then Num else Text, Kinds(tail), head, more, ValueOf(args[0]));
      Regrouped(head, PayloadOf(tail), rest);
      assert ValuesOf(args) == [ValueOf(args[0])] + ValuesOf(tail);
    }
  }

  lemma ArgReadBackAndMore(args: seq<Arg>, rest: seq<byte>)
    requires args != []
    ensures ReadValue(if args[0].U32? then Num else Text, ArgBytes(args[0]) + (PayloadOf(args[1..]) + rest))
      == Some((ValueOf(args[0]), PayloadOf(args[1..]) + rest))
  {
    hide ReadValue, ArgBytes, PayloadOf;
    ArgReadsBack(args[0], PayloadOf(args[1..]) + rest);
  }

  /** Numbers up to the end of the bytes, or up to `most` of them. */
  function ReadNumbers(most: nat, s: seq<byte>): Option<(seq<u32>, seq<byte>)> {
    if most == 0 || s == [] then Some(([], s))
    else
      match DecodeU32(s)
      case None => None
      case Some((v, n)) =>
        if v >= TWO_POW_32 then None
        else
          match ReadNumbers(most - 1, s[n..])
          case None => None
          case Some((vs, end)) => Some(([v] + vs, end))
  }

  lemma FirstNumber(most: nat, v: u32, more: seq<byte>)
    requires most > 0 && ReadNumbers(most - 1, more).Some?
    ensures ReadNumbers(most, U32Bytes(v) + more) ==
      Some(([v] + ReadNumbers(most - 1, more).value.0, ReadNumbers(most - 1, more).value.1))
  {
    DecodesEncoded(v, more);
    hide DecodeU32;
    assert (U32Bytes(v) + more)[|U32Bytes(v)|..] == more;
  }

  lemma NumbersFromFront(params: seq<u32>)
    requires params != []
    ensures PayloadOf(Numbers(params)) == U32Bytes(params[0]) + PayloadOf(Numbers(params[1..]))
  {
    hide PayloadOf;
    PayloadFromFront(Numbers(params));
    assert Numbers(params)[1..] == Numbers(params[1..]);
  }

  lemma NoNumbers(most: nat, rest: seq<byte>)
    ensures PayloadOf(Numbers([])) + rest == rest
    ensures most == 0 || rest == [] ==> ReadNumbers(most, rest) == Some(([], rest))
  {
    assert Numbers([]) == [] && PayloadOf([]) == [];
  }

  /** Numbers that fill the payload, or as many as are wanted, are read back. */
  lemma {:induction false} NumbersReadBack(most: nat, params: seq<u32>, rest: seq<byte>)
    requires |params| <= most && (|params| == most || rest == [])
    ensures ReadNumbers(most, PayloadOf(Numbers(params)) + rest) == Some((params, rest))
    decreases |params|
  {
    hide PayloadOf, Numbers, U32Bytes, ReadNumbers;
    if params == [] {
      NoNumbers(most, rest);
    } else {
      var more := PayloadOf(Numbers(params[1..])) + rest;
      NumbersFromFront(params);
      NumbersReadBack(most - 1, params[1..], rest);
      FirstNumber(most, params[0], more);
      Regrouped(U32Bytes(params[0]), PayloadOf(Numbers(params[1..])), rest);
      assert params == [params[0]] + params[1..];
    }
  }

  /** A task or timer, from the offset that was sent. */
  function Address(ramBase: u32, offset: u32): u32 {
    (offset + ramBase) % 0x1_0000_0000
  }

  /** What the application reported, from the number of the event and its payload. */
  function ReadEvent(ramBase: u32, id: u32, payload: seq<byte>): Option<AppEvent> {
    match ReadNumbers(3, payload)
    case None => None
    case Some((v, rest)) =>
      match (id, |v|)
      case (2, 1) => Some(EnterIsr(v[0]))
      case (3, 0) => Some(ExitIsr)
      case (4, 1) => Some(StartTask(Address(ramBase, v[0])))
      case (5, 0) => Some(StopTask)
      case (6, 1) => Some(ReadyTask(Address(ramBase, v[0])))
      case (7, 2) => Some(BlockTask(Address(ramBase, v[0]), v[1]))
      case (8, 1) => Some(CreateTask(Address(ramBase, v[0])))
      case (15, 1) => Some(StartMark(v[0]))
      case (16, 1) => Some(StopMark(v[0]))
      case (17, 0) => Some(Idle)
      case (18, 0) => Some(ExitIsrToScheduler)
      case (19, 1) => Some(EnterTimer(Address(ramBase, v[0])))
      case (20, 0) => Some(ExitTimer)
      case (23, 2) => Some(SampleData(v[0], v[1]))
      case (28, 1) => Some(EndCall(v[0]))
      case (28, 2) => Some(EndCallWith(v[0], v[1]))
      case (29, 1) => Some(TerminateTask(Address(ramBase, v[0])))
      case (31, 2) => if v[0] == 0 then Some(SetMark(v[1])) else None
      case _ => None
  }

  lemma AddressOfOffset(ramBase: u32, id: u32)
    ensures Address(ramBase, ToU32(id - ramBase)) == id
  {
  }

  /** Every report of the application is read back. */
  lemma EventReadsBack(cfg: Config, e: AppEvent)
    ensures var c := EventCall(cfg, e);
      ReadEvent(cfg.ramBase, c.id, PayloadOf(c.args)) == Some(e)
  {
    hide PayloadOf, Numbers, Address, ReadNumbers;
    var (id, params) := EventOf(cfg, e);
    NumbersReadBack(3, params, []);
    assert PayloadOf(Numbers(params)) + [] == PayloadOf(Numbers(params));
    if e.EnterTimer? {
      AddressOfOffset(cfg.ramBase, e.timerId);
    } else if e.CreateTask? || e.TerminateTask? || e.StartTask? || e.ReadyTask? || e.BlockTask? {
      AddressOfOffset(cfg.ramBase, e.taskId);
    }
  }

  /** A formatted print: its text, its options and its parameters. */
  function ReadPrint(id: u32, payload: seq<byte>): Option<(seq<byte>, u32, seq<u32>)> {
    match ReadValue(Text, payload)
    case None => None
    case Some((text, rest)) =>
      match ReadNumbers(2, rest)
      case None => None
      case Some((v, rest)) =>
        if |v| != 2 || id != 26 then None
        else
          match ReadNumbers(v[1], rest)
          case None => None
          case Some((params, rest)) =>
            if text.Characters? && |params| == v[1] && rest == [] then Some((text.s, v[0], params)) else None
  }

  lemma {:induction false} CountsPercentSigns(text: seq<byte>)
    ensures CountArgs(text) == Min(16, multiset(text)[0x25])
  {
    if text != [] {
      var front, last := text[..|text| - 1], text[|text| - 1];
      CountsPercentSigns(front);
      assert text == front + [last];
      assert multiset(text) == multiset(front) + multiset{last};
    }
  }

  /** A formatted print is read back: its text up to 128 bytes, its options, and one parameter for each percent sign, up
      to sixteen. */
  lemma PrintReadsBack(text: seq<byte>, options: u32, params: seq<u32>)
    requires Min(16, multiset(text)[0x25]) <= |params|
    ensures CountArgs(text) <= |params|
    ensures ReadPrint(EVTID_PRINT_FORMATTED, PayloadOf(PrintArgs(text, options, params))) ==
      Some((text[..Min(|text|, 128)], options, params[..Min(16, multiset(text)[0x25])]))
  {
    CountsPercentSigns(text);
    hide PayloadOf, ReadPrint, CountArgs;
    CountedPrintReadsBack(text, options, params, CountArgs(text));
  }

  lemma CountedPrintReadsBack(text: seq<byte>, options: u32, params: seq<u32>, n: u32)
    requires n == CountArgs(text) <= |params|
    ensures ReadPrint(EVTID_PRINT_FORMATTED, PayloadOf(PrintArgs(text, options, params))) ==
      Some((text[..Min(|text|, 128)], options, params[..n]))
  {
    hide PayloadOf, Numbers, U32Bytes, ReadNumbers, ReadValue, ArgBytes, CountArgs, PrintArgs;
    var rest := PayloadOf(Numbers(params[..n]));
    PrintInParts(text, options, params, n);
    ArgReadsBack(Str(text, MAX_STRING_LEN), PayloadOf(Numbers([options, n])) + rest);
    NumbersReadBack(2, [options, n], rest);
    NumbersReadBack(n, params[..n], []);
    NothingBehind(rest);
  }

  lemma NothingBehind(s: seq<byte>)
    ensures s + [] == s
  {
  }

  lemma PrintInParts(text: seq<byte>, options: u32, params: seq<u32>, n: u32)
    requires n == CountArgs(text) <= |params|
    ensures PayloadOf(PrintArgs(text, options, params)) ==
      ArgBytes(Str(text, MAX_STRING_LEN)) + (PayloadOf(Numbers([options, n])) + PayloadOf(Numbers(params[..n])))
  {
    hide PayloadOf, ArgBytes, CountArgs;
    var str := Str(text, MAX_STRING_LEN);
    var a, b := Numbers([options, n]), Numbers(params[..n]);
    assert PrintArgs(text, options, params) == [str] + (a + b);
    PayloadConcat([str], a + b);
    PayloadConcat(a, b);
    PayloadOfOne(str);
  }

  /** A data source; what is not sent is zero. */
  function ReadRegistration(id: u32, payload: seq<byte>): Option<DataInfo> {
    match ReadNumbers(2, payload)
    case None => None
    case Some((head, rest)) =>
      match ReadValue(Text, rest)
      case None => None
      case Some((name, rest)) =>
        match ReadNumbers(5, rest)
        case None => None
        case Some((v, rest)) =>
          if id != 31 || |head| != 2 || head[0] != 6 || !name.Characters? then None
          else
            var at := (k: nat) => if k < |v| then v[k] else 0;
            var d := DataInfo(head[1], name.s, at(0), at(1), at(2), at(3), at(4), None);
            if rest == [] then Some(d)
            else
              match ReadValue(Text, rest)
              case None => None
              case Some((unit, rest)) =>
                if unit.Characters? && rest == [] then Some(d.(unit := Some(unit.s))) else None
  }

  /** What of a data source arrives: its texts up to 128 bytes, and one zero for both floating-point zeros when there is
      no unit. */
  function Arriving(d: DataInfo): DataInfo {
    match d.unit
    case None => d.(name := Cut(d.name, 128), scaling := if d.scaling == 0x8000_0000 then 0 else d.scaling)
    case Some(unit) => d.(name := Cut(d.name, 128), unit := Some(Cut(unit, 128)))
  }

  lemma RegistrationInParts(d: DataInfo)
    ensures PayloadOf(RegisterArgs(d)) == PayloadOf(Numbers([EX_REGISTER_DATA, d.id]))
      + (ArgBytes(Str(d.name, MAX_STRING_LEN)) + (PayloadOf(Numbers(RegisteredNumbers(d)))
      + (match d.unit case None => [] case Some(unit) => ArgBytes(Str(unit, MAX_STRING_LEN)))))
  {
    NothingIsEmpty();
    hide PayloadOf, ArgBytes, RegisteredNumbers;
    var head, name := Numbers([EX_REGISTER_DATA, d.id]), [Str(d.name, MAX_STRING_LEN)];
    var numbers := Numbers(RegisteredNumbers(d));
    var unit := match d.unit case None => [] case Some(unit) => [Str(unit, MAX_STRING_LEN)];
    assert RegisterArgs(d) == head + (name + (numbers + unit));
    PayloadConcat(head, name + (numbers + unit));
    PayloadConcat(name, numbers + unit);
    PayloadConcat(numbers, unit);
    PayloadOfOne(name[0]);
    if d.unit.Some? {
      PayloadOfOne(unit[0]);
    }
  }

  /** A registration is read back, whichever trailing numbers were left out. */
  lemma RegistrationReadsBack(d: DataInfo)
    ensures ReadRegistration(EVTID_EX, PayloadOf(RegisterArgs(d))) == Some(Arriving(d))
  {
    hide PayloadOf, Numbers, U32Bytes, ReadNumbers, ReadValue, ArgBytes, RegisteredNumbers, RegisterArgs;
    var head, v := [EX_REGISTER_DATA, d.id], RegisteredNumbers(d);
    var unit := match d.unit case None => [] case Some(unit) => ArgBytes(Str(unit, MAX_STRING_LEN));
    var numbers := PayloadOf(Numbers(v));
    RegistrationInParts(d);
    NumbersReadBack(2, head, ArgBytes(Str(d.name, MAX_STRING_LEN)) + (numbers + unit));
    ArgReadsBack(Str(d.name, MAX_STRING_LEN), numbers + unit);
    LeftOutAreZeros(d);
    NumbersReadBack(5, v, unit);
    if d.unit.Some? {
      ArgReadsBack(Str(d.unit.value, MAX_STRING_LEN), []);
      assert unit + [] == unit;
    }
  }

  lemma LeftOutAreZeros(d: DataInfo)
    ensures var v := RegisteredNumbers(d);
      var at := (k: nat) => if k < |v| then v[k] else 0;
      && (d.unit.Some? ==> |v| == 5)
      && at(0) == d.dataType && at(1) == d.offset && at(2) == d.rangeMin && at(3) == d.rangeMax
      && at(4) == Arriving(d).scaling
  {
  }

  /** What a host hears when a command is answered. */
  datatype Message = Msg(id: nat, values: seq<Value>) | Began | Ended

  /** The parameters that an answer has under its number. */
  function AnswerFields(id: u32): Option<seq<Field>> {
    if id < 24 then Some(Layout(id))
    else if id == 24 then Some([Num, Num, Num, Num])
    else if id == 27 then Some([Num])
    else None
  }

  function Said(r: Request): Option<Message> {
    match r
    case DoStart => Some(Began)
    case DoStop => Some(Ended)
    case DoMask => None
    case Record(id, payload) =>
      match AnswerFields(id)
      case None => None
      case Some(fields) =>
        match ReadValues(fields, payload)
        case None => None
        case Some((values, rest)) => if rest == [] then Some(Msg(id, values)) else None
  }

  predicate Understood(rs: seq<Request>, ms: seq<Message>) {
    |rs| == |ms| && forall k :: 0 <= k < |rs| ==> Said(rs[k]) == Some(ms[k])
  }

  function Shown(text: seq<byte>): Value {
    Characters(Cut(text, 128))
  }

  function SystemMessages(cfg: Config): seq<Message> {
    [Msg(24, [Number(cfg.sysFreq), Number(cfg.cpuFreq), Number(cfg.ramBase), Number(0)])]
    + TextMessages(cfg.sysDesc)
  }

  function TextMessages(texts: seq<seq<byte>>): seq<Message> {
    seq(|texts|, k requires 0 <= k < |texts| => Msg(14, [Shown(texts[k])]))
  }

  /** Two messages for each task: its name and priority, and its stack. */
  function TaskMessages(ramBase: u32, tasks: seq<TaskInfo>): seq<Message> {
    seq(2 * |tasks|, k requires 0 <= k < 2 * |tasks| => TaskMessage(ramBase, tasks[k / 2], k % 2 == 0))
  }

  function TaskMessage(ramBase: u32, t: TaskInfo, first: bool): Message {
    var task := Number((t.taskId - ramBase) % 0x1_0000_0000);
    if first then Msg(9, [task, Number(t.prio), Characters(Cut(t.name, 32))])
    else Msg(21, [task, Number(t.stackBase), Number(t.stackSize), Number(t.stackUsage)])
  }

  function TimeMessage(hasTime: bool, time: Time): Message {
    if hasTime then Msg(13, [Number(time.low), Number(time.high)]) else Msg(12, [Number(time.low)])
  }

  function ModuleMessage(index: nat, m: Module, text: seq<byte>): Message {
    Msg(22, [Number(index), Number(m.eventOffset), Shown(text)])
  }

  function ModuleMessages(index: nat, m: Module, texts: seq<seq<byte>>): seq<Message> {
    seq(|texts|, k requires 0 <= k < |texts| => ModuleMessage(index, m, texts[k]))
  }

  function AllModuleMessages(modules: seq<Module>): seq<Message> {
    if modules == [] then []
    else
      var i := |modules| - 1;
      AllModuleMessages(modules[..i]) + ModuleMessages(i, modules[i], modules[i].descriptions)
  }

  /** The answer that a host expects to a command, which may have a parameter behind it. */
  function AnswerTo(cfg: Config, bytes: seq<byte>, on: bool, time: Time): seq<Message>
    requires bytes != []
  {
    var count := Msg(27, [Number(|cfg.modules| % 256)]);
    match bytes[0]
    case 1 =>
      [Began] + ([Msg(10, [])] + SystemMessages(cfg)) + [TimeMessage(cfg.hasTime, time)]
      + (TaskMessages(cfg.ramBase, cfg.tasks) + [count])
    case 2 => if on then [Msg(11, []), Ended] else []
    case 3 => [TimeMessage(cfg.hasTime, time)]
    case 4 => TaskMessages(cfg.ramBase, cfg.tasks)
    case 5 => SystemMessages(cfg)
    case 6 => [count]
    case 7 => AllModuleMessages(cfg.modules)
    case 128 =>
      if |bytes| > 1 && bytes[1] < |cfg.modules| then
        var m := cfg.modules[bytes[1]];
        [ModuleMessage(bytes[1], m, m.name)] + ModuleMessages(bytes[1], m, m.descriptions)
      else []
    case _ => []
  }

  /** The call carries the message. */
  predicate Says(c: Call, m: Message) {
    AnswerFields(c.id) == Some(Kinds(c.args)) && m == Msg(c.id, ValuesOf(c.args))
  }

  predicate AllSay(calls: seq<Call>, ms: seq<Message>) {
    |calls| == |ms| && forall k :: 0 <= k < |calls| ==> Says(calls[k], ms[k])
  }

  lemma SaysIsSaid(c: Call, m: Message)
    requires Says(c, m)
    ensures Said(Record(c.id, PayloadOf(c.args))) == Some(m)
  {
    hide PayloadOf, ReadValues, Kinds, ValuesOf, AnswerFields;
    ArgsReadBack(c.args, []);
    NothingBehind(PayloadOf(c.args));
  }

  lemma AllSayUnderstood(calls: seq<Call>, ms: seq<Message>)
    requires AllSay(calls, ms)
    ensures Understood(Requests(calls), ms)
  {
    hide Says, Said, PayloadOf;
    forall k | 0 <= k < |calls|
      ensures Said(Requests(calls)[k]) == Some(ms[k])
    {
      SaysIsSaid(calls[k], ms[k]);
    }
  }

  lemma AllSayConcat(a: seq<Call>, b: seq<Call>, x: seq<Message>, y: seq<Message>)
    requires AllSay(a, x) && AllSay(b, y)
    ensures AllSay(a + b, x + y)
  {
    hide Says;
  }

  lemma OneSays(c: Call, m: Message)
    requires Says(c, m)
    ensures AllSay([c], [m])
  {
    hide Says;
  }

  lemma UnderstoodConcat(a: seq<Request>, b: seq<Request>, x: seq<Message>, y: seq<Message>)
    requires Understood(a, x) && Understood(b, y)
    ensures Understood(a + b, x + y)
  {
    hide Said;
  }

  lemma {:induction false} TextsSay(texts: seq<seq<byte>>)
    ensures AllSay(TextCalls(EVTID_SYSDESC, texts), TextMessages(texts))
  {
    hide PayloadOf;
    if texts != [] {
      var front, last := texts[..|texts| - 1], texts[|texts| - 1];
      TextsSay(front);
      TextSays(last);
      assert TextMessages(texts) == TextMessages(front) + [Msg(14, [Shown(last)])];
    }
  }

  lemma TextSays(text: seq<byte>)
    ensures Says(TextCall(EVTID_SYSDESC, text), Msg(14, [Shown(text)]))
  {
    hide PayloadOf;
    assert ValuesOf(TextCall(EVTID_SYSDESC, text).args) == [Shown(text)];
    assert Kinds(TextCall(EVTID_SYSDESC, text).args) == [Text];
  }

  lemma SystemSays(cfg: Config)
    ensures AllSay(SysDescCalls(cfg), SystemMessages(cfg))
  {
    hide PayloadOf;
    TextsSay(cfg.sysDesc);
    var c := InitCall(cfg);
    assert ValuesOf(c.args) == [Number(cfg.sysFreq), Number(cfg.cpuFreq), Number(cfg.ramBase), Number(0)];
    assert Kinds(c.args) == [Num, Num, Num, Num];
  }

  lemma TaskSays(cfg: Config, t: TaskInfo)
    ensures var cs := TaskCalls(cfg, t);
      |cs| == 2 && Says(cs[0], TaskMessage(cfg.ramBase, t, true)) && Says(cs[1], TaskMessage(cfg.ramBase, t, false))
  {
    hide PayloadOf;
    var cs := TaskCalls(cfg, t);
    assert ValuesOf(cs[0].args) == TaskMessage(cfg.ramBase, t, true).values;
    assert ValuesOf(cs[1].args) == TaskMessage(cfg.ramBase, t, false).values;
    assert Kinds(cs[0].args) == [Num, Num, Text];
    assert Kinds(cs[1].args) == [Num, Num, Num, Num];
  }

  lemma TaskMessagesGrow(ramBase: u32, tasks: seq<TaskInfo>)
    requires tasks != []
    ensures var n := |tasks| - 1;
      TaskMessages(ramBase, tasks) == TaskMessages(ramBase, tasks[..n])
        + [TaskMessage(ramBase, tasks[n], true), TaskMessage(ramBase, tasks[n], false)]
  {
    hide TaskMessage;
    var n := |tasks| - 1;
    var all, front := TaskMessages(ramBase, tasks), TaskMessages(ramBase, tasks[..n]);
    forall k | 0 <= k < 2 * n
      ensures all[k] == front[k]
    {
    }
    assert all[2 * n] == TaskMessage(ramBase, tasks[n], true);
    assert all[2 * n + 1] == TaskMessage(ramBase, tasks[n], false);
  }

  lemma TwoSay(cs: seq<Call>, m: Message, n: Message)
    requires |cs| == 2 && Says(cs[0], m) && Says(cs[1], n)
    ensures AllSay(cs, [m, n])
  {
    hide Says;
  }

  lemma {:induction false} TasksSay(cfg: Config, tasks: seq<TaskInfo>)
    ensures AllSay(TaskListCalls(cfg, tasks), TaskMessages(cfg.ramBase, tasks))
  {
    hide Says, TaskMessage, TaskCalls;
    if tasks == [] {
    } else {
      hide AllSay, TaskMessages;
      var front, last := tasks[..|tasks| - 1], tasks[|tasks| - 1];
      var m, n := TaskMessage(cfg.ramBase, last, true), TaskMessage(cfg.ramBase, last, false);
      TasksSay(cfg, front);
      TaskSays(cfg, last);
      TwoSay(TaskCalls(cfg, last), m, n);
      AllSayConcat(TaskListCalls(cfg, front), TaskCalls(cfg, last), TaskMessages(cfg.ramBase, front), [m, n]);
      TaskMessagesGrow(cfg.ramBase, tasks);
    }
  }

  lemma TimeSays(cfg: Config, time: Time)
    ensures Says(SystimeCall(cfg, time), TimeMessage(cfg.hasTime, time))
  {
    hide PayloadOf;
    var c := SystimeCall(cfg, time);
    assert ValuesOf(c.args) == TimeMessage(cfg.hasTime, time).values;
    assert Kinds(c.args) == if cfg.hasTime then [Num, Num] else [Num];
  }

  lemma CountSays(cfg: Config)
    ensures Says(NumModulesCall(cfg), Msg(27, [Number(|cfg.modules| % 256)]))
  {
    hide PayloadOf;
    assert ValuesOf(NumModulesCall(cfg).args) == [Number(|cfg.modules| % 256)];
    assert Kinds(NumModulesCall(cfg).args) == [Num];
  }

  lemma ModuleSays(index: byte, m: Module, text: seq<byte>)
    ensures Says(ModuleCall(index, m, text), ModuleMessage(index, m, text))
  {
    hide PayloadOf;
    assert ValuesOf(ModuleCall(index, m, text).args) == ModuleMessage(index, m, text).values;
    assert Kinds(ModuleCall(index, m, text).args) == [Num, Num, Text];
  }

  lemma {:induction false} DescriptionsSay(index: byte, m: Module, texts: seq<seq<byte>>)
    ensures AllSay(DescriptionCalls(index, m, texts), ModuleMessages(index, m, texts))
  {
    hide Says, ModuleCall, ModuleMessage;
    if texts != [] {
      var front, last := texts[..|texts| - 1], texts[|texts| - 1];
      DescriptionsSay(index, m, front);
      ModuleSays(index, m, last);
      assert ModuleMessages(index, m, texts) == ModuleMessages(index, m, front) + [ModuleMessage(index, m, last)];
    }
  }

  lemma {:induction false} AllDescriptionsSay(modules: seq<Module>)
    requires |modules| < 256
    ensures AllSay(AllDescriptionCalls(modules), AllModuleMessages(modules))
  {
    hide Says, DescriptionCalls, ModuleMessages;
    if modules != [] {
      var i := |modules| - 1;
      AllDescriptionsSay(modules[..i]);
      DescriptionsSay(i, modules[i], modules[i].descriptions);
    }
  }

  lemma SendModuleSays(cfg: Config, index: byte)
    requires index < |cfg.modules|
    ensures var m := cfg.modules[index];
      AllSay(SendModuleCalls(cfg, index), [ModuleMessage(index, m, m.name)] + ModuleMessages(index, m, m.descriptions))
  {
    hide Says, ModuleCall, ModuleMessage, DescriptionCalls, ModuleMessages;
    var m := cfg.modules[index];
    DescriptionsSay(index, m, m.descriptions);
    ModuleSays(index, m, m.name);
  }

  lemma StartSays(id: u32)
    requires id == 10 || id == 11
    ensures PayloadOf([]) == [] && Says(Call(id, []), Msg(id, [])) && Said(Record(id, [])) == Some(Msg(id, []))
  {
    NothingIsEmpty();
    hide PayloadOf;
    assert ValuesOf([]) == [] && Kinds([]) == [];
    SaysIsSaid(Call(id, []), Msg(id, []));
  }

  lemma StartIsUnderstood(cfg: Config, time: Time)
    ensures var count := Msg(27, [Number(|cfg.modules| % 256)]);
      Understood(StartRequests(cfg, time),
        [Began] + ([Msg(10, [])] + SystemMessages(cfg)) + [TimeMessage(cfg.hasTime, time)]
        + (TaskMessages(cfg.ramBase, cfg.tasks) + [count]))
  {
    hide Says, Said, PayloadOf, SysDescCalls, SystemMessages, TaskListCalls, TaskMessages, SystimeCall, TimeMessage,
      NumModulesCall, Requests, AllSay, Understood;
    var count := Msg(27, [Number(|cfg.modules| % 256)]);
    StartSays(10);
    SystemSays(cfg);
    TimeSays(cfg, time);
    TasksSay(cfg, cfg.tasks);
    CountSays(cfg);
    var c1, m1 := [Call(EVTID_TRACE_START, [])] + SysDescCalls(cfg), [Msg(10, [])] + SystemMessages(cfg);
    var c2, m2 := [SystimeCall(cfg, time)], [TimeMessage(cfg.hasTime, time)];
    var c3, m3 := TaskListCalls(cfg, cfg.tasks) + [NumModulesCall(cfg)], TaskMessages(cfg.ramBase, cfg.tasks) + [count];
    OneSays(Call(EVTID_TRACE_START, []), Msg(10, []));
    OneSays(SystimeCall(cfg, time), TimeMessage(cfg.hasTime, time));
    OneSays(NumModulesCall(cfg), count);
    AllSayConcat([Call(EVTID_TRACE_START, [])], SysDescCalls(cfg), [Msg(10, [])], SystemMessages(cfg));
    AllSayConcat(TaskListCalls(cfg, cfg.tasks), [NumModulesCall(cfg)], TaskMessages(cfg.ramBase, cfg.tasks), [count]);
    AllSayUnderstood(c1, m1);
    AllSayUnderstood(c2, m2);
    AllSayUnderstood(c3, m3);
    BeganIsSaid();
    UnderstoodConcat([DoStart], Requests(c1), [Began], m1);
    UnderstoodConcat([DoStart] + Requests(c1), Requests(c2), [Began] + m1, m2);
    UnderstoodConcat([DoStart] + Requests(c1) + Requests(c2), Requests(c3), [Began] + m1 + m2, m3);
  }

  lemma BeganIsSaid()
    ensures Understood([DoStart], [Began]) && Said(DoStop) == Some(Ended) && Understood([], [])
  {
  }

  /** Whatever command the host sends, it gets the answer that it expects, with all of its contents. */
  lemma AnswerIsUnderstood(cfg: Config, bytes: seq<byte>, on: bool, time: Time)
    requires bytes != [] && |cfg.modules| < 256
    ensures Understood(Response(cfg, bytes, on, time), AnswerTo(cfg, bytes, on, time))
  {
    hide Says, Said, Requests, TaskListCalls, SysDescCalls, SystimeCall, NumModulesCall, AllDescriptionCalls,
      SendModuleCalls, StartRequests, SystemMessages, TaskMessages, TimeMessage, AllModuleMessages, ModuleMessage,
      ModuleMessages;
    var cmd := bytes[0];
    BeganIsSaid();
    if cmd == 1 {
      StartIsUnderstood(cfg, time);
    } else if cmd == 2 {
      StartSays(11);
    } else if cmd == 3 {
      TimeSays(cfg, time);
      AllSayUnderstood([SystimeCall(cfg, time)], [TimeMessage(cfg.hasTime, time)]);
    } else if cmd == 4 {
      TasksSay(cfg, cfg.tasks);
      AllSayUnderstood(TaskListCalls(cfg, cfg.tasks), TaskMessages(cfg.ramBase, cfg.tasks));
    } else if cmd == 5 {
      SystemSays(cfg);
      AllSayUnderstood(SysDescCalls(cfg), SystemMessages(cfg));
    } else if cmd == 6 {
      CountSays(cfg);
      AllSayUnderstood([NumModulesCall(cfg)], [Msg(27, [Number(|cfg.modules| % 256)])]);
    } else if cmd == 7 {
      AllDescriptionsSay(cfg.modules);
      AllSayUnderstood(AllDescriptionCalls(cfg.modules), AllModuleMessages(cfg.modules));
    } else if cmd == 128 && |bytes| > 1 {
      ModuleIsUnderstood(cfg, bytes[1]);
    }
  }

  lemma ModuleIsUnderstood(cfg: Config, index: byte)
    ensures Understood(Requests(SendModuleCalls(cfg, index)),
      if index < |cfg.modules| then
        var m := cfg.modules[index];
        [ModuleMessage(index, m, m.name)] + ModuleMessages(index, m, m.descriptions)
      else [])
  {
    hide Says, Said, ModuleMessage, ModuleMessages;
    if index < |cfg.modules| {
      var m := cfg.modules[index];
      SendModuleSays(cfg, index);
      AllSayUnderstood(SendModuleCalls(cfg, index),
        [ModuleMessage(index, m, m.name)] + ModuleMessages(index, m, m.descriptions));
    }
  }
}
