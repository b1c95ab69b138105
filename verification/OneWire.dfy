/** The 1-Wire ROM search: it finds the 64-bit codes of all devices on a bus where every device pulls the same line,
    so that a bit read back is the conjunction of what the devices send. */
module OneWire {
  import opened Bytes
  import opened Wrappers

  const CODE_BITS: nat := 64
  const SEARCH_ROM: byte := 0xF0
  const ALARM_SEARCH: byte := 0xEC

  /** A device's code, bit 0 first. */
  type Code = c: seq<bool> | |c| == CODE_BITS witness seq(CODE_BITS, _ => false)

  predicate Agree(a: Code, b: Code, n: nat)
    requires n <= CODE_BITS
  {
    forall k :: 0 <= k < n ==> a[k] == b[k]
  }

  /** The first bit from `k` on at which two codes differ. */
  function FirstDiff(a: Code, b: Code, k: nat): (r: nat)
    requires k <= CODE_BITS && Agree(a, b, k)
    ensures r <= CODE_BITS && Agree(a, b, r)
    ensures r < CODE_BITS ==> a[r] != b[r]
    decreases CODE_BITS - k
  {
    if k == CODE_BITS || a[k] != b[k] then k else FirstDiff(a, b, k + 1)
  }

  /** Lexicographic order, bit 0 first. */
  predicate Before(a: Code, b: Code) {
    var k := FirstDiff(a, b, 0);
    k < CODE_BITS && !a[k]
  }

  lemma BeforeAt(a: Code, b: Code, k: nat)
    requires k < CODE_BITS && Agree(a, b, k) && a[k] != b[k]
    ensures Before(a, b) <==> !a[k]
    ensures Before(b, a) <==> !b[k]
  {
    var r, r' := FirstDiff(a, b, 0), FirstDiff(b, a, 0);
    assert r >= k && r <= k;
    assert r' >= k && r' <= k;
  }

  lemma BeforeIsTotal(a: Code, b: Code)
    ensures a == b || Before(a, b) || Before(b, a)
  {
    var k := FirstDiff(a, b, 0);
    if k < CODE_BITS {
      BeforeAt(a, b, k);
    }
  }

  lemma BeforeIsTransitive(a: Code, b: Code, c: Code)
    requires Before(a, b) && Before(b, c)
    ensures Before(a, c)
  {
    var k := Min(FirstDiff(a, b, 0), FirstDiff(b, c, 0));
    assert Agree(a, c, k);
    BeforeAt(a, c, k);
  }

  /** At bit `j`, `a` has a 0 and some device that agrees with it so far has a 1. */
  ghost predicate Branch(s: set<Code>, a: Code, j: nat)
    requires j < CODE_BITS
  {
    !a[j] && exists d :: d in s && Agree(d, a, j) && d[j]
  }

  lemma LaterMeansBranch(s: set<Code>, a: Code, d: Code)
    requires d in s && Before(a, d)
    ensures FirstDiff(a, d, 0) < CODE_BITS && Branch(s, a, FirstDiff(a, d, 0))
  {
    var j := FirstDiff(a, d, 0);
    assert Agree(d, a, j) && d[j];
  }

  /** The state between two passes: `a` is the code found last and `bp` its last branch. Before the first pass,
      `a` is all zeros and `bp` lies beyond all bits. */
  ghost predicate Ready(s: set<Code>, a: Code, bp: nat, first: bool) {
    if first then CODE_BITS <= bp && forall k :: 0 <= k < CODE_BITS ==> !a[k]
    else bp < CODE_BITS && a in s && LastBranch(s, a, bp, CODE_BITS)
  }

  ghost predicate LastBranch(s: set<Code>, a: Code, bp: nat, n: nat)
    requires bp < n <= CODE_BITS
  {
    Branch(s, a, bp) && forall j :: bp < j < n ==> !Branch(s, a, j)
  }

  /** The codes that are still to come. */
  ghost predicate ToCome(s: set<Code>, a: Code, first: bool, d: Code) {
    d in s && (first || Before(a, d))
  }

  /** No 1 of `x` among the first `n` bits puts it behind `d`. */
  ghost predicate NotBehind(x: Code, d: Code, n: nat)
    requires n <= CODE_BITS
  {
    forall j :: 0 <= j < n && Agree(x, d, j) && x[j] ==> d[j]
  }

  /** What a pass has achieved after `i` bits: `x` is the new code so far. */
  ghost predicate PassInv(s: set<Code>, a: Code, bp: nat, first: bool, x: Code, i: nat, next: nat, finished: bool) {
    && i <= CODE_BITS
    && (forall k :: i <= k < CODE_BITS ==> x[k] == a[k])
    && (exists d :: d in s && Agree(d, x, i))
    && (!first && i <= bp ==> Agree(x, a, i))
    && (!first && bp < i ==> Agree(x, a, bp) && x[bp] && !a[bp])
    && (forall d :: ToCome(s, a, first, d) ==> NotBehind(x, d, i))
    && (if finished then next == bp && forall j :: 0 <= j < i ==> !Branch(s, x, j)
        else next < i && LastBranch(s, x, next, i))
  }

  lemma BranchDependsOnPrefix(s: set<Code>, x: Code, y: Code, j: nat)
    requires j < CODE_BITS && Agree(x, y, j + 1)
    ensures Branch(s, x, j) <==> Branch(s, y, j)
  {
    if Branch(s, x, j) {
      var d :| d in s && Agree(d, x, j) && d[j];
      assert Agree(d, y, j);
    }
    if Branch(s, y, j) {
      var d :| d in s && Agree(d, y, j) && d[j];
      assert Agree(d, x, j);
    }
  }

  /** One bit of a pass: `zero` and `one` tell whether a device that agrees so far has a 0 or a 1 there. */
  function ChooseBit(a: bool, bp: nat, i: nat, zero: bool, one: bool): bool {
    if zero && one then i == bp || (i < bp && a) else one
  }

  /** Behind the last branch, no code to come takes the other way. */
  lemma ToComeTakesOne(s: set<Code>, a: Code, bp: nat, d: Code)
    requires Ready(s, a, bp, false) && ToCome(s, a, false, d) && Agree(d, a, bp)
    ensures d[bp]
  {
    if !d[bp] {
      LaterMeansBranch(s, a, d);
    }
  }

  lemma PassStep(s: set<Code>, a: Code, bp: nat, first: bool, x: Code, i: nat, next: nat, finished: bool,
                 zero: bool, one: bool, x': Code)
    requires Ready(s, a, bp, first) && PassInv(s, a, bp, first, x, i, next, finished) && i < CODE_BITS
    requires zero <==> exists d :: d in s && Agree(d, x, i) && !d[i]
    requires one <==> exists d :: d in s && Agree(d, x, i) && d[i]
    requires x' == x[i := ChooseBit(x[i], bp, i, zero, one)]
    ensures var branch := zero && one && !x'[i];
      PassInv(s, a, bp, first, x', i + 1, if branch then i else next, finished && !branch)
  {
    var branch := zero && one && !x'[i];
    assert Agree(x', x, i);
    PassStepFollows(s, a, bp, first, x, i, next, finished, zero, one, x');
    PassStepIsLeast(s, a, bp, first, x, i, next, finished, zero, one, x');
    assert Branch(s, x', i) <==> branch by {
      if one {
        var d :| d in s && Agree(d, x, i) && d[i];
        assert Agree(d, x', i);
      }
      if Branch(s, x', i) {
        var d :| d in s && Agree(d, x', i) && d[i];
        assert Agree(d, x, i);
      }
    }
    forall j | 0 <= j < i
      ensures Branch(s, x', j) <==> Branch(s, x, j)
    {
      BranchDependsOnPrefix(s, x', x, j);
    }
  }

  lemma PassStepFollows(s: set<Code>, a: Code, bp: nat, first: bool, x: Code, i: nat, next: nat, finished: bool,
                        zero: bool, one: bool, x': Code)
    requires Ready(s, a, bp, first) && PassInv(s, a, bp, first, x, i, next, finished) && i < CODE_BITS
    requires zero <==> exists d :: d in s && Agree(d, x, i) && !d[i]
    requires one <==> exists d :: d in s && Agree(d, x, i) && d[i]
    requires x' == x[i := ChooseBit(x[i], bp, i, zero, one)]
    ensures exists d :: d in s && Agree(d, x', i + 1)
    ensures !first && i + 1 <= bp ==> Agree(x', a, i + 1)
    ensures !first && bp < i + 1 ==> Agree(x', a, bp) && x'[bp] && !a[bp]
  {
    var some :| some in s && Agree(some, x, i);
    if x'[i] {
      var d :| d in s && Agree(d, x, i) && d[i];
      assert Agree(d, x', i + 1);
    } else {
      var d :| d in s && Agree(d, x, i) && !d[i];
      assert Agree(d, x', i + 1);
    }
    if !first && i <= bp {
      assert Agree(a, x, i) && (if a[i] then one else zero);
      if i == bp {
        var d :| d in s && Agree(d, a, bp) && d[bp];
        assert Agree(d, x, i);
      }
    }
  }

  lemma PassStepIsLeast(s: set<Code>, a: Code, bp: nat, first: bool, x: Code, i: nat, next: nat, finished: bool,
                        zero: bool, one: bool, x': Code)
    requires Ready(s, a, bp, first) && PassInv(s, a, bp, first, x, i, next, finished) && i < CODE_BITS
    requires zero <==> exists d :: d in s && Agree(d, x, i) && !d[i]
    requires one <==> exists d :: d in s && Agree(d, x, i) && d[i]
    requires x' == x[i := ChooseBit(x[i], bp, i, zero, one)]
    ensures forall d :: ToCome(s, a, first, d) ==> NotBehind(x', d, i + 1)
  {
    forall d | ToCome(s, a, first, d)
      ensures NotBehind(x', d, i + 1)
    {
      assert NotBehind(x, d, i);
      if Agree(x', d, i) && x'[i] {
        assert Agree(d, x, i);
        if zero && one && !first {
          if i == bp {
            ToComeTakesOne(s, a, bp, d);
          } else if !d[i] {
            BeforeAt(a, d, i);
          }
        }
      }
      forall j | 0 <= j < i + 1 && Agree(x', d, j) && x'[j]
        ensures d[j]
      {
        assert j < i ==> Agree(x, d, j) && x[j];
      }
    }
  }

  /** A finished pass has found the least code to come; when it met no branch, nothing comes after it. */
  lemma PassFindsNext(s: set<Code>, a: Code, bp: nat, first: bool, x: Code, next: nat, finished: bool)
    requires Ready(s, a, bp, first) && PassInv(s, a, bp, first, x, CODE_BITS, next, finished)
    ensures x in s && (first || Before(a, x))
    ensures forall d :: ToCome(s, a, first, d) ==> d == x || Before(x, d)
    ensures if finished then forall d :: d in s ==> !Before(x, d) else Ready(s, x, next, false)
  {
    var d0 :| d0 in s && Agree(d0, x, CODE_BITS);
    assert d0 == x;
    if !first {
      BeforeAt(a, x, bp);
    }
    forall d | ToCome(s, a, first, d)
      ensures d == x || Before(x, d)
    {
      var k := FirstDiff(x, d, 0);
      assert NotBehind(x, d, CODE_BITS);
      if k < CODE_BITS {
        BeforeAt(x, d, k);
      }
    }
    if finished {
      forall d | d in s
        ensures !Before(x, d)
      {
        if Before(x, d) {
          LaterMeansBranch(s, x, d);
        }
      }
    }
  }

  /** Codes in strictly increasing order. */
  ghost predicate Increasing(found: seq<Code>) {
    forall i, j :: 0 <= i < j < |found| ==> Before(found[i], found[j])
  }

  /** `found` is the increasing list of exactly the codes of `s` up to its last one. */
  ghost predicate Collected(s: set<Code>, found: seq<Code>) {
    && Increasing(found)
    && (forall d :: d in found ==> d in s)
    && (forall d :: d in s && found != [] ==> d in found || Before(found[|found| - 1], d))
  }

  lemma BeforeIsIrreflexive(a: Code)
    ensures !Before(a, a)
  {
  }

  lemma {:induction false} IncreasingCounts(s: set<Code>, found: seq<Code>)
    requires Increasing(found) && forall d :: d in found ==> d in s
    ensures |found| <= |s|
    ensures (forall d :: d in s ==> d in found) ==> |found| == |s|
    decreases |found|
  {
    if found == [] {
      if |s| > 0 {
        var d :| d in s;
      }
    } else {
      var front, last := found[..|found| - 1], found[|found| - 1];
      BeforeIsIrreflexive(last);
      forall d | d in front
        ensures d != last
      {
        var i :| 0 <= i < |front| && front[i] == d;
        assert Before(found[i], found[|found| - 1]);
      }
      IncreasingCounts(s - {last}, front);
      assert forall d :: d in found <==> d in front || d == last;
    }
  }

  lemma CollectsOneMore(s: set<Code>, found: seq<Code>, x: Code)
    requires Collected(s, found) && x in s
    requires found != [] ==> Before(found[|found| - 1], x)
    requires forall d :: d in s && (found == [] || Before(found[|found| - 1], d)) ==> d == x || Before(x, d)
    ensures Collected(s, found + [x])
  {
    var found' := found + [x];
    forall i, j | 0 <= i < j < |found'|
      ensures Before(found'[i], found'[j])
    {
      if j == |found| && i < |found| - 1 {
        BeforeIsTransitive(found[i], found[|found| - 1], x);
      }
    }
    assert forall d :: d in found' <==> d in found || d == x;
  }

  /** All devices answer a search, and those with an alarm an alarm search. */
  function Answering(present: set<Code>, alarmed: set<Code>, c: nat): set<Code> {
    if c == SEARCH_ROM then present
    else if c == ALARM_SEARCH then present * alarmed
    else {}
  }

  lemma NobodyAnswers(present: set<Code>, alarmed: set<Code>, c: nat)
    requires present == {}
    ensures Answering(present, alarmed, c) == {}
  {
  }

  /** The bus and the devices on it. A device answers a search command by sending, for each bit of its code, the bit and
      then its complement; it drops out when the master then writes the other value. */
  class Bus {
    const present: set<Code>
    const alarmed: set<Code>
    var command: seq<bool>
    var active: set<Code>
    var index: nat
    var phase: nat

    ghost predicate InSearch(s: set<Code>, x: Code, i: nat)
      reads this
    {
      && |command| == 8 && index == i && phase == 0 && i <= CODE_BITS
      && active == set d | d in s && Agree(d, x, i)
    }

    constructor (present: set<Code>, alarmed: set<Code>)
      ensures this.present == present && this.alarmed == alarmed
    {
      this.present, this.alarmed := present, alarmed;
      command, active, index, phase := [], {}, 0, 0;
    }

    /** The devices that take part when this is the command. */
    function Responders(c: nat): set<Code> {
      Answering(present, alarmed, c)
    }

    /** A reset pulse; devices answer by pulling the line. */
    method Reset() returns (found: bool)
      modifies this
      ensures found <==> present != {}
      ensures command == []
    {
      command := [];
      found := present != {};
    }

    method WriteBit(b: bool)
      requires |command| < 8 || (index < CODE_BITS && phase == 2)
      modifies this
      ensures old(|command|) < 8 ==> command == old(command) + [b]
      ensures |old(command)| == 7 ==> active == Responders(Value(command)) && index == 0 && phase == 0
      ensures old(|command|) >= 8 ==>
        && command == old(command) && index == old(index) + 1 && phase == 0
        && active == set d | d in old(active) && d[old(index)] == b
    {
      if |command| < 8 {
        command := command + [b];
        if |command| == 8 {
          active, index, phase := Responders(Value(command)), 0, 0;
        }
      } else {
        active := set d | d in active && d[index] == b;
        index, phase := index + 1, 0;
      }
    }

    /** A read slot. The line is high unless some device pulls it low. */
    method ReadBit() returns (high: bool)
      requires |command| == 8 && index < CODE_BITS && phase < 2
      modifies this`phase
      ensures phase == old(phase) + 1
      ensures high <==> forall d :: d in active ==> d[index] == (old(phase) == 0)
    {
      var complement := phase == 1;
      high := forall d :: d in active ==> d[index] != complement;
      phase := phase + 1;
      if high {
        forall d | d in active
          ensures d[index] == (old(phase) == 0)
        {
        }
      } else {
        var d :| d in active && d[index] == complement;
      }
    }
  }

  /** What a device makes of the bits that it receives, the first being the lowest. */
  function Value(bits: seq<bool>): nat {
    if bits == [] then 0 else (if bits[0] then 1 else 0) + 2 * Value(bits[1..])
  }

  /** `v` shifted right by `i` bits. */
  function Shifted(v: nat, i: nat): nat {
    if i == 0 then v else Shifted(v, i - 1) / 2
  }

  /** The bits of a byte as they are sent, lowest first. */
  function BitsOf(b: byte): (s: seq<bool>)
    ensures |s| == 8
  {
    seq(8, i requires 0 <= i < 8 => Shifted(b, i) % 2 == 1)
  }

  lemma ShiftedAway(b: byte)
    ensures Shifted(b, 8) == 0
  {
    assert Shifted(b, 1) == Shifted(b, 0) / 2 < 0x80;
    assert Shifted(b, 2) == Shifted(b, 1) / 2 < 0x40;
    assert Shifted(b, 3) == Shifted(b, 2) / 2 < 0x20;
    assert Shifted(b, 4) == Shifted(b, 3) / 2 < 0x10;
    assert Shifted(b, 5) == Shifted(b, 4) / 2 < 8;
    assert Shifted(b, 6) == Shifted(b, 5) / 2 < 4;
    assert Shifted(b, 7) == Shifted(b, 6) / 2 < 2;
  }

  lemma {:induction false} ValueFrom(b: byte, i: nat)
    requires i <= 8
    ensures Value(BitsOf(b)[i..]) == Shifted(b, i)
    decreases 8 - i
  {
    if i == 8 {
      ShiftedAway(b);
    } else {
      ValueFrom(b, i + 1);
      assert BitsOf(b)[i..][1..] == BitsOf(b)[i + 1..];
    }
  }

  /** Sent this way, a command arrives as it is. */
  lemma BitsReadBack(b: byte)
    ensures Value(BitsOf(b)) == b
  {
    ValueFrom(b, 0);
    assert BitsOf(b)[0..] == BitsOf(b);
  }

  method SendCommand(bus: Bus, command: byte)
    requires bus.command == []
    modifies bus
    ensures |bus.command| == 8 && Value(bus.command) == command && bus.active == bus.Responders(command)
    ensures bus.index == 0 && bus.phase == 0
  {
    hide Value;
    for i := 0 to 8
      invariant |bus.command| == i && bus.command == BitsOf(command)[..i]
      invariant i == 8 ==>
        bus.active == bus.Responders(Value(bus.command)) && bus.index == 0 && bus.phase == 0
    {
      bus.WriteBit(Shifted(command, i) % 2 == 1);
    }
    BitsReadBack(command);
    assert BitsOf(command)[..8] == BitsOf(command);
  }

  /** One pass over the 64 bits. `first` and `s` are there for the specification only. It fails only when no device
      takes part. */
  method SearchPass(bus: Bus, a: Code, bp: nat, ghost first: bool, ghost s: set<Code>)
    returns (x: Code, next: nat, finished: bool, ok: bool)
    requires bus.InSearch(s, a, 0)
    requires s != {} ==> Ready(s, a, bp, first)
    modifies bus
    ensures ok <==> s != {}
    ensures ok ==> PassInv(s, a, bp, first, x, CODE_BITS, next, finished)
    ensures !ok ==> x == a && finished
  {
    hide PassInv, Ready, Agree;
    x, next, finished, ok := a, bp, true, true;
    if s != {} {
      PassStarts(s, a, bp, first);
    }
    for i := 0 to CODE_BITS
      invariant ok && bus.InSearch(s, x, i)
      invariant s != {} ==> PassInv(s, a, bp, first, x, i, next, finished)
      invariant s == {} ==> i == 0 && x == a && finished
    {
      ghost var x0, next0, finished0 := x, next, finished;
      if s != {} {
        ghost var d := SomeoneFollows(s, a, bp, first, x, i, next, finished);
        assert d in bus.active;
      }
      assert s != {} ==> bus.active != {};
      var high := bus.ReadBit();
      var highComplement := bus.ReadBit();
      ghost var zero, one := !high, !highComplement;
      assert zero <==> exists d :: d in bus.active && !d[i];
      assert one <==> exists d :: d in bus.active && d[i];
      if !high && !highComplement {
        if i == bp {
          bus.WriteBit(true);
          x := x[i := true];
        } else if i > bp || !x[i] {
          bus.WriteBit(false);
          finished := false;
          x := x[i := false];
          next := i;
        } else {
          bus.WriteBit(true);
        }
      } else if high && highComplement {
        NobodyActive(bus.active, i);
        ok := false;
        finished := true;
        return;
      } else if !high {
        bus.WriteBit(false);
        x := x[i := false];
      } else {
        bus.WriteBit(true);
        x := x[i := true];
      }
      assert x == x0[i := ChooseBit(x0[i], bp, i, zero, one)];
      PassStep(s, a, bp, first, x0, i, next0, finished0, zero, one, x);
      NarrowedAgrees(s, x0, x, i);
    }
  }

  /** The command, and the pass that it begins. */
  method CommandAndPass(bus: Bus, command: byte, a: Code, bp: nat, ghost first: bool)
    returns (x: Code, next: nat, finished: bool, ok: bool)
    requires bus.command == []
    requires var s := bus.Responders(command); s != {} ==> Ready(s, a, bp, first)
    modifies bus
    ensures var s := bus.Responders(command);
      && (ok <==> s != {})
      && if ok then PassInv(s, a, bp, first, x, CODE_BITS, next, finished) else x == a && finished
  {
    hide Ready, PassInv;
    SendCommand(bus, command);
    ghost var s := bus.Responders(command);
    assert bus.InSearch(s, a, 0);
    x, next, finished, ok := SearchPass(bus, a, bp, first, s);
  }

  lemma PassStarts(s: set<Code>, a: Code, bp: nat, first: bool)
    requires s != {}
    ensures PassInv(s, a, bp, first, a, 0, bp, true)
  {
    var d :| d in s;
    assert Agree(d, a, 0);
  }

  lemma SomeoneFollows(s: set<Code>, a: Code, bp: nat, first: bool, x: Code, i: nat, next: nat, finished: bool)
    returns (d: Code)
    requires PassInv(s, a, bp, first, x, i, next, finished)
    ensures d in s && Agree(d, x, i)
  {
    d :| d in s && Agree(d, x, i);
  }

  /** The line stays high twice only when nobody pulls it. */
  lemma NobodyActive(active: set<Code>, i: nat)
    requires i < CODE_BITS
    requires !(exists d :: d in active && !d[i]) && !(exists d :: d in active && d[i])
    ensures active == {}
  {
  }

  lemma NarrowedAgrees(s: set<Code>, x: Code, x': Code, i: nat)
    requires i < CODE_BITS && x' == x[i := x'[i]]
    ensures (set d | d in (set d | d in s && Agree(d, x, i)) && d[i] == x'[i]) == set d | d in s && Agree(d, x', i + 1)
  {
    forall d | d in s
      ensures Agree(d, x', i + 1) <==> Agree(d, x, i) && d[i] == x'[i]
    {
    }
  }

  /** The slots that `n` codes are stored to: the counter is a byte. */
  function Slots(n: nat): set<nat> {
    if n == 0 then {} else Slots(n - 1) + {(n - 1) % 256}
  }

  lemma {:induction false} SlotsAre(n: nat)
    ensures forall i: nat :: i in Slots(n) <==> i < Min(n, 256)
  {
    if n > 0 {
      SlotsAre(n - 1);
    }
  }

  lemma SlotsGrow(n: nat)
    ensures Slots(0) == {} && Slots(n + 1) == Slots(n) + {n % 256}
  {
  }

  /** The slots of the caller's array that a search stores to, whether or not the array has them. When devices are on
      the bus but none takes part, the untouched address goes to slot 254. */
  function Touched(hasArray: bool, present: set<Code>, s: set<Code>, maxDevices: byte): set<nat> {
    if !hasArray || maxDevices == 0 || present == {} then {}
    else if s == {} then {254}
    else Slots(|s|)
  }

  /** What a slot holds after the codes were stored one after the other. */
  function InSlot(found: seq<Code>, i: nat): Option<Code> {
    if found == [] then None
    else if (|found| - 1) % 256 == i then Some(found[|found| - 1])
    else InSlot(found[..|found| - 1], i)
  }

  lemma {:induction false} InSlotInOrder(found: seq<Code>, i: nat)
    requires |found| <= 256
    ensures InSlot(found, i) == if i < |found| then Some(found[i]) else None
  {
    if found != [] {
      InSlotInOrder(found[..|found| - 1], i);
    }
  }

  /** The search stays inside the caller's array exactly if that has a slot for each device, up to 256, and 255 slots
      when devices are there but none answers the command. */
  lemma StaysInArrayExactly(hasArray: bool, present: set<Code>, s: set<Code>, maxDevices: byte, length: nat)
    ensures (forall i :: i in Touched(hasArray, present, s, maxDevices) ==> i < length) <==>
      (hasArray && maxDevices > 0 && present != {} ==> if s == {} then 255 <= length else Min(|s|, 256) <= length)
  {
    hide Slots;
    SlotsAre(|s|);
    if hasArray && maxDevices > 0 && present != {} {
      var last: nat := if s == {} then 254 else Min(|s|, 256) - 1;
      assert last in Touched(hasArray, present, s, maxDevices);
    }
  }

  /** An array of `maxDevices` slots is safe exactly if no more devices than that answer, and at least one; or if nobody
      answers and it has 255 slots anyway. */
  lemma MaxDevicesIsNoLimit(present: set<Code>, s: set<Code>, maxDevices: byte)
    requires present != {} && maxDevices > 0
    ensures (forall i :: i in Touched(true, present, s, maxDevices) ==> i < maxDevices) <==>
      if s == {} then maxDevices == 255 else |s| <= maxDevices
  {
    StaysInArrayExactly(true, present, s, maxDevices, maxDevices);
  }

  /** An alarm search over one device without an alarm stores outside an array of eight. */
  lemma QuietAlarmSearchStoresOutside(c: Code)
    ensures 254 in Touched(true, {c}, {c} * {}, 8)
    ensures !forall i :: i in Touched(true, {c}, {c} * {}, 8) ==> i < 8
  {
    assert {c} * {} == {};
  }

  /** Slot by slot, what the array holds: what was stored there last, or what it held before. */
  ghost predicate Holds(after: seq<Code>, before: seq<Code>, found: seq<Code>) {
    |after| == |before| && forall i :: 0 <= i < |after| ==>
      after[i] == match InSlot(found, i) case None => before[i] case Some(c) => c
  }

  lemma HoldsOneMore(after: seq<Code>, before: seq<Code>, found: seq<Code>, x: Code)
    requires Holds(after, before, found)
    ensures Holds(Put(after, |found| % 256, x), before, found + [x])
  {
    assert (found + [x])[..|found|] == found;
  }

  /** A slot that the array does not have is left out. */
  function Put(codes: seq<Code>, index: byte, x: Code): seq<Code> {
    if index < |codes| then codes[index := x] else codes
  }

  /** The address that a search begins with. */
  const NO_CODE: Code := seq(CODE_BITS, _ => false)

  /** Finds all devices that take part, in lexicographic order. `touched` says which slots of the array are stored to; a
      store outside the array is left out. */
  method SearchROM(bus: Bus, devices: array?<Code>, maxDevices: byte, command: byte)
    returns (foundDevices: byte, ghost found: seq<Code>, ghost passes: nat, ghost touched: set<nat>)
    modifies bus, devices
    ensures touched == Touched(devices != null, bus.present, bus.Responders(command), maxDevices)
    ensures maxDevices == 0 || bus.present == {} ==>
      foundDevices == 0 && (devices != null ==> devices[..] == old(devices[..]))
    ensures var s := bus.Responders(command);
      maxDevices > 0 && s != {} ==>
        && Increasing(found) && (forall d :: d in found <==> d in s)
        && passes == |found| == |s| && foundDevices == |s| % 256
        && (devices != null ==> Holds(devices[..], old(devices[..]), found))
        && (devices != null && |s| <= 256 && |s| <= devices.Length ==>
          devices[..|s|] == found && devices[|s|..] == old(devices[|s|..]))
    ensures bus.Responders(command) == {} && bus.present != {} && maxDevices > 0 ==>
      && passes == 1 && foundDevices == 255
      && (devices != null ==> devices[..] == Put(old(devices[..]), 254, NO_CODE))
  {
    hide Ready, PassInv, Increasing, Progress, Collected, Slots, InSlot, Holds, Put, Touched, Answering;
    ghost var s := bus.Responders(command);
    var finished := false;
    foundDevices, passes, found, touched := 0, 0, [], {};
    var nextBranchPoint: nat := TWO_POW_32 - 1;
    var address: Code := NO_CODE;
    ProgressStarts(s, address, nextBranchPoint);
    NothingStored(devices);
    SlotsGrow(0);
    while !finished && (maxDevices > 0 || foundDevices < maxDevices)
      invariant Progress(s, found, address, nextBranchPoint, finished)
      invariant passes == |found| && foundDevices == passes % 256
      invariant passes > 0 ==> bus.present != {} && maxDevices > 0 && s != {}
      invariant s == {} ==> !finished && address == NO_CODE
      invariant touched == if devices == null then {} else Slots(passes)
      invariant devices != null ==> Holds(devices[..], old(devices[..]), found)
      invariant devices != null && passes == 0 ==> devices[..] == old(devices[..])
      decreases |s| - passes, !finished
    {
      ProgressCounts(s, found, address, nextBranchPoint, finished);
      var branchPoint := nextBranchPoint;
      var present := bus.Reset();
      if !present {
        NobodyAnswers(bus.present, bus.alarmed, command);
        foundDevices := 0;
        break;
      }
      ghost var last := address;
      var ok;
      address, nextBranchPoint, finished, ok := CommandAndPass(bus, command, address, branchPoint, found == []);
      if ok {
        PassMakesProgress(s, found, last, branchPoint, address, nextBranchPoint, finished);
      } else {
        foundDevices := 254;
      }
      ghost var was := if devices != null then devices[..] else [];
      if devices != null {
        touched := touched + {foundDevices};
        StoreAt(devices, foundDevices, address);
      }
      passes := passes + 1;
      if !ok {
        foundDevices := foundDevices + 1;
        break;
      }
      foundDevices := (foundDevices + 1) % 256;
      SlotsGrow(passes - 1);
      if devices != null {
        HoldsOneMore(was, old(devices[..]), found, address);
      }
      found := found + [address];
      ProgressCounts(s, found, address, nextBranchPoint, finished);
    }
    TouchedIs(devices != null, bus.present, s, maxDevices);
    if s != {} {
      ProgressCounts(s, found, address, nextBranchPoint, finished);
      if devices != null {
        HeldInOrder(devices[..], old(devices[..]), found);
      }
    }
  }

  /** Stores to a slot that the array has; nothing is said of others. */
  method StoreAt(devices: array<Code>, index: byte, address: Code)
    modifies devices
    ensures devices[..] == Put(old(devices[..]), index, address)
  {
    if index < devices.Length {
      devices[index] := address;
    }
  }

  lemma TouchedIs(hasArray: bool, present: set<Code>, s: set<Code>, maxDevices: byte)
    ensures Touched(hasArray, present, s, maxDevices) ==
      if !hasArray || maxDevices == 0 || present == {} then {} else if s == {} then {254} else Slots(|s|)
  {
  }

  lemma NothingStored(devices: array?<Code>)
    ensures devices != null ==> Holds(devices[..], devices[..], [])
  {
  }

  lemma HeldInOrder(after: seq<Code>, before: seq<Code>, found: seq<Code>)
    requires Holds(after, before, found)
    ensures |found| <= 256 && |found| <= |after| ==>
      after[..|found|] == found && after[|found|..] == before[|found|..]
  {
    if |found| <= 256 && |found| <= |after| {
      forall i | 0 <= i < |after|
        ensures after[i] == if i < |found| then found[i] else before[i]
      {
        InSlotInOrder(found, i);
      }
    }
  }

  /** What holds between passes: the codes found so far are the first ones, in order. */
  ghost predicate Progress(s: set<Code>, found: seq<Code>, address: Code, next: nat, finished: bool) {
    && Collected(s, found)
    && (found != [] ==> found[|found| - 1] == address)
    && (s != {} && !finished ==> Ready(s, address, next, found == []))
    && (finished ==> forall d :: d in s ==> d in found)
  }

  lemma ProgressCounts(s: set<Code>, found: seq<Code>, address: Code, next: nat, finished: bool)
    requires Progress(s, found, address, next, finished)
    ensures |found| <= |s| && (finished ==> |found| == |s|) && Increasing(found)
    ensures finished ==> forall d :: d in s <==> d in found
    ensures s != {} && !finished ==> |found| < |s| && Ready(s, address, next, found == [])
  {
    IncreasingCounts(s, found);
    if s != {} && !finished {
      if found != [] {
        SomethingIsLeft(s, found, address, next);
      }
    }
  }

  lemma SomethingIsLeft(s: set<Code>, found: seq<Code>, address: Code, next: nat)
    requires Collected(s, found) && found != [] && found[|found| - 1] == address && Ready(s, address, next, false)
    ensures |found| < |s|
  {
    var d :| d in s && Agree(d, address, next) && d[next];
    BeforeAt(address, d, next);
    NotFoundYet(found, d);
    IncreasingCounts(s - {d}, found);
  }

  lemma NotFoundYet(found: seq<Code>, d: Code)
    requires Increasing(found) && found != [] && Before(found[|found| - 1], d)
    ensures d !in found
  {
    forall i | 0 <= i < |found|
      ensures found[i] != d
    {
      if i < |found| - 1 {
        BeforeIsTransitive(found[i], found[|found| - 1], d);
      }
      BeforeIsIrreflexive(d);
    }
  }

  lemma PassMakesProgress(s: set<Code>, found: seq<Code>, last: Code, bp: nat, x: Code, next: nat, finished: bool)
    requires Progress(s, found, last, bp, false) && s != {}
    requires PassInv(s, last, bp, found == [], x, CODE_BITS, next, finished)
    ensures Progress(s, found + [x], x, next, finished)
  {
    hide Ready, PassInv;
    PassFindsNext(s, last, bp, found == [], x, next, finished);
    CollectsOneMore(s, found, x);
    if finished {
      forall d | d in s
        ensures d in found + [x]
      {
        BeforeIsTotal(x, d);
        assert Collected(s, found + [x]);
        assert (found + [x])[|found|] == x;
      }
    }
  }

  lemma ProgressStarts(s: set<Code>, a: Code, bp: nat)
    requires CODE_BITS <= bp && forall k :: 0 <= k < CODE_BITS ==> !a[k]
    ensures Progress(s, [], a, bp, false)
  {
  }
}
