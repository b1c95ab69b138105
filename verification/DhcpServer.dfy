/** A DHCP server with eight addresses. Times are milliseconds; the server sees them modulo 2^32, and of an expiry it
    keeps the upper 16 of 32 bits. */
module DhcpServer {
  import opened Bytes
  import opened Ring
  import opened DhcpOptions
  import opened Wrappers

  const MAX_IP: nat := 8
  const BASE_IP: byte := 16
  const LEASE_SECONDS: nat := 86_400
  const LEASE_MS: nat := LEASE_SECONDS * 1000
  const MIN_SIZE: nat := 243

  const DISCOVER: byte := 1
  const OFFER: byte := 2
  const REQUEST: byte := 3
  const ACK: byte := 5

  const OPT_SUBNET_MASK: byte := 1
  const OPT_ROUTER: byte := 3
  const OPT_DNS: byte := 6
  const OPT_REQUESTED_IP: byte := 50
  const OPT_LEASE_TIME: byte := 51
  const OPT_MSG_TYPE: byte := 53
  const OPT_SERVER_ID: byte := 54

  type Mac = m: seq<byte> | |m| == 6 witness seq(6, _ => 0)
  type Ip = a: seq<byte> | |a| == 4 witness seq(4, _ => 0)
  const NO_MAC: Mac := [0, 0, 0, 0, 0, 0]

  datatype Lease = Lease(mac: Mac, expiry: u16)

  /** What is stored for a lease that begins at time `t`. */
  function ExpiryOf(t: nat): (e: u16) {
    ToU32(t + LEASE_MS) / 0x1_0000
  }

  /** The test for an expired lease: the signed 32-bit difference of the expiry, its lower bits set, and the clock. */
  predicate Expired(e: u16, now: nat) {
    ToU32(e * 0x1_0000 + 0xFFFF - ToU32(now)) >= 0x8000_0000
  }

  /** The moment up to which a lease that begins at `t` is certain to hold. */
  function HoldsUntil(t: nat): (u: nat)
    ensures t + 86_400_000 <= u < t + 86_400_000 + 0x1_0000
  {
    var x := t + LEASE_MS;
    x / 0x1_0000 * 0x1_0000 + 0xFFFF
  }

  lemma ExpiryIsRounded(t: nat)
    ensures ToU32(ExpiryOf(t) * 0x1_0000 + 0xFFFF) == ToU32(HoldsUntil(t))
  {
    var x := t + LEASE_MS;
    var h := ToU32(x) / 0x1_0000;
    UpperHalf(x, h);
    MultiplesVanish(h * 0x1_0000 + 0xFFFF, x / TWO_POW_32);
    assert ExpiryOf(t) == h;
  }

  lemma UpperHalf(x: nat, h: nat)
    requires h == x % TWO_POW_32 / 0x1_0000
    ensures x / 0x1_0000 * 0x1_0000 + 0xFFFF == h * 0x1_0000 + 0xFFFF + x / TWO_POW_32 * TWO_POW_32
  {
    var q, r := x / TWO_POW_32, x % TWO_POW_32;
    assert x == q * TWO_POW_32 + r;
    assert x / 0x1_0000 == q * 0x1_0000 + r / 0x1_0000;
  }

  lemma ToU32Shift(x: int, y: int)
    ensures ToU32(x - ToU32(y)) == ToU32(x - y)
    ensures ToU32(ToU32(x) - y) == ToU32(x - y)
  {
    assert x - ToU32(y) == x - y + y / TWO_POW_32 * TWO_POW_32;
    assert ToU32(x) - y == x - y - x / TWO_POW_32 * TWO_POW_32;
    MultiplesVanish(x - y, y / TWO_POW_32);
    MultiplesVanish(x - y, -(x / TWO_POW_32));
  }

  lemma MultiplesVanish(x: int, k: int)
    ensures (x + k * TWO_POW_32) % TWO_POW_32 == x % TWO_POW_32
  {
  }

  /** The test says "expired" exactly in every other stretch of 2^31 ms after the lease's end; it is wrong again
      and again on a server that runs long enough, but never while the lease holds. */
  lemma ExpiredExactly(t: nat, now: nat)
    ensures Expired(ExpiryOf(t), now) <==> ToU32(now - HoldsUntil(t) - 1) < 0x8000_0000
    ensures t <= now <= HoldsUntil(t) ==> !Expired(ExpiryOf(t), now)
    ensures HoldsUntil(t) < now <= HoldsUntil(t) + 0x8000_0000 ==> Expired(ExpiryOf(t), now)
  {
    var e := ExpiryOf(t) * 0x1_0000 + 0xFFFF;
    ExpiryIsRounded(t);
    ToU32Shift(e, now);
    ToU32Shift(HoldsUntil(t), now);
    ToU32Shift(e, now);
    assert ToU32(e - ToU32(now)) == ToU32(HoldsUntil(t) - now);
    Opposite(HoldsUntil(t) - now);
  }

  lemma Opposite(d: int)
    ensures ToU32(d) >= 0x8000_0000 <==> ToU32(-d - 1) < 0x8000_0000
  {
    assert ToU32(-d - 1) == TWO_POW_32 - 1 - ToU32(d) by {
      assert -d - 1 == (-(d / TWO_POW_32) - 1) * TWO_POW_32 + (TWO_POW_32 - 1 - ToU32(d));
      MultiplesVanish(TWO_POW_32 - 1 - ToU32(d), -(d / TWO_POW_32) - 1);
    }
  }

  lemma ExpiryFromTicks(now: nat)
    ensures ToU32(ToU32(now) + LEASE_MS) / 0x1_0000 == ExpiryOf(now)
  {
    var d: int := LEASE_MS;
    ToU32Shift(now, -d);
  }

  /** An acknowledgement that was sent. */
  datatype Ack = Ack(yi: nat, mac: Mac, time: nat)

  /** Acknowledgements of one address to two real clients. */
  predicate Rivals(a: Ack, b: Ack) {
    a.yi == b.yi && a.mac != NO_MAC && b.mac != NO_MAC && a.mac != b.mac
  }

  /** The same address is never acknowledged to two clients within a lease time. */
  ghost predicate Safe(acks: seq<Ack>) {
    forall i, j :: 0 <= i < j < |acks| && Rivals(acks[i], acks[j]) ==> acks[i].time + LEASE_MS < acks[j].time
  }

  /** What the table entry for address `y` knows about past acknowledgements of `y`: it holds the client of the last
      one, or all of them are more than a lease time old. `last` is when its client was last acknowledged. */
  ghost predicate LeaseOk(l: Lease, last: nat, y: nat, acks: seq<Ack>, now: nat) {
    forall i :: 0 <= i < |acks| && acks[i].yi == y && acks[i].mac != NO_MAC ==>
      if acks[i].mac == l.mac then acks[i].time <= last <= now && l.expiry == ExpiryOf(last)
      else acks[i].time + LEASE_MS < now
  }

  lemma TimePasses(l: Lease, last: nat, y: nat, acks: seq<Ack>, now: nat, later: nat)
    requires LeaseOk(l, last, y, acks, now) && now <= later
    ensures LeaseOk(l, last, y, acks, later)
  {
  }

  /** A lease found expired may be freed. */
  lemma FreeingIsOk(l: Lease, last: nat, y: nat, acks: seq<Ack>, now: nat)
    requires LeaseOk(l, last, y, acks, now) && Expired(l.expiry, now)
    ensures LeaseOk(l.(mac := NO_MAC), last, y, acks, now)
  {
    hide Expired, ExpiryOf, HoldsUntil;
    if last <= now {
      ExpiredExactly(last, now);
      assert HoldsUntil(last) >= last + LEASE_MS;
    }
  }

  /** An entry that is free or the client's own may be acknowledged to it. */
  lemma AckIsOk(l: Lease, last: nat, y: nat, acks: seq<Ack>, mac: Mac, now: nat)
    requires LeaseOk(l, last, y, acks, now) && (l.mac == mac || l.mac == NO_MAC)
    requires Safe(acks)
    ensures LeaseOk(Lease(mac, ExpiryOf(now)), now, y, acks + [Ack(y, mac, now)], now)
    ensures Safe(acks + [Ack(y, mac, now)])
  {
    hide ExpiryOf;
    var acks' := acks + [Ack(y, mac, now)];
    assert forall i :: 0 <= i < |acks| ==> acks'[i] == acks[i];
  }

  lemma OtherAckIsOk(l: Lease, last: nat, y: nat, acks: seq<Ack>, a: Ack, now: nat)
    requires LeaseOk(l, last, y, acks, now) && a.yi != y
    ensures LeaseOk(l, last, y, acks + [a], now)
  {
    var acks' := acks + [a];
    assert forall i :: 0 <= i < |acks| ==> acks'[i] == acks[i];
  }

  /** The lease table with its past, and the three things that ever happen to it. */
  datatype Table = Table(leases: seq<Lease>, last: seq<nat>, acks: seq<Ack>, now: nat)
  datatype Change = Pass(ms: nat) | Free(y: nat) | Grant(y: nat, mac: Mac)

  ghost predicate TableOk(t: Table) {
    && |t.leases| == |t.last| == MAX_IP
    && Safe(t.acks)
    && forall y :: 0 <= y < MAX_IP ==> LeaseOk(t.leases[y], t.last[y], y, t.acks, t.now)
  }

  /** A lease is freed only when it tests as expired, and granted only to its own client or when free. */
  function Changed(t: Table, c: Change): Table
    requires |t.leases| == |t.last| == MAX_IP
  {
    match c
    case Pass(ms) => t.(now := t.now + ms)
    case Free(y) =>
      if y < MAX_IP && Expired(t.leases[y].expiry, t.now)
      then t.(leases := t.leases[y := t.leases[y].(mac := NO_MAC)])
      else t
    case Grant(y, mac) =>
      if y < MAX_IP && (t.leases[y].mac == mac || t.leases[y].mac == NO_MAC)
      then t.(leases := t.leases[y := Lease(mac, ExpiryOf(t.now))], last := t.last[y := t.now],
              acks := t.acks + [Ack(y, mac, t.now)])
      else t
  }

  lemma ChangeKeepsOk(t: Table, c: Change)
    requires TableOk(t)
    ensures TableOk(Changed(t, c))
  {
    var t' := Changed(t, c);
    hide LeaseOk, Safe, ExpiryOf, Expired;
    forall y | 0 <= y < MAX_IP
      ensures LeaseOk(t'.leases[y], t'.last[y], y, t'.acks, t'.now)
    {
      match c
      case Pass(ms) => TimePasses(t.leases[y], t.last[y], y, t.acks, t.now, t.now + ms);
      case Free(z) =>
        if y == z && Expired(t.leases[y].expiry, t.now) {
          FreeingIsOk(t.leases[y], t.last[y], y, t.acks, t.now);
        }
      case Grant(z, mac) =>
        if t' != t {
          if y == z {
            AckIsOk(t.leases[y], t.last[y], y, t.acks, mac, t.now);
          } else {
            OtherAckIsOk(t.leases[y], t.last[y], y, t.acks, Ack(z, mac, t.now), t.now);
          }
        }
    }
    if c.Grant? && t' != t {
      AckIsOk(t.leases[c.y], t.last[c.y], c.y, t.acks, c.mac, t.now);
    }
  }

  function AllChanged(t: Table, changes: seq<Change>): (t': Table)
    requires |t.leases| == |t.last| == MAX_IP
    ensures |t'.leases| == |t'.last| == MAX_IP
  {
    if changes == [] then t
    else Changed(AllChanged(t, changes[..|changes| - 1]), changes[|changes| - 1])
  }

  function EmptyTable(now: nat): Table {
    Table(seq(MAX_IP, _ => Lease(NO_MAC, 0)), seq(MAX_IP, _ => 0), [], now)
  }

  lemma {:induction false} RunKeepsOk(now: nat, changes: seq<Change>)
    ensures TableOk(AllChanged(EmptyTable(now), changes))
  {
    if changes != [] {
      RunKeepsOk(now, changes[..|changes| - 1]);
      ChangeKeepsOk(AllChanged(EmptyTable(now), changes[..|changes| - 1]), changes[|changes| - 1]);
    }
  }

  /** Over every run, from any time on, two clients are acknowledged the same address more than a day apart, although
      the clock wraps, the expiry is cut to 16 bits, and the test for it is a signed difference. */
  lemma NoRivalsWithinALease(now: nat, changes: seq<Change>, i: nat, j: nat)
    requires var acks := AllChanged(EmptyTable(now), changes).acks; i < j < |acks| && Rivals(acks[i], acks[j])
    ensures var acks := AllChanged(EmptyTable(now), changes).acks; acks[j].time - acks[i].time > 86_400_000
  {
    RunKeepsOk(now, changes);
  }

  /** The options of a reply. */
  function ReplyOpts(kind: byte, ip: Ip, nm: Ip): (opts: seq<Opt>) {
    [Opt(OPT_MSG_TYPE, [kind]), Opt(OPT_SERVER_ID, ip), Opt(OPT_SUBNET_MASK, nm), Opt(OPT_ROUTER, ip),
     Opt(OPT_DNS, ip), Opt(OPT_LEASE_TIME, BigEndian(LEASE_SECONDS))]
  }

  /** A client that looks for option `code` finds these data. */
  predicate Tells(s: Field, code: byte, data: seq<byte>) {
    match FindFrom(s, code, 0)
    case None => false
    case Some(at) => at + 2 + |data| <= AREA && s[at + 1] == |data| && s[at + 2..at + 2 + |data|] == data
  }

  /** What a client reads in a reply: the message's kind, the server, the network, the way out, who knows names, and
      that the lease is for 86,400 seconds. */
  predicate TellsLease(s: Field, kind: byte, ip: Ip, nm: Ip) {
    && Tells(s, 53, [kind]) && Tells(s, 54, ip) && Tells(s, 1, nm) && Tells(s, 3, ip) && Tells(s, 6, ip)
    && Tells(s, 51, [0, 1, 81, 128])
  }

  lemma OptionIsTold(s: Field, kind: byte, ip: Ip, nm: Ip, k: nat)
    requires k < 6
    requires EncodeAll(ReplyOpts(kind, ip, nm)) + [OPT_END] <= s
    ensures var o := ReplyOpts(kind, ip, nm)[k]; Tells(s, o.code, o.data)
  {
    hide EncodeAll, FindFrom, FirstWith, BigEndian, DhcpOptions.Encode;
    var opts := ReplyOpts(kind, ip, nm);
    var o := opts[k];
    ReplyLength(kind, ip, nm);
    FindsWhatWasWritten(s, opts, o.code);
    FirstWithIsFirst(opts, o.code);
    assert o in opts;
  }

  /** A client that looks through a reply is told all this. */
  lemma ReplyIsReadable(s: Field, kind: byte, ip: Ip, nm: Ip)
    requires EncodeAll(ReplyOpts(kind, ip, nm)) + [OPT_END] <= s
    ensures TellsLease(s, kind, ip, nm)
  {
    assert BigEndian(LEASE_SECONDS) == [0, 1, 81, 128];
    hide EncodeAll, Tells, BigEndian;
    OptionIsTold(s, kind, ip, nm, 0);
    OptionIsTold(s, kind, ip, nm, 1);
    OptionIsTold(s, kind, ip, nm, 2);
    OptionIsTold(s, kind, ip, nm, 3);
    OptionIsTold(s, kind, ip, nm, 4);
    OptionIsTold(s, kind, ip, nm, 5);
  }

  /** The lease time that a client reads, in seconds, highest byte first. */
  function SecondsTold(s: Field): nat {
    match FindFrom(s, 51, 0)
    case None => 0
    case Some(at) =>
      if at + 6 > AREA || s[at + 1] != 4 then 0
      else
        var a: int, b: int, c: int, d: int := s[at + 2], s[at + 3], s[at + 4], s[at + 5];
        ((a * 256 + b) * 256 + c) * 256 + d
  }

  /** Over every run, an address that was acknowledged is acknowledged to nobody else within the time that the reply
      told the first client. */
  lemma LeaseToldIsKept(now: nat, changes: seq<Change>, i: nat, j: nat, s: Field, kind: byte, ip: Ip, nm: Ip)
    requires var acks := AllChanged(EmptyTable(now), changes).acks; i < j < |acks| && Rivals(acks[i], acks[j])
    requires EncodeAll(ReplyOpts(kind, ip, nm)) + [OPT_END] <= s
    ensures var acks := AllChanged(EmptyTable(now), changes).acks;
      SecondsTold(s) > 0 && acks[j].time > acks[i].time + 1000 * SecondsTold(s)
  {
    hide EncodeAll, AllChanged, SecondsTold, Tells;
    NoRivalsWithinALease(now, changes, i, j);
    ReplyIsReadable(s, kind, ip, nm);
    DayIsTold(s);
  }

  lemma DayIsTold(s: Field)
    requires Tells(s, 51, [0, 1, 81, 128])
    ensures SecondsTold(s) == 86_400
  {
    hide FindFrom;
    var at := FindFrom(s, 51, 0).value;
    var d := s[at + 2..at + 6];
    assert d[0] == s[at + 2] == 0 && d[1] == s[at + 3] == 1 && d[2] == s[at + 4] == 81 && d[3] == s[at + 5] == 128;
  }

  lemma ReplyLength(kind: byte, ip: Ip, nm: Ip)
    ensures |EncodeAll(ReplyOpts(kind, ip, nm))| == 33
  {
    hide BigEndian, EncodeAll, DhcpOptions.Encode;
    var opts := ReplyOpts(kind, ip, nm);
    EncodeNothing();
    EncodeAllAppends([], opts[0]);
    assert [] + [opts[0]] == opts[..1];
    EncodeAllAppends(opts[..1], opts[1]);
    assert opts[..1] + [opts[1]] == opts[..2];
    EncodeAllAppends(opts[..2], opts[2]);
    assert opts[..2] + [opts[2]] == opts[..3];
    EncodeAllAppends(opts[..3], opts[3]);
    assert opts[..3] + [opts[3]] == opts[..4];
    EncodeAllAppends(opts[..4], opts[4]);
    assert opts[..4] + [opts[4]] == opts[..5];
    EncodeAllAppends(opts[..5], opts[5]);
    assert opts[..5] + [opts[5]] == opts;
  }

  lemma EncodeNothing()
    ensures EncodeAll([]) == []
  {
  }

  /** A byte of the field, or behind it. */
  function ByteAt(f: Field, behind: Behind, i: nat): byte
    requires i < AREA + 5
  {
    if i < AREA then f[i] else behind[i - AREA]
  }

  /** The message type, if the message is long enough and has one. */
  function KindOf(f: Field, behind: Behind, size: nat): Option<byte> {
    if size < MIN_SIZE then None
    else
      match FindFrom(f, OPT_MSG_TYPE, 0)
      case None => None
      case Some(at) => Some(ByteAt(f, behind, at + 2))
  }

  /** The message type comes from the message alone exactly if it is not looked for, not found, or not at the very
      end. */
  lemma KindIsInFieldExactly(f: Field, size: nat)
    ensures (forall x: Behind, y: Behind :: KindOf(f, x, size) == KindOf(f, y, size)) <==>
      size < MIN_SIZE || FindFrom(f, OPT_MSG_TYPE, 0).None? || FindFrom(f, OPT_MSG_TYPE, 0).value <= 305
  {
    hide FindFrom;
    var at := FindFrom(f, OPT_MSG_TYPE, 0);
    if size >= MIN_SIZE && at.Some? && at.value > 305 {
      var x: Behind, y: Behind := [0, 0, 0, 0, 0], [1, 1, 1, 1, 1];
      assert KindOf(f, x, size) != KindOf(f, y, size);
    }
  }

  /** Two long host names and a type option that begins two bytes before the end. */
  function TypeAtTheEnd(): Field {
    seq(AREA, k => if k == 0 || k == 257 then 12 else if k == 1 then 255 else if k == 258 then 47
      else if k == 306 then OPT_MSG_TYPE else 0)
  }

  /** Such a message is a discovery or a request by whatever happens to lie behind it. */
  lemma TypeFromBehind(size: nat)
    requires size >= MIN_SIZE
    ensures KindOf(TypeAtTheEnd(), [DISCOVER, 0, 0, 0, 0], size) == Some(DISCOVER)
    ensures KindOf(TypeAtTheEnd(), [REQUEST, 0, 0, 0, 0], size) == Some(REQUEST)
  {
    var f := TypeAtTheEnd();
    assert FindFrom(f, OPT_MSG_TYPE, 306) == Some(306);
    assert FindFrom(f, OPT_MSG_TYPE, 0) == FindFrom(f, OPT_MSG_TYPE, 257) == FindFrom(f, OPT_MSG_TYPE, 306);
  }

  /** The first three bytes of the address asked for. */
  function Network(f: Field, behind: Behind, at: nat): (n: seq<byte>)
    requires at < AREA
    ensures |n| == 3
  {
    [ByteAt(f, behind, at + 2), ByteAt(f, behind, at + 3), ByteAt(f, behind, at + 4)]
  }

  /** The table entry of the address that is asked for, if the server has that address. */
  function Requested(f: Field, behind: Behind, ip: Ip): (r: Option<nat>)
    ensures r.Some? ==> r.value < MAX_IP
  {
    match FindFrom(f, OPT_REQUESTED_IP, 0)
    case None => None
    case Some(at) =>
      var last: int := ByteAt(f, behind, at + 5);
      if Network(f, behind, at) == ip[..3] && BASE_IP <= last < BASE_IP + MAX_IP then Some(last - BASE_IP)
      else None
  }

  /** What the message itself says of the address is already not the server's network. */
  predicate ForeignInField(f: Field, at: nat, ip: Ip) {
    exists k :: 0 <= k < 3 && at + 2 + k < AREA && f[at + 2 + k] != ip[k]
  }

  /** So does the address asked for, exactly if there is none, it is not at the very end, or enough of it is in the
      message to see that it is not the server's. */
  lemma RequestedIsInFieldExactly(f: Field, ip: Ip)
    ensures (forall x: Behind, y: Behind :: Requested(f, x, ip) == Requested(f, y, ip)) <==>
      var at := FindFrom(f, OPT_REQUESTED_IP, 0);
      at.None? || at.value <= 302 || ForeignInField(f, at.value, ip)
  {
    hide FindFrom;
    var found := FindFrom(f, OPT_REQUESTED_IP, 0);
    if found.Some? && found.value > 302 {
      var at := found.value;
      if ForeignInField(f, at, ip) {
        forall x: Behind
          ensures Requested(f, x, ip) == None
        {
          var k :| 0 <= k < 3 && at + 2 + k < AREA && f[at + 2 + k] != ip[k];
          assert Network(f, x, at)[k] != ip[..3][k];
        }
      } else {
        var x, y := AddressBehind(at, ip, BASE_IP), AddressBehind(at, ip, 0);
        OwnAddress(f, at, ip, BASE_IP);
        OwnAddress(f, at, ip, 0);
        assert Requested(f, x, ip) != Requested(f, y, ip);
      }
    }
  }

  /** A request, two long host names, and an address of the server's network whose last byte is behind the field. */
  function AddressAtTheEnd(ip: Ip): Field {
    seq(AREA, k => if k == 0 then OPT_MSG_TYPE else if k == 1 then 1 else if k == 2 then REQUEST
      else if k == 3 || k == 260 then 12 else if k == 4 then 255 else if k == 261 then 41
      else if k == 303 then OPT_REQUESTED_IP else if k == 304 then 4
      else if 305 <= k < AREA then ip[k - 305] else 0)
  }

  /** Such a message is a request, for one address or another by whatever happens to lie behind it. */
  lemma AddressFromBehind(ip: Ip, behind: Behind, size: nat)
    requires size >= MIN_SIZE
    ensures KindOf(AddressAtTheEnd(ip), behind, size) == Some(REQUEST)
    ensures Requested(AddressAtTheEnd(ip), behind, ip) ==
      if BASE_IP <= behind[0] < BASE_IP + MAX_IP then Some(behind[0] - BASE_IP) else None
  {
    var f := AddressAtTheEnd(ip);
    assert FindFrom(f, OPT_MSG_TYPE, 0) == Some(0);
    assert FindFrom(f, OPT_REQUESTED_IP, 303) == Some(303);
    assert FindFrom(f, OPT_REQUESTED_IP, 260) == FindFrom(f, OPT_REQUESTED_IP, 303);
    assert FindFrom(f, OPT_REQUESTED_IP, 3) == FindFrom(f, OPT_REQUESTED_IP, 260);
    assert FindFrom(f, OPT_REQUESTED_IP, 0) == FindFrom(f, OPT_REQUESTED_IP, 3);
    assert Network(f, behind, 303) == ip[..3];
  }

  /** What a client has written is understood, whatever lies behind the field: its kind, if the message has one and is
      long enough, and which of the server's eight addresses it asks for. */
  lemma ClientIsUnderstood(f: Field, behind: Behind, opts: seq<Opt>, size: nat, ip: Ip)
    requires |EncodeAll(opts)| < AREA && EncodeAll(opts) + [OPT_END] <= f
    requires forall o :: o in opts ==> o.code != OPT_END
    ensures match FirstWith(opts, 53)
      case None => KindOf(f, behind, size) == None
      case Some((o, _)) => |o.data| > 0 ==> KindOf(f, behind, size) == if size >= 243 then Some(o.data[0]) else None
    ensures match FirstWith(opts, 50)
      case None => Requested(f, behind, ip) == None
      case Some((o, _)) => |o.data| == 4 ==>
        Requested(f, behind, ip) ==
          if o.data[..3] == ip[..3] && 16 <= o.data[3] < 24 then Some(o.data[3] - 16) else None
  {
    hide EncodeAll, FindFrom, FirstWith, KindOf, Requested;
    FindsWhatWasWritten(f, opts, 53);
    FindsWhatWasWritten(f, opts, 50);
    if FirstWith(opts, 53).Some? {
      var (o, at) := FirstWith(opts, 53).value;
      KindInField(f, behind, at, o.data, size);
    } else {
      NoKindInField(f, behind, size);
    }
    if FirstWith(opts, 50).Some? {
      var (o, at) := FirstWith(opts, 50).value;
      if |o.data| == 4 {
        AddressIsRequested(f, behind, at, o.data, ip);
      }
    } else {
      NoAddressInField(f, behind, ip);
    }
  }

  lemma KindInField(f: Field, behind: Behind, at: nat, data: seq<byte>, size: nat)
    requires FindFrom(f, 53, 0) == Some(at) && at + 2 + |data| <= AREA && f[at + 2..at + 2 + |data|] == data
    ensures |data| > 0 ==> KindOf(f, behind, size) == if size >= 243 then Some(data[0]) else None
  {
    hide FindFrom;
    if |data| > 0 {
      assert f[at + 2] == f[at + 2..at + 2 + |data|][0];
    }
  }

  lemma NoKindInField(f: Field, behind: Behind, size: nat)
    requires FindFrom(f, 53, 0) == None
    ensures KindOf(f, behind, size) == None
  {
  }

  lemma NoAddressInField(f: Field, behind: Behind, ip: Ip)
    requires FindFrom(f, 50, 0) == None
    ensures Requested(f, behind, ip) == None
  {
  }

  lemma AddressIsRequested(f: Field, behind: Behind, at: nat, a: seq<byte>, ip: Ip)
    requires FindFrom(f, 50, 0) == Some(at) && at + 6 <= AREA && |a| == 4 && f[at + 2..at + 6] == a
    ensures Requested(f, behind, ip) == if a[..3] == ip[..3] && 16 <= a[3] < 24 then Some(a[3] - 16) else None
  {
    hide FindFrom, Network, ByteAt;
    AddressInField(f, behind, at, a);
  }

  lemma AddressInField(f: Field, behind: Behind, at: nat, a: seq<byte>)
    requires at + 6 <= AREA && |a| == 4 && f[at + 2..at + 6] == a
    ensures Network(f, behind, at) == a[..3] && ByteAt(f, behind, at + 5) == a[3]
  {
    assert a[0] == f[at + 2] && a[1] == f[at + 3] && a[2] == f[at + 4] && a[3] == f[at + 5];
  }

  /** Bytes that complete the address of an option at `at` to one in the server's network. */
  function AddressBehind(at: nat, ip: Ip, last: byte): Behind {
    seq(5, j requires 0 <= j < 5 =>
      var i := AREA + j;
      if i == at + 5 then last else if at + 2 <= i < at + 5 then ip[i - at - 2] else 0)
  }

  lemma OwnAddress(f: Field, at: nat, ip: Ip, last: byte)
    requires 302 < at < AREA && !ForeignInField(f, at, ip)
    ensures Network(f, AddressBehind(at, ip, last), at) == ip[..3]
    ensures ByteAt(f, AddressBehind(at, ip, last), at + 5) == last
  {
    forall k | 0 <= k < 3
      ensures Network(f, AddressBehind(at, ip, last), at)[k] == ip[k]
    {
      assert at + 2 + k < AREA ==> f[at + 2 + k] == ip[k];
    }
  }

  /** A message while it is processed; the reply is built in the same place. */
  class Message {
    const chaddr: Mac
    const options: array<byte>
    const behind: Behind
    var op: byte
    var yiaddr: Ip

    constructor (chaddr: Mac, options: array<byte>, behind: Behind, op: byte, yiaddr: Ip)
      ensures this.chaddr == chaddr && this.options == options && this.behind == behind
      ensures this.op == op && this.yiaddr == yiaddr
    {
      this.chaddr, this.options, this.behind, this.op, this.yiaddr := chaddr, options, behind, op, yiaddr;
    }

    /** A byte of the options, or of what lies behind them. */
    method ReadByte(i: nat) returns (b: byte)
      requires options.Length == AREA && i < AREA + 5
      ensures b == ByteAt(options[..], behind, i)
    {
      b := if i < AREA then options[i] else behind[i - AREA];
    }
  }

  /** At some moment between two, the clock being read then, an entry tests as expired. */
  ghost predicate SeenExpired(e: u16, from: nat, to: nat) {
    exists t: nat :: from <= t <= to && Expired(e, t)
  }

  ghost predicate SeenHeld(e: u16, from: nat, to: nat) {
    exists t: nat :: from <= t <= to && !Expired(e, t)
  }

  /** Only entries that test as expired are cleared. */
  ghost predicate Cleared(before: Lease, after: Lease, from: nat, to: nat) {
    after == before.(mac := NO_MAC) && SeenExpired(before.expiry, from, to)
  }

  /** What a discovery does to the table: a client with an entry is offered the first such. Else the first entry that is
      free or tests as expired is offered and cleared, all entries before it being taken and held, and no other entry
      changes. When there is none (`yi` is MAX_IP), all entries are taken and held. */
  ghost predicate Offer(before: seq<Lease>, after: seq<Lease>, from: nat, to: nat, mac: Mac, yi: nat)
    requires |before| == |after| == MAX_IP
  {
    && yi <= MAX_IP
    && (forall k :: 0 <= k < MAX_IP ==> after[k] == before[k] || Cleared(before[k], after[k], from, to))
    && if OwnEntry(before, mac) then
         && yi < MAX_IP && before[yi].mac == mac && after[yi] == before[yi]
         && forall k :: 0 <= k < yi ==> before[k].mac != mac
       else
         && (forall k :: 0 <= k < MAX_IP && k != yi ==> after[k] == before[k])
         && (forall k :: 0 <= k < yi ==> before[k].mac != NO_MAC && SeenHeld(before[k].expiry, from, to))
         && (yi < MAX_IP ==> after[yi].mac == NO_MAC)
  }

  predicate OwnEntry(leases: seq<Lease>, mac: Mac) {
    exists k :: 0 <= k < |leases| && leases[k].mac == mac
  }

  /** A discovery that has looked at `i` entries. */
  ghost predicate Scanned(before: seq<Lease>, after: seq<Lease>, from: nat, to: nat, mac: Mac, yi: nat, i: nat)
    requires |before| == |after| == MAX_IP && i <= MAX_IP
  {
    && yi <= MAX_IP
    && (yi < MAX_IP ==>
      && yi < i && after[yi].mac == NO_MAC
      && (after[yi] == before[yi] || Cleared(before[yi], after[yi], from, to)))
    && (forall k :: 0 <= k < MAX_IP && k != yi ==> after[k] == before[k])
    && (forall k :: 0 <= k < i ==> before[k].mac != mac)
    && forall k :: 0 <= k < Min(i, yi) ==> before[k].mac != NO_MAC && SeenHeld(before[k].expiry, from, to)
  }

  lemma ScanStarts(before: seq<Lease>, from: nat, mac: Mac)
    requires |before| == MAX_IP
    ensures Scanned(before, before, from, from, mac, MAX_IP, 0)
  {
  }

  lemma ScanPasses(before: seq<Lease>, after: seq<Lease>, from: nat, to: nat, mac: Mac, yi: nat, i: nat)
    requires |before| == |after| == MAX_IP && i < MAX_IP && Scanned(before, after, from, to, mac, yi, i)
    requires yi < i && after[i].mac != mac
    ensures Scanned(before, after, from, to, mac, yi, i + 1)
  {
    hide Cleared, SeenHeld;
  }

  /** The clock is read, and the entry is found to be free, expired, both or neither. */
  lemma ScanTests(before: seq<Lease>, after: seq<Lease>, from: nat, to: nat, now: nat, mac: Mac, i: nat)
    requires |before| == |after| == MAX_IP && i < MAX_IP && Scanned(before, after, from, to, mac, MAX_IP, i)
    requires after[i].mac != mac && from <= to <= now
    ensures
      var expired := Expired(after[i].expiry, now);
      Scanned(before, if expired then after[i := after[i].(mac := NO_MAC)] else after, from, now, mac,
              if expired || after[i].mac == NO_MAC then i else MAX_IP, i + 1)
  {
    hide Expired, SeenHeld, SeenExpired;
    SeenNow(after[i].expiry, from, now);
    forall k | 0 <= k < i
      ensures SeenHeld(before[k].expiry, from, now)
    {
      HeldStays(before[k].expiry, from, to, now);
    }
  }

  lemma SeenNow(e: u16, from: nat, now: nat)
    requires from <= now
    ensures if Expired(e, now) then SeenExpired(e, from, now) else SeenHeld(e, from, now)
  {
    hide Expired;
  }

  lemma TestIsExpired(e: u16, now: nat)
    ensures Expired(e, now) <==> ToU32(e * 0x1_0000 + 0xFFFF - ToU32(now)) >= 0x8000_0000
  {
  }

  lemma HeldStays(e: u16, from: nat, to: nat, later: nat)
    requires SeenHeld(e, from, to) && to <= later
    ensures SeenHeld(e, from, later)
  {
    hide Expired;
  }

  lemma ScanFinds(before: seq<Lease>, after: seq<Lease>, from: nat, to: nat, mac: Mac, i: nat)
    requires |before| == |after| == MAX_IP && i < MAX_IP && after[i].mac == mac
    requires exists yi: nat :: (yi < i || yi == MAX_IP) && Scanned(before, after, from, to, mac, yi, i)
    ensures Offer(before, after, from, to, mac, i)
  {
    hide Cleared, SeenHeld;
    var yi: nat :| (yi < i || yi == MAX_IP) && Scanned(before, after, from, to, mac, yi, i);
    assert before[i] == after[i];
  }

  lemma ScanEnds(before: seq<Lease>, after: seq<Lease>, from: nat, to: nat, mac: Mac, yi: nat)
    requires |before| == |after| == MAX_IP && yi <= MAX_IP && Scanned(before, after, from, to, mac, yi, MAX_IP)
    ensures Offer(before, after, from, to, mac, yi)
  {
    hide Cleared, SeenHeld;
  }

  /** As long as some lease ended less than 2^31 ms ago and has not been renewed, there is an address to offer. */
  lemma EndedLeaseIsReused(before: seq<Lease>, after: seq<Lease>, from: nat, to: nat, mac: Mac, yi: nat, k: nat, t: nat)
    requires |before| == |after| == MAX_IP && k < MAX_IP && Offer(before, after, from, to, mac, yi)
    requires before[k].expiry == ExpiryOf(t) && HoldsUntil(t) < from <= to <= HoldsUntil(t) + 0x8000_0000
    ensures yi < MAX_IP
  {
    hide ExpiryOf, HoldsUntil, Expired;
    if yi == MAX_IP && !OwnEntry(before, mac) {
      var now: nat :| from <= now <= to && !Expired(before[k].expiry, now);
      ExpiredExactly(t, now);
    }
  }

  /** A lease that is still running when a discovery ends is not given to another client. */
  lemma RunningLeaseIsKept(before: seq<Lease>, after: seq<Lease>, from: nat, to: nat, mac: Mac, yi: nat, k: nat, t: nat)
    requires |before| == |after| == MAX_IP && k < MAX_IP && Offer(before, after, from, to, mac, yi)
    requires before[k].expiry == ExpiryOf(t) && t <= from && to <= HoldsUntil(t)
    requires before[k].mac != NO_MAC && before[k].mac != mac
    ensures yi != k && after[k] == before[k]
  {
    hide ExpiryOf, HoldsUntil, Expired;
    if yi == k || after[k] != before[k] {
      var now: nat :| from <= now <= to && Expired(before[k].expiry, now);
      ExpiredExactly(t, now);
    }
  }

  class Server {
    const ip: Ip
    const nm: Ip
    const leases: array<Lease>
    var clock: nat
    ghost var acks: seq<Ack>
    ghost var last: seq<nat>

    ghost predicate Valid()
      reads this, leases
    {
      leases.Length == MAX_IP && TableOk(Table(leases[..], last, acks, clock))
    }

    function Macs(): (m: seq<Mac>)
      reads leases
      ensures |m| == leases.Length && forall k :: 0 <= k < |m| ==> m[k] == leases[k].mac
    {
      seq(leases.Length, k requires 0 <= k < leases.Length reads leases => leases[k].mac)
    }

    constructor (ip: Ip, nm: Ip, leases: array<Lease>)
      requires leases.Length == MAX_IP
      modifies leases
      ensures Valid() && acks == [] && this.ip == ip && this.nm == nm && this.leases == leases
      ensures forall y :: 0 <= y < MAX_IP ==> leases[y] == Lease(NO_MAC, 0)
    {
      this.ip, this.nm, this.leases := ip, nm, leases;
      clock, acks, last := 0, [], seq(MAX_IP, _ => 0);
      new;
      for y := 0 to MAX_IP
        invariant acks == [] && |last| == MAX_IP
        invariant forall k :: 0 <= k < y ==> leases[k] == Lease(NO_MAC, 0)
      {
        leases[y] := Lease(NO_MAC, 0);
      }
    }

    /** Reads the clock; any time may have passed. */
    method Ticks() returns (t: u32)
      requires Valid()
      modifies this`clock
      ensures Valid() && clock >= old(clock) && t == ToU32(clock)
    {
      var passed: nat :| passed >= 0;
      ChangeKeepsOk(Table(leases[..], last, acks, clock), Pass(passed));
      hide TableOk;
      clock := clock + passed;
      t := ToU32(clock);
    }

    /** Looks for an address to offer; MAX_IP when there is none. */
    method Discover(mac: Mac) returns (yi: nat)
      requires Valid()
      modifies this`clock, leases
      ensures Valid() && clock >= old(clock) && yi <= MAX_IP
      ensures Offer(old(leases[..]), leases[..], old(clock), clock, mac, yi)
    {
      hide TableOk, Expired, Scanned, Offer;
      ghost var before, from := leases[..], clock;
      yi := MAX_IP;
      ScanStarts(before, from, mac);
      for i := 0 to MAX_IP
        invariant Valid() && clock >= from && (yi < i || yi == MAX_IP)
        invariant Scanned(before, leases[..], from, clock, mac, yi, i)
      {
        ghost var after, to := leases[..], clock;
        if leases[i].mac == mac {
          yi := i;
          ScanFinds(before, after, from, to, mac, i);
          return;
        }
        if yi == MAX_IP {
          var expiry := leases[i].expiry * 0x1_0000 + 0xFFFF;
          if leases[i].mac == NO_MAC {
            yi := i;
          }
          var now := Ticks();
          ScanTests(before, after, from, to, clock, mac, i);
          TestIsExpired(leases[i].expiry, clock);
          if ToU32(expiry - now) >= 0x8000_0000 {
            Free(i);
            yi := i;
          }
        } else {
          ScanPasses(before, after, from, to, mac, yi, i);
        }
      }
      ScanEnds(before, leases[..], from, clock, mac, yi);
    }

    method Free(y: nat)
      requires Valid() && y < MAX_IP
      requires ToU32(leases[y].expiry * 0x1_0000 + 0xFFFF - ToU32(clock)) >= 0x8000_0000
      modifies leases
      ensures Valid()
      ensures leases[..] == old(leases[..])[y := old(leases[y]).(mac := NO_MAC)]
    {
      ChangeKeepsOk(Table(leases[..], last, acks, clock), Change.Free(y));
      hide TableOk;
      leases[y] := leases[y].(mac := NO_MAC);
    }

    /** Acknowledges address `yi` to the client if the address is free or the client's already. */
    method Request(mac: Mac, yi: nat) returns (ok: bool)
      requires Valid() && yi < MAX_IP
      modifies this`clock, this`acks, this`last, leases
      ensures Valid() && clock >= old(clock)
      ensures ok <==> old(leases[yi]).mac == mac || old(leases[yi]).mac == NO_MAC
      ensures ok ==> leases[..] == old(leases[..])[yi := Lease(mac, ExpiryOf(clock))]
      ensures ok ==> acks == old(acks) + [Ack(yi, mac, clock)]
      ensures !ok ==> leases[..] == old(leases[..]) && acks == old(acks)
    {
      hide LeaseOk, Safe, ExpiryOf;
      if leases[yi].mac != mac && leases[yi].mac != NO_MAC {
        return false;
      }
      var now := Ticks();
      ChangeKeepsOk(Table(leases[..], last, acks, clock), Grant(yi, mac));
      hide TableOk;
      ExpiryFromTicks(clock);
      leases[yi] := Lease(mac, ToU32(now + LEASE_MS) / 0x1_0000);
      acks := acks + [Ack(yi, mac, clock)];
      last := last[yi := clock];
      ok := true;
    }

    /** Writes the options of a reply over those of the message; returns their length. */
    method WriteReply(opt: array<byte>, kind: byte) returns (n: nat)
      requires opt.Length == AREA
      modifies opt
      ensures n == |EncodeAll(ReplyOpts(kind, ip, nm))| + 1
      ensures EncodeAll(ReplyOpts(kind, ip, nm)) + [OPT_END] <= opt[..] && TellsLease(opt[..], kind, ip, nm)
    {
      hide Patched, TellsLease, EncodeAll, DhcpOptions.Encode, BigEndian;
      ghost var r := ReplyOpts(kind, ip, nm);
      EncodeNothing();
      WriteAppends(opt[..], [], r[0]);
      var end := OptWriteU8(opt, 0, OPT_MSG_TYPE, kind);
      assert [] + [r[0]] == [r[0]];
      WriteAppends(opt[..], [r[0]], r[1]);
      end := OptWriteN(opt, end, OPT_SERVER_ID, ip);
      assert [r[0]] + [r[1]] == [r[0], r[1]];
      WriteAppends(opt[..], [r[0], r[1]], r[2]);
      end := OptWriteN(opt, end, OPT_SUBNET_MASK, nm);
      assert [r[0], r[1]] + [r[2]] == [r[0], r[1], r[2]];
      WriteAppends(opt[..], [r[0], r[1], r[2]], r[3]);
      end := OptWriteN(opt, end, OPT_ROUTER, ip);
      assert [r[0], r[1], r[2]] + [r[3]] == [r[0], r[1], r[2], r[3]];
      WriteAppends(opt[..], [r[0], r[1], r[2], r[3]], r[4]);
      end := OptWriteN(opt, end, OPT_DNS, ip);
      assert [r[0], r[1], r[2], r[3]] + [r[4]] == [r[0], r[1], r[2], r[3], r[4]];
      WriteAppends(opt[..], [r[0], r[1], r[2], r[3], r[4]], r[5]);
      end := OptWriteU32(opt, end, OPT_LEASE_TIME, LEASE_SECONDS);
      assert [r[0], r[1], r[2], r[3], r[4]] + [r[5]] == r;
      ghost var before := opt[..];
      opt[end] := OPT_END;
      assert opt[..] == before[end := OPT_END];
      n := end + 1;
      ReplyIsReadable(opt[..], kind, ip, nm);
    }

    /** The table entry of the address that a message asks for. */
    method FindRequested(m: Message) returns (y: Option<nat>)
      requires m.options.Length == AREA
      ensures y == Requested(m.options[..], m.behind, ip)
    {
      hide FindFrom, ByteAt;
      var o;
      ghost var looks;
      o, looks := OptFind(m.options, m.behind, OPT_REQUESTED_IP);
      if o.None? {
        return None;
      }
      var a := m.ReadByte(o.value + 2);
      var b := m.ReadByte(o.value + 3);
      var c := m.ReadByte(o.value + 4);
      if [a, b, c] != ip[..3] {
        return None;
      }
      var last: int := m.ReadByte(o.value + 5);
      var yi := (last - BASE_IP) % 0x100;
      if yi >= MAX_IP {
        return None;
      }
      y := Some(yi);
    }

    /** Handles one message; returns the length of the options in the reply, or None when there is no reply. */
    method Process(m: Message, size: nat) returns (reply: Option<nat>)
      requires Valid() && m.options.Length == AREA
      modifies this`clock, this`acks, this`last, leases, m, m.options
      ensures Valid() && clock >= old(clock)
      ensures reply.Some? ==> m.op == 2 && reply.value == |EncodeAll(ReplyOpts(ACK, ip, nm))| + 1
      ensures reply.Some? ==> m.yiaddr[..3] == ip[..3] && 16 <= m.yiaddr[3] < 24
      ensures match KindOf(old(m.options[..]), m.behind, size)
        case Some(kind) =>
          if kind == 1 then
            && acks == old(acks)
            && Offer(old(leases[..]), leases[..], old(clock), clock, m.chaddr,
                if reply.Some? then m.yiaddr[3] - 16 else 8)
            && (reply.Some? ==>
              EncodeAll(ReplyOpts(OFFER, ip, nm)) + [OPT_END] <= m.options[..] && TellsLease(m.options[..], 2, ip, nm))
          else if kind == 3 then
            var y := Requested(old(m.options[..]), m.behind, ip);
            if y.Some? && (old(Macs())[y.value] == m.chaddr || old(Macs())[y.value] == NO_MAC) then
              && reply.Some? && m.yiaddr[3] == 16 + y.value
              && leases[..] == old(leases[..])[y.value := Lease(m.chaddr, ExpiryOf(clock))]
              && acks == old(acks) + [Ack(y.value, m.chaddr, clock)]
              && EncodeAll(ReplyOpts(ACK, ip, nm)) + [OPT_END] <= m.options[..] && TellsLease(m.options[..], 5, ip, nm)
            else reply.None? && acks == old(acks) && leases[..] == old(leases[..])
          else reply.None? && acks == old(acks) && leases[..] == old(leases[..])
        case None => reply.None? && acks == old(acks) && leases[..] == old(leases[..])
    {
      hide TableOk, ExpiryOf, EncodeAll, ReplyOpts, FindFrom, Requested, ByteAt, Offer, TellsLease;
      ReplyLength(OFFER, ip, nm);
      ReplyLength(ACK, ip, nm);
      if size < MIN_SIZE {
        return None;
      }
      m.op := OFFER;
      m.yiaddr := ip;
      var msgType;
      ghost var looks;
      msgType, looks := OptFind(m.options, m.behind, OPT_MSG_TYPE);
      if msgType.None? {
        return None;
      }
      var kind := m.ReadByte(msgType.value + 2);
      if kind == DISCOVER {
        var yi := Discover(m.chaddr);
        if yi == MAX_IP {
          return None;
        }
        m.yiaddr := m.yiaddr[3 := BASE_IP + yi];
        var n := WriteReply(m.options, OFFER);
        reply := Some(n);
      } else if kind == REQUEST {
        var y := FindRequested(m);
        if y.None? {
          return None;
        }
        var yi := y.value;
        var ok := Request(m.chaddr, yi);
        if !ok {
          return None;
        }
        m.yiaddr := m.yiaddr[3 := BASE_IP + yi];
        var n := WriteReply(m.options, ACK);
        reply := Some(n);
      } else {
        return None;
      }
    }
  }
}
