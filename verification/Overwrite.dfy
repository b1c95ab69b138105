/** Writing with overwrite: old bytes give way when the ring is full. */
module Overwrite {
  import opened Bytes
  import opened Ring

  /** The last `cap` elements. */
  function LastOf(s: seq<byte>, cap: nat): (r: seq<byte>)
    ensures |r| == Min(|s|, cap)
  {
    if |s| <= cap then s else s[|s| - cap..]
  }

  /** The rounds that follow the first wrap-around. Each takes the buffer to be one byte shorter than it is.
      The results are the buffer and the write offset. */
  function LaterRounds(b: seq<byte>, d: seq<byte>): (r: (seq<byte>, nat))
    requires 2 <= |b|
    ensures |r.0| == |b| && r.1 < |b| - 1
    decreases |d|
  {
    if |d| == 0 then (b, 0)
    else if |d| < |b| - 1 then (Patched(b, 0, d), |d|)
    else LaterRounds(Patched(b, 0, d[..|b| - 1]), d[|b| - 1..])
  }

  function Overwritten(b: seq<byte>, wr: nat, d: seq<byte>): (r: (seq<byte>, nat))
    requires 2 <= |b| && wr < |b|
    ensures |r.0| == |b| && r.1 < |b|
  {
    var rem := |b| - wr;
    if |d| < rem then (Patched(b, wr, d), wr + |d|)
    else LaterRounds(Patched(b, wr, d[..rem]), d[rem..])
  }

  /** `x` with `size` taken off as often as it goes. */
  function Reduced(x: nat, size: nat): (r: nat)
    requires 0 < size
    ensures r < size && (x < size ==> r == x)
  {
    if x < size then x else Reduced(x - size, size)
  }

  lemma {:induction false} ReducedNext(x: nat, size: nat)
    requires 0 < size
    ensures Reduced(x + 1, size) == if Reduced(x, size) + 1 == size then 0 else Reduced(x, size) + 1
  {
    if size <= x {
      ReducedNext(x - size, size);
    }
  }

  lemma {:induction false} ReducedIsMod(x: nat, size: nat)
    requires 0 < size
    ensures Reduced(x, size) == x % size
    decreases x
  {
    if size <= x {
      ReducedIsMod(x - size, size);
      LessOne(x, size);
    } else {
      SmallMod(x, size);
    }
  }

  lemma SmallMod(x: nat, size: nat)
    requires x < size
    ensures x % size == x && x / size == 0
  {
  }

  lemma LessOne(x: nat, size: nat)
    requires 0 < size <= x
    ensures (x - size) % size == x % size
  {
    var q, r := x / size, x % size;
    assert x == q * size + r;
    UniqueMod(x - size, size, q - 1, r);
  }

  lemma UniqueMod(x: int, size: nat, q: int, r: nat)
    requires x == q * size + r && r < size
    ensures x % size == r
  {
    var d := x / size;
    var m := x % size;
    assert x == d * size + m;
    SameMultiple(d, q, size, m, r);
  }

  lemma SameMultiple(d: int, q: int, size: nat, m: nat, r: nat)
    requires d * size + m == q * size + r && m < size && r < size
    ensures m == r
  {
    Distributes(d, q, size);
    if d < q {
      AtLeastOnce(q - d, size);
    } else if q < d {
      AtLeastOnce(d - q, size);
      Distributes(q, d, size);
    }
  }

  lemma Distributes(d: int, q: int, n: nat)
    ensures (q - d) * n == q * n - d * n
  {
  }

  lemma AtLeastOnce(k: nat, n: nat)
    requires k > 0
    ensures k * n >= n
  {
  }

  /** The read offset is pushed ahead of the bytes that get overwritten. */
  function PushedRead(rd: nat, wr: nat, n: nat, size: nat): (r: nat)
    requires rd < size && wr < size
    ensures r < size
  {
    var space := Space(rd, wr, size);
    if n <= space then rd else Reduced(rd + n - space, size)
  }

  /** The ring then holds the newest bytes, as many as it has room for. */
  ghost predicate KeepsNewest(b: seq<byte>, rd: nat, wr: nat, d: seq<byte>)
    requires 2 <= |b| && rd < |b| && wr < |b|
  {
    var (b', wr') := Overwritten(b, wr, d);
    Held(b', PushedRead(rd, wr, |d|, |b|), wr') == LastOf(Held(b, rd, wr) + d, |b| - 1)
  }

  lemma OverwrittenIsStored(b: seq<byte>, wr: nat, d: seq<byte>)
    requires 2 <= |b| && wr < |b| && |d| < |b|
    ensures Overwritten(b, wr, d) == (Stored(b, wr, d), At(wr, |d|, |b|))
  {
    hide Patched, Stored;
    StoredInChunks(b, wr, d);
    var rem := |b| - wr;
    if rem <= |d| && d[rem..] == [] {
      PatchedNothing(Patched(b, wr, d[..rem]), 0);
    }
  }

  lemma ShortKeepsNewest(b: seq<byte>, rd: nat, wr: nat, d: seq<byte>)
    requires 2 <= |b| && rd < |b| && wr < |b| && |d| < |b|
    ensures KeepsNewest(b, rd, wr, d)
  {
    hide Held, Stored, Overwritten;
    OverwrittenIsStored(b, wr, d);
    var space := Space(rd, wr, |b|);
    if |d| <= space {
      StoreAppends(b, rd, wr, d);
    } else {
      var k := |d| - space;
      assert PushedRead(rd, wr, |d|, |b|) == At(rd, k, |b|);
      var rd' := At(rd, k, |b|);
      ReadDrops(b, rd, wr, k);
      StoreAppends(b, rd', wr, d);
      var q := Held(b, rd, wr);
      assert (q + d)[k..] == q[k..] + d;
    }
  }

  lemma LongKeepsNewest(b: seq<byte>, rd: nat, wr: nat, d: seq<byte>)
    requires 2 <= |b| && rd < |b| && wr < |b| && |b| <= |d| && wr + |d| <= 2 * |b| - 2
    ensures KeepsNewest(b, rd, wr, d)
  {
    var size := |b|;
    var rem, m := size - wr, wr + |d| - size;
    TwiceIsOverwritten(b, wr, d);
    TwicePatchedTail(b, wr, d);
    assert PushedRead(rd, wr, |d|, size) == m + 1 by {
      PushedAhead(rd, wr, |d|, size);
      ReducedNext(m, size);
    }
    hide Patched, Overwritten, PushedRead;
    var q := Held(b, rd, wr);
    assert (q + d)[|q + d| - (size - 1)..] == d[|d| - (size - 1)..];
  }

  lemma TwiceIsOverwritten(b: seq<byte>, wr: nat, d: seq<byte>)
    requires 2 <= |b| && wr < |b| <= |d| && wr + |d| <= 2 * |b| - 2
    ensures
      var rem := |b| - wr;
      Overwritten(b, wr, d) == (Patched(Patched(b, wr, d[..rem]), 0, d[rem..]), wr + |d| - |b|)
  {
    hide Patched;
    var rem := |b| - wr;
    if |d| == rem {
      assert d[rem..] == [];
      PatchedNothing(Patched(b, wr, d[..rem]), 0);
    }
  }

  lemma TwicePatchedTail(b: seq<byte>, wr: nat, d: seq<byte>)
    requires wr < |b| <= |d| && wr + |d| <= 2 * |b| - 2
    ensures
      var rem, m := |b| - wr, wr + |d| - |b|;
      var b2 := Patched(Patched(b, wr, d[..rem]), 0, d[rem..]);
      Held(b2, m + 1, m) == d[|d| - (|b| - 1)..]
  {
    var rem, m := |b| - wr, wr + |d| - |b|;
    var b1 := Patched(b, wr, d[..rem]);
    assert b1 == b[..wr] + d[..rem];
    var b2 := Patched(b1, 0, d[rem..]);
    assert b2 == d[rem..] + b1[m..];
    assert b2[m + 1..] == d[m + 1 - wr..rem];
    assert b2[..m] == d[rem..];
  }

  /** Later rounds never reach the last slot, and stop where the length leaves them. */
  lemma {:induction false} LaterRoundsEnd(b: seq<byte>, d: seq<byte>)
    requires 2 <= |b|
    ensures LaterRounds(b, d).1 == Reduced(|d|, |b| - 1)
    ensures LaterRounds(b, d).0[|b| - 1] == b[|b| - 1]
    decreases |d|
  {
    var c := |b| - 1;
    if c <= |d| {
      LaterRoundsEnd(Patched(b, 0, d[..c]), d[c..]);
    }
  }

  lemma ModBounds(x: nat, c: nat, r: nat)
    requires 0 < c && r == x % c
    ensures r < c && r <= x && (x < c ==> r == x) && (c <= x ==> r + c <= x)
  {
    if c <= x {
      LessOne(x, c);
      assert (x - c) % c <= x - c;
    } else {
      SmallMod(x, c);
    }
  }

  lemma LaterRoundsStep(b: seq<byte>, d: seq<byte>)
    requires 2 <= |b| && |b| - 1 <= |d|
    ensures var c := |b| - 1; LaterRounds(b, d) == LaterRounds(Patched(b, 0, d[..c]), d[c..])
    ensures forall k :: 0 <= k < |b| - 1 ==> Patched(b, 0, d[..|b| - 1])[k] == d[k]
  {
  }

  /** What the later rounds leave in a slot: the last byte that came to it. `r` is how far the last round goes. */
  lemma {:induction false} LaterRoundsAt(b: seq<byte>, d: seq<byte>, k: nat, r: nat)
    requires 2 <= |b| && k < |b| - 1 && r == |d| % (|b| - 1)
    ensures var c := |b| - 1;
      && LaterRounds(b, d).1 == r <= |d|
      && (|d| >= c ==> r + c <= |d|)
      && LaterRounds(b, d).0[k] ==
        if k < r then d[|d| - r + k] else if |d| >= c then d[|d| - r - c + k] else b[k]
    decreases |d|
  {
    var c := |b| - 1;
    ModBounds(|d|, c, r);
    if c <= |d| {
      LaterRoundsStep(b, d);
      LessOne(|d|, c);
      ModBounds(|d| - c, c, r);
      hide LaterRounds, Patched;
      LaterRoundsAt(Patched(b, 0, d[..c]), d[c..], k, r);
    }
  }

  /** What an overwriting write that reaches the end of the buffer leaves behind, however long it is: the last slot is
      written once; the others, one fewer than there are, are written over and over, and the write offset is where the
      last round ends. */
  lemma OverwrittenAt(b: seq<byte>, wr: nat, d: seq<byte>, k: nat)
    requires 2 <= |b| && wr < |b| && k < |b| && |b| <= wr + |d|
    ensures var c, rem := |b| - 1, |b| - wr;
      var n := |d| - rem;
      var r := n % c;
      var (b', wr') := Overwritten(b, wr, d);
      && wr' == r <= n && (n >= c ==> r + c <= n)
      && b'[k] ==
        if k == c then d[rem - 1]
        else if k < r then d[|d| - r + k]
        else if n >= c then d[|d| - r - c + k]
        else if k < wr then b[k]
        else d[k - wr]
  {
    hide LaterRounds;
    var rem := |b| - wr;
    var b1 := Patched(b, wr, d[..rem]);
    LaterRoundsEnd(b1, d[rem..]);
    ModBounds(|d| - rem, |b| - 1, (|d| - rem) % (|b| - 1));
    LaterRoundsAt(b1, d[rem..], if k == |b| - 1 then 0 else k, (|d| - rem) % (|b| - 1));
  }

  /** All zeros except for a 1 at `at`. */
  function OneAt(n: nat, at: nat): (d: seq<byte>)
    ensures |d| == n && forall k :: 0 <= k < n ==> d[k] == if k == at then 1 else 0
  {
    seq(n, k => if k == at then 1 else 0)
  }

  /** A longer write can go wrong: some bytes of that length are not kept as they should be. */
  lemma TooLongFails(b: seq<byte>, rd: nat, wr: nat, n: nat) returns (d: seq<byte>)
    requires 2 <= |b| && rd < |b| && wr < |b| && 2 * |b| - 2 < wr + n
    ensures |d| == n && !KeepsNewest(b, rd, wr, d)
  {
    hide Held, LastOf, LaterRounds, Reduced;
    var size := |b|;
    var rem, m := size - wr, wr + n - size;
    d := OneAt(n, rem - 1);
    var (b', wr') := Overwritten(b, wr, d);
    assert wr' == Reduced(m, size - 1) && b'[size - 1] == 1 by {
      var b1 := Patched(b, wr, d[..rem]);
      LaterRoundsEnd(b1, d[rem..]);
      assert b1[size - 1] == d[rem - 1];
    }
    hide Patched, Overwritten;
    PushedAhead(rd, wr, n, size);
    ReducedNext(m, size);
    var rd' := PushedRead(rd, wr, n, size);
    var q := Held(b, rd, wr) + d;
    if wr' == Reduced(m, size) {
      assert m != size - 1 by {
        OneLap(size - 1);
      }
      assert q[|q| - |d|..] == d;
      StaleByteShows(b', wr', q, d, rem - 1);
    } else {
      assert Used(rd', wr', size) != size - 1;
    }
  }

  lemma StaleByteShows(b: seq<byte>, wr: nat, q: seq<byte>, d: seq<byte>, at: nat)
    requires 2 <= |b| && wr < |b| - 1 && |b| <= |d| <= |q| && q[|q| - |d|..] == d
    requires d == OneAt(|d|, at) && at != |d| - wr - 1 && b[|b| - 1] == 1
    ensures Held(b, wr + 1, wr) != LastOf(q, |b| - 1)
  {
    var k := |b| - 2 - wr;
    HeldAt(b, wr + 1, wr, k);
    assert LastOf(q, |b| - 1)[k] == d[|d| - wr - 1];
  }

  lemma OneLap(size: nat)
    requires 0 < size
    ensures Reduced(size, size) == 0 && Reduced(size, size + 1) == size
  {
  }

  lemma PushedAhead(rd: nat, wr: nat, n: nat, size: nat)
    requires 2 <= size && rd < size && wr < size && size <= wr + n && Space(rd, wr, size) < n
    ensures PushedRead(rd, wr, n, size) == Reduced(wr + n - size + 1, size)
  {
    var m := wr + n - size;
    var x := rd + n - Space(rd, wr, size);
    assert x == m + 1 + size || x == m + 1 + 2 * size || x == m + 1;
    assert Reduced(m + 1 + size, size) == Reduced(m + 1, size);
    assert Reduced(m + 1 + 2 * size, size) == Reduced(m + 1 + size, size);
  }

  /** Exactly the lengths that wrap at most once are safe. Every length below the buffer's is among them. */
  lemma KeepsNewestExactly(b: seq<byte>, rd: nat, wr: nat, n: nat)
    requires 2 <= |b| && rd < |b| && wr < |b|
    ensures (forall d: seq<byte> :: |d| == n ==> KeepsNewest(b, rd, wr, d)) <==> wr + n <= 2 * |b| - 2
  {
    if wr + n <= 2 * |b| - 2 {
      forall d: seq<byte> | |d| == n
        ensures KeepsNewest(b, rd, wr, d)
      {
        if n < |b| {
          ShortKeepsNewest(b, rd, wr, d);
        } else {
          LongKeepsNewest(b, rd, wr, d);
        }
      }
    } else {
      var d := TooLongFails(b, rd, wr, n);
    }
  }
}
