/** The value-level view of an RTT ring: a fixed array of bytes, a read offset and a write offset.
    One slot always stays free, so equal offsets mean "empty". */
module Ring {
  import opened Bytes

  /** The slot k places after `off`. */
  function At(off: nat, k: nat, size: nat): (i: nat)
    requires off < size && k <= size
  {
    if off + k < size then off + k else off + k - size
  }

  /** Number of unread bytes. */
  function Used(rd: nat, wr: nat, size: nat): (n: nat)
    requires rd < size && wr < size
  {
    if rd <= wr then wr - rd else size - rd + wr
  }

  /** The count of unread bytes that `SEGGER_RTT_GetBytesInBuffer` gives, in unsigned 32-bit arithmetic. */
  function Counted(rd: nat, wr: nat, size: nat): u32 {
    if rd <= wr then ToU32(wr - rd) else ToU32(size - ToU32(wr - rd))
  }

  /** On a wrapped ring the count has a sign wrong; it is right there only when the two errors add up to 2^32. */
  lemma CountedExactly(rd: nat, wr: nat, size: nat)
    requires rd < size && wr < size < TWO_POW_32
    ensures Counted(rd, wr, size) == Used(rd, wr, size) <==> rd <= wr || rd - wr == 0x8000_0000
  {
    if wr < rd {
      ToU32Minus(size, wr - rd);
    }
  }

  lemma ToU32Minus(x: int, y: int)
    requires -TWO_POW_32 < y < 0
    ensures ToU32(x - ToU32(y)) == ToU32(x - y)
  {
    assert ToU32(y) == y + TWO_POW_32;
    assert (x - y) % TWO_POW_32 == (x - y - TWO_POW_32) % TWO_POW_32;
  }

  lemma WrongCount()
    ensures Used(2, 1, 4) == 3 && Counted(2, 1, 4) == 5
  {
  }

  /** Number of bytes that can still be stored. */
  function Space(rd: nat, wr: nat, size: nat): (n: nat)
    requires rd < size && wr < size
  {
    size - 1 - Used(rd, wr, size)
  }

  /** The unread bytes, oldest first. */
  function Held(b: seq<byte>, rd: nat, wr: nat): (q: seq<byte>)
    requires rd < |b| && wr < |b|
    ensures |q| == Used(rd, wr, |b|)
  {
    if rd <= wr then b[rd..wr] else b[rd..] + b[..wr]
  }

  lemma HeldAt(b: seq<byte>, rd: nat, wr: nat, k: nat)
    requires rd < |b| && wr < |b| && k < Used(rd, wr, |b|)
    ensures Held(b, rd, wr)[k] == b[At(rd, k, |b|)]
  {
  }

  /** `b` after the bytes `d` were copied in at slot `wr`, the tail going round to slot 0. */
  function Stored(b: seq<byte>, wr: nat, d: seq<byte>): (r: seq<byte>)
    requires wr < |b| && |d| <= |b|
    ensures |r| == |b|
  {
    var rem := |b| - wr;
    if |d| <= rem then b[..wr] + d + b[wr + |d|..]
    else d[rem..] + b[|d| - rem..wr] + d[..rem]
  }

  lemma StoredNothing(b: seq<byte>, wr: nat)
    requires wr < |b|
    ensures Stored(b, wr, []) == b
  {
  }

  lemma StoredAt(b: seq<byte>, wr: nat, d: seq<byte>)
    requires wr < |b| && |d| <= |b|
    ensures forall k :: 0 <= k < |d| ==> Stored(b, wr, d)[At(wr, k, |b|)] == d[k]
  {
  }

  /** The slots that `Stored` does not fill keep their bytes. */
  lemma StoredElsewhere(b: seq<byte>, wr: nat, d: seq<byte>, j: nat)
    requires wr < |b| && |d| <= |b| && j < |b|
    requires if wr + |d| <= |b| then j < wr || wr + |d| <= j else wr + |d| - |b| <= j < wr
    ensures Stored(b, wr, d)[j] == b[j]
  {
  }

  lemma OldBytesStay(b: seq<byte>, rd: nat, wr: nat, d: seq<byte>, k: nat)
    requires rd < |b| && wr < |b| && |d| <= Space(rd, wr, |b|) && k < Used(rd, wr, |b|)
    ensures Stored(b, wr, d)[At(rd, k, |b|)] == Held(b, rd, wr)[k]
  {
    hide Stored, Held;
    StoredElsewhere(b, wr, d, At(rd, k, |b|));
    HeldAt(b, rd, wr, k);
  }

  lemma NewBytesFollow(rd: nat, wr: nat, size: nat, k: nat)
    requires rd < size && wr < size && Used(rd, wr, size) <= k < size
    ensures At(rd, k, size) == At(wr, k - Used(rd, wr, size), size)
  {
  }

  lemma StoredHeldAt(b: seq<byte>, rd: nat, wr: nat, d: seq<byte>, k: nat)
    requires rd < |b| && wr < |b| && |d| <= Space(rd, wr, |b|)
    requires k < Used(rd, wr, |b|) + |d|
    ensures Stored(b, wr, d)[At(rd, k, |b|)] == (Held(b, rd, wr) + d)[k]
  {
    hide Stored, Held, At;
    if k < Used(rd, wr, |b|) {
      OldBytesStay(b, rd, wr, d, k);
    } else {
      StoredAt(b, wr, d);
      NewBytesFollow(rd, wr, |b|, k);
    }
  }

  /** Storing bytes that fit appends them to the unread ones. */
  lemma StoreAppends(b: seq<byte>, rd: nat, wr: nat, d: seq<byte>)
    requires rd < |b| && wr < |b| && |d| <= Space(rd, wr, |b|)
    ensures Held(Stored(b, wr, d), rd, At(wr, |d|, |b|)) == Held(b, rd, wr) + d
  {
    var b', wr' := Stored(b, wr, d), At(wr, |d|, |b|);
    var q, q' := Held(b, rd, wr), Held(b', rd, wr');
    assert |q'| == |q + d|;
    forall k | 0 <= k < |q'|
      ensures q'[k] == (q + d)[k]
    {
      HeldAt(b', rd, wr', k);
      StoredHeldAt(b, rd, wr, d, k);
    }
  }

  /** Moving the read offset forward removes the oldest bytes. */
  lemma ReadDrops(b: seq<byte>, rd: nat, wr: nat, n: nat)
    requires rd < |b| && wr < |b| && n <= Used(rd, wr, |b|)
    ensures Held(b, At(rd, n, |b|), wr) == Held(b, rd, wr)[n..]
  {
  }

  /** `b` with the chunk `d` copied in at slot `at`. */
  function Patched(b: seq<byte>, at: nat, d: seq<byte>): (r: seq<byte>)
    requires at + |d| <= |b|
    ensures |r| == |b|
  {
    b[..at] + d + b[at + |d|..]
  }

  /** One chunk suffices up to the end of the buffer, two are needed beyond it. */
  lemma StoredInChunks(b: seq<byte>, wr: nat, d: seq<byte>)
    requires wr < |b| && |d| <= |b|
    ensures wr + |d| <= |b| ==> Patched(b, wr, d) == Stored(b, wr, d)
    ensures |b| - wr <= |d| ==>
      Patched(Patched(b, wr, d[..|b| - wr]), 0, d[|b| - wr..]) == Stored(b, wr, d)
  {
    var rem := |b| - wr;
    if wr + |d| <= |b| {
      assert Patched(b, wr, d) == Stored(b, wr, d);
    }
    if rem <= |d| {
      var b1 := Patched(b, wr, d[..rem]);
      assert b1 == b[..wr] + d[..rem];
      assert Patched(b1, 0, d[rem..]) == d[rem..] + b1[|d| - rem..];
      if rem < |d| {
        assert b1[|d| - rem..] == b[|d| - rem..wr] + d[..rem];
      } else {
        assert d[..rem] == d && d[rem..] == [];
      }
    }
  }

  /** A reader's first chunk: up to the end of the buffer when the unread bytes go round it. */
  function FirstCut(rd: nat, wr: nat, max: nat, size: nat): (n: nat)
    requires rd < size && wr < size
  {
    if rd > wr then Min(size - rd, max) else 0
  }

  /** A reader's second chunk starts at `rd`. The subtraction is unsigned, so it wraps when the first chunk
      stopped short of the buffer's end, and then nothing is left to read: `rest` is 0. */
  function SecondCut(rd: nat, wr: nat, rest: nat): (n: nat) {
    Min(ToU32(wr - rd), rest)
  }

  lemma CutsAddUp(rd: nat, wr: nat, max: nat, size: nat)
    requires rd < size && wr < size < TWO_POW_32
    ensures
      var n := FirstCut(rd, wr, max, size);
      var rd1 := if rd + n == size then 0 else rd + n;
      var m := SecondCut(rd1, wr, max - n);
      var total := Min(max, Used(rd, wr, size));
      && n <= max && rd + n <= size && rd1 + m < size && n + m == total && At(rd, total, size) == rd1 + m
      && if rd <= wr then n == 0 && rd1 == rd && rd + m <= wr
         else if rd1 == 0 then n == size - rd && m <= wr
         else m == 0
  {
  }

  /** The two chunks a reader copies are exactly the front of the queue, and where it stops is where the
      next unread byte is. */
  lemma ReadInChunks(b: seq<byte>, rd: nat, wr: nat, max: nat)
    requires rd < |b| && wr < |b| < TWO_POW_32
    ensures
      var n := FirstCut(rd, wr, max, |b|);
      var rd1 := if rd + n == |b| then 0 else rd + n;
      var m := SecondCut(rd1, wr, max - n);
      var total := Min(max, Used(rd, wr, |b|));
      && n <= max && rd + n <= |b| && rd1 + m < |b| && n + m == total && At(rd, total, |b|) == rd1 + m
      && b[rd..rd + n] + b[rd1..rd1 + m] == Held(b, rd, wr)[..total]
  {
    hide FirstCut, SecondCut, At, Held, Used;
    CutsAddUp(rd, wr, max, |b|);
    var n := FirstCut(rd, wr, max, |b|);
    var rd1 := if rd + n == |b| then 0 else rd + n;
    ChunksAreFront(b, rd, wr, n, rd1, SecondCut(rd1, wr, max - n));
  }

  lemma ChunksAreFront(b: seq<byte>, rd: nat, wr: nat, n: nat, rd1: nat, m: nat)
    requires rd < |b| && wr < |b| && rd + n <= |b| && rd1 + m < |b| && n + m <= Used(rd, wr, |b|)
    requires if rd <= wr then n == 0 && rd1 == rd && rd + m <= wr
      else if rd1 == 0 then n == |b| - rd && m <= wr else m == 0
    ensures b[rd..rd + n] + b[rd1..rd1 + m] == Held(b, rd, wr)[..n + m]
  {
    if rd <= wr {
      assert b[rd..rd + n] == [];
    } else if rd1 != 0 {
      assert b[rd1..rd1 + m] == [];
    }
  }

  lemma PatchedTwice(b: seq<byte>, c: seq<byte>, d: seq<byte>)
    requires |c| + |d| <= |b|
    ensures Patched(Patched(b, 0, c), |c|, d) == Patched(b, 0, c + d)
  {
  }

  lemma PatchedNothing(b: seq<byte>, at: nat)
    requires at <= |b|
    ensures Patched(b, at, []) == b
  {
  }
}
