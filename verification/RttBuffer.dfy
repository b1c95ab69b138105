/** The RTT ring buffer and all of its writers and readers, updated in place.
    `received` records, for the specifications only, every byte the host has taken out so far;
    `Stream()` is therefore everything the target has ever published. */
module RttBuffer {
  import opened Bytes
  import opened Ring
  import opened Overwrite

  const MODE_NO_BLOCK_SKIP: nat := 0
  const MODE_NO_BLOCK_TRIM: nat := 1
  const MODE_BLOCK_IF_FIFO_FULL: nat := 2

  /** What a write according to the buffer's mode may append at once. */
  function Accepted(flags: nat, space: nat, data: seq<byte>): (d: seq<byte>)
    ensures d <= data && |d| <= Max(space, 0)
    ensures |data| <= space && flags <= MODE_NO_BLOCK_TRIM ==> d == data
    ensures flags == MODE_NO_BLOCK_SKIP && space < |data| ==> d == []
    ensures flags == MODE_NO_BLOCK_TRIM && space < |data| ==> |d| == space
  {
    if flags == MODE_NO_BLOCK_SKIP then if space < |data| then [] else data
    else if flags == MODE_NO_BLOCK_TRIM then data[..Min(space, |data|)]
    else []
  }

  method MemCopy(dst: array<byte>, at: nat, src: seq<byte>)
    requires at + |src| <= dst.Length
    modifies dst
    ensures dst[..] == Patched(old(dst[..]), at, src)
  {
    for i := 0 to |src|
      invariant forall k :: 0 <= k < i ==> dst[at + k] == src[k]
      invariant forall k :: 0 <= k < at || at + i <= k < dst.Length ==> dst[k] == old(dst[k])
    {
      dst[at + i] := src[i];
    }
    assert dst[..at] == old(dst[..at]) && dst[at..at + |src|] == src;
  }

  class RttBuffer {
    const buffer: array<byte>
    var wrOff: nat
    var rdOff: nat
    var flags: nat
    ghost var received: seq<byte>

    ghost predicate Valid()
      reads this
    {
      wrOff < buffer.Length && rdOff < buffer.Length && buffer.Length < TWO_POW_32
    }

    ghost function Contents(): (q: seq<byte>)
      requires Valid()
      reads this, buffer
    {
      Held(buffer[..], rdOff, wrOff)
    }

    ghost function Stream(): seq<byte>
      requires Valid()
      reads this, buffer
    {
      received + Contents()
    }

    ghost function Free(): nat
      requires Valid()
      reads this
    {
      Space(rdOff, wrOff, buffer.Length)
    }

    constructor (buffer: array<byte>, flags: nat)
      requires 0 < buffer.Length < TWO_POW_32
      ensures Valid() && this.buffer == buffer && this.flags == flags
      ensures received == [] && Contents() == []
    {
      this.buffer := buffer;
      this.flags := flags;
      wrOff, rdOff, received := 0, 0, [];
    }

    method GetAvailWriteSpace() returns (r: nat)
      requires Valid()
      ensures r == Free() == buffer.Length - 1 - |Contents()|
    {
      if rdOff <= wrOff {
        r := buffer.Length - 1 - wrOff + rdOff;
      } else {
        r := rdOff - wrOff - 1;
      }
    }

    /** Meant to count the unread bytes, which it does on a ring that has not wrapped. */
    method GetBytesInBuffer() returns (r: u32)
      requires Valid()
      ensures r == Counted(rdOff, wrOff, buffer.Length)
      ensures r == |Contents()| <==> rdOff <= wrOff || rdOff - wrOff == 0x8000_0000
    {
      CountedExactly(rdOff, wrOff, buffer.Length);
      if rdOff <= wrOff {
        r := wrOff - rdOff;
      } else {
        r := ToU32(buffer.Length - ToU32(wrOff - rdOff));
      }
    }

    /** Copies bytes that are known to fit, in one or two chunks. */
    method WriteNoCheck(data: seq<byte>)
      requires Valid() && |data| <= Free()
      modifies `wrOff, buffer
      ensures Valid()
      ensures buffer[..] == Stored(old(buffer[..]), old(wrOff), data)
      ensures wrOff == At(old(wrOff), |data|, buffer.Length)
      ensures Contents() == old(Contents()) + data
    {
      hide Held, Stored, Patched;
      StoreAppends(buffer[..], rdOff, wrOff, data);
      StoredInChunks(buffer[..], wrOff, data);
      var rem := buffer.Length - wrOff;
      if rem > |data| {
        MemCopy(buffer, wrOff, data);
        wrOff := wrOff + |data|;
      } else {
        MemCopy(buffer, wrOff, data[..rem]);
        MemCopy(buffer, 0, data[rem..]);
        wrOff := |data| - rem;
      }
    }

    /** The host, or code standing in for it, takes up to `bufferSize` bytes out into `dst`. */
    method ReadUpBuffer(dst: array<byte>, bufferSize: u32) returns (numRead: nat)
      requires Valid() && bufferSize <= dst.Length && dst != buffer
      modifies `rdOff, `received, dst
      ensures Valid()
      ensures numRead == Min(bufferSize, |old(Contents())|)
      ensures dst[..] == Patched(old(dst[..]), 0, old(Contents())[..numRead])
      ensures Contents() == old(Contents())[numRead..]
      ensures received == old(received) + old(Contents())[..numRead]
    {
      hide Held, Patched, Used, At, SecondCut;
      ReadDrops(buffer[..], rdOff, wrOff, Min(bufferSize, |Contents()|));
      ReadInChunks(buffer[..], rdOff, wrOff, bufferSize);
      var rd, wr := rdOff, wrOff;
      var first, second := [], [];
      numRead := 0;
      if rd > wr {
        var n := Min(buffer.Length - rd, bufferSize);
        first := buffer[rd..rd + n];
        MemCopy(dst, 0, first);
        numRead := n;
        rd := rd + n;
        if rd == buffer.Length {
          rd := 0;
        }
      }
      assert dst[..] == Patched(old(dst[..]), 0, first) by {
        PatchedNothing(old(dst[..]), 0);
      }
      ghost var dst1 := dst[..];
      var m := SecondCut(rd, wr, bufferSize - numRead);
      if m > 0 {
        second := buffer[rd..rd + m];
        MemCopy(dst, numRead, second);
        numRead := numRead + m;
        rd := rd + m;
      }
      assert dst[..] == Patched(dst1, |first|, second) by {
        PatchedNothing(dst1, |first|);
      }
      PatchedTwice(old(dst[..]), first, second);
      if numRead != 0 {
        rdOff := rd;
      }
      received := received + (first + second);
    }

    /** One visit of the host: it takes at most `n` bytes. */
    method HostTakes(n: u32)
      requires Valid()
      modifies `rdOff, `received
      ensures Valid()
      ensures Contents() == old(Contents())[Min(n, |old(Contents())|)..]
      ensures received == old(received) + old(Contents())[..Min(n, |old(Contents())|)]
      ensures Stream() == old(Stream())
    {
      hide Held, Patched;
      var dst := new byte[n](_ => 0);
      var r := ReadUpBuffer(dst, n);
      assert old(Contents()) == old(Contents())[..r] + old(Contents())[r..];
    }

    /** Posts all of `data`, waiting for the host when the ring is full. `host[k]` is the number of
        bytes the host takes just before round k reads the read offset; the observation ends when
        the schedule is used up, and `done` says whether the call returned by then. Data that fit
        need two rounds at most, and a host that keeps reading makes every call return. */
    method WriteBlocking(data: seq<byte>, host: seq<u32>)
      returns (written: nat, rounds: nat, done: bool)
      requires Valid()
      modifies `wrOff, `rdOff, `received, buffer
      ensures Valid()
      ensures written <= |data| && rounds <= |host|
      ensures if done then written == |data| else rounds == |host|
      ensures old(received) <= received
      ensures Stream() == old(Stream()) + data[..written]
      ensures |data| <= old(Free()) && 2 <= |host| ==> done && rounds <= 2
      ensures 2 <= buffer.Length && 0 !in host && 0 < |host| && |data| <= |host| ==> done
      ensures Free() >= old(Free()) - written
    {
      hide Held, Stored, Patched, Used, At, Space;
      written, rounds, done := 0, 0, false;
      var wr := wrOff;
      while !done && rounds < |host|
        invariant Valid() && wr == wrOff && written <= |data| && rounds <= |host|
        invariant done ==> written == |data|
        invariant !done ==> written < |data| || rounds == 0
        invariant old(received) <= received
        invariant Stream() == old(Stream()) + data[..written]
        invariant Free() >= old(Free()) - written
        invariant |data| <= old(Free()) && rounds == 1 ==> done || wr == 0
        invariant |data| <= old(Free()) && rounds >= 2 ==> done && rounds == 2
        invariant 2 <= buffer.Length && 0 !in host ==> done || rounds <= written
        decreases |host| - rounds
      {
        var n := Turn(wr, data[written..], host[rounds]);
        assert data[..written + n] == data[..written] + data[written..][..n];
        written := written + n;
        wr := wrOff;
        rounds := rounds + 1;
        done := written == |data|;
      }
    }

    /** The host's visit and the round that follows it. */
    method Turn(wr: nat, rest: seq<byte>, take: u32) returns (n: nat)
      requires Valid() && wr == wrOff
      modifies `wrOff, `rdOff, `received, buffer
      ensures Valid() && n <= |rest| && old(received) <= received
      ensures Stream() == old(Stream()) + rest[..n]
      ensures Free() >= old(Free()) - n
      ensures |rest| <= old(Free()) ==> n == |rest| || wrOff == 0
      ensures |rest| <= old(Free()) && old(wrOff) == 0 ==> n == |rest|
      ensures 2 <= buffer.Length && take > 0 && rest != [] ==> n > 0
    {
      hide Stored, Patched, At;
      HostTakes(take);
      n := Round(wr, rest);
    }

    /** One round of `WriteBlocking`: reads the read offset, copies the part of `rest` that fits before the
        end of the buffer, and publishes it. */
    method Round(wr: nat, rest: seq<byte>) returns (n: nat)
      requires Valid() && wr == wrOff
      modifies `wrOff, buffer
      ensures Valid()
      ensures n == Min(Min(old(Free()), buffer.Length - old(wrOff)), |rest|)
      ensures n == |rest| || n == old(Free()) || wrOff == 0
      ensures wrOff == At(old(wrOff), n, buffer.Length)
      ensures Contents() == old(Contents()) + rest[..n]
      ensures Free() == old(Free()) - n
      ensures Stream() == old(Stream()) + rest[..n]
    {
      hide Held, Stored, Patched;
      var rd := rdOff;
      n := if rd > wr then rd - wr - 1 else buffer.Length - (wr - rd + 1);
      n := Min(n, buffer.Length - wr);
      n := Min(n, |rest|);
      var chunk := rest[..n];
      StoreAppends(buffer[..], rdOff, wrOff, chunk);
      StoredInChunks(buffer[..], wrOff, chunk);
      MemCopy(buffer, wr, chunk);
      wrOff := if wr + n == buffer.Length then 0 else wr + n;
    }

    /** Stores `data` according to the buffer's mode; returns the number of bytes stored. */
    method WriteNoLock(data: seq<byte>, host: seq<u32>) returns (status: nat, done: bool)
      requires Valid()
      modifies `wrOff, `rdOff, `received, buffer
      ensures Valid() && old(received) <= received && status <= |data|
      ensures Stream() == old(Stream()) + data[..status]
      ensures flags != MODE_BLOCK_IF_FIFO_FULL ==>
        && done && data[..status] == Accepted(flags, old(Free()), data)
        && received == old(received) && rdOff == old(rdOff)
        && buffer[..] == Stored(old(buffer[..]), old(wrOff), data[..status])
        && wrOff == At(old(wrOff), status, buffer.Length)
      ensures flags == 0 ==> status == if |data| <= old(Free()) then |data| else 0
      ensures flags == 1 ==> status == Min(|data|, old(Free()))
      ensures flags == 2 && done ==> status == |data|
      ensures flags > 2 ==> status == 0
      ensures flags == MODE_BLOCK_IF_FIFO_FULL && done ==> status == |data|
    {
      hide Held, Stored, Patched;
      done := true;
      StoredNothing(buffer[..], wrOff);
      assert data[..|data|] == data && data[..0] == [];
      if flags == MODE_NO_BLOCK_SKIP {
        var avail := GetAvailWriteSpace();
        if avail < |data| {
          status := 0;
        } else {
          status := |data|;
          WriteNoCheck(data);
        }
      } else if flags == MODE_NO_BLOCK_TRIM {
        var avail := GetAvailWriteSpace();
        status := if avail < |data| then avail else |data|;
        WriteNoCheck(data[..status]);
      } else if flags == MODE_BLOCK_IF_FIFO_FULL {
        var rounds;
        status, rounds, done := WriteBlocking(data, host);
      } else {
        status := 0;
      }
    }

    /** The fast all-or-nothing writer. */
    method WriteSkipNoLock(data: seq<byte>) returns (status: nat)
      requires Valid()
      modifies `wrOff, buffer
      ensures Valid()
      ensures status == if |data| <= old(Free()) then 1 else 0
      ensures Contents() == old(Contents()) + if |data| <= old(Free()) then data else []
      ensures buffer[..] == Stored(old(buffer[..]), old(wrOff), Accepted(MODE_NO_BLOCK_SKIP, old(Free()), data))
      ensures wrOff == At(old(wrOff), |Accepted(MODE_NO_BLOCK_SKIP, old(Free()), data)|, buffer.Length)
    {
      hide Held, Stored, Patched;
      StoredNothing(buffer[..], wrOff);
      StoreAppends(buffer[..], rdOff, wrOff, Accepted(MODE_NO_BLOCK_SKIP, Free(), data));
      if |data| <= Free() {
        assert Accepted(MODE_NO_BLOCK_SKIP, Free(), data) == data;
        StoredInChunks(buffer[..], wrOff, data);
      }
      var rd, wr := rdOff, wrOff;
      if rd <= wr {
        var avail := buffer.Length - wr - 1;
        if avail >= |data| {
          MemCopy(buffer, wr, data);
          wrOff := wr + |data|;
          return 1;
        }
        avail := avail + rd;
        if avail >= |data| {
          var rem := buffer.Length - wr;
          MemCopy(buffer, wr, data[..rem]);
          var n := |data| - rem;
          if n != 0 {
            MemCopy(buffer, 0, data[rem..]);
          } else {
            assert data[rem..] == [];
            PatchedNothing(buffer[..], 0);
          }
          wrOff := n;
          return 1;
        }
      } else {
        var avail := rd - wr - 1;
        if avail >= |data| {
          MemCopy(buffer, wr, data);
          wrOff := wr + |data|;
          return 1;
        }
      }
      return 0;
    }

    /** Stores all of `data`; bytes not read yet give way to it. Not to be used while a host reads. */
    method WriteWithOverwriteNoLock(data: seq<byte>)
      requires Valid() && 2 <= buffer.Length
      modifies `wrOff, `rdOff, buffer
      ensures Valid()
      ensures rdOff == PushedRead(old(rdOff), old(wrOff), |data|, buffer.Length)
      ensures (buffer[..], wrOff) == Overwritten(old(buffer[..]), old(wrOff), data)
      ensures old(wrOff) + |data| <= 2 * buffer.Length - 2 ==>
        Contents() == LastOf(old(Contents()) + data, buffer.Length - 1)
    {
      hide Held, Patched, LaterRounds, LastOf;
      KeepsNewestExactly(buffer[..], rdOff, wrOff, |data|);
      if wrOff + |data| <= 2 * buffer.Length - 2 {
        assert KeepsNewest(buffer[..], rdOff, wrOff, data);
      }
      PushReadOffset(|data|);
      OverwriteRounds(data);
    }

    method PushReadOffset(n: nat)
      requires Valid()
      modifies `rdOff
      ensures Valid() && rdOff == PushedRead(old(rdOff), wrOff, n, buffer.Length)
      ensures rdOff == if n <= Space(old(rdOff), wrOff, buffer.Length) then old(rdOff)
        else (old(rdOff) + n - Space(old(rdOff), wrOff, buffer.Length)) % buffer.Length
    {
      if n > Free() {
        ReducedIsMod(rdOff + n - Free(), buffer.Length);
      }
      var avail;
      if wrOff == rdOff {
        avail := buffer.Length - 1;
      } else if wrOff < rdOff {
        avail := rdOff - wrOff - 1;
      } else {
        avail := rdOff - wrOff - 1 + buffer.Length;
      }
      if n > avail {
        rdOff := rdOff + (n - avail);
        while rdOff >= buffer.Length
          invariant Reduced(rdOff, buffer.Length) == PushedRead(old(rdOff), wrOff, n, buffer.Length)
        {
          rdOff := rdOff - buffer.Length;
        }
      }
    }

    method OverwriteRounds(data: seq<byte>)
      requires Valid() && 2 <= buffer.Length
      modifies `wrOff, buffer
      ensures Valid()
      ensures (buffer[..], wrOff) == Overwritten(old(buffer[..]), old(wrOff), data)
    {
      hide Patched;
      ghost var goal := Overwritten(buffer[..], wrOff, data);
      var avail, rest := buffer.Length - wrOff, data;
      var again, first := true, true;
      while again
        invariant Valid()
        invariant first ==> again && avail == buffer.Length - wrOff && rest == data
        invariant first ==> goal == Overwritten(buffer[..], wrOff, rest)
        invariant again && !first ==> rest != [] && wrOff == 0 && avail == buffer.Length - 1
        invariant again && !first ==> goal == LaterRounds(buffer[..], rest)
        invariant !again ==> goal == (buffer[..], wrOff)
        decreases again, |rest|
      {
        if avail > |rest| {
          MemCopy(buffer, wrOff, rest);
          wrOff := wrOff + |rest|;
          again := false;
        } else {
          MemCopy(buffer, wrOff, rest[..avail]);
          rest := rest[avail..];
          wrOff := 0;
          avail := buffer.Length - 1;
          again := rest != [];
        }
        first := false;
      }
    }
  }
}
