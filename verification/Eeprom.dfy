/** A 128-byte EEPROM with pages of 8 bytes. The chip takes a page at a time, and an address that runs off the end of a
    page starts over at the page's beginning; the driver cuts a long write into pieces so that this never happens. */
module Eeprom {
  import opened Bytes
  import opened Ring

  const PAGE_SIZE: nat := 8
  const CHIP_SIZE: nat := 128

  type Memory = m: seq<byte> | |m| == CHIP_SIZE witness seq(CHIP_SIZE, _ => 0)

  /** What the chip does with at most one page of data. */
  function PageWritten(m: Memory, address: nat, data: seq<byte>): Memory
    requires |data| <= PAGE_SIZE
  {
    var page := address % CHIP_SIZE / PAGE_SIZE;
    seq(CHIP_SIZE, k requires 0 <= k < CHIP_SIZE =>
      var i := (k - address) % PAGE_SIZE;
      if k / PAGE_SIZE == page && i < |data| then data[i] else m[k])
  }

  /** Data copied byte by byte, going on at address 0 behind the last one. */
  function Copied(m: Memory, addr: nat, data: seq<byte>): Memory {
    if data == [] then m
    else Copied(m, addr, data[..|data| - 1])[(addr + |data| - 1) % CHIP_SIZE := data[|data| - 1]]
  }

  function ReadOut(m: Memory, addr: nat, n: nat): (d: seq<byte>)
    ensures |d| == n
  {
    seq(n, k requires 0 <= k < n => m[(addr + k) % CHIP_SIZE])
  }

  lemma {:induction false} CopiedInOrder(m: Memory, addr: nat, x: seq<byte>, y: seq<byte>)
    ensures Copied(m, addr, x + y) == Copied(Copied(m, addr, x), addr + |x|, y)
  {
    if y == [] {
      assert x + y == x;
    } else {
      CopiedInOrder(m, addr, x, y[..|y| - 1]);
      assert (x + y)[..|x + y| - 1] == x + y[..|y| - 1];
    }
  }

  lemma DivMod8(x: int, q: int, r: int)
    requires x == q * PAGE_SIZE + r && 0 <= r < PAGE_SIZE
    ensures x / PAGE_SIZE == q && x % PAGE_SIZE == r
  {
  }

  lemma Mod128(x: int, q: int, r: int)
    requires x == q * CHIP_SIZE + r && 0 <= r < CHIP_SIZE
    ensures x % CHIP_SIZE == r
  {
  }

  lemma ModAdd(a: nat, b: nat, n: nat)
    requires a % CHIP_SIZE == b % CHIP_SIZE
    ensures (a + n) % CHIP_SIZE == (b + n) % CHIP_SIZE
  {
    var q, r := (a + n) / CHIP_SIZE, (a + n) % CHIP_SIZE;
    Mod128(b + n, q + b / CHIP_SIZE - a / CHIP_SIZE, r);
  }

  /** The place of an address on the chip, and its page and place within the page. */
  lemma PlaceOf(address: nat) returns (p: nat, o: nat)
    ensures o < PAGE_SIZE && address % CHIP_SIZE == p * PAGE_SIZE + o
    ensures p == address % CHIP_SIZE / PAGE_SIZE && o == address % PAGE_SIZE
  {
    var a := address % CHIP_SIZE;
    p, o := a / PAGE_SIZE, a % PAGE_SIZE;
    DivMod8(address, address / CHIP_SIZE * 16 + p, o);
  }

  /** Inside one page, cyclic and page-wise addressing agree: a piece that ends by the end of its page does not wrap. */
  lemma SamePage(k: nat, address: nat, i: nat)
    requires k < CHIP_SIZE && address % PAGE_SIZE + i < PAGE_SIZE
    ensures k == (address + i) % CHIP_SIZE <==>
      k / PAGE_SIZE == address % CHIP_SIZE / PAGE_SIZE && (k - address) % PAGE_SIZE == i
  {
    var p, o := PlaceOf(address);
    var a := address % CHIP_SIZE;
    Mod128(address + i, address / CHIP_SIZE, a + i);
    var pk, ok := k / PAGE_SIZE, k % PAGE_SIZE;
    var d := if ok >= o then ok - o else ok - o + PAGE_SIZE;
    DivMod8(k - address, pk - p - address / CHIP_SIZE * 16 - (if ok >= o then 0 else 1), d);
  }

  /** Slot by slot, the last byte of a piece makes a difference only where it belongs. */
  lemma LastOfPage(m: Memory, address: nat, data: seq<byte>, k: nat)
    requires data != [] && address % PAGE_SIZE + |data| <= PAGE_SIZE && k < CHIP_SIZE
    ensures var n := |data| - 1;
      PageWritten(m, address, data)[k] == PageWritten(m, address, data[..n])[(address + n) % CHIP_SIZE := data[n]][k]
  {
    SamePage(k, address, |data| - 1);
  }

  lemma {:induction false} PieceDoesNotWrap(m: Memory, address: nat, data: seq<byte>)
    requires address % PAGE_SIZE + |data| <= PAGE_SIZE
    ensures PageWritten(m, address, data) == Copied(m, address, data)
  {
    if data == [] {
    } else {
      var n := |data| - 1;
      PieceDoesNotWrap(m, address, data[..n]);
      forall k | 0 <= k < CHIP_SIZE
        ensures PageWritten(m, address, data)[k] ==
          PageWritten(m, address, data[..n])[(address + n) % CHIP_SIZE := data[n]][k]
      {
        LastOfPage(m, address, data, k);
      }
      hide PageWritten;
    }
  }

  /** A piece that runs over the end of its page is not stored where it should be: some data end up elsewhere. */
  lemma LongPieceWraps(m: Memory, address: nat, data: seq<byte>)
    requires address % PAGE_SIZE + |data| > PAGE_SIZE >= |data|
    ensures var k := (address + |data| - 1) % CHIP_SIZE; PageWritten(m, address, data)[k] == m[k]
  {
    var p, o := PlaceOf(address);
    var a := address % CHIP_SIZE;
    var last := a + |data| - 1;
    if last < CHIP_SIZE {
      Mod128(address + |data| - 1, address / CHIP_SIZE, last);
      DivMod8(last, p + 1, last - (p + 1) * PAGE_SIZE);
    } else {
      Mod128(address + |data| - 1, address / CHIP_SIZE + 1, last - CHIP_SIZE);
      DivMod8(last - CHIP_SIZE, 0, last - CHIP_SIZE);
    }
  }

  /** A write that ends by the end of the chip is a plain copy. */
  lemma {:induction false} CopiedPlainly(m: Memory, addr: nat, data: seq<byte>)
    requires addr + |data| <= CHIP_SIZE
    ensures Copied(m, addr, data) == Patched(m, addr, data)
  {
    hide Patched;
    if data == [] {
      PatchedNothing(m, addr);
    } else {
      var n := |data| - 1;
      CopiedPlainly(m, addr, data[..n]);
      PatchedGrows(m, addr, data);
      Mod128(addr + n, 0, addr + n);
    }
  }

  lemma PatchedGrows(m: Memory, addr: nat, data: seq<byte>)
    requires addr + |data| <= CHIP_SIZE && data != []
    ensures var n := |data| - 1;
      Patched(m, addr, data) == Patched(m, addr, data[..n])[addr + n := data[n]]
  {
  }

  lemma DistinctAddresses(addr: nat, i: nat, j: nat)
    requires i < j < i + CHIP_SIZE
    ensures (addr + i) % CHIP_SIZE != (addr + j) % CHIP_SIZE
  {
    var q, r := (addr + i) / CHIP_SIZE, (addr + i) % CHIP_SIZE;
    var s := r + j - i;
    Mod128(addr + j, if s < CHIP_SIZE then q else q + 1, if s < CHIP_SIZE then s else s - CHIP_SIZE);
  }

  /** Where on the chip the i-th byte goes. */
  function Slot(addr: nat, i: nat): nat {
    (addr + i) % 128
  }

  /** What no byte goes to keeps what it held. */
  lemma {:induction false} CopiedElsewhere(m: Memory, addr: nat, data: seq<byte>, k: nat)
    requires k < 128 && forall i :: 0 <= i < |data| ==> Slot(addr, i) != k
    ensures Copied(m, addr, data)[k] == m[k]
  {
    if data != [] {
      var n: nat := |data| - 1;
      CopiedElsewhere(m, addr, data[..n], k);
      assert Slot(addr, n) != k;
    }
  }

  /** The last byte that goes to a place is what it then holds. */
  lemma {:induction false} CopiedAt(m: Memory, addr: nat, data: seq<byte>, i: nat)
    requires i < |data| <= i + 128
    ensures Copied(m, addr, data)[Slot(addr, i)] == data[i]
  {
    var n := |data| - 1;
    if i < n {
      CopiedAt(m, addr, data[..n], i);
      DistinctAddresses(addr, i, n);
    }
  }

  /** What was written is read back, from any address, as long as it is no longer than the chip. */
  lemma ReadsBack(m: Memory, addr: nat, data: seq<byte>)
    requires |data| <= CHIP_SIZE
    ensures ReadOut(Copied(m, addr, data), addr, |data|) == data
  {
    forall i | 0 <= i < |data|
      ensures ReadOut(Copied(m, addr, data), addr, |data|)[i] == data[i]
    {
      CopiedAt(m, addr, data, i);
    }
  }

  /** Of longer data, a byte that is 128 places before the last one gives way to that, if it is different. */
  lemma LongerIsLost(m: Memory, addr: nat, data: seq<byte>)
    requires |data| > CHIP_SIZE && data[|data| - 1 - CHIP_SIZE] != data[|data| - 1]
    ensures ReadOut(Copied(m, addr, data), addr, |data|) != data
  {
    var n := |data| - 1;
    var k := n - CHIP_SIZE;
    Mod128(addr + n, (addr + k) / CHIP_SIZE + 1, (addr + k) % CHIP_SIZE);
    assert Copied(m, addr, data)[(addr + n) % CHIP_SIZE] == data[n];
    assert ReadOut(Copied(m, addr, data), addr, |data|)[k] == data[n];
  }

  /** Exactly the lengths up to the chip's size are safe. */
  lemma ReadsBackExactly(m: Memory, addr: nat, n: nat)
    ensures
      (forall data: seq<byte> :: |data| == n ==> ReadOut(Copied(m, addr, data), addr, n) == data) <==> n <= CHIP_SIZE
  {
    hide Copied, ReadOut;
    if n <= CHIP_SIZE {
      forall data: seq<byte> | |data| == n
        ensures ReadOut(Copied(m, addr, data), addr, n) == data
      {
        ReadsBack(m, addr, data);
      }
    } else {
      var data: seq<byte> := seq(n, k => if k == n - 1 then 1 else 0);
      LongerIsLost(m, addr, data);
    }
  }

  class Chip {
    const memory: array<byte>
    /** Transfers that did not get through. */
    ghost var failures: nat

    ghost predicate Valid() {
      memory.Length == CHIP_SIZE
    }

    constructor (memory: array<byte>)
      requires memory.Length == CHIP_SIZE
      ensures Valid() && this.memory == memory
    {
      this.memory := memory;
      failures := 0;
    }

    /** Whether a transfer on the bus gets through is not up to the driver. */
    method BusWorks() returns (ok: bool)
      modifies this`failures
      ensures failures == old(failures) + if ok then 0 else 1
    {
      ok :| ok || !ok;
      failures := failures + if ok then 0 else 1;
    }

    /** The chip's own page write. */
    method StorePage(address: byte, data: seq<byte>)
      requires Valid() && |data| <= PAGE_SIZE
      modifies memory
      ensures memory[..] == PageWritten(old(memory[..]), address, data)
    {
      var page := address % CHIP_SIZE / PAGE_SIZE;
      for k := 0 to CHIP_SIZE
        invariant forall j :: 0 <= j < k ==> memory[j] == PageWritten(old(memory[..]), address, data)[j]
        invariant forall j :: k <= j < CHIP_SIZE ==> memory[j] == old(memory[j])
      {
        var i := (k - address) % PAGE_SIZE;
        if k / PAGE_SIZE == page && i < |data| {
          memory[k] := data[i];
        }
      }
    }

    /** Writes at most one page. */
    method Write(address: byte, data: seq<byte>) returns (ok: bool)
      requires Valid()
      modifies memory, this`failures
      ensures ok <==> 0 < |data| <= PAGE_SIZE && failures == old(failures)
      ensures ok ==> 0 < |data| <= PAGE_SIZE && memory[..] == PageWritten(old(memory[..]), address, data)
      ensures !ok ==> memory[..] == old(memory[..])
    {
      if |data| == 0 || |data| > PAGE_SIZE {
        return false;
      }
      var selected := BusWorks();
      if !selected {
        return false;
      }
      var transferred := BusWorks();
      if !transferred {
        return false;
      }
      StorePage(address, data);
      return true;
    }

    method Read(address: byte, n: nat) returns (ok: bool, data: seq<byte>)
      requires Valid()
      modifies this`failures
      ensures ok <==> failures == old(failures)
      ensures ok ==> data == ReadOut(memory[..], address, n)
    {
      data := [];
      var selected := BusWorks();
      if !selected {
        return false, [];
      }
      var transferred := BusWorks();
      if !transferred {
        return false, [];
      }
      ok := true;
      for k := 0 to n
        invariant data == ReadOut(memory[..], address, k)
      {
        data := data + [memory[(address + k) % CHIP_SIZE]];
      }
    }

    /** Writes any amount, piece by piece. The result is the address behind the last byte, or 0 when a piece could not
        be written; `stored` says how much is then in the chip. */
    method WriteBlob(addr: u16, data: seq<byte>) returns (r: u16, ghost ok: bool, ghost stored: nat)
      requires Valid()
      modifies memory, this`failures
      ensures ok <==> failures == old(failures)
      ensures stored <= |data| && memory[..] == Copied(old(memory[..]), addr, data[..stored])
      ensures ok ==> stored == |data| && r == (addr + |data|) % 0x1_0000
      ensures !ok ==> r == 0 && stored < |data| && (stored == 0 || (addr + stored) % PAGE_SIZE == 0)
      ensures addr + |data| <= CHIP_SIZE ==> memory[..] == Patched(old(memory[..]), addr, data[..stored])
    {
      hide Copied, PageWritten, Patched;
      var offset: nat := 0;
      ghost var was := memory[..];
      CopiedNothing(was, addr);
      while offset < |data|
        invariant failures == old(failures)
        invariant offset <= |data| && memory[..] == Copied(was, addr, data[..offset])
        invariant offset == 0 || offset == |data| || (addr + offset) % PAGE_SIZE == 0
      {
        var absAddr := (addr + offset) % 0x1_0000;
        SameAddress(addr + offset);
        var pageOffset := absAddr % PAGE_SIZE;
        NextPage(addr + offset);
        var chunk := PAGE_SIZE - pageOffset;
        if chunk > |data| - offset {
          chunk := |data| - offset;
        }
        var piece := data[offset..offset + chunk];
        var written := Write(absAddr % 0x100, piece);
        if !written {
          if addr + |data| <= CHIP_SIZE {
            CopiedPlainly(was, addr, data[..offset]);
          }
          return 0, false, offset;
        }
        PieceStored(was, addr, data, offset, chunk);
        offset := offset + chunk;
      }
      assert data[..|data|] == data;
      if addr + |data| <= CHIP_SIZE {
        CopiedPlainly(was, addr, data);
      }
      return (addr + offset) % 0x1_0000, true, offset;
    }

    method ReadBlob(addr: u16, n: nat) returns (ok: bool, data: seq<byte>)
      requires Valid()
      modifies this`failures
      ensures ok <==> failures == old(failures)
      ensures ok ==> data == ReadOut(memory[..], addr, n)
    {
      ok, data := Read(addr % 0x100, n);
      ReadModulo(memory[..], addr, n);
    }
  }

  lemma NextPage(x: nat)
    ensures (x + PAGE_SIZE - x % PAGE_SIZE) % PAGE_SIZE == 0
  {
    DivMod8(x + PAGE_SIZE - x % PAGE_SIZE, x / PAGE_SIZE + 1, 0);
  }

  lemma PieceStored(was: Memory, addr: nat, data: seq<byte>, offset: nat, chunk: nat)
    requires offset + chunk <= |data| && (addr + offset) % PAGE_SIZE + chunk <= PAGE_SIZE
    ensures
      PageWritten(Copied(was, addr, data[..offset]), (addr + offset) % 0x1_0000 % 0x100, data[offset..offset + chunk])
      == Copied(was, addr, data[..offset + chunk])
  {
    hide Copied, PageWritten;
    var piece, a := data[offset..offset + chunk], (addr + offset) % 0x1_0000 % 0x100;
    SameAddress(addr + offset);
    PieceDoesNotWrap(Copied(was, addr, data[..offset]), a, piece);
    CopiedModulo(Copied(was, addr, data[..offset]), a, addr + offset, piece);
    CopiedInOrder(was, addr, data[..offset], piece);
    assert data[..offset] + piece == data[..offset + chunk];
  }

  lemma CopiedNothing(m: Memory, addr: nat)
    ensures Copied(m, addr, []) == m
  {
  }

  lemma SameAddress(x: nat)
    ensures x % 0x1_0000 % 0x100 % CHIP_SIZE == x % CHIP_SIZE
    ensures x % 0x1_0000 % 0x100 % PAGE_SIZE == x % 0x1_0000 % PAGE_SIZE == x % PAGE_SIZE
  {
    var y := x % 0x1_0000;
    var z := y % 0x100;
    var w, v := z % CHIP_SIZE, z % PAGE_SIZE;
    Mod128(x, x / 0x1_0000 * 512 + y / 0x100 * 2 + z / CHIP_SIZE, w);
    DivMod8(y, y / 0x100 * 32 + z / PAGE_SIZE, v);
    DivMod8(x, x / 0x1_0000 * 8192 + y / 0x100 * 32 + z / PAGE_SIZE, v);
  }

  lemma {:induction false} CopiedModulo(m: Memory, a: nat, b: nat, data: seq<byte>)
    requires a % CHIP_SIZE == b % CHIP_SIZE
    ensures Copied(m, a, data) == Copied(m, b, data)
  {
    if data != [] {
      CopiedModulo(m, a, b, data[..|data| - 1]);
      ModAdd(a, b, |data| - 1);
    }
  }

  lemma SameResidue(x: nat)
    ensures x % 0x100 == x % 0x100 / CHIP_SIZE * CHIP_SIZE + x % CHIP_SIZE
  {
    Mod128(x, x / 0x100 * 2 + x % 0x100 / CHIP_SIZE, x % 0x100 % CHIP_SIZE);
  }

  lemma ReadModulo(m: Memory, addr: nat, n: nat)
    ensures ReadOut(m, addr % 0x100, n) == ReadOut(m, addr, n)
  {
    Mod128(addr % 0x100, addr % 0x100 / CHIP_SIZE, addr % CHIP_SIZE) by {
      SameResidue(addr);
    }
    forall k | 0 <= k < n
      ensures ReadOut(m, addr % 0x100, n)[k] == ReadOut(m, addr, n)[k]
    {
      ModAdd(addr % 0x100, addr, k);
    }
  }
}
