/**
 * The in-memory flash device of test/mock_flash.c, the reference media
 * semantics the store runs on.
 *
 *  - reads are bounds-checked copies;
 *  - writes AND the new bytes into the old ones (programming only clears bits);
 *  - erase sets every byte of each block overlapping the range to 0xFF, the
 *    range being rounded out to whole blocks.
 */
module MockFlash {
  import opened Types

  /** Size of the simulated device: 64 KiB. */
  const FLASH_SIZE: nat := 64 * 1024

  /** The memory after `data` has been programmed at `addr`. */
  function Programmed(mem: seq<byte>, addr: nat, data: seq<byte>): (m: seq<byte>)
    requires addr + |data| <= |mem|
    ensures |m| == |mem|
  {
    seq(|mem|, j requires 0 <= j < |mem| =>
      if addr <= j < addr + |data| then mem[j] & data[j - addr] else mem[j])
  }

  /** First byte of the first block erased for the range starting at `addr`. */
  function EraseStart(addr: nat, bs: nat): nat
    requires bs > 0
  {
    addr / bs * bs
  }

  /** One past the last byte of the last block erased for `[addr, addr + len)`. */
  function EraseEnd(addr: nat, len: nat, bs: nat): nat
    requires bs > 0
  {
    (addr + len + bs - 1) / bs * bs
  }

  /** The memory after erasing `[addr, addr + len)` rounded out to blocks of `bs` bytes. */
  function Erased(mem: seq<byte>, bs: nat, addr: nat, len: nat): (m: seq<byte>)
    requires bs > 0
    ensures |m| == |mem|
  {
    seq(|mem|, j requires 0 <= j < |mem| =>
      if EraseStart(addr, bs) <= j < EraseEnd(addr, len, bs) then 0xFF else mem[j])
  }

  /** The erased blocks cover the requested range, and stay inside a device made of whole blocks. */
  lemma EraseBounds(addr: nat, len: nat, bs: nat, size: nat)
    requires bs > 0 && size % bs == 0 && addr + len <= size
    ensures EraseStart(addr, bs) <= addr
    ensures addr + len <= EraseEnd(addr, len, bs) <= size
  {
    DivBounds(addr, bs);
    var top := addr + len + bs - 1;
    var q := top / bs;
    DivBounds(top, bs);
    var n := size / bs;
    DivBounds(size, bs);
    assert q * bs < (n + 1) * bs by {
      assert (n + 1) * bs == n * bs + bs;
    }
    MulLessCancel(q, n + 1, bs);
    MulMono(q, n, bs);
  }

  /** Rounding down to a multiple of `bs` loses less than `bs`. */
  lemma DivBounds(a: nat, bs: nat)
    requires bs > 0
    ensures a / bs * bs <= a < a / bs * bs + bs
    ensures a % bs == 0 ==> a / bs * bs == a
  {
    assert a == a / bs * bs + a % bs;
  }

  /** Cancelling a positive factor on both sides of a strict inequality. */
  lemma MulLessCancel(a: nat, b: nat, c: nat)
    requires c > 0 && a * c < b * c
    ensures a < b
  {
    if a >= b {
      MulMono(b, a, c);
    }
  }

  /** Multiplying by a natural number keeps the order. */
  lemma MulMono(a: nat, b: nat, c: nat)
    requires a <= b
    ensures a * c <= b * c
  {
    assert b * c == a * c + (b - a) * c;
  }

  class Flash {
    /** `g_flash.memory` */
    var memory: array<byte>
    /** `g_flash.size` */
    const size: nat
    /** `g_flash.block_size` */
    const blockSize: nat

    ghost predicate Valid()
      reads this
    {
      && memory.Length == size
      && size == FLASH_SIZE
      && blockSize == BLOCK_SIZE
    }

    /** mem_flash_init: a zero-filled 64 KiB buffer with FLASH_KV_BLOCK_SIZE blocks. */
    constructor Init()
      ensures Valid() && fresh(memory)
      ensures forall j :: 0 <= j < memory.Length ==> memory[j] == 0
    {
      size := FLASH_SIZE;
      blockSize := BLOCK_SIZE;
      memory := new byte[FLASH_SIZE](_ => 0);
    }

    /** mem_flash_read: copies `len` bytes out if the range lies inside the device. */
    method Read(addr: u32, len: u32) returns (r: int, data: seq<byte>)
      requires Valid()
      ensures r == 0 || r == -1
      ensures r == 0 <==> addr + len <= size
      ensures r == 0 ==> data == memory[addr..addr + len]
    {
      if addr + len > size {
        return -1, [];
      }
      data := memory[addr..addr + len];
      r := 0;
    }

    /** mem_flash_write: ANDs `data` into the device, byte by byte. */
    method Write(addr: u32, data: seq<byte>) returns (r: int)
      requires Valid() && |data| < U32_MOD
      modifies memory
      ensures r == 0 || r == -1
      ensures r == 0 <==> addr + |data| <= size
      ensures r == 0 ==> memory[..] == Programmed(old(memory[..]), addr, data)
      ensures r != 0 ==> memory[..] == old(memory[..])
    {
      if addr + |data| > size {
        return -1;
      }
      var i := 0;
      while i < |data|
        invariant 0 <= i <= |data|
        invariant forall j :: 0 <= j < memory.Length ==>
          memory[j] == if addr <= j < addr + i then old(memory[j]) & data[j - addr] else old(memory[j])
      {
        memory[addr + i] := memory[addr + i] & data[i];
        i := i + 1;
      }
      assert forall j :: 0 <= j < memory.Length ==> memory[..][j] == Programmed(old(memory[..]), addr, data)[j];
      r := 0;
    }

    /** mem_flash_erase: sets each block overlapping `[addr, addr + len)` to 0xFF.
      * The C code does not check the range, so the caller must keep it inside the device. */
    method Erase(addr: u32, len: u32) returns (r: int)
      requires Valid() && addr + len <= size
      modifies memory
      ensures r == 0
      ensures memory[..] == Erased(old(memory[..]), blockSize, addr, len)
    {
      EraseBounds(addr, len, blockSize, size);
      var blockStart := addr / blockSize;
      var blockEnd := (addr + len + blockSize - 1) / blockSize;
      var i := blockStart;
      while i < blockEnd
        invariant blockStart <= i <= blockEnd
        invariant forall j :: 0 <= j < memory.Length ==>
          memory[j] == if blockStart * blockSize <= j < i * blockSize then 0xFF else old(memory[j])
      {
        forall j | i * blockSize <= j < i * blockSize + blockSize {
          memory[j] := 0xFF;
        }
        i := i + 1;
      }
      assert forall j :: 0 <= j < memory.Length ==>
        memory[..][j] == Erased(old(memory[..]), blockSize, addr, len)[j];
      r := 0;
    }
  }

  // ------------------------------------------------------ media properties

  /** Programming can only clear bits: every new byte is a bitwise subset of the old one. */
  lemma ProgramOnlyClearsBits(mem: seq<byte>, addr: nat, data: seq<byte>)
    requires addr + |data| <= |mem|
    ensures forall j :: 0 <= j < |mem| ==> Programmed(mem, addr, data)[j] & mem[j] == Programmed(mem, addr, data)[j]
    ensures forall j :: 0 <= j < |mem| && !(addr <= j < addr + |data|) ==> Programmed(mem, addr, data)[j] == mem[j]
  {
  }

  /** Writing the same data twice leaves the same memory as writing it once. */
  lemma ProgramIdempotent(mem: seq<byte>, addr: nat, data: seq<byte>)
    requires addr + |data| <= |mem|
    ensures Programmed(Programmed(mem, addr, data), addr, data) == Programmed(mem, addr, data)
  {
    var once := Programmed(mem, addr, data);
    var twice := Programmed(once, addr, data);
    forall j | 0 <= j < |mem|
      ensures twice[j] == once[j]
    {
      if addr <= j < addr + |data| {
        assert once[j] & data[j - addr] == (mem[j] & data[j - addr]) & data[j - addr];
      }
    }
  }

  /** Data programmed into erased bytes reads back unchanged, since 0xFF & b == b. */
  lemma ProgramErasedReadsBack(mem: seq<byte>, addr: nat, data: seq<byte>)
    requires addr + |data| <= |mem|
    requires forall j :: addr <= j < addr + |data| ==> mem[j] == 0xFF
    ensures Programmed(mem, addr, data)[addr..addr + |data|] == data
  {
    var m := Programmed(mem, addr, data);
    forall k | 0 <= k < |data|
      ensures m[addr + k] == data[k]
    {
      assert m[addr + k] == mem[addr + k] & data[k];
    }
  }

  /** Bytewise AND of two equally long byte strings. */
  function AndBytes(a: seq<byte>, b: seq<byte>): (c: seq<byte>)
    requires |a| == |b|
    ensures |c| == |a|
    ensures forall j :: 0 <= j < |a| ==> c[j] == a[j] & b[j]
  {
    seq(|a|, j requires 0 <= j < |a| => a[j] & b[j])
  }

  /** Reading back a programmed range gives the AND of what was there and what was written. */
  lemma ProgrammedSlice(mem: seq<byte>, addr: nat, data: seq<byte>)
    requires addr + |data| <= |mem|
    ensures Programmed(mem, addr, data)[addr..addr + |data|] == AndBytes(mem[addr..addr + |data|], data)
  {
    var m := Programmed(mem, addr, data);
    forall k | 0 <= k < |data|
      ensures m[addr + k] == mem[addr + k] & data[k]
    {
    }
  }

  /** Programming nothing changes nothing. */
  lemma ProgrammedNothing(mem: seq<byte>, addr: nat)
    requires addr <= |mem|
    ensures Programmed(mem, addr, []) == mem
  {
  }

  /** Programming two adjacent pieces one after the other is programming them as one. */
  lemma ProgrammedAdjacent(mem: seq<byte>, addr: nat, d1: seq<byte>, d2: seq<byte>)
    requires addr + |d1| + |d2| <= |mem|
    ensures Programmed(Programmed(mem, addr, d1), addr + |d1|, d2) == Programmed(mem, addr, d1 + d2)
  {
    var a := Programmed(Programmed(mem, addr, d1), addr + |d1|, d2);
    var b := Programmed(mem, addr, d1 + d2);
    forall j | 0 <= j < |mem|
      ensures a[j] == b[j]
    {
      if addr + |d1| <= j < addr + |d1| + |d2| {
        assert (d1 + d2)[j - addr] == d2[j - addr - |d1|];
      } else if addr <= j < addr + |d1| {
        assert (d1 + d2)[j - addr] == d1[j - addr];
      }
    }
  }

  /** A block-aligned erase of whole blocks covers exactly the range asked for. */
  lemma ErasedAligned(mem: seq<byte>, bs: nat, addr: nat, len: nat)
    requires bs > 0 && addr % bs == 0 && len % bs == 0
    ensures EraseStart(addr, bs) == addr && EraseEnd(addr, len, bs) == addr + len
    ensures forall j :: 0 <= j < |mem| ==>
      Erased(mem, bs, addr, len)[j] == if addr <= j < addr + len then 0xFF else mem[j]
  {
    var a := addr / bs;
    var l := len / bs;
    DivBounds(addr, bs);
    DivBounds(len, bs);
    assert addr + len == (a + l) * bs;
    DivUnique(addr + len + bs - 1, bs, a + l, bs - 1);
  }

  /** Division and remainder are determined by any decomposition `x == k * bs + r` with `0 <= r < bs`. */
  lemma DivUnique(x: nat, bs: nat, k: nat, r: nat)
    requires bs > 0 && r < bs && x == k * bs + r
    ensures x / bs == k && x % bs == r
  {
    var q := x / bs;
    assert x == q * bs + x % bs;
    assert (k + 1) * bs == k * bs + bs;
    MulLessCancel(q, k + 1, bs);
    assert (q + 1) * bs == q * bs + bs;
    MulLessCancel(k, q + 1, bs);
  }

  /** After erasing a range, writing data into it and reading it back returns that data. */
  lemma EraseWriteRead(mem: seq<byte>, bs: nat, eaddr: nat, elen: nat, addr: nat, data: seq<byte>)
    requires bs > 0 && eaddr <= addr && addr + |data| <= eaddr + elen && addr + |data| <= |mem|
    ensures Programmed(Erased(mem, bs, eaddr, elen), addr, data)[addr..addr + |data|] == data
  {
    var e := Erased(mem, bs, eaddr, elen);
    var q := (eaddr + elen + bs - 1) / bs;
    assert q * bs > eaddr + elen - 1;
    assert eaddr / bs * bs <= eaddr;
    forall j | addr <= j < addr + |data|
      ensures e[j] == 0xFF
    {
      assert EraseStart(eaddr, bs) <= j < EraseEnd(eaddr, elen, bs);
    }
    ProgramErasedReadsBack(e, addr, data);
  }
}
