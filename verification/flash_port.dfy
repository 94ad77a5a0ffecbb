/**
 * The flash adapter the store calls through (`flash_kv_ops_t`): read, write
 * and erase over the mock flash device.
 *
 * A real adapter can report failure where the mock never does, so the port
 * carries three fixed fault switches: when one is on, that operation returns
 * -1 and leaves the device untouched. With every switch off the port behaves
 * exactly as test/mock_flash.c.
 */
module FlashPort {
  import opened Types
  import opened MockFlash

  /** Which adapter operations report failure. */
  datatype Faults = Faults(read: bool, write: bool, erase: bool)

  const NO_FAULTS: Faults := Faults(false, false, false)

  /** The bytes an adapter read returns, or None for -1. */
  function ReadAt(mem: seq<byte>, f: Faults, addr: nat, len: nat): (r: Option<seq<byte>>)
    ensures r.Some? ==> |r.value| == len
  {
    if f.read || addr + len > |mem| then None else Some(mem[addr..addr + len])
  }

  /** The device contents after an adapter write, or None for -1 (contents unchanged). */
  function WriteAt(mem: seq<byte>, f: Faults, addr: nat, data: seq<byte>): (r: Option<seq<byte>>)
    ensures r.Some? ==> |r.value| == |mem|
  {
    if f.write || addr + |data| > |mem| then None else Some(Programmed(mem, addr, data))
  }

  /** The device contents after an adapter erase, or None for -1 (contents unchanged). */
  function EraseAt(mem: seq<byte>, f: Faults, addr: nat, len: nat): (r: Option<seq<byte>>)
    ensures r.Some? ==> |r.value| == |mem|
  {
    if f.erase then None else Some(Erased(mem, BLOCK_SIZE, addr, len))
  }

  /** The contents after an operation whose result is not checked. */
  function OrKeep(r: Option<seq<byte>>, mem: seq<byte>): seq<byte>
  {
    if r.Some? then r.value else mem
  }

  class Port {
    const flash: Flash
    const faults: Faults

    ghost predicate Valid()
      reads this, flash
    {
      flash.Valid()
    }

    constructor (flash: Flash, faults: Faults)
      requires flash.Valid()
      ensures Valid() && this.flash == flash && this.faults == faults
    {
      this.flash := flash;
      this.faults := faults;
    }

    /** `ops->read` */
    method Read(addr: u32, len: u32) returns (r: int, data: seq<byte>)
      requires Valid()
      ensures r == 0 || r == -1
      ensures r == 0 <==> ReadAt(flash.memory[..], faults, addr, len).Some?
      ensures r == 0 ==> data == ReadAt(flash.memory[..], faults, addr, len).value
    {
      if faults.read {
        return -1, [];
      }
      r, data := flash.Read(addr, len);
    }

    /** `ops->write` */
    method Write(addr: u32, data: seq<byte>) returns (r: int)
      requires Valid() && |data| < U32_MOD
      modifies flash.memory
      ensures r == 0 || r == -1
      ensures r == 0 <==> WriteAt(old(flash.memory[..]), faults, addr, data).Some?
      ensures flash.memory[..] == OrKeep(WriteAt(old(flash.memory[..]), faults, addr, data), old(flash.memory[..]))
    {
      if faults.write {
        return -1;
      }
      r := flash.Write(addr, data);
    }

    /** `ops->erase`; the mock does not check the range, so the caller keeps it inside the device. */
    method Erase(addr: u32, len: u32) returns (r: int)
      requires Valid() && addr + len <= flash.size
      modifies flash.memory
      ensures r == 0 || r == -1
      ensures r == 0 <==> EraseAt(old(flash.memory[..]), faults, addr, len).Some?
      ensures flash.memory[..] == OrKeep(EraseAt(old(flash.memory[..]), faults, addr, len), old(flash.memory[..]))
    {
      if faults.erase {
        return -1;
      }
      r := flash.Erase(addr, len);
    }
  }
}
