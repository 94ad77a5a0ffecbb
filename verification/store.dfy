/**
 * The store engine of flash_kv_core.c as it runs: handle 0, the global hash
 * table and the transaction globals are fields updated in place, and every
 * flash access goes through the adapter. Each method is proved to leave the
 * state, and return the result, that the matching function of module Engine
 * describes.
 */
module Store {
  import opened Types
  import opened Crc
  import opened MockFlash
  import opened FlashPort
  import opened Layout
  import opened HashIndex
  import opened Engine

  /** kv_record_check_crc, computing the CRC-16 with the byte loop. */
  method CheckRecordCrc(rec: Record) returns (ok: bool)
    requires RecordOk(rec)
    ensures ok == CrcMatches(rec)
  {
    var crc := ComputeCrc16(RecordBody(rec));
    ok := crc == rec.crc16;
  }

  /** kv_region_header_valid on a 24-byte header buffer. */
  method CheckHeader(b: seq<byte>) returns (valid: bool)
    requires |b| == HEADER_SIZE
    ensures valid == HeaderBytesValid(b)
  {
    var h := DecodeHeader(b);
    if h.magic != KV_MAGIC && h.magic != KV_MAGIC_B {
      return false;
    }
    var crc := ComputeCrc32(HeaderBody(h));
    valid := crc == h.crc32;
  }

  /** The region choice of flash_kv_init from the two re-read header buffers. */
  method SelectHeader(nb0: seq<byte>, nb1: seq<byte>) returns (choice: Choice)
    requires |nb0| == HEADER_SIZE && |nb1| == HEADER_SIZE
    ensures choice == SelectRegion(nb0, nb1)
  {
    var valid0 := CheckHeader(nb0);
    var valid1 := CheckHeader(nb1);
    choice := ChooseRegion(valid0, valid1, DecodeHeader(nb0).version as int, DecodeHeader(nb1).version as int);
  }

  /** `memset(value, 0, VALUE_SIZE)` followed by `memcpy(value, v, |v|)`. */
  method FillValue(buf: array<byte>, v: seq<byte>)
    requires |v| <= VALUE_SIZE <= buf.Length
    modifies buf
    ensures buf[..VALUE_SIZE] == v + Zeros(VALUE_SIZE - |v|)
    ensures buf[VALUE_SIZE..] == old(buf[VALUE_SIZE..])
  {
    forall j | 0 <= j < VALUE_SIZE {
      buf[j] := 0;
    }
    forall j | 0 <= j < |v| {
      buf[j] := v[j];
    }
    assert buf[..VALUE_SIZE] == v + Zeros(VALUE_SIZE - |v|);
  }

  class KvStore {
    /** The adapter of handle 0 (its `ops`), over the device. */
    const port: Port
    /** `g_hash_table` */
    const table: HashTable

    /** `ops != NULL`: set by flash_kv_init. */
    var hasOps: bool
    var active: nat
    var version: u32
    var recordCount: u32
    var txState: TxState
    /** `region_addr[0]`; `region_addr[1]` is always `base + regionSize`. */
    var base: u32
    var regionSize: u32
    var blockSize: u32
    /** `g_tx_pending` and `g_tx_pending_record` */
    var txPending: bool
    var txRecord: Record

    ghost function Hdl(): Handle
      reads this
    {
      Handle(hasOps, active, version, recordCount, txState, base, regionSize, blockSize)
    }

    /** The whole store as a value. */
    ghost function State(): KvState
      reads this, port, port.flash, port.flash.memory, table, table.slots
    {
      KvState(port.flash.memory[..], Hdl(), table.Model(), txPending, txRecord)
    }

    ghost predicate Valid()
      reads this, port, port.flash, port.flash.memory, table, table.slots
    {
      port.Valid() && table.Valid() && StateOk(State())
    }

    /** Static storage at start-up: nothing initialised, the table zeroed. */
    constructor (flash: Flash, faults: Faults)
      requires flash.Valid()
      ensures Valid() && port.flash == flash && port.faults == faults
      ensures State() == Boot(flash.memory[..])
    {
      port := new Port(flash, faults);
      table := new HashTable();
      hasOps := false;
      active := 0;
      version := 0;
      recordCount := 0;
      txState := TxIdle;
      base := 0;
      regionSize := 0;
      blockSize := 0;
      txPending := false;
      txRecord := ZeroRecord();
    }

    /** `region_addr[active_region]` */
    function ActiveAddr(): (a: u32)
      reads this
      ensures a == RegionAddr(Hdl(), active)
    {
      if active == 0 then base else Add32(base, regionSize)
    }

    /** kv_record_write: recompute the CRC-16 of `rec` and program it at `addr`. */
    method RecordWrite(addr: u32, rec: Record) returns (r: int)
      requires port.Valid() && RecordOk(rec)
      modifies port.flash.memory
      ensures port.Valid()
      ensures r == 0 <==> WriteAt(old(port.flash.memory[..]), port.faults, addr, EncodeRecord(Sealed(rec))).Some?
      ensures port.flash.memory[..] ==
        OrKeep(WriteAt(old(port.flash.memory[..]), port.faults, addr, EncodeRecord(Sealed(rec))), old(port.flash.memory[..]))
    {
      var crc := ComputeCrc16(RecordBody(rec));
      var sealed := rec.(crc16 := crc);
      r := port.Write(addr, EncodeRecord(sealed));
    }

    /** Read the record at region offset `off` and program it again flagged DELETED, ignoring failures. */
    method MarkRecordDeleted(off: u32)
      requires Valid()
      modifies port.flash.memory
      ensures Valid()
      ensures State() == Engine.MarkDeleted(old(State()), port.faults, off)
    {
      var addr := Add32(ActiveAddr(), off);
      var e, b := port.Read(addr, RECORD_SIZE);
      if e == 0 {
        var rec := DecodeRecord(b);
        var _ := RecordWrite(addr, rec.(flags := FLAG_DELETED));
      }
    }

    /** kv_region_header_init: erase a region and write a fresh header into it. */
    method InitRegionHeader(addr: u32, size: u32) returns (r: int)
      requires port.Valid() && addr + size <= FLASH_SIZE
      modifies port.flash.memory
      ensures port.Valid()
      ensures port.flash.memory[..] == Engine.HeaderInit(old(port.flash.memory[..]), port.faults, addr, size)
    {
      var e := port.Erase(addr, size);
      if e != 0 {
        return -1;
      }
      var header := Header(KV_MAGIC, 1, 0, HEADER_SIZE as bv32, 0, Zeros(3), 0);
      var crc := ComputeCrc32(HeaderBody(header));
      header := header.(crc32 := crc);
      assert header == FreshHeader();
      r := port.Write(addr, EncodeHeader(header));
    }

    /** One pass of the kv_hash_rebuild loop: read the record at `offset`; index and count it if
      * it is live. `stop` is the failed read that ends the scan. */
    method RebuildScanOne(ra: u32, offset: nat, end: u32) returns (stop: bool)
      requires port.Valid() && table.Valid() && offset < end
      modifies this`recordCount, table, table.slots
      ensures table.Valid()
      ensures stop ==> RebuildStep(port.flash.memory[..], port.faults, ra, offset, end, old(table.Model()), old(recordCount))
                       == Rebuilt(table.Model(), recordCount)
      ensures !stop ==>
        RebuildStep(port.flash.memory[..], port.faults, ra, offset, end, old(table.Model()), old(recordCount))
        == RebuildFrom(port.flash.memory[..], port.faults, ra, offset + RECORD_SIZE, end, table.Model(), recordCount)
    {
      var e, b := port.Read(Add32(ra, offset), RECORD_SIZE);
      if e != 0 {
        return true;
      }
      var rec := DecodeRecord(b);
      var crcOk := CheckRecordCrc(rec);
      if crcOk && rec.flags == FLAG_VALID {
        var _ := table.Set(RecordKey(rec), offset);
        recordCount := Add32(recordCount, 1);
      }
      stop := false;
    }

    /** The scan loop of kv_hash_rebuild over `[HEADER_SIZE, end)` of the region at `ra`. */
    method RebuildScan(ra: u32, end: u32)
      requires port.Valid() && table.Valid()
      modifies this`recordCount, table, table.slots
      ensures table.Valid()
      ensures Rebuilt(table.Model(), recordCount)
        == RebuildFrom(port.flash.memory[..], port.faults, ra, HEADER_SIZE, end, old(table.Model()), old(recordCount))
    {
      ghost var mem := port.flash.memory[..];
      ghost var target := RebuildFrom(mem, port.faults, ra, HEADER_SIZE, end, table.Model(), recordCount);
      var offset: nat := HEADER_SIZE;
      while offset < end
        invariant table.Valid()
        invariant RebuildFrom(mem, port.faults, ra, offset, end, table.Model(), recordCount) == target
        decreases end - offset
      {
        var stop := RebuildScanOne(ra, offset, end);
        if stop {
          break;
        }
        offset := offset + RECORD_SIZE;
      }
    }

    /** kv_hash_rebuild */
    method RebuildIndex()
      requires Valid()
      modifies this`recordCount, table, table.slots
      ensures Valid()
      ensures State() == Rebuild(old(State()), port.faults)
    {
      table.Init();
      assert table.Model() == EmptyIndex();
      RebuildScan(ActiveAddr(), Sub32(regionSize, blockSize));
    }

    /** Read a header into `prev`'s place: the bytes read, or `prev` when the read fails. */
    method ReadHeader(addr: u32, prev: seq<byte>) returns (b: seq<byte>)
      requires port.Valid() && |prev| == HEADER_SIZE
      ensures b == HeaderBuf(port.flash.memory[..], port.faults, addr, prev)
    {
      var e, data := port.Read(addr, HEADER_SIZE);
      b := if e == 0 then data else prev;
    }

    /** Re-initialise the region at `addr` unless its first read succeeded with a valid header. */
    method RepairRegion(addr: u32, size: u32, readOk: bool, buf: seq<byte>)
      requires port.Valid() && |buf| == HEADER_SIZE && addr + size <= FLASH_SIZE
      modifies port.flash.memory
      ensures port.Valid()
      ensures port.flash.memory[..] == Repair(old(port.flash.memory[..]), port.faults, addr, size, readOk, buf)
    {
      var valid := CheckHeader(buf);
      if !(readOk && valid) {
        var _ := InitRegionHeader(addr, size);
      }
    }

    /** The header phase of flash_kv_init. */
    method RecoverHeaders(c: Config) returns (choice: Choice)
      requires port.Valid() && ConfigOk(c)
      modifies port.flash.memory
      ensures port.Valid()
      ensures Recovery(port.flash.memory[..], choice) == Recover(old(port.flash.memory[..]), port.faults, c)
    {
      ghost var mem := port.flash.memory[..];
      var rs := c.totalSize / 2;
      var a0 := c.startAddr;
      var a1 := Add32(c.startAddr, rs);
      var e0, b0 := port.Read(a0, HEADER_SIZE);
      var e1, b1 := port.Read(a1, HEADER_SIZE);
      var hb0 := if e0 == 0 then b0 else Zeros(HEADER_SIZE);
      var hb1 := if e1 == 0 then b1 else Zeros(HEADER_SIZE);
      assert hb0 == OrKeep(ReadAt(mem, port.faults, a0, HEADER_SIZE), Zeros(HEADER_SIZE));
      assert hb1 == OrKeep(ReadAt(mem, port.faults, a1, HEADER_SIZE), Zeros(HEADER_SIZE));
      RepairRegion(a0, rs, e0 == 0, hb0);
      RepairRegion(a1, rs, e1 == 0, hb1);
      var nb0 := ReadHeader(a0, hb0);
      var nb1 := ReadHeader(a1, hb1);
      choice := SelectHeader(nb0, nb1);
    }

    /** Take over the handle fields `h` in one go, as flash_kv_init does once the headers are settled. */
    method SetHandle(h: Handle)
      requires port.Valid() && table.Valid() && StateOk(State().(h := h))
      modifies this`hasOps, this`active, this`version, this`recordCount, this`txState, this`base, this`regionSize, this`blockSize
      ensures Valid() && State() == old(State()).(h := h)
    {
      hasOps, active, version, recordCount := h.hasOps, h.active, h.version, h.recordCount;
      txState, base, regionSize, blockSize := h.txState, h.base, h.regionSize, h.blockSize;
    }

    /** flash_kv_init for instance 0 */
    method Init(c: Config) returns (r: KvError)
      requires Valid() && ConfigOk(c)
      modifies this, port.flash.memory, table, table.slots
      ensures Valid() && r == Ok
      ensures State() == InitSpec(old(State()), port.faults, c)
    {
      var choice := RecoverHeaders(c);
      SetHandle(InitHandle(c, choice));
      RebuildIndex();
      r := Ok;
    }

    /** Program a new record at `wo`, then index it at `wo - ra` and count it. */
    method AppendRecord(key: seq<byte>, value: seq<byte>, ra: u32, wo: u32) returns (r: KvError)
      requires Valid() && |key| <= KEY_SIZE && |value| <= VALUE_SIZE
      modifies this, port.flash.memory, table, table.slots
      ensures Valid()
      ensures Step(State(), r) == Append(old(State()), port.faults, key, value, ra, wo)
    {
      ghost var s0 := State();
      var w := RecordWrite(wo, NewRecord(key, value));
      if w != 0 {
        assert State() == s0;
        return FlashFail;
      }
      ghost var m := port.flash.memory[..];
      var _ := table.Set(key, Sub32(wo, ra));
      recordCount := Add32(recordCount, 1);
      r := Ok;
      assert State() == s0.(mem := m, index := IndexSet(s0.index, key, Sub32(wo, ra)),
                            h := s0.h.(recordCount := Add32(s0.h.recordCount, 1)));
    }

    /** One pass of the flash_kv_gc copy loop: read the record at `offset` of `src`. `stop` ends
      * the loop, with `ok` false for a failed write; otherwise `w` and `m` are the new write
      * offset and count. */
    method GcCopyOne(src: u32, dst: u32, offset: u32, end: u32, wo: u32, next: HashTable, n: u32)
      returns (w: nat, m: u32, stop: bool, ok: bool)
      requires port.Valid() && next.Valid() && wo <= offset < end
      modifies port.flash.memory, next, next.slots
      ensures port.Valid() && next.Valid()
      ensures !stop ==> w <= offset + RECORD_SIZE
      ensures GcAt(old(port.flash.memory[..]), port.faults, src, dst, offset, end, wo, old(next.Model()), n)
           == if stop then GcRun(port.flash.memory[..], next.Model(), m, ok)
              else GcFrom(port.flash.memory[..], port.faults, src, dst, offset + RECORD_SIZE, end, w, next.Model(), m)
    {
      var re, b := port.Read(Add32(src, offset), RECORD_SIZE);
      if re != 0 {
        return wo, n, true, true;
      }
      w, m, stop, ok := GcCopyRecord(src, dst, offset, end, wo, next, n, b);
    }

    /** The rest of that pass for the record bytes `b`: a live record is rewritten at `wo` of
      * `dst` with a fresh CRC and indexed in `next`; anything else is skipped. */
    method GcCopyRecord(src: u32, dst: u32, offset: u32, end: u32, wo: u32, next: HashTable, n: u32, b: seq<byte>)
      returns (w: nat, m: u32, stop: bool, ok: bool)
      requires port.Valid() && next.Valid() && wo <= offset < end && |b| == RECORD_SIZE
      modifies port.flash.memory, next, next.slots
      ensures port.Valid() && next.Valid()
      ensures !stop ==> w <= offset + RECORD_SIZE
      ensures GcRecord(old(port.flash.memory[..]), port.faults, src, dst, offset, end, wo, old(next.Model()), n, b)
           == if stop then GcRun(port.flash.memory[..], next.Model(), m, ok)
              else GcFrom(port.flash.memory[..], port.faults, src, dst, offset + RECORD_SIZE, end, w, next.Model(), m)
    {
      var rec := DecodeRecord(b);
      var crcOk := CheckRecordCrc(rec);
      if !(crcOk && rec.flags == FLAG_VALID) {
        assert !Live(rec);
        return wo, n, false, true;
      }
      w, m, stop, ok := GcCopyLive(src, dst, offset, end, wo, next, n, b, rec);
    }

    /** The live-record case of that pass: write `rec` with a fresh CRC at `wo` of `dst`; on
      * success index its key at `wo` in `next` and count it. */
    method GcCopyLive(src: u32, dst: u32, offset: u32, end: u32, wo: u32, next: HashTable, n: u32, b: seq<byte>, rec: Record)
      returns (w: nat, m: u32, stop: bool, ok: bool)
      requires port.Valid() && next.Valid() && wo <= offset < end && |b| == RECORD_SIZE
      requires rec == DecodeRecord(b) && Live(rec)
      modifies port.flash.memory, next, next.slots
      ensures port.Valid() && next.Valid()
      ensures !stop ==> w <= offset + RECORD_SIZE
      ensures GcRecord(old(port.flash.memory[..]), port.faults, src, dst, offset, end, wo, old(next.Model()), n, b)
           == if stop then GcRun(port.flash.memory[..], next.Model(), m, ok)
              else GcFrom(port.flash.memory[..], port.faults, src, dst, offset + RECORD_SIZE, end, w, next.Model(), m)
    {
      ghost var mem0 := port.flash.memory[..];
      ghost var data := EncodeRecord(Sealed(rec));
      var we := RecordWrite(Add32(dst, wo), rec);
      if we != 0 {
        assert WriteAt(mem0, port.faults, Add32(dst, wo), data) == None;
        return wo, n, true, false;
      }
      assert Live(rec) && WriteAt(mem0, port.faults, Add32(dst, wo), data) == Some(port.flash.memory[..]);
      var _ := next.Set(RecordKey(rec), wo);
      w, m, stop, ok := wo + RECORD_SIZE, Add32(n, 1), false, true;
    }

    /** The copy loop of flash_kv_gc over `[HEADER_SIZE, end)` of `src`, into `dst` and `next`. */
    method GcCopy(src: u32, dst: u32, end: u32, next: HashTable) returns (ok: bool, n: u32)
      requires port.Valid() && next.Valid()
      modifies port.flash.memory, next, next.slots
      ensures next.Valid()
      ensures GcRun(port.flash.memory[..], next.Model(), n, ok)
        == GcFrom(old(port.flash.memory[..]), port.faults, src, dst, HEADER_SIZE, end, HEADER_SIZE, old(next.Model()), 0)
    {
      ghost var target := GcFrom(port.flash.memory[..], port.faults, src, dst, HEADER_SIZE, end, HEADER_SIZE, next.Model(), 0);
      var offset: nat := HEADER_SIZE;
      var wo: nat := HEADER_SIZE;
      n := 0;
      while offset < end
        invariant next.Valid() && wo <= offset
        invariant GcFrom(port.flash.memory[..], port.faults, src, dst, offset, end, wo, next.Model(), n) == target
        decreases end - offset
      {
        var stop;
        wo, n, stop, ok := GcCopyOne(src, dst, offset, end, wo, next, n);
        if stop {
          return;
        }
        offset := offset + RECORD_SIZE;
      }
      ok := true;
    }

    /** flash_kv_gc */
    method Gc() returns (r: KvError)
      requires Valid()
      modifies this, port.flash.memory, table, table.slots
      ensures Valid()
      ensures Step(State(), r) == GcSpec(old(State()), port.faults)
    {
      if !hasOps {
        return NoInit;
      }
      ghost var s0 := State();
      var inactive := 1 - active;
      var src := ActiveAddr();
      var dst := if inactive == 0 then base else Add32(base, regionSize);
      assert dst == RegionAddr(s0.h, inactive);
      var e := port.Erase(dst, regionSize);
      if e != 0 {
        assert State() == s0;
        return FlashFail;
      }
      ghost var erased := port.flash.memory[..];
      assert EraseAt(s0.mem, port.faults, dst, regionSize) == Some(erased);
      var next := new HashTable();
      var ok, n := GcCopy(src, dst, Sub32(regionSize, blockSize), next);
      ghost var run := GcFrom(erased, port.faults, src, dst, HEADER_SIZE, ScanEnd(s0.h), HEADER_SIZE, EmptyIndex(), 0);
      assert run == GcRun(port.flash.memory[..], next.Model(), n, ok);
      if !ok {
        assert State() == s0.(mem := run.mem);
        return FlashFail;
      }
      active := inactive;
      recordCount := n;
      table.CopyFrom(next);
      assert State() == s0.(mem := run.mem, index := run.index, h := s0.h.(active := inactive, recordCount := run.n));
      r := Ok;
    }

    /** The GC branch of flash_kv_set: collect, then retry the append with the old `ra` and `reserve`. */
    method GcThenAppend(key: seq<byte>, value: seq<byte>, ra: u32, reserve: u32) returns (r: KvError)
      requires Valid() && |key| <= KEY_SIZE && |value| <= VALUE_SIZE
      modifies this, port.flash.memory, table, table.slots
      ensures Valid()
      ensures Step(State(), r) == AppendAfterGc(GcSpec(old(State()), port.faults), port.faults, key, value, ra, reserve)
    {
      var gc := Gc();
      if gc != Ok {
        return NoSpace;
      }
      var wo := AppendAddr(ra, recordCount);
      if wo >= reserve {
        return NoSpace;
      }
      r := AppendRecord(key, value, ra, wo);
    }

    /** The space check and write of flash_kv_set. */
    method PlaceRecord(key: seq<byte>, value: seq<byte>) returns (r: KvError)
      requires Valid() && |key| <= KEY_SIZE && |value| <= VALUE_SIZE
      modifies this, port.flash.memory, table, table.slots
      ensures Valid()
      ensures Step(State(), r) == Place(old(State()), port.faults, key, value)
    {
      var ra := ActiveAddr();
      var reserve := Sub32(Add32(ra, regionSize), blockSize);
      var wo := AppendAddr(ra, recordCount);
      if wo >= reserve {
        r := GcThenAppend(key, value, ra, reserve);
      } else {
        r := AppendRecord(key, value, ra, wo);
      }
    }

    /** flash_kv_set */
    method Set(key: seq<byte>, value: seq<byte>) returns (r: KvError)
      requires Valid()
      modifies this, port.flash.memory, table, table.slots
      ensures Valid()
      ensures Step(State(), r) == SetSpec(old(State()), port.faults, key, value)
    {
      if |key| == 0 || |key| > KEY_SIZE || |value| > VALUE_SIZE {
        return InvalidParam;
      }
      if !hasOps {
        return NoInit;
      }
      var found, oldOffset := table.Get(key);
      if found == 0 {
        MarkRecordDeleted(oldOffset);
      }
      r := PlaceRecord(key, value);
    }

    /** flash_kv_get: on success the first VALUE_SIZE bytes of `buf` receive the value, zero-padded. */
    method Get(key: seq<byte>, buf: array<byte>) returns (r: KvError, valueLen: byte)
      requires Valid() && |key| < 0x100
      requires buf.Length >= VALUE_SIZE && buf != port.flash.memory
      modifies buf
      ensures r == GetSpec(old(State()), port.faults, key).err
      ensures r == Ok ==> buf[..VALUE_SIZE] == GetSpec(old(State()), port.faults, key).value
      ensures r == Ok ==> valueLen == GetSpec(old(State()), port.faults, key).valueLen
      ensures r == Ok ==> buf[VALUE_SIZE..] == old(buf[VALUE_SIZE..])
      ensures r != Ok ==> buf[..] == old(buf[..])
    {
      if !hasOps {
        return NoInit, 0;
      }
      var found, offset := table.Get(key);
      if found != 0 {
        return NotFound, 0;
      }
      var e, b := port.Read(Add32(ActiveAddr(), offset), RECORD_SIZE);
      if e != 0 {
        return FlashFail, 0;
      }
      var rec := DecodeRecord(b);
      var crcOk := CheckRecordCrc(rec);
      if !crcOk {
        return CrcFail, 0;
      }
      FillValue(buf, RecordValue(rec));
      return Ok, rec.valueLen;
    }

    /** flash_kv_del */
    method Del(key: seq<byte>) returns (r: KvError)
      requires Valid() && |key| < 0x100
      modifies this, port.flash.memory, table, table.slots
      ensures Valid()
      ensures Step(State(), r) == DelSpec(old(State()), port.faults, key)
    {
      if !hasOps {
        return NoInit;
      }
      var found, offset := table.Get(key);
      if found != 0 {
        return NotFound;
      }
      MarkRecordDeleted(offset);
      var _ := table.Del(key);
      recordCount := Sub32(recordCount, 1);
      r := Ok;
    }

    /** flash_kv_exists */
    method Exists(key: seq<byte>) returns (b: bool)
      requires Valid() && |key| < 0x100
      ensures b == Engine.Exists(State(), key)
    {
      var found, _ := table.Get(key);
      b := found == 0;
    }

    /** flash_kv_tx_begin */
    method TxBegin() returns (r: KvError)
      requires Valid()
      modifies this
      ensures Valid()
      ensures Step(State(), r) == TxBeginSpec(old(State()))
    {
      if !hasOps {
        return NoInit;
      }
      txState := TxPrepared;
      txPending := false;
      txRecord := ZeroRecord();
      r := Ok;
    }

    /** The pending-record branch of flash_kv_tx_commit. */
    method WritePending() returns (r: KvError)
      requires Valid() && txPending
      modifies this, port.flash.memory, table, table.slots
      ensures Valid()
      ensures Step(State(), r) == CommitPending(old(State()), port.faults)
    {
      var ra := ActiveAddr();
      var wo := AppendAddr(ra, recordCount);
      var w := RecordWrite(wo, txRecord);
      if w != 0 {
        txPending := false;
        return FlashFail;
      }
      var _ := table.Set(RecordKey(txRecord), Sub32(wo, ra));
      recordCount := Add32(recordCount, 1);
      txPending := false;
      r := Ok;
    }

    /** flash_kv_tx_commit */
    method TxCommit() returns (r: KvError)
      requires Valid()
      modifies this, port.flash.memory, table, table.slots
      ensures Valid()
      ensures Step(State(), r) == TxCommitSpec(old(State()), port.faults)
    {
      r := Ok;
      if txPending {
        r := WritePending();
        if r != Ok {
          txState := TxIdle;
          return;
        }
      }
      txState := TxCommitted;
      txState := TxIdle;
    }

    /** flash_kv_tx_rollback */
    method TxRollback() returns (r: KvError)
      requires Valid()
      modifies this
      ensures Valid() && r == Ok
      ensures State() == TxRollbackSpec(old(State()))
    {
      txPending := false;
      txRecord := ZeroRecord();
      txState := TxIdle;
      r := Ok;
    }

    /** flash_kv_free_percent */
    method FreePercent() returns (p: u8)
      requires Valid()
      ensures p == Engine.FreePercent(State().h)
    {
      var used := Mul32(recordCount, RECORD_SIZE);
      var total := Sub32(Sub32(regionSize, blockSize), HEADER_SIZE);
      if total == 0 {
        return 0;
      }
      p := (Mul32(Sub32(total, used), 100) / total) % 0x100;
    }

    /** flash_kv_clear */
    method Clear() returns (r: KvError)
      requires Valid()
      modifies this, port.flash.memory, table, table.slots
      ensures Valid() && r == Ok
      ensures State() == ClearSpec(old(State()), port.faults)
    {
      if hasOps {
        var _ := port.Erase(ActiveAddr(), regionSize);
      }
      table.Init();
      recordCount := 0;
      r := Ok;
    }

    /** flash_kv_count */
    method Count() returns (n: u32)
      requires Valid()
      ensures n == State().h.recordCount
    {
      n := recordCount;
    }

    /** flash_kv_status */
    method Status() returns (r: KvError, total: u32, used: u32)
      requires Valid()
      ensures r == Ok && total == TotalBytes(State().h) && used == UsedBytes(State().h)
    {
      total := Sub32(Sub32(regionSize, blockSize), HEADER_SIZE);
      used := Mul32(recordCount, RECORD_SIZE);
      r := Ok;
    }
  }
}
