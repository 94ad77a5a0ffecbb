/**
 * The store engine of flash_kv_core.c as functions on a state value: the
 * flash contents, handle 0, the global index and the pending-transaction
 * globals. Each function is one API call or one internal step, with the
 * same branches, constants and 32-bit arithmetic as the C code; the class in
 * store.dfy runs the same steps in place and is proved equal to these.
 *
 * Behaviours of the C code kept as they are:
 *  - set computes the region address and the reserve limit before a GC and
 *    does not refresh them after it;
 *  - set marks the old record deleted without decrementing `record_count`,
 *    while del decrements it;
 *  - the results of tombstone writes and of header initialisation at init
 *    are ignored;
 *  - GC erases the target region, header included, and writes no header.
 */
module Engine {
  import opened Types
  import opened MockFlash
  import opened FlashPort
  import opened Layout
  import opened HashIndex

  /** The fields of `kv_handle_t` the engine reads and writes. `hasOps` is `ops != NULL`. */
  datatype Handle = Handle(
    hasOps: bool,
    active: nat,
    version: u32,
    recordCount: u32,
    txState: TxState,
    base: u32,
    regionSize: u32,
    blockSize: u32)

  /** Flash contents, `g_handles[0]`, `g_hash_table`, `g_tx_pending` and `g_tx_pending_record`. */
  datatype KvState = KvState(mem: seq<byte>, h: Handle, index: Index, txPending: bool, txRecord: Record)

  /** The new state and the `kv_err_t` an operation returns. */
  datatype Step = Step(s: KvState, err: KvError)

  /** `kv_instance_config_t`, less the ops pointer. */
  datatype Config = Config(startAddr: u32, totalSize: u32, blockSize: u32)

  /** A layout of two block-aligned regions inside the device, each larger than one record block. */
  ghost predicate ConfigOk(c: Config)
  {
    && c.startAddr % BLOCK_SIZE == 0
    && (c.totalSize / 2) % BLOCK_SIZE == 0
    && RECORD_SIZE <= c.blockSize <= c.totalSize / 2
    && c.startAddr + 2 * (c.totalSize / 2) <= FLASH_SIZE
  }

  ghost predicate GeometryOk(h: Handle)
  {
    && h.base % BLOCK_SIZE == 0
    && h.regionSize % BLOCK_SIZE == 0
    && RECORD_SIZE <= h.blockSize <= h.regionSize
    && h.base + 2 * h.regionSize <= FLASH_SIZE
  }

  ghost predicate StateOk(s: KvState)
  {
    && |s.mem| == FLASH_SIZE
    && TableOk(s.index.slots)
    && RecordOk(s.txRecord)
    && s.h.active < 2
    && (s.h.hasOps ==> GeometryOk(s.h))
    && (s.txPending ==> s.h.hasOps)
  }

  /** `memset(&record, 0, sizeof record)` */
  function ZeroRecord(): (r: Record)
    ensures RecordOk(r)
  {
    Record(0, Zeros(KEY_SIZE), 0, Zeros(VALUE_SIZE), 0, Zeros(3), 0)
  }

  /** Static storage before flash_kv_init: everything zero, no ops. */
  function Boot(mem: seq<byte>): (s: KvState)
    requires |mem| == FLASH_SIZE
    ensures StateOk(s)
  {
    KvState(mem, Handle(false, 0, 0, 0, TxIdle, 0, 0, 0), EmptyIndex(), false, ZeroRecord())
  }

  /** `region_addr[r]`: the first region starts at the configured address, the second right after it. */
  function RegionAddr(h: Handle, r: nat): u32
  {
    if r == 0 then h.base else Add32(h.base, h.regionSize)
  }

  /** Scans stop before `region_size - block_size`: the last block of a region is reserve. */
  function ScanEnd(h: Handle): u32
  {
    Sub32(h.regionSize, h.blockSize)
  }

  /** `region_addr + region_size - block_size`, the limit for appends. */
  function Reserve(h: Handle, ra: u32): u32
  {
    Sub32(Add32(ra, h.regionSize), h.blockSize)
  }

  /** `region_addr + sizeof(header) + count * sizeof(record)`, where the next record goes. */
  function AppendAddr(ra: u32, count: u32): u32
  {
    Add32(Add32(ra, HEADER_SIZE), Mul32(count, RECORD_SIZE))
  }

  // ---------------------------------------------------------------- scans

  datatype Rebuilt = Rebuilt(index: Index, count: u32)

  /** The loop of kv_hash_rebuild from offset `o` on, with the index and count built so far. */
  function RebuildFrom(mem: seq<byte>, f: Faults, addr: u32, o: nat, end: u32, ix: Index, n: u32): (r: Rebuilt)
    requires TableOk(ix.slots)
    decreases end - o, 1
    ensures TableOk(r.index.slots)
  {
    if o >= end then Rebuilt(ix, n) else RebuildStep(mem, f, addr, o, end, ix, n)
  }

  /** One pass of that loop at offset `o < end`: a failed read ends the scan; a live record is
    * indexed at its offset and counted; anything else is skipped. */
  function RebuildStep(mem: seq<byte>, f: Faults, addr: u32, o: nat, end: u32, ix: Index, n: u32): (r: Rebuilt)
    requires TableOk(ix.slots) && o < end
    decreases end - o, 0
    ensures TableOk(r.index.slots)
  {
    match ReadAt(mem, f, Add32(addr, o), RECORD_SIZE)
    case None => Rebuilt(ix, n)
    case Some(b) =>
      var rec := DecodeRecord(b);
      if Live(rec) then
        RebuildFrom(mem, f, addr, o + RECORD_SIZE, end, IndexSet(ix, RecordKey(rec), o), Add32(n, 1))
      else
        RebuildFrom(mem, f, addr, o + RECORD_SIZE, end, ix, n)
  }

  /** kv_hash_rebuild: reset the index and index every live record of the active region.
    * `record_count` is incremented from its current value, not reset. */
  function Rebuild(s: KvState, f: Faults): (r: KvState)
    requires StateOk(s)
    ensures StateOk(r)
  {
    var b := RebuildFrom(s.mem, f, RegionAddr(s.h, s.h.active), HEADER_SIZE, ScanEnd(s.h), EmptyIndex(), s.h.recordCount);
    s.(index := b.index, h := s.h.(recordCount := b.count))
  }

  // ------------------------------------------------------------------ init

  /** kv_region_header_init: erase the region, then write a fresh header; failures are ignored by init. */
  function HeaderInit(mem: seq<byte>, f: Faults, addr: u32, size: u32): (m: seq<byte>)
    ensures |m| == |mem|
  {
    match EraseAt(mem, f, addr, size)
    case None => mem
    case Some(erased) => OrKeep(WriteAt(erased, f, addr, EncodeHeader(FreshHeader())), erased)
  }

  /** kv_region_header_valid on the 24 bytes of a header buffer. */
  predicate HeaderBytesValid(b: seq<byte>)
    requires |b| == HEADER_SIZE
  {
    HeaderValid(DecodeHeader(b))
  }

  /** The header buffer after a read: the bytes read, or its previous contents when the read fails. */
  function HeaderBuf(mem: seq<byte>, f: Faults, addr: u32, prev: seq<byte>): (b: seq<byte>)
    requires |prev| == HEADER_SIZE
    ensures |b| == HEADER_SIZE
  {
    OrKeep(ReadAt(mem, f, addr, HEADER_SIZE), prev)
  }

  /** Re-initialise a region unless its first read succeeded and showed a valid header. */
  function Repair(mem: seq<byte>, f: Faults, addr: u32, size: u32, readOk: bool, buf: seq<byte>): (m: seq<byte>)
    requires |buf| == HEADER_SIZE
    ensures |m| == |mem|
  {
    if readOk && HeaderBytesValid(buf) then mem else HeaderInit(mem, f, addr, size)
  }

  /** The flash contents after the header checks of flash_kv_init, and the region it selects. */
  datatype Recovery = Recovery(mem: seq<byte>, choice: Choice)

  /** The header phase of flash_kv_init: read both headers, re-initialise the invalid ones,
    * re-read, choose the region with the higher version. Header buffers start as zeros. */
  function Recover(mem: seq<byte>, f: Faults, c: Config): (r: Recovery)
    requires ConfigOk(c)
    ensures |r.mem| == |mem| && r.choice.region < 2
  {
    var rs := c.totalSize / 2;
    var a0 := c.startAddr;
    var a1 := Add32(c.startAddr, rs);
    var r0 := ReadAt(mem, f, a0, HEADER_SIZE);
    var r1 := ReadAt(mem, f, a1, HEADER_SIZE);
    var hb0 := OrKeep(r0, Zeros(HEADER_SIZE));
    var hb1 := OrKeep(r1, Zeros(HEADER_SIZE));
    var m1 := Repair(mem, f, a0, rs, r0.Some?, hb0);
    var m2 := Repair(m1, f, a1, rs, r1.Some?, hb1);
    var nb0 := HeaderBuf(m2, f, a0, hb0);
    var nb1 := HeaderBuf(m2, f, a1, hb1);
    Recovery(m2, SelectRegion(nb0, nb1))
  }

  /** The choice between the two re-read header buffers. */
  function SelectRegion(nb0: seq<byte>, nb1: seq<byte>): (c: Choice)
    requires |nb0| == HEADER_SIZE && |nb1| == HEADER_SIZE
    ensures c.region < 2
  {
    ChooseRegion(HeaderBytesValid(nb0), HeaderBytesValid(nb1),
                 DecodeHeader(nb0).version as int, DecodeHeader(nb1).version as int)
  }

  /** The handle flash_kv_init sets up before rebuilding the index. */
  function InitHandle(c: Config, choice: Choice): (h: Handle)
    requires ConfigOk(c) && choice.region < 2
    ensures GeometryOk(h) && h.hasOps && h.recordCount == 0 && h.txState == TxIdle
  {
    Handle(true, choice.region, choice.version, 0, TxIdle, c.startAddr, c.totalSize / 2, c.blockSize)
  }

  /** flash_kv_init for instance 0: the header phase, then a rebuild of the index from the chosen region. */
  function InitSpec(s: KvState, f: Faults, c: Config): (r: KvState)
    requires StateOk(s) && ConfigOk(c)
    ensures StateOk(r) && r.h.hasOps
  {
    var rec := Recover(s.mem, f, c);
    Rebuild(s.(mem := rec.mem, h := InitHandle(c, rec.choice)), f)
  }

  // -------------------------------------------------------------- records

  /** Read the record at region offset `off` and program its tombstone over it; both results are ignored. */
  function MarkDeleted(s: KvState, f: Faults, off: u32): (r: KvState)
    requires StateOk(s)
    ensures StateOk(r)
    ensures r.h == s.h && r.index == s.index && r.txPending == s.txPending && r.txRecord == s.txRecord
  {
    var addr := Add32(RegionAddr(s.h, s.h.active), off);
    match ReadAt(s.mem, f, addr, RECORD_SIZE)
    case None => s
    case Some(b) => s.(mem := OrKeep(WriteAt(s.mem, f, addr, EncodeRecord(Tombstone(DecodeRecord(b)))), s.mem))
  }

  /** kv_record_write of a new record at `wo`, then the index entry and the count. */
  function Append(s: KvState, f: Faults, key: seq<byte>, value: seq<byte>, ra: u32, wo: u32): (r: Step)
    requires StateOk(s) && |key| <= KEY_SIZE && |value| <= VALUE_SIZE
    ensures StateOk(r.s)
    ensures r.err == Ok || r.err == FlashFail
  {
    match WriteAt(s.mem, f, wo, EncodeRecord(Sealed(NewRecord(key, value))))
    case None => Step(s, FlashFail)
    case Some(m) =>
      Step(s.(mem := m, index := IndexSet(s.index, key, Sub32(wo, ra)),
              h := s.h.(recordCount := Add32(s.h.recordCount, 1))), Ok)
  }

  // ------------------------------------------------------------------- GC

  datatype GcRun = GcRun(mem: seq<byte>, index: Index, n: u32, ok: bool)

  /** The loop of flash_kv_gc from offset `o` on: `w` is the next write offset in the target region. */
  function GcFrom(mem: seq<byte>, f: Faults, src: u32, dst: u32, o: nat, end: u32, w: nat, ix: Index, n: u32): (r: GcRun)
    requires TableOk(ix.slots) && w <= o
    decreases end - o, 2
    ensures TableOk(r.index.slots) && |r.mem| == |mem|
  {
    if o >= end then GcRun(mem, ix, n, true) else GcAt(mem, f, src, dst, o, end, w, ix, n)
  }

  /** One pass at an offset `o < end`: a failed read ends the copy, and it succeeds. */
  function GcAt(mem: seq<byte>, f: Faults, src: u32, dst: u32, o: nat, end: u32, w: nat, ix: Index, n: u32): (r: GcRun)
    requires TableOk(ix.slots) && w <= o < end
    decreases end - o, 1
    ensures TableOk(r.index.slots) && |r.mem| == |mem|
  {
    match ReadAt(mem, f, Add32(src, o), RECORD_SIZE)
    case None => GcRun(mem, ix, n, true)
    case Some(b) => GcRecord(mem, f, src, dst, o, end, w, ix, n, b)
  }

  /** The rest of that pass for the record bytes `b` read: a live record is rewritten at `w` of `dst` with
    * a fresh CRC and indexed there, a failed write aborts the GC, and the loop goes on. */
  function GcRecord(mem: seq<byte>, f: Faults, src: u32, dst: u32, o: nat, end: u32, w: nat, ix: Index, n: u32, b: seq<byte>): (r: GcRun)
    requires TableOk(ix.slots) && w <= o < end && |b| == RECORD_SIZE
    decreases end - o, 0
    ensures TableOk(r.index.slots) && |r.mem| == |mem|
  {
    var rec := DecodeRecord(b);
    if !Live(rec) then GcFrom(mem, f, src, dst, o + RECORD_SIZE, end, w, ix, n)
    else
      match WriteAt(mem, f, Add32(dst, w), EncodeRecord(Sealed(rec)))
      case None => GcRun(mem, ix, n, false)
      case Some(m) => GcFrom(m, f, src, dst, o + RECORD_SIZE, end, w + RECORD_SIZE, IndexSet(ix, RecordKey(rec), w), Add32(n, 1))
  }

  /** flash_kv_gc: erase the other region, copy the live records into it, then switch to it. */
  function GcSpec(s: KvState, f: Faults): (r: Step)
    requires StateOk(s)
    ensures StateOk(r.s)
    ensures r.err == Ok || r.err == NoInit || r.err == FlashFail
    ensures r.err != Ok ==> r.s.h == s.h && r.s.index == s.index
    ensures r.s.txPending == s.txPending && r.s.txRecord == s.txRecord
  {
    if !s.h.hasOps then Step(s, NoInit)
    else
      var inactive := 1 - s.h.active;
      var src := RegionAddr(s.h, s.h.active);
      var dst := RegionAddr(s.h, inactive);
      match EraseAt(s.mem, f, dst, s.h.regionSize)
      case None => Step(s, FlashFail)
      case Some(erased) =>
        var run := GcFrom(erased, f, src, dst, HEADER_SIZE, ScanEnd(s.h), HEADER_SIZE, EmptyIndex(), 0);
        if !run.ok then Step(s.(mem := run.mem), FlashFail)
        else Step(s.(mem := run.mem, index := run.index, h := s.h.(active := inactive, recordCount := run.n)), Ok)
  }

  // ------------------------------------------------------------- set/get/del

  /** Whether flash_kv_set rejects its arguments. */
  predicate BadSetArgs(key: seq<byte>, value: seq<byte>)
  {
    |key| == 0 || |key| > KEY_SIZE || |value| > VALUE_SIZE
  }

  /** The state after set's first step: the old record of `key`, if indexed, is marked deleted. */
  function Supersede(s: KvState, f: Faults, key: seq<byte>): (r: KvState)
    requires StateOk(s)
    ensures StateOk(r)
    ensures r.h == s.h && r.index == s.index && r.txPending == s.txPending && r.txRecord == s.txRecord
  {
    match Lookup(s.index.slots, key)
    case None => s
    case Some(off) => MarkDeleted(s, f, off)
  }

  /** The tail of flash_kv_set after a GC: NoSpace if the GC failed or the recomputed write
    * position still reaches `reserve`; the region address and reserve stay those computed before. */
  function AppendAfterGc(g: Step, f: Faults, key: seq<byte>, value: seq<byte>, ra: u32, reserve: u32): (r: Step)
    requires StateOk(g.s) && |key| <= KEY_SIZE && |value| <= VALUE_SIZE
    ensures StateOk(r.s)
    ensures r.err == Ok || r.err == FlashFail || r.err == NoSpace
  {
    if g.err != Ok then Step(g.s, NoSpace)
    else
      var wo := AppendAddr(ra, g.s.h.recordCount);
      if wo >= reserve then Step(g.s, NoSpace)
      else Append(g.s, f, key, value, ra, wo)
  }

  /** The space check of flash_kv_set and the write: append below the reserve, otherwise GC first. */
  function Place(s: KvState, f: Faults, key: seq<byte>, value: seq<byte>): (r: Step)
    requires StateOk(s) && |key| <= KEY_SIZE && |value| <= VALUE_SIZE
    ensures StateOk(r.s)
    ensures r.err == Ok || r.err == FlashFail || r.err == NoSpace
  {
    var ra := RegionAddr(s.h, s.h.active);
    var reserve := Reserve(s.h, ra);
    var wo := AppendAddr(ra, s.h.recordCount);
    if wo < reserve then Append(s, f, key, value, ra, wo)
    else AppendAfterGc(GcSpec(s, f), f, key, value, ra, reserve)
  }

  /** flash_kv_set */
  function SetSpec(s: KvState, f: Faults, key: seq<byte>, value: seq<byte>): (r: Step)
    requires StateOk(s)
    ensures StateOk(r.s)
    ensures r.err == InvalidParam <==> BadSetArgs(key, value)
    ensures r.err == InvalidParam || r.err == NoInit ==> r.s == s
  {
    if BadSetArgs(key, value) then Step(s, InvalidParam)
    else if !s.h.hasOps then Step(s, NoInit)
    else Place(Supersede(s, f, key), f, key, value)
  }

  /** What flash_kv_get returns: the code, the VALUE_SIZE bytes of the caller's buffer, `*value_len`. */
  datatype GetOut = GetOut(err: KvError, value: seq<byte>, valueLen: byte)

  /** flash_kv_get */
  function GetSpec(s: KvState, f: Faults, key: seq<byte>): (r: GetOut)
    requires StateOk(s)
    ensures r.err == Ok ==> |r.value| == VALUE_SIZE
  {
    if !s.h.hasOps then GetOut(NoInit, [], 0)
    else
      match Lookup(s.index.slots, key)
      case None => GetOut(NotFound, [], 0)
      case Some(off) =>
        match ReadAt(s.mem, f, Add32(RegionAddr(s.h, s.h.active), off), RECORD_SIZE)
        case None => GetOut(FlashFail, [], 0)
        case Some(b) =>
          var rec := DecodeRecord(b);
          if !CrcMatches(rec) then GetOut(CrcFail, [], 0)
          else
            var v := RecordValue(rec);
            GetOut(Ok, v + Zeros(VALUE_SIZE - |v|), rec.valueLen)
  }

  /** flash_kv_del */
  function DelSpec(s: KvState, f: Faults, key: seq<byte>): (r: Step)
    requires StateOk(s)
    ensures StateOk(r.s)
    ensures r.err != Ok ==> r.s == s
    ensures r.s.txPending == s.txPending && r.s.txRecord == s.txRecord
  {
    if !s.h.hasOps then Step(s, NoInit)
    else
      match Lookup(s.index.slots, key)
      case None => Step(s, NotFound)
      case Some(off) =>
        var s1 := MarkDeleted(s, f, off);
        Step(s1.(index := IndexDel(s1.index, key), h := s1.h.(recordCount := Sub32(s1.h.recordCount, 1))), Ok)
  }

  /** flash_kv_exists */
  function Exists(s: KvState, key: seq<byte>): bool
    requires StateOk(s)
  {
    Lookup(s.index.slots, key).Some?
  }

  // ---------------------------------------------------------- transactions

  /** flash_kv_tx_begin */
  function TxBeginSpec(s: KvState): (r: Step)
    requires StateOk(s)
    ensures StateOk(r.s)
  {
    if !s.h.hasOps then Step(s, NoInit)
    else Step(s.(h := s.h.(txState := TxPrepared), txPending := false, txRecord := ZeroRecord()), Ok)
  }

  /** The pending record of a transaction written at the append position; pending is cleared either way. */
  function CommitPending(s: KvState, f: Faults): (r: Step)
    requires StateOk(s) && s.txPending
    ensures StateOk(r.s) && !r.s.txPending && r.s.h.txState == s.h.txState
  {
    var ra := RegionAddr(s.h, s.h.active);
    var wo := AppendAddr(ra, s.h.recordCount);
    match WriteAt(s.mem, f, wo, EncodeRecord(Sealed(s.txRecord)))
    case None => Step(s.(txPending := false), FlashFail)
    case Some(m) =>
      Step(s.(mem := m, index := IndexSet(s.index, RecordKey(s.txRecord), Sub32(wo, ra)),
              h := s.h.(recordCount := Add32(s.h.recordCount, 1)), txPending := false), Ok)
  }

  /** flash_kv_tx_commit: write the pending record if there is one; the state ends idle either way. */
  function TxCommitSpec(s: KvState, f: Faults): (r: Step)
    requires StateOk(s)
    ensures StateOk(r.s)
  {
    var c := if s.txPending then CommitPending(s, f) else Step(s, Ok);
    Step(c.s.(h := c.s.h.(txState := TxIdle)), c.err)
  }

  /** flash_kv_tx_rollback */
  function TxRollbackSpec(s: KvState): (r: KvState)
    requires StateOk(s)
    ensures StateOk(r)
  {
    s.(h := s.h.(txState := TxIdle), txPending := false, txRecord := ZeroRecord())
  }

  // ----------------------------------------------------- space and clearing

  /** `record_count * sizeof(kv_record_t)` in 32-bit arithmetic. */
  function UsedBytes(h: Handle): u32
  {
    Mul32(h.recordCount, RECORD_SIZE)
  }

  /** `region_size - block_size - sizeof(kv_region_header_t)` in 32-bit arithmetic. */
  function TotalBytes(h: Handle): u32
  {
    Sub32(Sub32(h.regionSize, h.blockSize), HEADER_SIZE)
  }

  /** flash_kv_free_percent: `(uint8_t)((total - used) * 100 / total)`, 0 when total is 0. */
  function FreePercent(h: Handle): u8
  {
    var total := TotalBytes(h);
    if total == 0 then 0 else (Mul32(Sub32(total, UsedBytes(h)), 100) / total) % 0x100
  }

  /** flash_kv_clear: erase the active region if there are ops (result ignored), empty the index, zero the count. */
  function ClearSpec(s: KvState, f: Faults): (r: KvState)
    requires StateOk(s)
    ensures StateOk(r)
  {
    var m := if s.h.hasOps then OrKeep(EraseAt(s.mem, f, RegionAddr(s.h, s.h.active), s.h.regionSize), s.mem) else s.mem;
    s.(mem := m, index := EmptyIndex(), h := s.h.(recordCount := 0))
  }
}
