/**
 * Properties of the calls of flash_kv_core.c taken one after another: get
 * after set, get after del, set after a GC, del moving the append position
 * back, the transaction globals, clear, exists and the free-space figure.
 */
module EngineCalls {
  import opened Types
  import opened MockFlash
  import opened FlashPort
  import opened Layout
  import opened HashIndex
  import opened Engine

  // -------------------------------------------------------------- get

  /** What flash_kv_get hands back for a stored record: its value padded with zeros, and its length byte. */
  function Delivered(r: Record): (g: GetOut)
    requires RecordOk(r)
    ensures g.err == Ok && |g.value| == VALUE_SIZE
    ensures g.value[..|RecordValue(r)|] == RecordValue(r)
    ensures forall i :: |RecordValue(r)| <= i < VALUE_SIZE ==> g.value[i] == 0
  {
    var v := RecordValue(r);
    GetOut(Ok, v + Zeros(VALUE_SIZE - |v|), r.valueLen)
  }

  /**
   * flash_kv_get when the index maps `key` to `off` and the record stored at
   * that offset of the active region has a matching CRC-16: it returns that
   * record's value and length.
   */
  lemma GetIndexed(s: KvState, f: Faults, key: seq<byte>, off: u32, r: Record)
    requires StateOk(s) && s.h.hasOps && !f.read && RecordOk(r) && CrcMatches(r)
    requires Lookup(s.index.slots, key) == Some(off)
    requires var a := Add32(RegionAddr(s.h, s.h.active), off);
      a + RECORD_SIZE <= |s.mem| && s.mem[a..a + RECORD_SIZE] == EncodeRecord(r)
    ensures GetSpec(s, f, key) == Delivered(r)
  {
    DecodeEncodeRecord(r);
  }

  /** The cases of flash_kv_get: no ops, no index entry, a failed read, a CRC mismatch, or the stored value. */
  lemma GetOutcomes(s: KvState, f: Faults, key: seq<byte>)
    requires StateOk(s)
    ensures var g := GetSpec(s, f, key);
      && (g.err == NoInit <==> !s.h.hasOps)
      && (g.err == NotFound <==> s.h.hasOps && !Exists(s, key))
      && (g.err == FlashFail ==> s.h.hasOps && Exists(s, key))
      && (g.err == CrcFail ==> s.h.hasOps && Exists(s, key))
      && (g.err == Ok ==> s.h.hasOps && Exists(s, key) && !f.read)
      && (s.h.hasOps && Exists(s, key) && f.read ==> g.err == FlashFail)
    ensures s.h.hasOps && Exists(s, key) ==>
      var a := Add32(RegionAddr(s.h, s.h.active), Lookup(s.index.slots, key).value);
      match ReadAt(s.mem, f, a, RECORD_SIZE)
      case None => GetSpec(s, f, key).err == FlashFail
      case Some(b) =>
        && (GetSpec(s, f, key).err == CrcFail <==> !CrcMatches(DecodeRecord(b)))
        && (GetSpec(s, f, key).err == Ok <==> CrcMatches(DecodeRecord(b)))
  {
  }

  // ------------------------------------------------------- set then get

  /** The append slot of the active region: where flash_kv_set writes next. */
  function AppendSlot(s: KvState): u32
  {
    AppendAddr(RegionAddr(s.h, s.h.active), s.h.recordCount)
  }

  /** The bytes `[lo, hi)` of `mem` are erased. */
  ghost predicate ErasedRange(mem: seq<byte>, lo: nat, hi: nat)
  {
    hi <= |mem| && forall j :: lo <= j < hi ==> mem[j] == 0xFF
  }

  /** The record `key` is indexed at, if any, ends at or before `lo`. */
  ghost predicate OldRecordBefore(s: KvState, key: seq<byte>, lo: nat)
    requires StateOk(s)
  {
    match Lookup(s.index.slots, key)
    case None => true
    case Some(off) => Add32(RegionAddr(s.h, s.h.active), off) + RECORD_SIZE <= lo
  }

  /** Marking the old record deleted leaves every byte after it as it was. */
  lemma SupersedeKeeps(s: KvState, f: Faults, key: seq<byte>, lo: nat)
    requires StateOk(s) && OldRecordBefore(s, key, lo)
    ensures forall j :: lo <= j < |s.mem| ==> Supersede(s, f, key).mem[j] == s.mem[j]
  {
    match Lookup(s.index.slots, key)
    case None =>
    case Some(off) =>
      var a := Add32(RegionAddr(s.h, s.h.active), off);
      match ReadAt(s.mem, f, a, RECORD_SIZE)
      case None =>
      case Some(b) =>
        var t := EncodeRecord(Tombstone(DecodeRecord(b)));
        if !f.write && a + RECORD_SIZE <= |s.mem| {
          ProgrammedOutside(s.mem, a, t, lo);
        }
  }

  /** Programming `data` at `a` changes nothing from `lo` on when the data ends before `lo`. */
  lemma ProgrammedOutside(mem: seq<byte>, a: nat, data: seq<byte>, lo: nat)
    requires a + |data| <= |mem| && a + |data| <= lo
    ensures forall j :: lo <= j < |mem| ==> Programmed(mem, a, data)[j] == mem[j]
  {
  }

  /**
   * kv_record_write into an erased slot at `wo` of the active region, then
   * the index update: the new record reads back, the index maps `key` to
   * `wo - ra` in 32-bit arithmetic, the count goes up by one, and get returns `value`.
   */
  lemma AppendThenGet(s: KvState, key: seq<byte>, value: seq<byte>, ra: u32, wo: u32)
    requires StateOk(s) && s.h.hasOps && 1 <= |key| <= KEY_SIZE && |value| <= VALUE_SIZE
    requires ra == RegionAddr(s.h, s.h.active) && ErasedRange(s.mem, wo, wo + RECORD_SIZE)
    requires !Search(s.index.slots, key).Exhausted?
    ensures var r := Append(s, NO_FAULTS, key, value, ra, wo);
      && r.err == Ok
      && r.s.mem[wo..wo + RECORD_SIZE] == EncodeRecord(Sealed(NewRecord(key, value)))
      && Lookup(r.s.index.slots, key) == Some(Sub32(wo, ra))
      && r.s.h == s.h.(recordCount := Add32(s.h.recordCount, 1))
      && GetSpec(r.s, NO_FAULTS, key) == GetOut(Ok, value + Zeros(VALUE_SIZE - |value|), |value| as byte)
  {
    var rec := Sealed(NewRecord(key, value));
    var data := EncodeRecord(rec);
    ProgramErasedReadsBack(s.mem, wo, data);
    LookupAfterSet(s.index.slots, key, Sub32(wo, ra));
    var r := Append(s, NO_FAULTS, key, value, ra, wo);
    assert r.s.mem == Programmed(s.mem, wo, data);
    AddSubCancel(ra, wo);
    GetIndexed(r.s, NO_FAULTS, key, Sub32(wo, ra), rec);
    SealedNewRecord(key, value);
  }

  /** The sealed new record carries the value and length flash_kv_set was given. */
  lemma SealedNewRecord(key: seq<byte>, value: seq<byte>)
    requires |key| <= KEY_SIZE && |value| <= VALUE_SIZE
    ensures var r := Sealed(NewRecord(key, value));
      RecordValue(r) == value && r.valueLen == |value| as byte && Live(r) && RecordKey(r) == key
  {
  }

  /** The write of flash_kv_set stays below the reserve, so no GC runs. */
  ghost predicate RoomWithoutGc(s: KvState)
  {
    AppendSlot(s) < Reserve(s.h, RegionAddr(s.h, s.h.active))
  }

  /**
   * flash_kv_set followed by flash_kv_get, with no adapter failure, on the
   * path without a GC: when the append slot is erased, the key's old record
   * (if any) lies before it and the index has room for the key, set returns
   * Ok, counts one more record (even when it replaced an old one), and get
   * returns the value just set with its length.
   */
  lemma SetThenGet(s: KvState, key: seq<byte>, value: seq<byte>)
    requires StateOk(s) && s.h.hasOps && !BadSetArgs(key, value)
    requires RoomWithoutGc(s) && ErasedRange(s.mem, AppendSlot(s), AppendSlot(s) + RECORD_SIZE)
    requires OldRecordBefore(s, key, AppendSlot(s))
    requires !Search(s.index.slots, key).Exhausted?
    ensures var r := SetSpec(s, NO_FAULTS, key, value);
      && r.err == Ok
      && r.s.h == s.h.(recordCount := Add32(s.h.recordCount, 1))
      && r.s.mem[AppendSlot(s)..AppendSlot(s) + RECORD_SIZE] == EncodeRecord(Sealed(NewRecord(key, value)))
      && Lookup(r.s.index.slots, key) == Some(Sub32(AppendSlot(s), RegionAddr(s.h, s.h.active)))
      && GetSpec(r.s, NO_FAULTS, key) == GetOut(Ok, value + Zeros(VALUE_SIZE - |value|), |value| as byte)
  {
    var ra := RegionAddr(s.h, s.h.active);
    var wo := AppendSlot(s);
    var s1 := Supersede(s, NO_FAULTS, key);
    SupersedeKeeps(s, NO_FAULTS, key, wo);
    AppendThenGet(s1, key, value, ra, wo);
  }

  // ------------------------------------------------------- del then get

  /**
   * flash_kv_del: without ops it reports NoInit; an unindexed key gives
   * NotFound and changes nothing; an indexed key is removed from the index,
   * the count drops by one (in 32-bit arithmetic), and a following get of
   * that key, whatever the adapter does, reports NotFound.
   */
  lemma DelThenGet(s: KvState, f: Faults, g: Faults, key: seq<byte>)
    requires StateOk(s)
    ensures var r := DelSpec(s, f, key);
      && (!s.h.hasOps ==> r.err == NoInit && r.s == s)
      && (s.h.hasOps && !Exists(s, key) ==> r.err == NotFound && r.s == s)
      && (s.h.hasOps && Exists(s, key) ==>
            && r.err == Ok
            && !Exists(r.s, key)
            && r.s.h == s.h.(recordCount := Sub32(s.h.recordCount, 1))
            && GetSpec(r.s, g, key).err == NotFound)
  {
    if s.h.hasOps && Exists(s, key) {
      LookupAfterDel(s.index.slots, key);
    }
  }

  /**
   * A successful flash_kv_del moves the append position back by one record
   * (when the count was not 0): the next set writes into the slot of the
   * record appended last, which is not erased if anything was written there.
   */
  lemma DelRewindsAppend(s: KvState, f: Faults, key: seq<byte>)
    requires StateOk(s) && s.h.hasOps && Exists(s, key) && 1 <= s.h.recordCount
    requires RegionAddr(s.h, s.h.active) + HEADER_SIZE + s.h.recordCount * RECORD_SIZE < U32_MOD
    ensures var r := DelSpec(s, f, key);
      && r.err == Ok
      && AppendSlot(r.s) + RECORD_SIZE == AppendSlot(s)
  {
    var r := DelSpec(s, f, key);
    var ra := RegionAddr(s.h, s.h.active);
    var n := s.h.recordCount;
    assert r.s.h == s.h.(recordCount := n - 1);
    assert AppendSlot(r.s) == AppendAddr(ra, n - 1);
    AppendStep(ra, n);
  }

  /** Without wrap-around, consecutive append addresses are one record apart. */
  lemma AppendStep(ra: u32, n: u32)
    requires 1 <= n && ra + HEADER_SIZE + n * RECORD_SIZE < U32_MOD
    ensures AppendAddr(ra, n - 1) + RECORD_SIZE == AppendAddr(ra, n)
  {
    RecordStep(n);
    AppendAddrExact(ra, n);
    AppendAddrExact(ra, n - 1);
  }

  /** The append address computed without wrap-around, when it fits in 32 bits. */
  lemma AppendAddrExact(ra: u32, n: u32)
    requires ra + HEADER_SIZE + n * RECORD_SIZE < U32_MOD
    ensures AppendAddr(ra, n) == ra + HEADER_SIZE + n * RECORD_SIZE
  {
  }

  /** One record fewer is one RECORD_SIZE fewer. */
  lemma RecordStep(n: nat)
    requires 1 <= n
    ensures (n - 1) * RECORD_SIZE + RECORD_SIZE == n * RECORD_SIZE
  {
  }

  // ---------------------------------------------------- set after a GC

  /**
   * flash_kv_set when the append slot reaches the reserve, the GC succeeds
   * and the recomputed slot is below the old reserve: the record is written
   * at the append slot of the region that was active before the GC (now the
   * inactive one), while the index entry is an offset that get resolves
   * against the new active region.
   */
  lemma SetAfterGcUsesOldRegion(s: KvState, key: seq<byte>, value: seq<byte>)
    requires StateOk(s) && s.h.hasOps && !BadSetArgs(key, value)
    requires !RoomWithoutGc(Supersede(s, NO_FAULTS, key))
    requires var g := GcSpec(Supersede(s, NO_FAULTS, key), NO_FAULTS);
      var ra := RegionAddr(s.h, s.h.active);
      && g.err == Ok
      && AppendAddr(ra, g.s.h.recordCount) < Reserve(s.h, ra)
      && AppendAddr(ra, g.s.h.recordCount) + RECORD_SIZE <= |s.mem|
      && !Search(g.s.index.slots, key).Exhausted?
    ensures var g := GcSpec(Supersede(s, NO_FAULTS, key), NO_FAULTS);
      var ra := RegionAddr(s.h, s.h.active);
      var wo := AppendAddr(ra, g.s.h.recordCount);
      var r := SetSpec(s, NO_FAULTS, key, value);
      && r.err == Ok
      && r.s.h.active == 1 - s.h.active
      && ra != RegionAddr(r.s.h, r.s.h.active)
      && r.s.mem == Programmed(g.s.mem, wo, EncodeRecord(Sealed(NewRecord(key, value))))
      && Lookup(r.s.index.slots, key) == Some(Sub32(wo, ra))
  {
    var s1 := Supersede(s, NO_FAULTS, key);
    var g := GcSpec(s1, NO_FAULTS);
    var ra := RegionAddr(s.h, s.h.active);
    LookupAfterSet(g.s.index.slots, key, Sub32(AppendAddr(ra, g.s.h.recordCount), ra));
  }

  // -------------------------------------------------------- transactions

  /**
   * No call of the API sets `g_tx_pending`: begin clears it, and set, del,
   * GC, clear, rollback and commit never raise it. So a state that starts
   * without a pending record never gets one.
   */
  lemma PendingNeverRaised(s: KvState, f: Faults, key: seq<byte>, value: seq<byte>, c: Config)
    requires StateOk(s) && !s.txPending
    ensures !SetSpec(s, f, key, value).s.txPending
    ensures !DelSpec(s, f, key).s.txPending
    ensures !GcSpec(s, f).s.txPending
    ensures !ClearSpec(s, f).txPending
    ensures !TxBeginSpec(s).s.txPending
    ensures !TxRollbackSpec(s).txPending
    ensures !TxCommitSpec(s, f).s.txPending
    ensures ConfigOk(c) ==> !InitSpec(s, f, c).txPending
  {
    if !BadSetArgs(key, value) && s.h.hasOps {
      PlacePending(Supersede(s, f, key), f, key, value);
    }
    if ConfigOk(c) {
      var rec := Recover(s.mem, f, c);
      RebuildIndexesPending(s.(mem := rec.mem, h := InitHandle(c, rec.choice)), f);
    }
  }

  /** The write step of set keeps the pending flag. */
  lemma PlacePending(s: KvState, f: Faults, key: seq<byte>, value: seq<byte>)
    requires StateOk(s) && |key| <= KEY_SIZE && |value| <= VALUE_SIZE
    ensures Place(s, f, key, value).s.txPending == s.txPending
  {
  }

  /** The rebuild keeps the pending flag. */
  lemma RebuildIndexesPending(s: KvState, f: Faults)
    requires StateOk(s)
    ensures Rebuild(s, f).txPending == s.txPending
  {
  }

  /**
   * flash_kv_tx_commit with nothing pending writes nothing: it only returns
   * the handle to idle, and reports Ok even without ops or a begin.
   */
  lemma CommitWithoutPending(s: KvState, f: Faults)
    requires StateOk(s) && !s.txPending
    ensures TxCommitSpec(s, f) == Step(s.(h := s.h.(txState := TxIdle)), Ok)
  {
  }

  /**
   * begin followed by commit, and begin followed by rollback, leave flash,
   * index and count as they were and the handle idle; since begin already
   * cleared the pending record, the two end in the same state.
   */
  lemma BeginThenEnd(s: KvState, f: Faults)
    requires StateOk(s) && s.h.hasOps
    ensures var b := TxBeginSpec(s);
      var idle := s.h.(txState := TxIdle);
      && b.err == Ok && b.s.h.txState == TxPrepared
      && TxCommitSpec(b.s, f) == Step(b.s.(h := idle), Ok)
      && TxRollbackSpec(b.s) == b.s.(h := idle)
      && b.s.mem == s.mem && b.s.index == s.index
  {
    CommitWithoutPending(TxBeginSpec(s).s, f);
  }

  // ------------------------------------------------- clear, exists, space

  /** After flash_kv_clear every get reports NotFound (or NoInit without ops) and the count is 0. */
  lemma ClearThenGet(s: KvState, f: Faults, g: Faults, key: seq<byte>)
    requires StateOk(s)
    ensures var c := ClearSpec(s, f);
      && c.h.recordCount == 0 && c.index == EmptyIndex()
      && !Exists(c, key)
      && GetSpec(c, g, key).err == (if s.h.hasOps then NotFound else NoInit)
  {
    EmptyTableConsistent();
  }

  /** With no record counted the free share is 100 percent. */
  lemma FreePercentEmpty(h: Handle)
    requires GeometryOk(h) && h.recordCount == 0 && h.regionSize > h.blockSize + HEADER_SIZE
    ensures FreePercent(h) == 100
  {
    FreePercentValue(h);
    var t := TotalBytes(h);
    assert t - h.recordCount * RECORD_SIZE == t;
    DivUnique(t * 100, t, 100, 0);
  }

  /**
   * While the counted records fit in the usable bytes, the free share is the
   * exact integer percentage of unused bytes, at most 100.
   */
  lemma FreePercentValue(h: Handle)
    requires GeometryOk(h) && h.regionSize > h.blockSize + HEADER_SIZE
    requires h.recordCount * RECORD_SIZE <= h.regionSize - h.blockSize - HEADER_SIZE
    ensures var t := TotalBytes(h);
      && t == h.regionSize - h.blockSize - HEADER_SIZE
      && FreePercent(h) == (t - h.recordCount * RECORD_SIZE) * 100 / t
      && FreePercent(h) <= 100
  {
    var t := TotalBytes(h);
    var n := h.recordCount;
    PercentExact(t, n);
    assert UsedBytes(h) == n * RECORD_SIZE;
    assert Sub32(t, UsedBytes(h)) == t - n * RECORD_SIZE;
    var q := (t - n * RECORD_SIZE) * 100 / t;
    assert Mul32(Sub32(t, UsedBytes(h)), 100) / t == q;
    ByteSized(q);
  }

  /** A value below 256 survives the `(uint8_t)` cast. */
  lemma ByteSized(q: nat)
    requires q < 0x100
    ensures q % 0x100 == q
  {
  }

  /** More records never give a larger free share, as long as they fit. */
  lemma FreePercentShare(h: Handle, more: Handle)
    requires GeometryOk(h) && h.regionSize > h.blockSize + HEADER_SIZE
    requires more == h.(recordCount := more.recordCount) && h.recordCount <= more.recordCount
    requires more.recordCount * RECORD_SIZE <= h.regionSize - h.blockSize - HEADER_SIZE
    ensures FreePercent(more) <= FreePercent(h)
  {
    var t := TotalBytes(h);
    MulMono(h.recordCount, more.recordCount, RECORD_SIZE);
    FreePercentValue(h);
    FreePercentValue(more);
    DivMono(t, (t - more.recordCount * RECORD_SIZE) * 100, (t - h.recordCount * RECORD_SIZE) * 100);
  }

  /** The 32-bit products of flash_kv_free_percent do not wrap for these sizes. */
  lemma PercentExact(t: nat, n: nat)
    requires 0 < t < FLASH_SIZE && n * RECORD_SIZE <= t
    ensures Mul32(n, RECORD_SIZE) == n * RECORD_SIZE
    ensures Mul32(t - n * RECORD_SIZE, 100) == (t - n * RECORD_SIZE) * 100
    ensures 0 <= (t - n * RECORD_SIZE) * 100 / t <= 100
  {
    DivMono(t, 0, (t - n * RECORD_SIZE) * 100);
    DivMono(t, (t - n * RECORD_SIZE) * 100, t * 100);
    DivUnique(t * 100, t, 100, 0);
  }

  /** Integer division by a positive divisor is monotone. */
  lemma DivMono(d: nat, a: nat, b: nat)
    requires 0 < d && a <= b
    ensures a / d <= b / d
  {
    DivBounds(a, d);
    DivBounds(b, d);
    var qa := a / d;
    var qb := b / d;
    assert (qb + 1) * d == qb * d + d;
    MulLessCancel(qa, qb + 1, d);
  }
}
