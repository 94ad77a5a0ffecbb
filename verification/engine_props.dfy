/**
 * Properties of the store engine that relate an operation to an independent
 * description of what it should do, or relate operations to each other:
 * the index rebuild and the GC against the list of live records a scan
 * meets, and start-up on a device without a valid header.
 */
module EngineProps {
  import opened Types
  import opened MockFlash
  import opened FlashPort
  import opened Layout
  import opened HashIndex
  import opened ByteCodec
  import opened Engine

  // ------------------------------------------------------------ scans

  /** A live record met by a scan, and its offset in the region. */
  datatype Found = Found(rec: Record, offset: nat)

  /** Well-formed records at offsets a `uint32_t` can hold. */
  ghost predicate FoundsOk(fs: seq<Found>)
  {
    forall i :: 0 <= i < |fs| ==> RecordOk(fs[i].rec) && fs[i].offset < U32_MOD
  }

  /** Records that a scan of `[o, end)` may report: well-formed, live, inside the range. */
  ghost predicate FoundIn(fs: seq<Found>, o: nat, end: u32)
  {
    FoundsOk(fs) && forall i :: 0 <= i < |fs| ==> Live(fs[i].rec) && o <= fs[i].offset < end
  }

  /**
   * The live records of the region at `addr` from offset `o` on, in scan
   * order, up to `end` or the first failed read: what the loops of
   * kv_hash_rebuild and flash_kv_gc are meant to find.
   */
  function ScanLive(mem: seq<byte>, f: Faults, addr: u32, o: nat, end: u32): (r: seq<Found>)
    decreases end - o, 2
    ensures FoundIn(r, o, end)
  {
    if o >= end then [] else ScanAt(mem, f, addr, o, end)
  }

  /** The scan from an offset `o < end`: read the record there, or stop on a failed read. */
  function ScanAt(mem: seq<byte>, f: Faults, addr: u32, o: nat, end: u32): (r: seq<Found>)
    requires o < end
    decreases end - o, 1
    ensures FoundIn(r, o, end)
  {
    match ReadAt(mem, f, Add32(addr, o), RECORD_SIZE)
    case None => []
    case Some(b) => ScanRecord(mem, f, addr, o, end, b)
  }

  /** The scan on from the record bytes `b` read at `o`: keep the record if it is live. */
  function ScanRecord(mem: seq<byte>, f: Faults, addr: u32, o: nat, end: u32, b: seq<byte>): (r: seq<Found>)
    requires o < end && |b| == RECORD_SIZE
    decreases end - o, 0
    ensures FoundIn(r, o, end)
  {
    var rec := DecodeRecord(b);
    var rest := ScanLive(mem, f, addr, o + RECORD_SIZE, end);
    if Live(rec) then [Found(rec, o)] + rest else rest
  }

  /** One step of a scan from an offset below `end`. */
  lemma ScanStep(mem: seq<byte>, f: Faults, addr: u32, o: nat, end: u32)
    requires o < end
    ensures ReadAt(mem, f, Add32(addr, o), RECORD_SIZE).None? ==> ScanLive(mem, f, addr, o, end) == []
    ensures ReadAt(mem, f, Add32(addr, o), RECORD_SIZE).Some? ==>
      ScanLive(mem, f, addr, o, end) == ScanRecord(mem, f, addr, o, end, ReadAt(mem, f, Add32(addr, o), RECORD_SIZE).value)
  {
    assert ScanLive(mem, f, addr, o, end) == ScanAt(mem, f, addr, o, end);
  }

  /** The index entries for records found by a scan: each record's key at its offset. */
  function Entries(fs: seq<Found>): (es: seq<Entry>)
    requires FoundsOk(fs)
    ensures |es| == |fs| && KeysFit(es)
  {
    seq(|fs|, i requires 0 <= i < |fs| => Entry(RecordKey(fs[i].rec), fs[i].offset))
  }

  /** The entries of a non-empty scan: the first record's, then the rest's. */
  lemma EntriesCons(fs: seq<Found>)
    requires |fs| > 0 && FoundsOk(fs)
    ensures FoundsOk(fs[1..])
    ensures Entries(fs) == [Entry(RecordKey(fs[0].rec), fs[0].offset)] + Entries(fs[1..])
  {
    var a := Entries(fs);
    var b := [Entry(RecordKey(fs[0].rec), fs[0].offset)] + Entries(fs[1..]);
    forall i | 0 <= i < |fs|
      ensures a[i] == b[i]
    {
      if i > 0 {
        assert fs[1..][i - 1] == fs[i];
      }
    }
  }

  /** The same records moved to consecutive record slots starting at offset `w`. */
  function Compacted(fs: seq<Found>, w: nat): (gs: seq<Found>)
    ensures |gs| == |fs|
  {
    seq(|fs|, i requires 0 <= i < |fs| => Found(fs[i].rec, w + i * RECORD_SIZE))
  }

  /** Device address of offset `w` inside the region that starts at `dst`. */
  function AddrOf(dst: nat, w: nat): nat
  {
    dst + w
  }

  /** Offset of the record slot that follows the one at `o`. */
  function After(o: nat): nat
  {
    o + RECORD_SIZE
  }

  /** The encoded records one after the other. */
  function Copied(fs: seq<Found>): (b: seq<byte>)
    requires forall i :: 0 <= i < |fs| ==> RecordOk(fs[i].rec)
    ensures |b| == |fs| * RECORD_SIZE
  {
    if |fs| == 0 then [] else EncodeRecord(fs[0].rec) + Copied(fs[1..])
  }

  /** A scan meets at most one record per RECORD_SIZE bytes of its range. */
  lemma {:induction false} ScanLiveLength(mem: seq<byte>, f: Faults, addr: u32, o: nat, end: u32)
    decreases end - o
    ensures o >= end ==> ScanLive(mem, f, addr, o, end) == []
    ensures o < end ==> |ScanLive(mem, f, addr, o, end)| * RECORD_SIZE < end - o + RECORD_SIZE
  {
    if o < end {
      ScanStep(mem, f, addr, o, end);
      ScanLiveLength(mem, f, addr, o + RECORD_SIZE, end);
      var k := |ScanLive(mem, f, addr, o + RECORD_SIZE, end)|;
      assert (k + 1) * RECORD_SIZE == k * RECORD_SIZE + RECORD_SIZE;
    }
  }

  /** A scan reads only its own range: memories that agree there give the same scan. */
  lemma {:induction false} ScanLiveFrame(m1: seq<byte>, m2: seq<byte>, f: Faults, addr: u32, o: nat, end: u32)
    requires |m1| == |m2| && addr + end < U32_MOD
    requires forall j :: addr + o <= j < addr + end + RECORD_SIZE && j < |m1| ==> m1[j] == m2[j]
    decreases end - o
    ensures ScanLive(m1, f, addr, o, end) == ScanLive(m2, f, addr, o, end)
  {
    if o < end {
      var a := Add32(addr, o);
      if a + RECORD_SIZE <= |m1| {
        assert m1[a..a + RECORD_SIZE] == m2[a..a + RECORD_SIZE];
      }
      assert ReadAt(m1, f, a, RECORD_SIZE) == ReadAt(m2, f, a, RECORD_SIZE);
      ScanStep(m1, f, addr, o, end);
      ScanStep(m2, f, addr, o, end);
      ScanLiveFrame(m1, m2, f, addr, o + RECORD_SIZE, end);
    }
  }

  /** A scan over erased flash finds nothing: an all-0xFF record is not flagged valid. */
  lemma {:induction false} ScanLiveErased(mem: seq<byte>, f: Faults, addr: u32, o: nat, end: u32)
    requires addr + end < U32_MOD
    requires forall j :: addr + o <= j < addr + end + RECORD_SIZE && j < |mem| ==> mem[j] == 0xFF
    decreases end - o
    ensures ScanLive(mem, f, addr, o, end) == []
  {
    if o < end {
      var a := Add32(addr, o);
      if !f.read && a + RECORD_SIZE <= |mem| {
        var b := mem[a..a + RECORD_SIZE];
        assert DecodeRecord(b).flags == RecordBody(DecodeRecord(b))[KEY_SIZE + VALUE_SIZE + 2] == b[KEY_SIZE + VALUE_SIZE + 2];
      }
      ScanStep(mem, f, addr, o, end);
      ScanLiveErased(mem, f, addr, o + RECORD_SIZE, end);
    }
  }

  // ---------------------------------------------------------- rebuild

  /** One pass of the rebuild loop from an offset below `end`. */
  lemma RebuildPass(mem: seq<byte>, f: Faults, addr: u32, o: nat, end: u32, ix: Index, n: u32)
    requires TableOk(ix.slots) && o < end
    ensures ReadAt(mem, f, Add32(addr, o), RECORD_SIZE).None? ==> RebuildFrom(mem, f, addr, o, end, ix, n) == Rebuilt(ix, n)
    ensures ReadAt(mem, f, Add32(addr, o), RECORD_SIZE).Some? ==>
      var rec := DecodeRecord(ReadAt(mem, f, Add32(addr, o), RECORD_SIZE).value);
      RebuildFrom(mem, f, addr, o, end, ix, n) ==
        if Live(rec) then RebuildFrom(mem, f, addr, o + RECORD_SIZE, end, IndexSet(ix, RecordKey(rec), o), Add32(n, 1))
        else RebuildFrom(mem, f, addr, o + RECORD_SIZE, end, ix, n)
  {
    assert RebuildFrom(mem, f, addr, o, end, ix, n) == RebuildStep(mem, f, addr, o, end, ix, n);
  }

  /** What the rebuild loop computes from offset `o`: the live records scanned, inserted in order and counted. */
  ghost predicate RebuildsScan(mem: seq<byte>, f: Faults, addr: u32, o: nat, end: u32, ix: Index, n: u32)
    requires TableOk(ix.slots)
  {
    var fs := ScanLive(mem, f, addr, o, end);
    RebuildFrom(mem, f, addr, o, end, ix, n) == Rebuilt(InsertAll(ix, Entries(fs)), Counted(n, |fs|))
  }

  /** A `uint32_t` counter `n` after `k` increments. */
  function Counted(n: u32, k: nat): (c: u32)
  {
    (n + k) % U32_MOD
  }

  /** The rebuild loop inserts the live records met by the scan, in order, and counts them. */
  lemma {:induction false} RebuildFromScan(mem: seq<byte>, f: Faults, addr: u32, o: nat, end: u32, ix: Index, n: u32)
    requires TableOk(ix.slots)
    decreases end - o, 1
    ensures RebuildsScan(mem, f, addr, o, end, ix, n)
  {
    if o >= end || ReadAt(mem, f, Add32(addr, o), RECORD_SIZE).None? {
      RebuildEmpty(mem, f, addr, o, end, ix, n);
    } else if Live(DecodeRecord(ReadAt(mem, f, Add32(addr, o), RECORD_SIZE).value)) {
      RebuildFromLive(mem, f, addr, o, end, ix, n);
    } else {
      RebuildFromScan(mem, f, addr, After(o), end, ix, n);
      RebuildSkip(mem, f, addr, o, end, ix, n);
    }
  }

  /** The rebuild induction at a live record. */
  lemma {:induction false} RebuildFromLive(mem: seq<byte>, f: Faults, addr: u32, o: nat, end: u32, ix: Index, n: u32)
    requires TableOk(ix.slots) && o < end
    requires ReadAt(mem, f, Add32(addr, o), RECORD_SIZE).Some?
    requires Live(DecodeRecord(ReadAt(mem, f, Add32(addr, o), RECORD_SIZE).value))
    decreases end - o, 0
    ensures RebuildsScan(mem, f, addr, o, end, ix, n)
  {
    var rec := DecodeRecord(ReadAt(mem, f, Add32(addr, o), RECORD_SIZE).value);
    RebuildFromScan(mem, f, addr, After(o), end, IndexSet(ix, RecordKey(rec), o), Add32(n, 1));
    RebuildLive(mem, f, addr, o, end, ix, n, rec);
  }

  /** The rebuild loop when the scan finds nothing more. */
  lemma RebuildEmpty(mem: seq<byte>, f: Faults, addr: u32, o: nat, end: u32, ix: Index, n: u32)
    requires TableOk(ix.slots)
    requires o >= end || ReadAt(mem, f, Add32(addr, o), RECORD_SIZE).None?
    ensures RebuildsScan(mem, f, addr, o, end, ix, n)
  {
    if o < end {
      RebuildPass(mem, f, addr, o, end, ix, n);
      ScanStep(mem, f, addr, o, end);
    }
    assert ScanLive(mem, f, addr, o, end) == [];
    assert Entries(ScanLive(mem, f, addr, o, end)) == [];
  }

  /** The rebuild loop and the scan pass over a record that is not live. */
  lemma RebuildSkip(mem: seq<byte>, f: Faults, addr: u32, o: nat, end: u32, ix: Index, n: u32)
    requires TableOk(ix.slots) && o < end
    requires ReadAt(mem, f, Add32(addr, o), RECORD_SIZE).Some?
    requires !Live(DecodeRecord(ReadAt(mem, f, Add32(addr, o), RECORD_SIZE).value))
    ensures ScanLive(mem, f, addr, o, end) == ScanLive(mem, f, addr, After(o), end)
    ensures RebuildFrom(mem, f, addr, o, end, ix, n) == RebuildFrom(mem, f, addr, After(o), end, ix, n)
  {
    RebuildPass(mem, f, addr, o, end, ix, n);
    ScanStep(mem, f, addr, o, end);
    RebuildShift(mem, f, addr, o, end, ix, n);
  }

  /** The rebuild loop and the scan from the next slot, with that slot written as `After`. */
  lemma RebuildShift(mem: seq<byte>, f: Faults, addr: u32, o: nat, end: u32, ix: Index, n: u32)
    requires TableOk(ix.slots)
    ensures ScanLive(mem, f, addr, o + RECORD_SIZE, end) == ScanLive(mem, f, addr, After(o), end)
    ensures RebuildFrom(mem, f, addr, o + RECORD_SIZE, end, ix, n) == RebuildFrom(mem, f, addr, After(o), end, ix, n)
  {
  }

  /** The step of that induction at a live record. */
  lemma RebuildLive(mem: seq<byte>, f: Faults, addr: u32, o: nat, end: u32, ix: Index, n: u32, rec: Record)
    requires TableOk(ix.slots) && o < end
    requires ReadAt(mem, f, Add32(addr, o), RECORD_SIZE).Some?
    requires rec == DecodeRecord(ReadAt(mem, f, Add32(addr, o), RECORD_SIZE).value) && Live(rec)
    requires RebuildsScan(mem, f, addr, After(o), end, IndexSet(ix, RecordKey(rec), o), Add32(n, 1))
    ensures RebuildsScan(mem, f, addr, o, end, ix, n)
  {
    RebuildTurn(mem, f, addr, o, end, ix, n);
    var fs := ScanLive(mem, f, addr, o, end);
    assert fs[0] == Found(rec, o) && fs[1..] == ScanLive(mem, f, addr, After(o), end);
    RebuildCons(ix, n, fs);
  }

  /** At a live record the scan keeps it, and the rebuild loop indexes and counts it, then goes on at `After(o)`. */
  lemma RebuildTurn(mem: seq<byte>, f: Faults, addr: u32, o: nat, end: u32, ix: Index, n: u32)
    requires TableOk(ix.slots) && o < end
    requires ReadAt(mem, f, Add32(addr, o), RECORD_SIZE).Some?
    requires Live(DecodeRecord(ReadAt(mem, f, Add32(addr, o), RECORD_SIZE).value))
    ensures var rec := DecodeRecord(ReadAt(mem, f, Add32(addr, o), RECORD_SIZE).value);
      && ScanLive(mem, f, addr, o, end) == [Found(rec, o)] + ScanLive(mem, f, addr, After(o), end)
      && RebuildFrom(mem, f, addr, o, end, ix, n)
         == RebuildFrom(mem, f, addr, After(o), end, IndexSet(ix, RecordKey(rec), o), Add32(n, 1))
  {
    RebuildPass(mem, f, addr, o, end, ix, n);
    ScanStep(mem, f, addr, o, end);
    var rec := DecodeRecord(ReadAt(mem, f, Add32(addr, o), RECORD_SIZE).value);
    RebuildShift(mem, f, addr, o, end, IndexSet(ix, RecordKey(rec), o), Add32(n, 1));
  }

  /** Inserting the first record found, then the others: the whole scan inserted, one more counted. */
  lemma RebuildCons(ix: Index, n: u32, fs: seq<Found>)
    requires TableOk(ix.slots) && |fs| > 0 && FoundsOk(fs)
    ensures FoundsOk(fs[1..])
    ensures Rebuilt(InsertAll(IndexSet(ix, RecordKey(fs[0].rec), fs[0].offset), Entries(fs[1..])), Counted(Add32(n, 1), |fs[1..]|))
      == Rebuilt(InsertAll(ix, Entries(fs)), Counted(n, |fs|))
  {
    InsertEntriesCons(ix, fs);
    CountCons(n, fs);
  }

  /** Counting the first record, then the others, counts them all (modulo 2^32). */
  lemma CountCons(n: u32, fs: seq<Found>)
    requires |fs| > 0
    ensures Counted(Add32(n, 1), |fs[1..]|) == Counted(n, |fs|)
  {
    Add32Then(n, |fs| - 1);
  }

  /** Inserting the first record's entry, then the others', is inserting all of them. */
  lemma InsertEntriesCons(ix: Index, fs: seq<Found>)
    requires TableOk(ix.slots) && |fs| > 0 && FoundsOk(fs)
    ensures FoundsOk(fs[1..])
    ensures InsertAll(IndexSet(ix, RecordKey(fs[0].rec), fs[0].offset), Entries(fs[1..])) == InsertAll(ix, Entries(fs))
  {
    EntriesCons(fs);
    InsertAllCons(ix, Entry(RecordKey(fs[0].rec), fs[0].offset), Entries(fs[1..]));
  }

  /**
   * kv_hash_rebuild on a whole region: the index becomes the empty index with
   * the live records the scan meets inserted in order, `record_count` grows by
   * their number (modulo 2^32), and nothing else changes.
   */
  lemma RebuildIndexes(s: KvState, f: Faults)
    requires StateOk(s)
    ensures var fs := ScanLive(s.mem, f, RegionAddr(s.h, s.h.active), HEADER_SIZE, ScanEnd(s.h));
      var r := Rebuild(s, f);
      && r.index == InsertAll(EmptyIndex(), Entries(fs))
      && r.h == s.h.(recordCount := Counted(s.h.recordCount, |fs|))
      && r.mem == s.mem && r.txPending == s.txPending && r.txRecord == s.txRecord
  {
    RebuildFromScan(s.mem, f, RegionAddr(s.h, s.h.active), HEADER_SIZE, ScanEnd(s.h), EmptyIndex(), s.h.recordCount);
  }

  /** A region of a configured store holds fewer records than the index has slots. */
  lemma ScanFitsIndex(s: KvState, f: Faults)
    requires StateOk(s) && s.h.hasOps
    ensures |ScanLive(s.mem, f, RegionAddr(s.h, s.h.active), HEADER_SIZE, ScanEnd(s.h))| <= HASH_SIZE
  {
    ScanLiveLength(s.mem, f, RegionAddr(s.h, s.h.active), HEADER_SIZE, ScanEnd(s.h));
  }

  /**
   * After the rebuild of a configured store whose live records all have
   * non-empty keys, looking a key up gives the offset of the last live record
   * with that key in scan order, and a key with no live record is not found.
   */
  lemma RebuildLastWins(s: KvState, f: Faults)
    requires StateOk(s) && s.h.hasOps
    requires NonEmptyKeys(Entries(ScanLive(s.mem, f, RegionAddr(s.h, s.h.active), HEADER_SIZE, ScanEnd(s.h))))
    ensures var es := Entries(ScanLive(s.mem, f, RegionAddr(s.h, s.h.active), HEADER_SIZE, ScanEnd(s.h)));
      forall k :: Lookup(Rebuild(s, f).index.slots, k) == LastOffset(es, k)
  {
    RebuildIndexes(s, f);
    ScanFitsIndex(s, f);
    InsertAllLastWins(Entries(ScanLive(s.mem, f, RegionAddr(s.h, s.h.active), HEADER_SIZE, ScanEnd(s.h))));
  }

  // --------------------------------------------------------------- GC

  /** The compacted copy of a non-empty scan: its first record at `w`, the others from `w + RECORD_SIZE`. */
  lemma CompactedCons(fs: seq<Found>, w: nat)
    requires |fs| > 0
    ensures Compacted(fs, w)[0] == Found(fs[0].rec, w)
    ensures Compacted(fs, w)[1..] == Compacted(fs[1..], w + RECORD_SIZE)
  {
    var a := Compacted(fs, w)[1..];
    var b := Compacted(fs[1..], w + RECORD_SIZE);
    forall i | 0 <= i < |a|
      ensures a[i] == b[i]
    {
      assert (i + 1) * RECORD_SIZE == i * RECORD_SIZE + RECORD_SIZE;
    }
  }

  /** Record slots from `w` on stay below `limit` when the scan that fills them fits there. */
  lemma CompactedOk(fs: seq<Found>, w: nat, limit: nat)
    requires FoundsOk(fs) && w + |fs| * RECORD_SIZE <= limit <= U32_MOD
    ensures FoundsOk(Compacted(fs, w))
  {
    var cs := Compacted(fs, w);
    forall i | 0 <= i < |cs|
      ensures cs[i].offset < U32_MOD
    {
      MulMono(i + 1, |fs|, RECORD_SIZE);
      assert (i + 1) * RECORD_SIZE == i * RECORD_SIZE + RECORD_SIZE;
    }
  }

  /**
   * What the copy loop of flash_kv_gc does to the flash from source offset `o`
   * and destination offset `w` on: the live records scanned are programmed one
   * after the other from `w` on and counted, and the copy succeeds.
   */
  ghost predicate GcCopiesScan(mem: seq<byte>, f: Faults, src: u32, dst: u32, o: nat, end: u32, w: nat, ix: Index, n: u32)
    requires TableOk(ix.slots) && w <= o
  {
    var fs := ScanLive(mem, f, src, o, end);
    var bytes := Copied(fs);
    var r := GcFrom(mem, f, src, dst, o, end, w, ix, n);
    dst + w + |bytes| <= |mem| && r.ok && r.mem == Programmed(mem, AddrOf(dst, w), bytes) && r.n == Counted(n, |fs|)
  }

  /** What the same loop does to the index: the live records scanned are indexed at their new offsets. */
  ghost predicate GcIndexesScan(mem: seq<byte>, f: Faults, src: u32, dst: u32, o: nat, end: u32, w: nat, ix: Index, n: u32)
    requires TableOk(ix.slots) && w <= o
  {
    var cs := Compacted(ScanLive(mem, f, src, o, end), w);
    FoundsOk(cs) && GcFrom(mem, f, src, dst, o, end, w, ix, n).index == InsertAll(ix, Entries(cs))
  }

  /** The source range `[src, src + end + RECORD_SIZE)` and the destination range do not overlap, and both are in the device. */
  ghost predicate CopyRanges(mem: seq<byte>, src: u32, dst: u32, end: u32)
  {
    && |mem| < U32_MOD
    && src + end + RECORD_SIZE <= |mem|
    && dst + end + RECORD_SIZE <= |mem|
    && (dst + end + RECORD_SIZE <= src || src + end + RECORD_SIZE <= dst)
  }

  /** One pass of the copy loop from an offset below `end`. */
  lemma GcPass(mem: seq<byte>, f: Faults, src: u32, dst: u32, o: nat, end: u32, w: nat, ix: Index, n: u32)
    requires TableOk(ix.slots) && w <= o < end
    ensures ReadAt(mem, f, Add32(src, o), RECORD_SIZE).None? ==> GcFrom(mem, f, src, dst, o, end, w, ix, n) == GcRun(mem, ix, n, true)
    ensures ReadAt(mem, f, Add32(src, o), RECORD_SIZE).Some? ==>
      GcFrom(mem, f, src, dst, o, end, w, ix, n) == GcRecord(mem, f, src, dst, o, end, w, ix, n, ReadAt(mem, f, Add32(src, o), RECORD_SIZE).value)
  {
    assert GcFrom(mem, f, src, dst, o, end, w, ix, n) == GcAt(mem, f, src, dst, o, end, w, ix, n);
  }

  /**
   * When writes do not fail and the two ranges are apart, the copy loop programs
   * the live records scanned, compacted, and counts them.
   */
  lemma {:induction false} GcFromScan(mem: seq<byte>, f: Faults, src: u32, dst: u32, o: nat, end: u32, w: nat, ix: Index, n: u32)
    requires TableOk(ix.slots) && w <= o <= end + RECORD_SIZE && !f.write
    requires CopyRanges(mem, src, dst, end)
    decreases end - o, 1
    ensures GcCopiesScan(mem, f, src, dst, o, end, w, ix, n)
  {
    if o >= end || ReadAt(mem, f, Add32(src, o), RECORD_SIZE).None? {
      GcEmpty(mem, f, src, dst, o, end, w, ix, n);
    } else if Live(DecodeRecord(ReadAt(mem, f, Add32(src, o), RECORD_SIZE).value)) {
      GcFromLive(mem, f, src, dst, o, end, w, ix, n);
    } else {
      GcFromScan(mem, f, src, dst, After(o), end, w, ix, n);
      GcSkip(mem, f, src, dst, o, end, w, ix, n);
    }
  }

  /** The copy induction at a live record. */
  lemma {:induction false} GcFromLive(mem: seq<byte>, f: Faults, src: u32, dst: u32, o: nat, end: u32, w: nat, ix: Index, n: u32)
    requires TableOk(ix.slots) && w <= o < end && !f.write
    requires CopyRanges(mem, src, dst, end)
    requires ReadAt(mem, f, Add32(src, o), RECORD_SIZE).Some?
    requires Live(DecodeRecord(ReadAt(mem, f, Add32(src, o), RECORD_SIZE).value))
    decreases end - o, 0
    ensures GcCopiesScan(mem, f, src, dst, o, end, w, ix, n)
  {
    var rec := DecodeRecord(ReadAt(mem, f, Add32(src, o), RECORD_SIZE).value);
    GcNext(mem, f, src, dst, o, end, w, ix, n, rec);
    GcFromScan(Programmed(mem, AddrOf(dst, w), EncodeRecord(rec)), f, src, dst, After(o), end, After(w), IndexSet(ix, RecordKey(rec), w), Add32(n, 1));
    GcLive(mem, f, src, dst, o, end, w, ix, n, rec);
  }

  /** Under the same conditions, the copy loop indexes the live records scanned at their new offsets. */
  lemma {:induction false} GcIndexScan(mem: seq<byte>, f: Faults, src: u32, dst: u32, o: nat, end: u32, w: nat, ix: Index, n: u32)
    requires TableOk(ix.slots) && w <= o <= end + RECORD_SIZE && !f.write
    requires CopyRanges(mem, src, dst, end)
    decreases end - o, 1
    ensures GcIndexesScan(mem, f, src, dst, o, end, w, ix, n)
  {
    if o >= end || ReadAt(mem, f, Add32(src, o), RECORD_SIZE).None? {
      GcEmpty(mem, f, src, dst, o, end, w, ix, n);
    } else if Live(DecodeRecord(ReadAt(mem, f, Add32(src, o), RECORD_SIZE).value)) {
      GcIndexLive(mem, f, src, dst, o, end, w, ix, n);
    } else {
      GcIndexScan(mem, f, src, dst, After(o), end, w, ix, n);
      GcSkip(mem, f, src, dst, o, end, w, ix, n);
    }
  }

  /** The index induction at a live record. */
  lemma {:induction false} GcIndexLive(mem: seq<byte>, f: Faults, src: u32, dst: u32, o: nat, end: u32, w: nat, ix: Index, n: u32)
    requires TableOk(ix.slots) && w <= o < end && !f.write
    requires CopyRanges(mem, src, dst, end)
    requires ReadAt(mem, f, Add32(src, o), RECORD_SIZE).Some?
    requires Live(DecodeRecord(ReadAt(mem, f, Add32(src, o), RECORD_SIZE).value))
    decreases end - o, 0
    ensures GcIndexesScan(mem, f, src, dst, o, end, w, ix, n)
  {
    var rec := DecodeRecord(ReadAt(mem, f, Add32(src, o), RECORD_SIZE).value);
    GcNext(mem, f, src, dst, o, end, w, ix, n, rec);
    GcIndexScan(Programmed(mem, AddrOf(dst, w), EncodeRecord(rec)), f, src, dst, After(o), end, After(w), IndexSet(ix, RecordKey(rec), w), Add32(n, 1));
    GcLiveIndex(mem, f, src, dst, o, end, w, ix, n, rec);
  }

  /** The loop state after a live record is copied still meets the conditions of the induction. */
  lemma GcNext(mem: seq<byte>, f: Faults, src: u32, dst: u32, o: nat, end: u32, w: nat, ix: Index, n: u32, rec: Record)
    requires TableOk(ix.slots) && w <= o < end
    requires CopyRanges(mem, src, dst, end)
    requires RecordOk(rec)
    ensures TableOk(IndexSet(ix, RecordKey(rec), w).slots)
    ensures CopyRanges(Programmed(mem, AddrOf(dst, w), EncodeRecord(rec)), src, dst, end)
  {
  }

  /** The copy loop passes over a record that is not live without writing or counting it. */
  lemma GcSkip(mem: seq<byte>, f: Faults, src: u32, dst: u32, o: nat, end: u32, w: nat, ix: Index, n: u32)
    requires TableOk(ix.slots) && w <= o < end
    requires ReadAt(mem, f, Add32(src, o), RECORD_SIZE).Some?
    requires !Live(DecodeRecord(ReadAt(mem, f, Add32(src, o), RECORD_SIZE).value))
    ensures ScanLive(mem, f, src, o, end) == ScanLive(mem, f, src, After(o), end)
    ensures GcFrom(mem, f, src, dst, o, end, w, ix, n) == GcFrom(mem, f, src, dst, After(o), end, w, ix, n)
  {
    GcPass(mem, f, src, dst, o, end, w, ix, n);
    ScanStep(mem, f, src, o, end);
  }

  /** The copy loop when the scan finds nothing more. */
  lemma GcEmpty(mem: seq<byte>, f: Faults, src: u32, dst: u32, o: nat, end: u32, w: nat, ix: Index, n: u32)
    requires TableOk(ix.slots) && w <= o <= end + RECORD_SIZE
    requires CopyRanges(mem, src, dst, end)
    requires o >= end || ReadAt(mem, f, Add32(src, o), RECORD_SIZE).None?
    ensures GcCopiesScan(mem, f, src, dst, o, end, w, ix, n)
    ensures GcIndexesScan(mem, f, src, dst, o, end, w, ix, n)
  {
    if o < end {
      GcPass(mem, f, src, dst, o, end, w, ix, n);
      ScanStep(mem, f, src, o, end);
    }
    var fs := ScanLive(mem, f, src, o, end);
    assert fs == [];
    assert Entries(Compacted(fs, w)) == [];
    ProgrammedNothing(mem, AddrOf(dst, w));
  }

  /** The step of the copy induction at a live record. */
  lemma GcLive(mem: seq<byte>, f: Faults, src: u32, dst: u32, o: nat, end: u32, w: nat, ix: Index, n: u32, rec: Record)
    requires TableOk(ix.slots) && w <= o < end && !f.write
    requires CopyRanges(mem, src, dst, end)
    requires ReadAt(mem, f, Add32(src, o), RECORD_SIZE).Some?
    requires rec == DecodeRecord(ReadAt(mem, f, Add32(src, o), RECORD_SIZE).value) && Live(rec)
    requires GcCopiesScan(Programmed(mem, AddrOf(dst, w), EncodeRecord(rec)), f, src, dst, After(o), end, After(w), IndexSet(ix, RecordKey(rec), w), Add32(n, 1))
    ensures GcCopiesScan(mem, f, src, dst, o, end, w, ix, n)
  {
    var m := Programmed(mem, AddrOf(dst, w), EncodeRecord(rec));
    GcWrite(mem, f, src, dst, o, end, w, ix, n);
    CopyCons(mem, dst, w, n, o, ScanLive(mem, f, src, o, end),
      GcFrom(m, f, src, dst, After(o), end, After(w), IndexSet(ix, RecordKey(rec), w), Add32(n, 1)));
  }

  /** Copying the first record found, then the others right after it: the whole scan copied and counted. */
  lemma CopyCons(mem: seq<byte>, dst: nat, w: nat, n: u32, o: nat, fs: seq<Found>, r: GcRun)
    requires |fs| > 0 && FoundsOk(fs) && dst + w + |fs| * RECORD_SIZE <= |mem|
    requires r.mem == Programmed(Programmed(mem, AddrOf(dst, w), EncodeRecord(fs[0].rec)), AddrOf(dst, After(w)), Copied(fs[1..]))
    requires r.n == Counted(Add32(n, 1), |fs[1..]|)
    ensures dst + w + |Copied(fs)| <= |mem|
    ensures r.mem == Programmed(mem, AddrOf(dst, w), Copied(fs))
    ensures r.n == Counted(n, |fs|)
  {
    CopiedCons(mem, AddrOf(dst, w), AddrOf(dst, After(w)), fs);
    CountCons(n, fs);
  }

  /** The step of the index induction at a live record. */
  lemma GcLiveIndex(mem: seq<byte>, f: Faults, src: u32, dst: u32, o: nat, end: u32, w: nat, ix: Index, n: u32, rec: Record)
    requires TableOk(ix.slots) && w <= o < end && !f.write
    requires CopyRanges(mem, src, dst, end)
    requires ReadAt(mem, f, Add32(src, o), RECORD_SIZE).Some?
    requires rec == DecodeRecord(ReadAt(mem, f, Add32(src, o), RECORD_SIZE).value) && Live(rec)
    requires GcIndexesScan(Programmed(mem, AddrOf(dst, w), EncodeRecord(rec)), f, src, dst, After(o), end, After(w), IndexSet(ix, RecordKey(rec), w), Add32(n, 1))
    ensures GcIndexesScan(mem, f, src, dst, o, end, w, ix, n)
  {
    GcWrite(mem, f, src, dst, o, end, w, ix, n);
    CompactedIndexCons(ix, ScanLive(mem, f, src, o, end), w, end + RECORD_SIZE);
  }

  /** A live record is rewritten at `w` of the destination, and the loop goes on with it indexed and counted. */
  lemma GcWrite(mem: seq<byte>, f: Faults, src: u32, dst: u32, o: nat, end: u32, w: nat, ix: Index, n: u32)
    requires TableOk(ix.slots) && w <= o < end && !f.write
    requires CopyRanges(mem, src, dst, end)
    requires ReadAt(mem, f, Add32(src, o), RECORD_SIZE).Some?
    requires Live(DecodeRecord(ReadAt(mem, f, Add32(src, o), RECORD_SIZE).value))
    ensures var rec := DecodeRecord(ReadAt(mem, f, Add32(src, o), RECORD_SIZE).value);
      && ScanLive(mem, f, src, o, end) == [Found(rec, o)] + ScanLive(mem, f, src, After(o), end)
      && GcFrom(mem, f, src, dst, o, end, w, ix, n)
         == GcFrom(Programmed(mem, AddrOf(dst, w), EncodeRecord(rec)), f, src, dst, After(o), end, After(w), IndexSet(ix, RecordKey(rec), w), Add32(n, 1))
      && ScanLive(Programmed(mem, AddrOf(dst, w), EncodeRecord(rec)), f, src, After(o), end) == ScanLive(mem, f, src, After(o), end)
      && |ScanLive(mem, f, src, o, end)| * RECORD_SIZE < end - o + RECORD_SIZE
  {
    var rec := DecodeRecord(ReadAt(mem, f, Add32(src, o), RECORD_SIZE).value);
    GcRewrite(mem, f, src, dst, o, end, w, ix, n);
    GcShift(Programmed(mem, AddrOf(dst, w), EncodeRecord(rec)), f, src, dst, o, end, w, IndexSet(ix, RecordKey(rec), w), Add32(n, 1));
    GcShift(mem, f, src, dst, o, end, w, ix, n);
    CopyFrame(mem, f, src, dst, After(o), end, w, EncodeRecord(rec));
    ScanLiveLength(mem, f, src, o, end);
  }

  /** The GC pass at a live record: it is rewritten, sealed as it was, at `w` of the destination. */
  lemma GcRewrite(mem: seq<byte>, f: Faults, src: u32, dst: u32, o: nat, end: u32, w: nat, ix: Index, n: u32)
    requires TableOk(ix.slots) && w <= o < end && !f.write
    requires CopyRanges(mem, src, dst, end)
    requires ReadAt(mem, f, Add32(src, o), RECORD_SIZE).Some?
    requires Live(DecodeRecord(ReadAt(mem, f, Add32(src, o), RECORD_SIZE).value))
    ensures var rec := DecodeRecord(ReadAt(mem, f, Add32(src, o), RECORD_SIZE).value);
      && ScanLive(mem, f, src, o, end) == [Found(rec, o)] + ScanLive(mem, f, src, o + RECORD_SIZE, end)
      && GcFrom(mem, f, src, dst, o, end, w, ix, n)
         == GcFrom(Programmed(mem, AddrOf(dst, w), EncodeRecord(rec)), f, src, dst, o + RECORD_SIZE, end, w + RECORD_SIZE, IndexSet(ix, RecordKey(rec), w), Add32(n, 1))
  {
    GcPass(mem, f, src, dst, o, end, w, ix, n);
    ScanStep(mem, f, src, o, end);
    var rec := DecodeRecord(ReadAt(mem, f, Add32(src, o), RECORD_SIZE).value);
    WriteLive(mem, f, dst, w, rec);
  }

  /** The copy loop and the scan from the next slot, with that slot written as `After`. */
  lemma GcShift(m: seq<byte>, f: Faults, src: u32, dst: u32, o: nat, end: u32, w: nat, ix: Index, n: u32)
    requires TableOk(ix.slots) && w <= o
    ensures ScanLive(m, f, src, o + RECORD_SIZE, end) == ScanLive(m, f, src, After(o), end)
    ensures GcFrom(m, f, src, dst, o + RECORD_SIZE, end, w + RECORD_SIZE, ix, n) == GcFrom(m, f, src, dst, After(o), end, After(w), ix, n)
  {
  }

  /** Writing a live record back: sealing it changes nothing, and the write lands in range. */
  lemma WriteLive(mem: seq<byte>, f: Faults, dst: u32, w: nat, rec: Record)
    requires RecordOk(rec) && Live(rec) && !f.write && dst + After(w) <= |mem| < U32_MOD
    ensures WriteAt(mem, f, Add32(dst, w), EncodeRecord(Sealed(rec))) == Some(Programmed(mem, AddrOf(dst, w), EncodeRecord(rec)))
  {
    assert Sealed(rec) == rec;
  }

  /** Programming the destination does not change what a scan of the source finds. */
  lemma CopyFrame(mem: seq<byte>, f: Faults, src: u32, dst: u32, o: nat, end: u32, w: nat, data: seq<byte>)
    requires CopyRanges(mem, src, dst, end) && w < end && |data| == RECORD_SIZE
    ensures ScanLive(Programmed(mem, AddrOf(dst, w), data), f, src, o, end) == ScanLive(mem, f, src, o, end)
  {
    ScanLiveFrame(mem, Programmed(mem, AddrOf(dst, w), data), f, src, o, end);
  }

  /** Indexing the first copied record, then the others, indexes the whole compacted scan. */
  lemma CompactedIndexCons(ix: Index, fs: seq<Found>, w: nat, limit: nat)
    requires TableOk(ix.slots) && |fs| > 0 && FoundsOk(fs)
    requires w + |fs| * RECORD_SIZE <= limit <= U32_MOD
    ensures FoundsOk(fs[1..]) && FoundsOk(Compacted(fs, w)) && FoundsOk(Compacted(fs[1..], After(w)))
    ensures InsertAll(IndexSet(ix, RecordKey(fs[0].rec), w), Entries(Compacted(fs[1..], After(w))))
      == InsertAll(ix, Entries(Compacted(fs, w)))
  {
    CompactedOk(fs, w, limit);
    CompactedCons(fs, w);
    InsertEntriesCons(ix, Compacted(fs, w));
  }

  /** Programming the first encoded record at `a`, then the others right after it at `b`, programs them all. */
  lemma CopiedCons(mem: seq<byte>, a: nat, b: nat, fs: seq<Found>)
    requires |fs| > 0 && FoundsOk(fs) && a + |fs| * RECORD_SIZE <= |mem| && b == a + RECORD_SIZE
    ensures a + |Copied(fs)| <= |mem|
    ensures Programmed(Programmed(mem, a, EncodeRecord(fs[0].rec)), b, Copied(fs[1..])) == Programmed(mem, a, Copied(fs))
  {
    assert Copied(fs) == EncodeRecord(fs[0].rec) + Copied(fs[1..]);
    ProgrammedAdjacent(mem, a, EncodeRecord(fs[0].rec), Copied(fs[1..]));
  }

  // ------------------------------------------------------ GC as a whole

  /** The two regions of a configured handle: block-aligned, inside the device, apart. */
  lemma GcRegions(s: KvState)
    requires StateOk(s) && s.h.hasOps
    ensures var src := RegionAddr(s.h, s.h.active);
      var dst := RegionAddr(s.h, 1 - s.h.active);
      && CopyRanges(s.mem, src, dst, ScanEnd(s.h))
      && dst % BLOCK_SIZE == 0 && s.h.regionSize % BLOCK_SIZE == 0
      && dst + s.h.regionSize <= |s.mem|
      && (src + ScanEnd(s.h) + RECORD_SIZE <= dst || dst + s.h.regionSize <= src)
  {
  }

  /**
   * flash_kv_gc when neither erase nor write fails: the other region is
   * erased, the live records the scan of the active region meets are
   * programmed one after the other from offset HEADER_SIZE on, the index
   * holds each record's key at its new offset, `record_count` is their
   * number, and the other region becomes the active one.
   */
  lemma GcCompacts(s: KvState, f: Faults)
    requires StateOk(s) && s.h.hasOps && !f.erase && !f.write
    ensures var fs := ScanLive(s.mem, f, RegionAddr(s.h, s.h.active), HEADER_SIZE, ScanEnd(s.h));
      var dst := RegionAddr(s.h, 1 - s.h.active);
      var r := GcSpec(s, f);
      && r.err == Ok
      && r.s.h == s.h.(active := 1 - s.h.active, recordCount := Counted(0, |fs|))
      && FoundsOk(Compacted(fs, HEADER_SIZE))
      && r.s.index == InsertAll(EmptyIndex(), Entries(Compacted(fs, HEADER_SIZE)))
      && dst + HEADER_SIZE + |Copied(fs)| <= |s.mem|
      && r.s.mem == Programmed(Erased(s.mem, BLOCK_SIZE, dst, s.h.regionSize), AddrOf(dst, HEADER_SIZE), Copied(fs))
  {
    var src := RegionAddr(s.h, s.h.active);
    var dst := RegionAddr(s.h, 1 - s.h.active);
    var end := ScanEnd(s.h);
    var erased := Erased(s.mem, BLOCK_SIZE, dst, s.h.regionSize);
    GcRegions(s);
    ErasedAligned(s.mem, BLOCK_SIZE, dst, s.h.regionSize);
    ScanLiveFrame(erased, s.mem, f, src, HEADER_SIZE, end);
    GcFromScan(erased, f, src, dst, HEADER_SIZE, end, HEADER_SIZE, EmptyIndex(), 0);
    GcIndexScan(erased, f, src, dst, HEADER_SIZE, end, HEADER_SIZE, EmptyIndex(), 0);
  }

  /**
   * flash_kv_gc writes no header into the region it makes active: after a
   * successful GC the header bytes there are still erased, so
   * kv_region_header_valid rejects them.
   */
  lemma GcLeavesNoHeader(s: KvState, f: Faults)
    requires StateOk(s) && s.h.hasOps && !f.erase && !f.write
    ensures var r := GcSpec(s, f);
      var a := RegionAddr(s.h, 1 - s.h.active);
      && r.err == Ok
      && r.s.h.active == 1 - s.h.active
      && a + HEADER_SIZE <= |r.s.mem|
      && r.s.mem[a..a + HEADER_SIZE] == Erased1(HEADER_SIZE)
      && !HeaderBytesValid(r.s.mem[a..a + HEADER_SIZE])
  {
    GcCompacts(s, f);
    GcRegions(s);
    var dst := RegionAddr(s.h, 1 - s.h.active);
    var fs := ScanLive(s.mem, f, RegionAddr(s.h, s.h.active), HEADER_SIZE, ScanEnd(s.h));
    HeaderGap(s.mem, dst, s.h.regionSize, Copied(fs));
    var m := GcSpec(s, f).s.mem;
    assert m[dst..dst + HEADER_SIZE] == Erased1(HEADER_SIZE);
    ErasedHeaderInvalid();
  }

  /** Data programmed behind the header of a freshly erased region leaves the header bytes erased. */
  lemma HeaderGap(mem: seq<byte>, dst: nat, size: nat, data: seq<byte>)
    requires dst % BLOCK_SIZE == 0 && size % BLOCK_SIZE == 0 && HEADER_SIZE <= size
    requires dst + HEADER_SIZE + |data| <= |mem| && dst + size <= |mem|
    ensures Programmed(Erased(mem, BLOCK_SIZE, dst, size), AddrOf(dst, HEADER_SIZE), data)[dst..dst + HEADER_SIZE] == Erased1(HEADER_SIZE)
  {
    ErasedAligned(mem, BLOCK_SIZE, dst, size);
    var m := Programmed(Erased(mem, BLOCK_SIZE, dst, size), AddrOf(dst, HEADER_SIZE), data);
    forall j | dst <= j < dst + HEADER_SIZE
      ensures m[j] == 0xFF
    {
    }
  }

  /** `n` erased bytes. */
  function Erased1(n: nat): (b: seq<byte>)
    ensures |b| == n && forall j :: 0 <= j < n ==> b[j] == 0xFF
  {
    seq(n, _ => 0xFF)
  }

  /** An erased header is not valid: its magic word reads 0xFFFFFFFF. */
  lemma ErasedHeaderInvalid()
    ensures !HeaderBytesValid(Erased1(HEADER_SIZE))
  {
    var b := Erased1(HEADER_SIZE);
    assert DecodeHeader(b).magic == GetU32Le(b[0..4]);
    assert b[0..4] == [0xFF, 0xFF, 0xFF, 0xFF];
  }

  // --------------------------------------------------------- start-up

  /** Device address of region 1, as flash_kv_init computes it. */
  function UpperRegion(c: Config): nat
  {
    c.startAddr + c.totalSize / 2
  }

  /** A region as kv_region_header_init leaves it: the fresh header, then erased bytes. */
  ghost predicate FreshRegion(m: seq<byte>, a: nat, rs: nat)
    requires a + rs <= |m| && HEADER_SIZE <= rs
  {
    m[a..a + HEADER_SIZE] == EncodeHeader(FreshHeader())
    && forall j :: a + HEADER_SIZE <= j < a + rs ==> m[j] == 0xFF
  }

  /** kv_region_header_init on a block-aligned region, with no adapter failure. */
  lemma HeaderInitFresh(mem: seq<byte>, a: nat, rs: nat)
    requires |mem| == FLASH_SIZE
    requires a % BLOCK_SIZE == 0 && rs % BLOCK_SIZE == 0 && HEADER_SIZE <= rs && a + rs <= |mem|
    ensures var m := HeaderInit(mem, NO_FAULTS, a, rs);
      && |m| == |mem|
      && FreshRegion(m, a, rs)
      && forall j :: 0 <= j < |mem| && !(a <= j < a + rs) ==> m[j] == mem[j]
  {
    var hdr := EncodeHeader(FreshHeader());
    var e := Erased(mem, BLOCK_SIZE, a, rs);
    assert HeaderInit(mem, NO_FAULTS, a, rs) == Programmed(e, a, hdr);
    RegionProgrammed(mem, a, rs, hdr);
  }

  /** Erasing a block-aligned region and programming `data` at its start. */
  lemma RegionProgrammed(mem: seq<byte>, a: nat, rs: nat, data: seq<byte>)
    requires a % BLOCK_SIZE == 0 && rs % BLOCK_SIZE == 0 && |data| <= rs && a + rs <= |mem|
    ensures var m := Programmed(Erased(mem, BLOCK_SIZE, a, rs), a, data);
      && m[a..a + |data|] == data
      && (forall j :: a + |data| <= j < a + rs ==> m[j] == 0xFF)
      && forall j :: 0 <= j < |mem| && !(a <= j < a + rs) ==> m[j] == mem[j]
  {
    ErasedAligned(mem, BLOCK_SIZE, a, rs);
    EraseWriteRead(mem, BLOCK_SIZE, a, rs, a, data);
  }

  /** A fresh region stays fresh when nothing inside it changes. */
  lemma FreshRegionKept(m1: seq<byte>, m2: seq<byte>, a: nat, rs: nat)
    requires a + rs <= |m1| == |m2| && HEADER_SIZE <= rs && FreshRegion(m1, a, rs)
    requires forall j :: a <= j < a + rs ==> m2[j] == m1[j]
    ensures FreshRegion(m2, a, rs)
  {
    SliceSame(m1, m2, a, a + HEADER_SIZE);
  }

  /** Two byte sequences that agree on `[lo, hi)` have equal slices there. */
  lemma SliceSame(m1: seq<byte>, m2: seq<byte>, lo: nat, hi: nat)
    requires lo <= hi <= |m1| && hi <= |m2|
    requires forall j :: lo <= j < hi ==> m2[j] == m1[j]
    ensures m2[lo..hi] == m1[lo..hi]
  {
  }

  /** The fresh header's bytes pass kv_region_header_valid, at version 1. */
  lemma FreshHeaderBytes()
    ensures HeaderBytesValid(EncodeHeader(FreshHeader()))
    ensures DecodeHeader(EncodeHeader(FreshHeader())).version == 1
  {
  }

  /** The all-zero buffer of mem_flash_init holds no valid header: its magic word is 0. */
  lemma ZeroHeaderInvalid()
    ensures !HeaderBytesValid(Zeros(HEADER_SIZE))
  {
    var b := Zeros(HEADER_SIZE);
    assert DecodeHeader(b).magic == GetU32Le(b[0..4]);
    assert b[0..4] == [0, 0, 0, 0];
  }

  /** Both regions re-initialised, region 0 first, as flash_kv_init does when both headers are invalid. */
  function BothReinit(mem: seq<byte>, c: Config): (m: seq<byte>)
    requires ConfigOk(c)
    ensures |m| == |mem|
  {
    HeaderInit(HeaderInit(mem, NO_FAULTS, c.startAddr, c.totalSize / 2), NO_FAULTS, UpperRegion(c), c.totalSize / 2)
  }

  /** With no valid header and no adapter failure, flash_kv_init re-initialises both regions and re-reads them. */
  lemma RecoverRepairs(mem: seq<byte>, c: Config)
    requires ConfigOk(c) && |mem| == FLASH_SIZE
    requires !HeaderBytesValid(mem[c.startAddr..c.startAddr + HEADER_SIZE])
    requires !HeaderBytesValid(mem[UpperRegion(c)..UpperRegion(c) + HEADER_SIZE])
    ensures var m := BothReinit(mem, c);
      Recover(mem, NO_FAULTS, c) == Recovery(m, SelectRegion(m[c.startAddr..c.startAddr + HEADER_SIZE],
                                                             m[UpperRegion(c)..UpperRegion(c) + HEADER_SIZE]))
  {
    UpperAligned(c);
    assert Add32(c.startAddr, c.totalSize / 2) == UpperRegion(c);
  }

  /** After both re-initialisations each region is fresh. */
  lemma BothFresh(mem: seq<byte>, c: Config)
    requires ConfigOk(c) && |mem| == FLASH_SIZE
    ensures var m := BothReinit(mem, c);
      FreshRegion(m, c.startAddr, c.totalSize / 2) && FreshRegion(m, UpperRegion(c), c.totalSize / 2)
  {
    UpperAligned(c);
    InitTwo(mem, c.startAddr, UpperRegion(c), c.totalSize / 2);
  }

  /** Two regions initialised one after the other, the second above the first, are both fresh. */
  lemma InitTwo(mem: seq<byte>, a0: nat, a1: nat, rs: nat)
    requires |mem| == FLASH_SIZE
    requires a0 % BLOCK_SIZE == 0 && a1 % BLOCK_SIZE == 0 && rs % BLOCK_SIZE == 0 && HEADER_SIZE <= rs
    requires a0 + rs <= a1 && a1 + rs <= FLASH_SIZE
    ensures var m := HeaderInit(HeaderInit(mem, NO_FAULTS, a0, rs), NO_FAULTS, a1, rs);
      FreshRegion(m, a0, rs) && FreshRegion(m, a1, rs)
  {
    HeaderInitFresh(mem, a0, rs);
    SecondInit(HeaderInit(mem, NO_FAULTS, a0, rs), a0, a1, rs);
  }

  /** Initialising a region above a fresh one leaves both fresh. */
  lemma SecondInit(m1: seq<byte>, a0: nat, a1: nat, rs: nat)
    requires |m1| == FLASH_SIZE
    requires a1 % BLOCK_SIZE == 0 && rs % BLOCK_SIZE == 0 && HEADER_SIZE <= rs
    requires a0 + rs <= a1 && a1 + rs <= FLASH_SIZE
    requires FreshRegion(m1, a0, rs)
    ensures var m := HeaderInit(m1, NO_FAULTS, a1, rs);
      FreshRegion(m, a0, rs) && FreshRegion(m, a1, rs)
  {
    HeaderInitFresh(m1, a1, rs);
    FreshRegionKept(m1, HeaderInit(m1, NO_FAULTS, a1, rs), a0, rs);
  }

  /**
   * The header phase of flash_kv_init when neither region holds a valid
   * header and the adapter never fails: both regions are re-initialised,
   * both then carry a valid header at version 1, and the tie goes to region 1.
   */
  lemma RecoverFresh(mem: seq<byte>, c: Config)
    requires ConfigOk(c) && |mem| == FLASH_SIZE
    requires !HeaderBytesValid(mem[c.startAddr..c.startAddr + HEADER_SIZE])
    requires !HeaderBytesValid(mem[UpperRegion(c)..UpperRegion(c) + HEADER_SIZE])
    ensures var r := Recover(mem, NO_FAULTS, c);
      var rs := c.totalSize / 2;
      && r.choice == Choice(1, 1)
      && FreshRegion(r.mem, c.startAddr, rs)
      && FreshRegion(r.mem, UpperRegion(c), rs)
  {
    RecoverRepairs(mem, c);
    BothFresh(mem, c);
    FreshHeaderBytes();
  }

  /** Reading the header of a fresh region returns the fresh header. */
  lemma FreshRead(m: seq<byte>, a: nat, rs: nat)
    requires a + rs <= |m| && HEADER_SIZE <= rs && FreshRegion(m, a, rs)
    ensures ReadAt(m, NO_FAULTS, a, HEADER_SIZE) == Some(EncodeHeader(FreshHeader()))
  {
  }

  /** Region 1 starts on a block boundary and ends inside the device. */
  lemma UpperAligned(c: Config)
    requires ConfigOk(c)
    ensures UpperRegion(c) % BLOCK_SIZE == 0
    ensures UpperRegion(c) + c.totalSize / 2 <= FLASH_SIZE
  {
  }

  /**
   * flash_kv_init on a device where neither region holds a valid header (the
   * all-zero buffer of mem_flash_init, for one) and the adapter never fails:
   * both regions get a fresh header, region 1 becomes active at version 1,
   * the rebuild finds nothing, and the store starts empty.
   */
  lemma InitFreshDevice(s: KvState, c: Config)
    requires StateOk(s) && ConfigOk(c)
    requires !HeaderBytesValid(s.mem[c.startAddr..c.startAddr + HEADER_SIZE])
    requires !HeaderBytesValid(s.mem[UpperRegion(c)..UpperRegion(c) + HEADER_SIZE])
    ensures var r := InitSpec(s, NO_FAULTS, c);
      var rs := c.totalSize / 2;
      && r.h == Handle(true, 1, 1, 0, TxIdle, c.startAddr, rs, c.blockSize)
      && r.index == EmptyIndex()
      && FreshRegion(r.mem, c.startAddr, rs)
      && FreshRegion(r.mem, UpperRegion(c), rs)
  {
    InitReinitBoth(s, c);
    BothFresh(s.mem, c);
  }

  /** The state flash_kv_init reaches from a device without a valid header. */
  lemma InitReinitBoth(s: KvState, c: Config)
    requires StateOk(s) && ConfigOk(c)
    requires !HeaderBytesValid(s.mem[c.startAddr..c.startAddr + HEADER_SIZE])
    requires !HeaderBytesValid(s.mem[UpperRegion(c)..UpperRegion(c) + HEADER_SIZE])
    ensures InitSpec(s, NO_FAULTS, c)
      == s.(mem := BothReinit(s.mem, c), h := InitHandle(c, Choice(1, 1)), index := EmptyIndex())
  {
    RecoverFresh(s.mem, c);
    RecoverRepairs(s.mem, c);
    BootFresh(s, c);
  }

  /** The rebuild after both regions were re-initialised finds nothing in region 1. */
  lemma BootFresh(s: KvState, c: Config)
    requires StateOk(s) && ConfigOk(c)
    ensures var booted := s.(mem := BothReinit(s.mem, c), h := InitHandle(c, Choice(1, 1)));
      StateOk(booted) && Rebuild(booted, NO_FAULTS) == booted.(index := EmptyIndex())
  {
    BothFresh(s.mem, c);
    var booted := s.(mem := BothReinit(s.mem, c), h := InitHandle(c, Choice(1, 1)));
    assert RegionAddr(booted.h, booted.h.active) == UpperRegion(c);
    RebuildFresh(booted, NO_FAULTS);
  }

  /** Rebuilding from a fresh region finds no record: the index is empty and the count is unchanged. */
  lemma RebuildFresh(s: KvState, f: Faults)
    requires StateOk(s) && s.h.hasOps
    requires FreshRegion(s.mem, RegionAddr(s.h, s.h.active), s.h.regionSize)
    ensures Rebuild(s, f) == s.(index := EmptyIndex())
  {
    RegionBounds(s.h, s.h.active);
    FreshScanEmpty(s.mem, f, RegionAddr(s.h, s.h.active), s.h.regionSize, ScanEnd(s.h));
    RebuildNothing(s, f);
  }

  /** A region lies inside the device, and its scan limit leaves room for one record. */
  lemma RegionBounds(h: Handle, r: nat)
    requires GeometryOk(h) && r < 2
    ensures RegionAddr(h, r) + h.regionSize <= FLASH_SIZE
    ensures ScanEnd(h) + RECORD_SIZE <= h.regionSize
  {
  }

  /** A scan of a fresh region finds nothing. */
  lemma FreshScanEmpty(mem: seq<byte>, f: Faults, a: u32, rs: nat, end: u32)
    requires a + rs <= |mem| && HEADER_SIZE <= rs && FreshRegion(mem, a, rs)
    requires end + RECORD_SIZE <= rs && a + end < U32_MOD
    ensures ScanLive(mem, f, a, HEADER_SIZE, end) == []
  {
    ScanLiveErased(mem, f, a, HEADER_SIZE, end);
  }

  /** A rebuild whose scan finds nothing leaves an empty index and the count as it was. */
  lemma RebuildNothing(s: KvState, f: Faults)
    requires StateOk(s)
    requires ScanLive(s.mem, f, RegionAddr(s.h, s.h.active), HEADER_SIZE, ScanEnd(s.h)) == []
    ensures Rebuild(s, f) == s.(index := EmptyIndex())
  {
    RebuildIndexes(s, f);
    assert Entries([]) == [];
    assert InsertAll(EmptyIndex(), []) == EmptyIndex();
  }
}
