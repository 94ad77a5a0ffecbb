/**
 * The on-flash formats of the store: the fixed-size record and the region
 * header, both packed little-endian.
 *
 * Record (RECORD_SIZE = KEY_SIZE + VALUE_SIZE + 8 bytes):
 *   key_len | key[KEY_SIZE] | value_len | value[VALUE_SIZE] | flags | reserved[3] | crc16
 * The CRC-16 covers every byte before it. The store reads and writes
 * `key_len` and `value_len`, so the record carries them as one byte each in
 * front of the key and of the value.
 *
 * Header (HEADER_SIZE = 24 bytes):
 *   magic | version | record_count | active_offset | tx_state | reserved[3] | crc32
 * with four-byte fields in the little-endian encoding of the byte codecs, and
 * the CRC-32 covering the first 20 bytes.
 */
module Layout {
  import opened Types
  import opened Crc
  import opened ByteCodec
  import opened MockFlash

  const RECORD_SIZE: nat := KEY_SIZE + VALUE_SIZE + 8
  /** Bytes of a record covered by its CRC-16. */
  const RECORD_BODY: nat := RECORD_SIZE - 2
  const HEADER_SIZE: nat := 24
  /** Bytes of a header covered by its CRC-32. */
  const HEADER_BODY: nat := HEADER_SIZE - 4

  /** Record flags: a live record, and a record marked deleted. */
  const FLAG_VALID: byte := 1
  const FLAG_DELETED: byte := 2

  // ------------------------------------------------------------- records

  datatype Record = Record(
    keyLen: byte, key: seq<byte>,
    valueLen: byte, value: seq<byte>,
    flags: byte, reserved: seq<byte>,
    crc16: bv16)

  ghost predicate RecordOk(r: Record)
  {
    |r.key| == KEY_SIZE && |r.value| == VALUE_SIZE && |r.reserved| == 3
  }

  /** The bytes the CRC-16 is computed over. */
  function RecordBody(r: Record): (b: seq<byte>)
    requires RecordOk(r)
    ensures |b| == RECORD_BODY
  {
    [r.keyLen] + r.key + [r.valueLen] + r.value + [r.flags] + r.reserved
  }

  function EncodeRecord(r: Record): (b: seq<byte>)
    requires RecordOk(r)
    ensures |b| == RECORD_SIZE
    ensures b[..RECORD_BODY] == RecordBody(r)
    ensures GetU16Le(b[RECORD_BODY..]) == r.crc16
  {
    RecordBody(r) + U16LeBytes(r.crc16)
  }

  function DecodeRecord(b: seq<byte>): (r: Record)
    requires |b| == RECORD_SIZE
    ensures RecordOk(r)
    ensures RecordBody(r) == b[..RECORD_BODY]
  {
    var v := 1 + KEY_SIZE + 1;
    var f := v + VALUE_SIZE;
    var r := Record(b[0], b[1..1 + KEY_SIZE], b[1 + KEY_SIZE], b[v..f], b[f], b[f + 1..f + 4],
                    GetU16Le(b[RECORD_BODY..]));
    assert RecordBody(r) == b[..RECORD_BODY];
    r
  }

  lemma DecodeEncodeRecord(r: Record)
    requires RecordOk(r)
    ensures DecodeRecord(EncodeRecord(r)) == r
  {
    var b := EncodeRecord(r);
    var d := DecodeRecord(b);
    var body := RecordBody(r);
    assert RecordBody(d) == body;
    assert body[1..1 + KEY_SIZE] == r.key;
    assert body[KEY_SIZE + 2..KEY_SIZE + 2 + VALUE_SIZE] == r.value;
    assert body[RECORD_BODY - 3..] == r.reserved;
    assert d.key == RecordBody(d)[1..1 + KEY_SIZE];
    assert d.value == RecordBody(d)[KEY_SIZE + 2..KEY_SIZE + 2 + VALUE_SIZE];
    assert d.reserved == RecordBody(d)[RECORD_BODY - 3..];
    assert d.crc16 == r.crc16;
  }

  lemma EncodeDecodeRecord(b: seq<byte>)
    requires |b| == RECORD_SIZE
    ensures EncodeRecord(DecodeRecord(b)) == b
  {
    U16LeDecodeEncode(b[RECORD_BODY..]);
    assert b == b[..RECORD_BODY] + b[RECORD_BODY..];
  }

  /** kv_record_check_crc: the stored CRC-16 is the CRC-16 of the body. */
  predicate CrcMatches(r: Record)
    requires RecordOk(r)
  {
    Crc16(RecordBody(r)) == r.crc16
  }

  /** kv_record_write's copy: the same record with its CRC-16 recomputed. */
  function Sealed(r: Record): (s: Record)
    requires RecordOk(r)
    ensures RecordOk(s) && CrcMatches(s)
    ensures RecordBody(s) == RecordBody(r)
    ensures CrcMatches(r) ==> s == r
  {
    r.(crc16 := Crc16(RecordBody(r)))
  }

  /** A record the scans keep: its CRC matches and it is flagged valid. */
  predicate Live(r: Record)
    requires RecordOk(r)
  {
    CrcMatches(r) && r.flags == FLAG_VALID
  }

  function Min(a: int, b: int): int
  {
    if a < b then a else b
  }

  /** The key a record stores: `key_len` bytes, clipped to the key field. */
  function RecordKey(r: Record): (k: seq<byte>)
    requires RecordOk(r)
    ensures |k| <= KEY_SIZE
  {
    r.key[..Min(r.keyLen as int, KEY_SIZE)]
  }

  /** The value a record stores: `value_len` bytes, clipped to the value field. */
  function RecordValue(r: Record): (v: seq<byte>)
    requires RecordOk(r)
    ensures |v| <= VALUE_SIZE
  {
    r.value[..Min(r.valueLen as int, VALUE_SIZE)]
  }

  /** The record flash_kv_set builds: zeroed, then key, value, lengths and the valid flag. */
  function NewRecord(key: seq<byte>, value: seq<byte>): (r: Record)
    requires |key| <= KEY_SIZE && |value| <= VALUE_SIZE
    ensures RecordOk(r)
    ensures RecordKey(r) == key && RecordValue(r) == value
    ensures r.flags == FLAG_VALID
    ensures r.reserved == Zeros(3)
  {
    ByteValue(|key|);
    ByteValue(|value|);
    Record(|key| as bv8, key + Zeros(KEY_SIZE - |key|),
           |value| as bv8, value + Zeros(VALUE_SIZE - |value|),
           FLAG_VALID, Zeros(3), 0)
  }

  /** The record a tombstone write programs: flags set to DELETED, CRC recomputed. */
  function Tombstone(r: Record): (t: Record)
    requires RecordOk(r)
    ensures RecordOk(t) && CrcMatches(t) && t.flags == FLAG_DELETED
  {
    Sealed(r.(flags := FLAG_DELETED))
  }

  // ------------------------------------------------------------- headers

  datatype Header = Header(
    magic: bv32, version: bv32, recordCount: bv32, activeOffset: bv32,
    txState: byte, reserved: seq<byte>,
    crc32: bv32)

  ghost predicate HeaderOk(h: Header)
  {
    |h.reserved| == 3
  }

  /** The bytes the CRC-32 is computed over. */
  function HeaderBody(h: Header): (b: seq<byte>)
    requires HeaderOk(h)
    ensures |b| == HEADER_BODY
  {
    U32LeBytes(h.magic) + U32LeBytes(h.version) + U32LeBytes(h.recordCount)
      + U32LeBytes(h.activeOffset) + [h.txState] + h.reserved
  }

  function EncodeHeader(h: Header): (b: seq<byte>)
    requires HeaderOk(h)
    ensures |b| == HEADER_SIZE
    ensures b[..HEADER_BODY] == HeaderBody(h)
  {
    HeaderBody(h) + U32LeBytes(h.crc32)
  }

  function DecodeHeader(b: seq<byte>): (h: Header)
    requires |b| == HEADER_SIZE
    ensures HeaderOk(h)
  {
    Header(GetU32Le(b[0..4]), GetU32Le(b[4..8]), GetU32Le(b[8..12]), GetU32Le(b[12..16]),
           b[16], b[17..20], GetU32Le(b[20..24]))
  }

  lemma DecodeEncodeHeader(h: Header)
    requires HeaderOk(h)
    ensures DecodeHeader(EncodeHeader(h)) == h
  {
    HeaderFieldsLow(h);
    HeaderFieldsHigh(h);
  }

  /** Where the first three words sit in the encoded header. */
  lemma HeaderFieldsLow(h: Header)
    requires HeaderOk(h)
    ensures EncodeHeader(h)[0..4] == U32LeBytes(h.magic)
    ensures EncodeHeader(h)[4..8] == U32LeBytes(h.version)
    ensures EncodeHeader(h)[8..12] == U32LeBytes(h.recordCount)
  {
    var b := EncodeHeader(h);
    var w := U32LeBytes(h.magic) + U32LeBytes(h.version) + U32LeBytes(h.recordCount);
    assert b[..12] == w;
    assert w[0..4] == U32LeBytes(h.magic);
    assert w[4..8] == U32LeBytes(h.version);
  }

  /** Where the remaining fields sit in the encoded header. */
  lemma HeaderFieldsHigh(h: Header)
    requires HeaderOk(h)
    ensures EncodeHeader(h)[12..16] == U32LeBytes(h.activeOffset)
    ensures EncodeHeader(h)[16] == h.txState
    ensures EncodeHeader(h)[17..20] == h.reserved
    ensures EncodeHeader(h)[20..24] == U32LeBytes(h.crc32)
  {
    var b := EncodeHeader(h);
    assert b[12..16] == U32LeBytes(h.activeOffset);
    assert b[17..20] == h.reserved;
  }

  lemma EncodeDecodeHeader(b: seq<byte>)
    requires |b| == HEADER_SIZE
    ensures EncodeHeader(DecodeHeader(b)) == b
  {
    U32LeDecodeEncode(b[0..4]);
    U32LeDecodeEncode(b[4..8]);
    U32LeDecodeEncode(b[8..12]);
    U32LeDecodeEncode(b[12..16]);
    U32LeDecodeEncode(b[20..24]);
    assert b == b[0..4] + b[4..8] + b[8..12] + b[12..16] + [b[16]] + b[17..20] + b[20..24];
  }

  /** kv_region_header_valid, on the decoded header. */
  predicate HeaderValid(h: Header)
    requires HeaderOk(h)
  {
    (h.magic == KV_MAGIC || h.magic == KV_MAGIC_B) && Crc32(HeaderBody(h)) == h.crc32
  }

  /** kv_region_header_valid on the 24 bytes read: the magic word is one of the two
    * accepted ones and the last four bytes hold the CRC-32 of the first 20. */
  lemma HeaderValidBytes(b: seq<byte>)
    requires |b| == HEADER_SIZE
    ensures HeaderValid(DecodeHeader(b)) <==>
      (GetU32Le(b) == KV_MAGIC || GetU32Le(b) == KV_MAGIC_B)
      && Crc32(b[..HEADER_BODY]) == GetU32Le(b[HEADER_BODY..])
  {
    EncodeDecodeHeader(b);
    assert b[0..4][..4] == b[..4];
    assert b[HEADER_BODY..] == b[20..24];
  }

  /** The header kv_region_header_init writes. */
  function FreshHeader(): (h: Header)
    ensures HeaderOk(h) && HeaderValid(h)
    ensures h.magic == KV_MAGIC && h.version == 1 && h.recordCount == 0
    ensures h.activeOffset == HEADER_SIZE as bv32 && h.txState == 0
    ensures DecodeHeader(EncodeHeader(h)) == h
  {
    var body := Header(KV_MAGIC, 1, 0, HEADER_SIZE as bv32, 0, Zeros(3), 0);
    var h := body.(crc32 := Crc32(HeaderBody(body)));
    DecodeEncodeHeader(h);
    h
  }

  /** The region flash_kv_init makes active, and the version it records. */
  datatype Choice = Choice(region: nat, version: u32)

  /**
   * Region selection from the two re-read headers' validity and versions
   * (unsigned comparison). The chosen region is valid whenever one is, its
   * version is at least that of every valid region, a tie between two valid
   * regions goes to region 1, and with no valid region the store falls back
   * to region 0 at version 1.
   */
  function ChooseRegion(valid0: bool, valid1: bool, v0: u32, v1: u32): (c: Choice)
    ensures c.region == 0 || c.region == 1
    ensures (valid0 || valid1) ==> (if c.region == 0 then valid0 && c.version == v0 else valid1 && c.version == v1)
    ensures valid0 ==> v0 <= c.version
    ensures valid1 ==> v1 <= c.version
    ensures valid0 && valid1 && v0 == v1 ==> c.region == 1
    ensures !valid0 && !valid1 ==> c == Choice(0, 1)
  {
    if valid0 && valid1 then
      if v1 >= v0 then Choice(1, v1) else Choice(0, v0)
    else if valid0 then Choice(0, v0)
    else if valid1 then Choice(1, v1)
    else Choice(0, 1)
  }

  // --------------------------------------------------------- tombstones

  /**
   * Programming a tombstone over a live record on flash that only clears bits
   * leaves flags 1 & 2 == 0: the record is dead, but it is not marked DELETED.
   */
  lemma TombstoneOverLive(r: Record)
    requires RecordOk(r) && Live(r)
    ensures DecodeRecord(AndBytes(EncodeRecord(r), EncodeRecord(Tombstone(r)))).flags == 0
    ensures !Live(DecodeRecord(AndBytes(EncodeRecord(r), EncodeRecord(Tombstone(r)))))
  {
    var a := AndBytes(EncodeRecord(r), EncodeRecord(Tombstone(r)));
    var f := KEY_SIZE + VALUE_SIZE + 2;
    assert EncodeRecord(r)[f] == RecordBody(r)[f] == r.flags;
    assert EncodeRecord(Tombstone(r))[f] == RecordBody(Tombstone(r))[f] == FLAG_DELETED;
    assert a[f] == 0;
    assert DecodeRecord(a).flags == a[f];
  }
}
