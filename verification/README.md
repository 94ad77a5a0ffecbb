# flash_kv in Dafny

A model of flash_kv, an embedded key-value store that keeps fixed-size
records in a raw flash area split into two "ping-pong" regions. The model
covers:

- **Integrity codes** (`crc.dfy`). These are CRC-16/CCITT-FALSE over
  records and CRC-32/BZIP2 over region headers. Each is a recursive fold
  of a per-byte step, and the bit loops of `kv_crc16`/`kv_crc32` are
  verified against it.
- **Byte codecs** (`byte_codec.dfy`). These are the u8, i8, u16/u32
  big- and little-endian and bool put/get helpers. The little-endian u32
  encoder also serialises header fields.
- **The flash device** (`mock_flash.dfy`). This is the in-memory device
  of the test adapter: bounds-checked reads, writes that AND bytes in (so
  programming only clears bits), and erases that set whole blocks to
  0xFF.
- **The adapter** (`flash_port.dfy`). This is the `flash_kv_ops_t` the
  store calls through. It forwards to the device, and three fixed fault
  switches make a read, write or erase report failure.
- **On-flash formats** (`layout.dfy`).
  - The packed record is `key_len | key | value_len | value | flags |
    reserved[3] | crc16`.
  - The 24-byte region header is `magic | version | record_count |
    active_offset | tx_state | reserved[3] | crc32`.
  - Encoders and decoders for both are proved mutually inverse.
  - This file also holds region selection by version.
- **The index** (`hash_index.dfy`). This is the DJB2 / linear-probing hash
  table that maps a key to its record's offset in the active region. Pure
  functions on slot sequences specify it, and a class updates its slot
  array in place and is proved against them.
- **The engine** (`engine.dfy`, `store.dfy`).
  - `engine.dfy` states every API call of `flash_kv_core.c` as a function
    on a state value: the flash contents, handle 0, the global index and
    the transaction globals.
  - `store.dfy` is a class with the same fields. It runs the same steps in
    place, with loops for the rebuild and GC scans, and each method is
    proved to produce the state and return code of the matching function.
- **Whole-operation properties** (`engine_props.dfy`, `engine_calls.dfy`):
  - what the rebuild and the GC compute, relative to the list of live
    records a scan of the active region meets;
  - start-up on a device without valid headers;
  - get after set, get after del, set after a GC, the transaction flags,
    clear and the free-space figure.

Behaviours of the C code that the model keeps as they are written:

- `kv_hash_set` tests `key_len == 0` after overwriting it, so the index's
  `count` grows only when an empty key is stored. `kv_hash_del` always
  decrements it, wrapping to 0xFFFF.
- `kv_hash_del` empties a slot with no tombstone, so a key further along
  the same probe path becomes unreachable.
- `flash_kv_set` marks the old record deleted but does not decrement
  `record_count`; `flash_kv_del` does decrement it. The append position
  `header + record_count * RECORD_SIZE` can therefore point at a slot that
  was already written.
- A tombstone is programmed over a live record on flash that only clears
  bits, so its flags become `1 & 2 == 0` rather than DELETED. The record is
  still no longer live.
- `flash_kv_set` computes the region address and the reserve limit before
  a GC and does not refresh them afterwards. After a GC the new record is
  written into the region that was just left.
- GC erases the target region, header included, and writes no header.
- The results of tombstone writes and of header initialisation at start-up
  are ignored.
- `kv_hash_rebuild` counts on from the handle's `record_count`.
- No call ever sets `g_tx_pending`, so `flash_kv_tx_commit` never writes.

`kv_record_t` in `flash_kv_types.h` declares no length fields, yet the core
reads and writes `record.key_len` and `record.value_len`. The model gives
the record one length byte in front of the key and one in front of the
value, so a record is `KEY_SIZE + VALUE_SIZE + 8` bytes.

The four `FLASH_KV_*` sizes come from a configuration header that is not
part of this model. They are fixed at KEY_SIZE 32, VALUE_SIZE 64,
HASH_SIZE 512 (a power of two, as the index's masking needs) and
BLOCK_SIZE 2048.

## Model

| member | source | states |
|---|---|---|
| Types.Add32 | flash_kv/src/flash_kv_core.c:254-255 | `uint32_t` addition: the exact sum below 2^32, the sum less 2^32 above it |
| Types.Sub32 | flash_kv/src/flash_kv_core.c:498 | `uint32_t` subtraction: the exact difference, or the difference plus 2^32 when it would be negative |
| Types.Add32Then | flash_kv/src/flash_kv_core.c:205 | counting one and then `k` more in 32 bits is counting `k + 1` in 32 bits |
| Types.AddSubCancel | flash_kv/src/flash_kv_core.c:287-288 | `a + (b - a) == b` in 32-bit arithmetic: the offset `write_offset - region_addr` that set records in the index, added back to the region address by get, is the address the record was written at (used by `EngineCalls.AppendThenGet`) |
| Types.KvError.Code | flash_kv/inc/flash_kv_types.h:11-23 | each error code maps to its `kv_err_t` value, in -10..0, and only `KV_OK` maps to 0 |
| Types.Zeros | flash_kv/src/flash_kv_core.c:273 | `memset(.., 0, n)`: n bytes, all zero |
| Crc.ComputeCrc16 | flash_kv/src/flash_kv_crc.c:13-27 | the nested bit loop of `kv_crc16` returns the fold of the per-byte step from 0xFFFF, with no final XOR |
| Crc.Fold16Append | flash_kv/src/flash_kv_crc.c:16-25 | the CRC-16 fold over `a + b` continues from the register the fold over `a` leaves |
| Crc.Crc16Concat | flash_kv/src/flash_kv_crc.c:13-27 | `crc16(a + b)` is the fold over `b` started from `crc16(a)` |
| Crc.Crc16Empty | flash_kv/src/flash_kv_crc.c:15-26 | the CRC-16 of no bytes is 0xFFFF |
| Crc.ComputeCrc32 | flash_kv/src/flash_kv_crc.c:30-44 | the nested bit loop of `kv_crc32` returns the fold from 0xFFFFFFFF with poly 0x04C11DB7, XORed with 0xFFFFFFFF |
| Crc.Fold32Append | flash_kv/src/flash_kv_crc.c:33-41 | the CRC-32 register fold over `a + b` continues from the register left by `a` |
| Crc.Crc32Concat | flash_kv/src/flash_kv_crc.c:30-44 | `crc32(a + b)` is the final XOR of the fold over `b` from the register that `a` leaves |
| Crc.Crc32Empty | flash_kv/src/flash_kv_crc.c:32-43 | the CRC-32 of no bytes is 0 |
| Crc.Crc16Steps1 | flash_kv/src/flash_kv_crc.c:17-24 | the register after each of "123" from 0xFFFF |
| Crc.Crc16Steps2 | flash_kv/src/flash_kv_crc.c:17-24 | the register after each of "456" |
| Crc.Crc16Steps3 | flash_kv/src/flash_kv_crc.c:17-24 | the register after each of "789" |
| Crc.Crc16Prefix5 | flash_kv/src/flash_kv_crc.c:16-25 | the register after "12345" is 0x4560 |
| Crc.Crc16CheckValue | flash_kv/src/flash_kv_crc.c:13-27 | the CRC-16 of "123456789" is the CCITT-FALSE check value 0x29B1 |
| Crc.Crc32Steps1 | flash_kv/src/flash_kv_crc.c:34-41 | the register after each of "123" from 0xFFFFFFFF |
| Crc.Crc32Steps2 | flash_kv/src/flash_kv_crc.c:34-41 | the register after each of "456" |
| Crc.Crc32Steps3 | flash_kv/src/flash_kv_crc.c:34-41 | the register after each of "789" |
| Crc.Crc32Prefix3 | flash_kv/src/flash_kv_crc.c:33-42 | the register after "123" is 0xD952F164 |
| Crc.Crc32Prefix6 | flash_kv/src/flash_kv_crc.c:33-42 | the register after "123456" is 0xD8F06C8F |
| Crc.Crc32CheckValue | flash_kv/src/flash_kv_crc.c:30-44 | the CRC-32 of "123456789" is the BZIP2 check value 0xFC891918 |
| ByteCodec.U16LeBytes | flash_kv/src/flash_kv_utils.c:48-57 | the two little-endian bytes of `v`, which `kv_get_u16le` decodes back to `v` |
| ByteCodec.U16BeBytes | flash_kv/src/flash_kv_utils.c:36-45 | the two big-endian bytes of `v`, which `kv_get_u16be` decodes back to `v` |
| ByteCodec.U32LeBytes | flash_kv/src/flash_kv_utils.c:75-87 | the four little-endian bytes of `v`, which `kv_get_u32le` decodes back to `v` |
| ByteCodec.U32BeBytes | flash_kv/src/flash_kv_utils.c:60-72 | the four big-endian bytes of `v`, which `kv_get_u32be` decodes back to `v` |
| ByteCodec.I8Byte | flash_kv/src/flash_kv_utils.c:25-28 | `(uint8_t)val`: the value itself when non-negative, `val + 256` when negative |
| ByteCodec.BoolByte | flash_kv/src/flash_kv_utils.c:116-119 | true is stored as 1 and false as 0, and `kv_get_bool` reads it back |
| ByteCodec.GetI8 | flash_kv/src/flash_kv_utils.c:30-33 | `(int8_t)buf[0]`: bytes below 128 keep their value, the others read as `b - 256` |
| ByteCodec.U16LeDecodeEncode | flash_kv/src/flash_kv_utils.c:48-57 | re-encoding the decoded u16 gives back the two little-endian bytes |
| ByteCodec.U16BeDecodeEncode | flash_kv/src/flash_kv_utils.c:36-45 | re-encoding the decoded u16 gives back the two big-endian bytes |
| ByteCodec.U32LeDecodeEncode | flash_kv/src/flash_kv_utils.c:75-87 | re-encoding the decoded u32 gives back the four little-endian bytes |
| ByteCodec.U32BeDecodeEncode | flash_kv/src/flash_kv_utils.c:60-72 | re-encoding the decoded u32 gives back the four big-endian bytes |
| ByteCodec.I8RoundTrip | flash_kv/src/flash_kv_utils.c:25-33 | `kv_get_i8(kv_put_i8(v)) == v` for every i8, and the converse for every byte |
| ByteCodec.BigEndianIsReversed | flash_kv/src/flash_kv_utils.c:36-81 | the big-endian bytes of a u16 or u32 are its little-endian bytes reversed |
| ByteCodec.UnitTestRoundTrips | flash_kv/test/flash_kv_test.c:86-101 | the u16le, u32le and bool round trips the unit test asserts, and the bytes of 0x1234 |
| ByteCodec.PutU8 | flash_kv/src/flash_kv_utils.c:14-17 | writes `val` into `buf[0]` and leaves later bytes untouched |
| ByteCodec.PutI8 | flash_kv/src/flash_kv_utils.c:25-28 | writes the two's-complement byte into `buf[0]` and leaves later bytes untouched |
| ByteCodec.PutU16Be | flash_kv/src/flash_kv_utils.c:36-40 | writes the big-endian bytes into `buf[0..2)` and leaves later bytes untouched |
| ByteCodec.PutU16Le | flash_kv/src/flash_kv_utils.c:48-52 | writes the little-endian bytes into `buf[0..2)` and leaves later bytes untouched |
| ByteCodec.PutU32Be | flash_kv/src/flash_kv_utils.c:60-66 | writes the big-endian bytes into `buf[0..4)` and leaves later bytes untouched |
| ByteCodec.PutU32Le | flash_kv/src/flash_kv_utils.c:75-81 | writes the little-endian bytes into `buf[0..4)` and leaves later bytes untouched |
| ByteCodec.PutBool | flash_kv/src/flash_kv_utils.c:116-119 | writes 1 or 0 into `buf[0]` and leaves later bytes untouched |
| MockFlash.EraseBounds | flash_kv/test/mock_flash.c:50-51 | the rounded-out block range starts at or before `addr`, covers `[addr, addr+len)` and stays inside a device of whole blocks |
| MockFlash.Flash.Init | flash_kv/test/mock_flash.c:16-25 | a fresh 64 KiB device, all bytes zero |
| MockFlash.Flash.Read | flash_kv/test/mock_flash.c:27-34 | returns -1 exactly when `addr + len` exceeds the size; otherwise 0 and the bytes `memory[addr..addr+len)`, with memory unchanged |
| MockFlash.Flash.Write | flash_kv/test/mock_flash.c:36-46 | out of range: -1 and no change; otherwise every byte in range becomes `old & new` and the others are kept |
| MockFlash.Flash.Erase | flash_kv/test/mock_flash.c:48-57 | sets every byte of each block that overlaps `[addr, addr+len)` to 0xFF and keeps all other bytes; returns 0 |
| MockFlash.ProgramOnlyClearsBits | flash_kv/test/mock_flash.c:43 | programming only clears bits, and bytes outside the range are unchanged |
| MockFlash.ProgramIdempotent | flash_kv/test/mock_flash.c:43 | writing the same data twice leaves what writing it once does |
| MockFlash.ProgramErasedReadsBack | flash_kv/test/mock_flash.c:43 | data written over erased bytes reads back unchanged |
| MockFlash.ProgrammedSlice | flash_kv/test/mock_flash.c:42-44 | the written range holds the byte-wise AND of old and new data |
| MockFlash.ProgrammedAdjacent | flash_kv/test/mock_flash.c:42-44 | two writes at adjacent ranges are one write of the concatenation |
| MockFlash.ErasedAligned | flash_kv/test/mock_flash.c:50-55 | an erase of a block-aligned range sets exactly that range to 0xFF |
| MockFlash.EraseWriteRead | flash_kv/test/mock_flash.c:36-57 | after erasing a range, data written inside it reads back as written |
| FlashPort.ReadAt | flash_kv/inc/flash_kv_types.h:30 | a successful adapter read returns exactly `len` bytes |
| FlashPort.Port.Read | flash_kv/test/mock_flash.c:27-34 | `ops->read`: 0 with the device bytes when neither the fault switch nor the bounds check rejects it, -1 otherwise |
| FlashPort.Port.Write | flash_kv/test/mock_flash.c:36-46 | `ops->write`: the device is programmed when it returns 0, and unchanged when it returns -1 |
| FlashPort.Port.Erase | flash_kv/test/mock_flash.c:48-57 | `ops->erase`: the blocks are erased when it returns 0, and unchanged when it returns -1 |
| Layout.EncodeRecord | flash_kv/inc/flash_kv_types.h:78-84 | a packed record of RECORD_SIZE bytes whose first RECORD_SIZE-2 bytes are the CRC-covered body and whose last two are the little-endian CRC-16 |
| Layout.DecodeRecord | flash_kv/src/flash_kv_core.c:197-198 | reading RECORD_SIZE bytes into a record gives a well-formed record whose body is those bytes |
| Layout.DecodeEncodeRecord | flash_kv/src/flash_kv_core.c:212-218 | decoding an encoded record gives the record back |
| Layout.EncodeDecodeRecord | flash_kv/src/flash_kv_core.c:197-198 | encoding a decoded record gives the bytes back |
| Layout.Sealed | flash_kv/src/flash_kv_core.c:212-218 | `kv_record_write`'s copy: the same body with a CRC-16 that matches it, and the record itself when its CRC already matched |
| Layout.RecordKey | flash_kv/src/flash_kv_core.c:203 | the key a record carries, at most KEY_SIZE bytes |
| Layout.RecordValue | flash_kv/src/flash_kv_core.c:328 | the value a record carries, at most VALUE_SIZE bytes |
| Layout.NewRecord | flash_kv/src/flash_kv_core.c:272-278 | a zeroed record carrying exactly the given key and value, with flags VALID and zero reserved bytes |
| Layout.Tombstone | flash_kv/src/flash_kv_core.c:243-245 | the record with flags DELETED and a matching CRC-16 |
| Layout.EncodeHeader | flash_kv/inc/flash_kv_types.h:89-97 | a packed 24-byte header whose first 20 bytes are the CRC-covered body |
| Layout.DecodeHeader | flash_kv/src/flash_kv_core.c:21-29 | reading 24 bytes into a header gives a well-formed header |
| Layout.DecodeEncodeHeader | flash_kv/inc/flash_kv_types.h:89-97 | decoding an encoded header gives the header back |
| Layout.HeaderFieldsLow | flash_kv/inc/flash_kv_types.h:90-92 | magic, version and record_count are stored little-endian at offsets 0, 4 and 8 |
| Layout.HeaderFieldsHigh | flash_kv/inc/flash_kv_types.h:93-96 | active_offset at 12, tx_state at 16, reserved at 17-19, crc32 at 20, little-endian |
| Layout.EncodeDecodeHeader | flash_kv/src/flash_kv_core.c:21-29 | encoding a decoded header gives the 24 bytes back |
| Layout.HeaderValidBytes | flash_kv/src/flash_kv_core.c:32-47 | a header is valid iff its magic is KV_MAGIC or KV_MAGIC_B and its crc32 is the CRC-32 of its first 20 bytes |
| Layout.FreshHeader | flash_kv/src/flash_kv_core.c:52-59 | the header `kv_region_header_init` builds is valid: KV_MAGIC, version 1, record_count 0, active_offset 24, tx idle |
| Layout.ChooseRegion | flash_kv/src/flash_kv_core.c:135-153 | with both headers valid the higher version wins and a tie goes to region 1; with one valid, that one wins; with none, region 0 at version 1 |
| Layout.TombstoneOverLive | flash_kv/src/flash_kv_core.c:243-247 | a tombstone programmed over a live record leaves flags 0, not DELETED, and the record is no longer live |
| HashIndex.HomeSlot | flash_kv/src/flash_kv_hash.c:14-21 | the DJB2 hash masked with HASH_SIZE-1 is below HASH_SIZE |
| HashIndex.MaskIsRemainder | flash_kv/src/flash_kv_hash.c:20 | masking with HASH_SIZE-1 is the remainder modulo HASH_SIZE |
| HashIndex.HashKey | flash_kv/src/flash_kv_hash.c:14-21 | the accumulator loop of `kv_hash_djb2` (`h * 33 + b` mod 2^32 from 5381) returns the home slot |
| HashIndex.ProbeAt | flash_kv/src/flash_kv_hash.c:36 | every probed index `(hash + i) & (HASH_SIZE-1)` is a slot of the table |
| HashIndex.SearchFrom | flash_kv/src/flash_kv_hash.c:35-48 | a probe walk stops at the first free slot or the first slot holding the key, having passed only occupied slots of other keys, or runs out after HASH_SIZE probes |
| HashIndex.SetSlots | flash_kv/src/flash_kv_hash.c:57-72 | set succeeds iff the walk stops; it then writes only the slot it stopped at, and on failure the table is unchanged |
| HashIndex.DelSlots | flash_kv/src/flash_kv_hash.c:80-95 | del succeeds iff the walk finds the key; it then writes only that slot, and otherwise the table is unchanged |
| HashIndex.HashTable.constructor | flash_kv/src/flash_kv_hash.c:24-27 | a new table has every slot zeroed and count 0 |
| HashIndex.HashTable.Init | flash_kv/src/flash_kv_hash.c:24-27 | `kv_hash_init` leaves every slot with `key_len == 0` and zero key bytes, and count 0 |
| HashIndex.HashTable.Get | flash_kv/src/flash_kv_hash.c:30-49 | returns 0 with the stored offset exactly when the lookup finds the key, -1 otherwise, and changes nothing |
| HashIndex.HashTable.Set | flash_kv/src/flash_kv_hash.c:52-73 | the probing loop updates slots and count as set on the table value does, and returns 0 iff that succeeds |
| HashIndex.HashTable.Del | flash_kv/src/flash_kv_hash.c:76-96 | the probing loop clears the key's slot and decrements count as del on the table value does, and returns 0 iff the key was found |
| HashIndex.HashTable.CopyFrom | flash_kv/src/flash_kv_core.c:489 | `memcpy` of a whole table: the slots and count become those of the source |
| HashIndex.ProbeDistinct | flash_kv/src/flash_kv_hash.c:35-36 | the HASH_SIZE probes of one walk visit distinct slots |
| HashIndex.ProbeCovers | flash_kv/src/flash_kv_hash.c:35-36 | every slot is visited by some probe of every walk |
| HashIndex.EmptyKeyNeverFound | flash_kv/src/flash_kv_hash.c:39-46 | a key of length 0 is never found: the walk always stops at a free slot first |
| HashIndex.LookupAfterSet | flash_kv/src/flash_kv_hash.c:30-73 | after a successful set of `k` to `o`, a get of `k` returns `o` |
| HashIndex.LookupAfterDel | flash_kv/src/flash_kv_hash.c:84-92 | after a successful del of `k`, a get of `k` fails |
| HashIndex.SetFailsOnlyWhenFull | flash_kv/src/flash_kv_hash.c:57-72 | set fails only when every slot holds some other key |
| HashIndex.DelHidesLaterKey | flash_kv/src/flash_kv_hash.c:89-90 | deleting a key whose slot lies on another key's probe path before that key makes the other key unreachable, though it is still stored |
| HashIndex.EmptyTableConsistent | flash_kv/src/flash_kv_hash.c:24-27 | every stored key of the empty table is reachable (vacuously), and no key is found in it |
| HashIndex.SetKeepsConsistent | flash_kv/src/flash_kv_hash.c:57-69 | a set keeps every stored key reachable and leaves the lookup of every other key unchanged |
| HashIndex.SetSucceedsBelowCapacity | flash_kv/src/flash_kv_hash.c:57-72 | while fewer than HASH_SIZE slots are occupied, a set succeeds and occupies at most one more slot |
| HashIndex.InsertAllLastWins | flash_kv/src/flash_kv_core.c:202-204 | inserting at most HASH_SIZE entries with non-empty keys into an empty index makes each key map to its last entry's offset |
| HashIndex.CountUnderflows | flash_kv/src/flash_kv_hash.c:52-96 | a set of a new key leaves count 0, and a del of it then wraps count to 0xFFFF |
| Engine.Boot | flash_kv/src/flash_kv_core.c:8-15 | the zero-initialised static state before `flash_kv_init`: no ops, empty index, nothing pending |
| Engine.InitHandle | flash_kv/src/flash_kv_core.c:96-106 | the handle `flash_kv_init` sets up: ops present, region size half the total, count 0, tx idle, the chosen region and version |
| Engine.InitSpec | flash_kv/src/flash_kv_core.c:86-160 | `flash_kv_init` leaves a well-formed state with ops present |
| Engine.MarkDeleted | flash_kv/src/flash_kv_core.c:239-248 | marking a record deleted changes only flash: handle, index and transaction globals are kept |
| Engine.Append | flash_kv/src/flash_kv_core.c:280-291 | the write, index and count step of set returns only Ok or FlashFail |
| Engine.GcSpec | flash_kv/src/flash_kv_core.c:435-492 | GC returns Ok, NoInit or FlashFail; on failure the handle and index are unchanged; the transaction globals are never touched |
| Engine.Supersede | flash_kv/src/flash_kv_core.c:235-249 | set's first step changes only flash |
| Engine.Place | flash_kv/src/flash_kv_core.c:251-291 | the space check and write of set return only Ok, FlashFail or NoSpace |
| Engine.SetSpec | flash_kv/src/flash_kv_core.c:222-292 | set returns InvalidParam exactly for an empty key, a key over KEY_SIZE or a value over VALUE_SIZE, and with InvalidParam or NoInit nothing changes |
| Engine.GetSpec | flash_kv/src/flash_kv_core.c:295-332 | a successful get delivers exactly VALUE_SIZE bytes |
| Engine.DelSpec | flash_kv/src/flash_kv_core.c:335-370 | a del that does not return Ok changes nothing, and del never touches the transaction globals |
| Engine.CommitPending | flash_kv/src/flash_kv_core.c:399-418 | writing the pending record clears the pending flag whether or not the write succeeds |
| Store.CheckRecordCrc | flash_kv/src/flash_kv_core.c:180-185 | `kv_record_check_crc` holds iff the stored CRC-16 is that of the record's first RECORD_SIZE-2 bytes |
| Store.CheckHeader | flash_kv/src/flash_kv_core.c:32-47 | `kv_region_header_valid` on a buffer is the header validity predicate |
| Store.SelectHeader | flash_kv/src/flash_kv_core.c:132-153 | the comparison of the re-read headers makes the region choice |
| Store.FillValue | flash_kv/src/flash_kv_core.c:327-328 | the caller's buffer holds the value followed by zeros up to VALUE_SIZE, and bytes past VALUE_SIZE are untouched |
| Store.KvStore.constructor | flash_kv/src/flash_kv_core.c:8-15 | a store over a device, in the zero-initialised state before init |
| Store.KvStore.RecordWrite | flash_kv/src/flash_kv_core.c:212-219 | programs the record with its CRC-16 recomputed, and returns the adapter's result |
| Store.KvStore.MarkRecordDeleted | flash_kv/src/flash_kv_core.c:239-248 | reads the record and programs its tombstone over it, ignoring both results |
| Store.KvStore.InitRegionHeader | flash_kv/src/flash_kv_core.c:50-67 | erases the region and writes the fresh header, each step only if the one before succeeded |
| Store.KvStore.RebuildScanOne | flash_kv/src/flash_kv_core.c:197-207 | one pass of the rebuild loop: stop on a failed read, else index and count a live record and go on |
| Store.KvStore.RebuildScan | flash_kv/src/flash_kv_core.c:196-208 | the rebuild loop from offset 24 leaves the index and count the scan function gives |
| Store.KvStore.RebuildIndex | flash_kv/src/flash_kv_core.c:188-209 | `kv_hash_rebuild` reaches exactly the rebuilt state |
| Store.KvStore.ReadHeader | flash_kv/src/flash_kv_core.c:21-29 | the header buffer holds the bytes read, or its previous contents when the read fails |
| Store.KvStore.RepairRegion | flash_kv/src/flash_kv_core.c:114-126 | a region whose first read failed or showed an invalid header is re-initialised, with the result ignored |
| Store.KvStore.RecoverHeaders | flash_kv/src/flash_kv_core.c:109-153 | reads both headers, repairs the invalid ones, re-reads them and returns the region choice, as the recovery function does |
| Store.KvStore.SetHandle | flash_kv/src/flash_kv_core.c:96-106 | installs a handle and changes nothing else |
| Store.KvStore.Init | flash_kv/src/flash_kv_core.c:86-160 | `flash_kv_init` for instance 0 returns Ok and reaches exactly the init state |
| Store.KvStore.AppendRecord | flash_kv/src/flash_kv_core.c:280-291 | the write, index update and count of set produce exactly the append step's state and code |
| Store.KvStore.GcCopyOne | flash_kv/src/flash_kv_core.c:463-481 | one pass of the GC copy loop matches the loop function at that offset |
| Store.KvStore.GcCopyRecord | flash_kv/src/flash_kv_core.c:469 | a read record that fails the CRC or flag test is skipped with the write offset and count unchanged, as the loop function says |
| Store.KvStore.GcCopyLive | flash_kv/src/flash_kv_core.c:471-479 | a live record is rewritten at the write offset, indexed there and counted, and a failed write aborts the collection, as the loop function says |
| Store.KvStore.GcCopy | flash_kv/src/flash_kv_core.c:453-482 | the whole copy loop leaves the flash, temporary index and count the loop function gives |
| Store.KvStore.Gc | flash_kv/src/flash_kv_core.c:435-492 | `flash_kv_gc` reaches exactly the GC state and code |
| Store.KvStore.GcThenAppend | flash_kv/src/flash_kv_core.c:258-284 | GC, then the recomputed write position against the old reserve, then the write, as the functional set does |
| Store.KvStore.PlaceRecord | flash_kv/src/flash_kv_core.c:251-291 | the space check and write of set, as the functional set does |
| Store.KvStore.Set | flash_kv/src/flash_kv_core.c:222-292 | `flash_kv_set` reaches exactly the state and code of the functional set |
| Store.KvStore.Get | flash_kv/src/flash_kv_core.c:295-332 | `flash_kv_get` returns the functional get's code and, on success, its value buffer and length; on failure the buffer is untouched |
| Store.KvStore.Del | flash_kv/src/flash_kv_core.c:335-370 | `flash_kv_del` reaches exactly the state and code of the functional del |
| Store.KvStore.Exists | flash_kv/src/flash_kv_core.c:373-377 | `flash_kv_exists` is an index lookup |
| Store.KvStore.TxBegin | flash_kv/src/flash_kv_core.c:380-393 | `flash_kv_tx_begin`: NoInit without ops; else prepared, with the pending flag and record cleared |
| Store.KvStore.WritePending | flash_kv/src/flash_kv_core.c:399-418 | the pending record is written at the append position and indexed, and pending is cleared even on failure |
| Store.KvStore.TxCommit | flash_kv/src/flash_kv_core.c:395-423 | `flash_kv_tx_commit` reaches exactly the state and code of the functional commit |
| Store.KvStore.TxRollback | flash_kv/src/flash_kv_core.c:425-432 | `flash_kv_tx_rollback` returns Ok with the state idle and the pending flag and record cleared |
| Store.KvStore.FreePercent | flash_kv/src/flash_kv_core.c:494-501 | returns the 32-bit free-share formula of the handle |
| Store.KvStore.Clear | flash_kv/src/flash_kv_core.c:511-526 | `flash_kv_clear` returns Ok, erases the active region if there are ops, and empties the index and count |
| Store.KvStore.Count | flash_kv/src/flash_kv_core.c:528-531 | `flash_kv_count` returns `record_count` |
| Store.KvStore.Status | flash_kv/src/flash_kv_core.c:533-539 | `flash_kv_status` returns Ok, the usable bytes and the counted bytes, in 32-bit arithmetic |
| EngineProps.ScanLiveLength | flash_kv/src/flash_kv_core.c:196-207 | a scan finds at most one record per RECORD_SIZE bytes of the scanned range |
| EngineProps.ScanLiveFrame | flash_kv/src/flash_kv_core.c:196-198 | a scan depends only on the bytes of its own range |
| EngineProps.ScanLiveErased | flash_kv/src/flash_kv_core.c:202 | a scan over erased flash finds no live record |
| EngineProps.RebuildFromScan | flash_kv/src/flash_kv_core.c:196-208 | the rebuild loop inserts the live records the scan meets, in order, and counts them |
| EngineProps.RebuildIndexes | flash_kv/src/flash_kv_core.c:188-209 | `kv_hash_rebuild` makes the index the empty index with the scanned live records inserted in order, adds their number to `record_count` (mod 2^32), and changes nothing else |
| EngineProps.ScanFitsIndex | flash_kv/src/flash_kv_core.c:196 | a region holds no more live records than the index has slots |
| EngineProps.RebuildLastWins | flash_kv/src/flash_kv_core.c:188-209 | after the rebuild each key maps to the offset of its last live record in scan order, and a key with no live record is not found |
| EngineProps.GcFromScan | flash_kv/src/flash_kv_core.c:462-482 | without write failures the copy loop programs the scanned live records one after another from the write offset, and counts them |
| EngineProps.GcIndexScan | flash_kv/src/flash_kv_core.c:475-477 | the copy loop's temporary index holds the scanned live records at their new offsets |
| EngineProps.GcCompacts | flash_kv/src/flash_kv_core.c:435-492 | a GC without adapter failure erases the other region, copies exactly the live records, in scan order, to contiguous slots from offset 24, indexes them there, sets the count to their number and flips the active region |
| EngineProps.GcLeavesNoHeader | flash_kv/src/flash_kv_core.c:448-489 | after a successful GC the new active region's header bytes are erased, and header validation rejects them |
| EngineProps.ErasedHeaderInvalid | flash_kv/src/flash_kv_core.c:35-37 | an erased header (magic 0xFFFFFFFF) is not valid |
| EngineProps.HeaderInitFresh | flash_kv/src/flash_kv_core.c:50-67 | without failures, `kv_region_header_init` leaves the fresh header followed by erased bytes and changes nothing outside the region |
| EngineProps.FreshHeaderBytes | flash_kv/src/flash_kv_core.c:52-59 | the bytes of the fresh header pass header validation, at version 1 |
| EngineProps.ZeroHeaderInvalid | flash_kv/test/mock_flash.c:20 | the all-zero memory of a new mock device holds no valid header |
| EngineProps.RecoverFresh | flash_kv/src/flash_kv_core.c:109-153 | with neither header valid and no failures, both regions are re-initialised, both become fresh, and the tie at version 1 selects region 1 |
| EngineProps.InitFreshDevice | flash_kv/src/flash_kv_core.c:86-160 | `flash_kv_init` on a device with no valid header and no failures: region 1 active at version 1, count 0, tx idle, empty index, both regions fresh |
| EngineProps.RebuildFresh | flash_kv/src/flash_kv_core.c:188-209 | a rebuild of a freshly initialised region finds no record |
| EngineCalls.Delivered | flash_kv/src/flash_kv_core.c:327-329 | get delivers a stored record's value, then zeros up to VALUE_SIZE |
| EngineCalls.GetIndexed | flash_kv/src/flash_kv_core.c:309-331 | when the index maps the key to a record with a matching CRC-16, get returns Ok with that record's value and length |
| EngineCalls.GetOutcomes | flash_kv/src/flash_kv_core.c:303-324 | get returns NoInit iff there are no ops and NotFound iff the index has no entry; FlashFail, CrcFail and Ok occur only for an indexed key, Ok only when reads succeed, and a failing read of an indexed key gives FlashFail; for an indexed key whose record reads back, get returns CrcFail iff the stored CRC-16 does not match the record body, and Ok iff it does |
| EngineCalls.AppendThenGet | flash_kv/src/flash_kv_core.c:272-290 | writing into an erased slot: the sealed new record (flags VALID, matching CRC) is on flash there, the index maps the key to the region offset, the count is one higher, and get returns the value |
| EngineCalls.SetThenGet | flash_kv/src/flash_kv_core.c:222-292 | set on the path without GC returns Ok and counts one more record, and a following get returns the value just set with its length |
| EngineCalls.DelThenGet | flash_kv/src/flash_kv_core.c:335-370 | del of an indexed key removes it from the index and decrements the count, and a following get reports NotFound; an unindexed key gives NotFound and no change |
| EngineCalls.DelRewindsAppend | flash_kv/src/flash_kv_core.c:254-367 | a successful del moves the next append position back by one record, onto a slot already written |
| EngineCalls.SetAfterGcUsesOldRegion | flash_kv/src/flash_kv_core.c:252-288 | when set needs a GC, the record is written into the region that was active before the GC while get resolves the index entry against the new active region |
| EngineCalls.PendingNeverRaised | flash_kv/src/flash_kv_core.c:380-432 | no call of the API sets the pending flag |
| EngineCalls.CommitWithoutPending | flash_kv/src/flash_kv_core.c:395-423 | commit with nothing pending writes nothing, returns Ok and leaves the state idle |
| EngineCalls.BeginThenEnd | flash_kv/src/flash_kv_core.c:380-432 | begin then commit, and begin then rollback, return Ok, leave flash, index and count unchanged and the state idle, and end in the same state |
| EngineCalls.ClearThenGet | flash_kv/src/flash_kv_core.c:511-526 | after clear every get reports NotFound (NoInit without ops), nothing exists, and the count is 0 |
| EngineCalls.FreePercentEmpty | flash_kv/src/flash_kv_core.c:494-501 | with no record counted the free share is 100 |
| EngineCalls.FreePercentValue | flash_kv/src/flash_kv_core.c:494-501 | while the counted records fit, the free share is the exact integer percentage of unused bytes, at most 100 |
| EngineCalls.FreePercentShare | flash_kv/src/flash_kv_core.c:494-501 | more counted records never give a larger free share |
| EngineCalls.PercentExact | flash_kv/src/flash_kv_core.c:497-500 | for these sizes the 32-bit products of the free-share formula do not wrap |

## Left out

- Adapter registration and its checks (`flash_kv_adapter_register`,
  `flash_kv_adapter_get`), `flash_kv_get_handle` and `flash_kv_deinit` are
  not modelled. The store is built with one fixed adapter, and every call
  uses handle 0, as the C functions do.
- Store.KvStore.Init and Engine.InitSpec: both require `ConfigOk`. Under it
  `start_addr` and the region size `total_size / 2` are multiples of
  BLOCK_SIZE, `block_size` lies between RECORD_SIZE and the region size,
  and both regions fit in the device. `flash_kv_init` checks none of this,
  and the excluded configurations have defined C behaviour that the model
  does not capture. A `block_size` below RECORD_SIZE (such as 64) lets the
  last record that set writes, and that the rebuild and GC scans read, run
  past the end of its region. An unaligned `start_addr` (such as 0x100) makes
  the mock erase of one region round out into the last block of the
  other. A `block_size` above the region size makes
  `region_size - block_size` wrap, so the scan runs on until a read fails.
  Regions that lie outside the device are also excluded. The test's
  configuration (start 0, 64 KiB, block 2048) meets `ConfigOk`.
- Store.KvStore.Init: the InvalidParam and NoInit returns of
  `flash_kv_init` (instance id out of range, NULL config, no registered
  adapter) and the choice of `config->ops` over the global adapter are not
  modelled. Init always runs on the store's own adapter for instance 0.
- NULL-pointer argument checks of set, get and del are not modelled.
  Sequences and arrays cannot be NULL.
- `kv_put_float`, `kv_get_float`, `kv_put_double` and `kv_get_double`
  (floating point through `memcpy`) are not modelled.
- `flash_kv_foreach` is not modelled. It is a stub that returns NotFound.
- The STM32 demo adapter and demo program, and the test driver, are not
  modelled. Only the unit test's codec asserts are restated
  (`ByteCodec.UnitTestRoundTrips`).
- The FLASH_KV_* sizes come from a configuration header that is not part
  of this model. They are fixed at one admissible configuration (32, 64,
  512, 2048).
- The device is the 64 KiB test device. `mem_flash_init`'s allocation
  failure (-1) is not modelled.
- MockFlash.Flash.Read: the bound check `addr + len > size` is computed
  without 32-bit wrap-around. In C a sum that wraps passes the check and
  copies from outside the buffer.
- MockFlash.Flash.Write: the same bound check, also without wrap-around.
- MockFlash.Flash.Erase: requires the range to lie inside the device. The
  C code does not check it, and would write outside its buffer.
- Adapter failures are three switches fixed for the lifetime of a port:
  read, write or erase always fails, or never does. An adapter that fails
  only sometimes is not modelled. A failed write or erase leaves the
  device unchanged.
- Power loss and torn writes are not modelled. The code has no journaling.
- Length bytes above KEY_SIZE or VALUE_SIZE are clipped to the field
  (`Layout.RecordKey`, `Layout.RecordValue`). The C code's `memcpy` with
  such a length reads and writes past the field.
- `flash_kv_init` reads headers into uninitialised locals. The model starts
  those buffers as zeros, so a failed first read keeps zeros.
- `flash_kv_get`'s caller buffer is modelled as an array of at least
  VALUE_SIZE bytes.
- EngineCalls.SetThenGet: covers only the path without a GC, with no
  adapter failure. It needs an erased append slot, the key's old record
  before it, and room in the index. When `record_count` points at a
  written slot (after a del or an overwrite) the write ANDs into old data,
  and `EngineCalls.DelRewindsAppend` shows how that arises.
- EngineCalls.DelRewindsAppend: stated only when the append address does
  not wrap around 2^32.
- EngineCalls.GetIndexed: stated only without read failure. The failure
  cases are in `EngineCalls.GetOutcomes`.
- EngineProps.RebuildLastWins: stated only when every live record has a
  non-empty key. A live record with key length 0 is stored in a slot that
  still reads as free, so it is never found (`HashIndex.EmptyKeyNeverFound`).
- EngineProps.GcCompacts: stated only without erase or write failure. The
  failure cases are in the contract of `Engine.GcSpec`.
- EngineProps.InitFreshDevice: stated for a device where neither header is
  valid and the adapter never fails. Other start-ups are covered only by
  `Store.KvStore.Init` equalling the functional init.
- EngineCalls.FreePercentValue: stated only while the counted records fit
  in the usable bytes. Beyond that the 32-bit subtraction wraps, as in the
  C code, and the function models the wrap.
