/**
 * Byte codecs of flash_kv_utils.c: put/get helpers that store integers and
 * booleans into a caller's byte buffer.
 *
 * Each `Put*` method writes the first `n` bytes of the buffer in place
 * (n = 1, 2 or 4) and leaves the rest alone; each `Get*` function reads them
 * back. Unsigned values are bit-vectors of the C type's width, so the shifts
 * and masks are those of the C code. The little-endian 32-bit encoding is
 * also the serialisation of the region header's fields.
 */
module ByteCodec {
  import opened Types

  type i8 = x: int | -0x80 <= x < 0x80

  // ------------------------------------------------------------- encodings

  /** The bytes kv_put_u16le stores. */
  function U16LeBytes(v: bv16): (s: seq<byte>)
    ensures |s| == 2 && GetU16Le(s) == v
  {
    [(v & 0xFF) as bv8, (v >> 8) as bv8]
  }

  /** The bytes kv_put_u16be stores. */
  function U16BeBytes(v: bv16): (s: seq<byte>)
    ensures |s| == 2 && GetU16Be(s) == v
  {
    [(v >> 8) as bv8, (v & 0xFF) as bv8]
  }

  /** The bytes kv_put_u32le stores. */
  function U32LeBytes(v: bv32): (s: seq<byte>)
    ensures |s| == 4 && GetU32Le(s) == v
  {
    [(v & 0xFF) as bv8, ((v >> 8) & 0xFF) as bv8, ((v >> 16) & 0xFF) as bv8, (v >> 24) as bv8]
  }

  /** The bytes kv_put_u32be stores. */
  function U32BeBytes(v: bv32): (s: seq<byte>)
    ensures |s| == 4 && GetU32Be(s) == v
  {
    [(v >> 24) as bv8, ((v >> 16) & 0xFF) as bv8, ((v >> 8) & 0xFF) as bv8, (v & 0xFF) as bv8]
  }

  /** The byte kv_put_i8 stores: the two's-complement representation of `v`. */
  function I8Byte(v: i8): (b: byte)
    ensures 0 <= v ==> b as int == v
    ensures v < 0 ==> b as int == v + 0x100
  {
    ByteValue((v as int) % 0x100);
    ((v as int) % 0x100) as bv8
  }

  /** Converting a number below 256 to a byte and back loses nothing. */
  lemma ByteValue(x: int)
    requires 0 <= x < 0x100
    ensures (x as bv8) as int == x
  {
    assert x / 0x100 == 0 && x % 0x100 == x;
  }

  /** The byte kv_put_bool stores. */
  function BoolByte(v: bool): (b: byte)
    ensures GetBool([b]) == v
    ensures b == 0 || b == 1
  {
    if v then 1 else 0
  }

  // ------------------------------------------------------------- decoders

  /** kv_get_u8 */
  function GetU8(s: seq<byte>): byte
    requires |s| >= 1
  {
    s[0]
  }

  /** kv_get_i8: the byte reinterpreted as a signed 8-bit value. */
  function GetI8(s: seq<byte>): (v: i8)
    requires |s| >= 1
    ensures 0 <= v ==> v == s[0] as int
    ensures v < 0 ==> v + 0x100 == s[0] as int
  {
    if s[0] < 0x80 then s[0] as int else s[0] as int - 0x100
  }

  /** kv_get_u16be */
  function GetU16Be(s: seq<byte>): bv16
    requires |s| >= 2
  {
    ((s[0] as bv16) << 8) | (s[1] as bv16)
  }

  /** kv_get_u16le */
  function GetU16Le(s: seq<byte>): bv16
    requires |s| >= 2
  {
    ((s[1] as bv16) << 8) | (s[0] as bv16)
  }

  /** kv_get_u32be */
  function GetU32Be(s: seq<byte>): bv32
    requires |s| >= 4
  {
    ((s[0] as bv32) << 24) | ((s[1] as bv32) << 16) | ((s[2] as bv32) << 8) | (s[3] as bv32)
  }

  /** kv_get_u32le */
  function GetU32Le(s: seq<byte>): bv32
    requires |s| >= 4
  {
    ((s[3] as bv32) << 24) | ((s[2] as bv32) << 16) | ((s[1] as bv32) << 8) | (s[0] as bv32)
  }

  /** kv_get_bool: true iff the first byte is non-zero. */
  function GetBool(s: seq<byte>): bool
    requires |s| >= 1
  {
    s[0] != 0
  }

  // ------------------------------------------------- decoders as inverses

  /** Every pair of bytes is the little-endian encoding of what it decodes to. */
  lemma U16LeDecodeEncode(s: seq<byte>)
    requires |s| == 2
    ensures U16LeBytes(GetU16Le(s)) == s
  {
    assert U16LeBytes(GetU16Le(s))[0] == s[0];
    assert U16LeBytes(GetU16Le(s))[1] == s[1];
  }

  lemma U16BeDecodeEncode(s: seq<byte>)
    requires |s| == 2
    ensures U16BeBytes(GetU16Be(s)) == s
  {
    assert U16BeBytes(GetU16Be(s))[0] == s[0];
    assert U16BeBytes(GetU16Be(s))[1] == s[1];
  }

  /** Every four bytes are the little-endian encoding of what they decode to. */
  lemma U32LeDecodeEncode(s: seq<byte>)
    requires |s| == 4
    ensures U32LeBytes(GetU32Le(s)) == s
  {
    var v := GetU32Le(s);
    assert U32LeBytes(v)[0] == s[0];
    assert U32LeBytes(v)[1] == s[1];
    assert U32LeBytes(v)[2] == s[2];
    assert U32LeBytes(v)[3] == s[3];
  }

  lemma U32BeDecodeEncode(s: seq<byte>)
    requires |s| == 4
    ensures U32BeBytes(GetU32Be(s)) == s
  {
    var v := GetU32Be(s);
    assert U32BeBytes(v)[0] == s[0];
    assert U32BeBytes(v)[1] == s[1];
    assert U32BeBytes(v)[2] == s[2];
    assert U32BeBytes(v)[3] == s[3];
  }

  /** kv_get_i8 undoes kv_put_i8, and every byte is the image of what it decodes to. */
  lemma I8RoundTrip(v: i8, b: byte)
    ensures GetI8([I8Byte(v)]) == v
    ensures I8Byte(GetI8([b])) == b
  {
    var w := GetI8([b]);
    ByteValue((w as int) % 0x100);
    assert (b as int) as bv8 == b;
  }

  /** The big-endian bytes of a value are its little-endian bytes reversed. */
  lemma BigEndianIsReversed(v16: bv16, v32: bv32)
    ensures U16BeBytes(v16) == [U16LeBytes(v16)[1], U16LeBytes(v16)[0]]
    ensures U32BeBytes(v32) == [U32LeBytes(v32)[3], U32LeBytes(v32)[2], U32LeBytes(v32)[1], U32LeBytes(v32)[0]]
  {
  }

  /** The two checks of the unit test: 0x1234 and 0x12345678 survive a little-endian round trip. */
  lemma UnitTestRoundTrips()
    ensures GetU16Le(U16LeBytes(0x1234)) == 0x1234
    ensures GetU32Le(U32LeBytes(0x1234_5678)) == 0x1234_5678
    ensures U16LeBytes(0x1234) == [0x34, 0x12]
    ensures GetBool([BoolByte(true)]) && !GetBool([BoolByte(false)])
  {
  }

  // -------------------------------------------------- in-place writers

  /** kv_put_u8 */
  method PutU8(buf: array<byte>, v: byte)
    requires buf.Length >= 1
    modifies buf
    ensures buf[..] == [v] + old(buf[1..])
  {
    buf[0] := v;
  }

  /** kv_put_i8 */
  method PutI8(buf: array<byte>, v: i8)
    requires buf.Length >= 1
    modifies buf
    ensures buf[..] == [I8Byte(v)] + old(buf[1..])
  {
    buf[0] := ((v as int) % 0x100) as bv8;
  }

  /** kv_put_u16be */
  method PutU16Be(buf: array<byte>, v: bv16)
    requires buf.Length >= 2
    modifies buf
    ensures buf[..] == U16BeBytes(v) + old(buf[2..])
  {
    buf[0] := (v >> 8) as bv8;
    buf[1] := (v & 0xFF) as bv8;
  }

  /** kv_put_u16le */
  method PutU16Le(buf: array<byte>, v: bv16)
    requires buf.Length >= 2
    modifies buf
    ensures buf[..] == U16LeBytes(v) + old(buf[2..])
  {
    buf[0] := (v & 0xFF) as bv8;
    buf[1] := (v >> 8) as bv8;
  }

  /** kv_put_u32be */
  method PutU32Be(buf: array<byte>, v: bv32)
    requires buf.Length >= 4
    modifies buf
    ensures buf[..] == U32BeBytes(v) + old(buf[4..])
  {
    buf[0] := (v >> 24) as bv8;
    buf[1] := ((v >> 16) & 0xFF) as bv8;
    buf[2] := ((v >> 8) & 0xFF) as bv8;
    buf[3] := (v & 0xFF) as bv8;
  }

  /** kv_put_u32le */
  method PutU32Le(buf: array<byte>, v: bv32)
    requires buf.Length >= 4
    modifies buf
    ensures buf[..] == U32LeBytes(v) + old(buf[4..])
  {
    buf[0] := (v & 0xFF) as bv8;
    buf[1] := ((v >> 8) & 0xFF) as bv8;
    buf[2] := ((v >> 16) & 0xFF) as bv8;
    buf[3] := (v >> 24) as bv8;
  }

  /** kv_put_bool */
  method PutBool(buf: array<byte>, v: bool)
    requires buf.Length >= 1
    modifies buf
    ensures buf[..] == [BoolByte(v)] + old(buf[1..])
  {
    buf[0] := if v then 1 else 0;
  }
}
