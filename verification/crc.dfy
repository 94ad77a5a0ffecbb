/**
 * Integrity codec: the bit-by-bit CRC-16 and CRC-32 of flash_kv_crc.c.
 *
 * Both checksums are MSB-first left folds of a per-byte step over the data;
 * each per-byte step XORs the byte into the top of the register and then
 * performs eight shift-and-conditionally-XOR-the-polynomial steps. The
 * register is a bit-vector of the C type's width, so every intermediate
 * value stays within 16 (resp. 32) bits exactly as `uint16_t`/`uint32_t` do.
 *
 *   CRC-16/CCITT-FALSE: init 0xFFFF, poly 0x1021, no final XOR.
 *   CRC-32/BZIP2:       init 0xFFFFFFFF, poly 0x04C11DB7, final XOR 0xFFFFFFFF.
 */
module Crc {
  import opened Types

  const CRC16_INIT: bv16 := 0xFFFF
  const CRC16_POLY: bv16 := 0x1021
  const CRC32_INIT: bv32 := 0xFFFF_FFFF
  const CRC32_POLY: bv32 := 0x04C1_1DB7
  const CRC32_XOROUT: bv32 := 0xFFFF_FFFF

  // ---------------------------------------------------------------- CRC-16

  /** One inner-loop iteration: shift left, XOR the polynomial if the top bit was set. */
  function Shift16(crc: bv16): bv16
  {
    if crc & 0x8000 != 0 then (crc << 1) ^ CRC16_POLY else crc << 1
  }

  /** `n` inner-loop iterations. */
  function Shifts16(crc: bv16, n: nat): bv16
    decreases n
  {
    if n == 0 then crc else Shifts16(Shift16(crc), n - 1)
  }

  /** The register after processing one byte. */
  function Step16(crc: bv16, b: byte): bv16
  {
    Shifts16(crc ^ ((b as bv16) << 8), 8)
  }

  /** The register after processing `data`, starting from `init` (a left fold). */
  function Fold16(init: bv16, data: seq<byte>): bv16
    decreases |data|
  {
    if |data| == 0 then init else Step16(Fold16(init, data[..|data| - 1]), data[|data| - 1])
  }

  /** kv_crc16: the CRC-16/CCITT-FALSE of `data` (no final XOR). */
  function Crc16(data: seq<byte>): bv16
  {
    Fold16(CRC16_INIT, data)
  }

  /** kv_crc16 as written: nested loops updating the register in place. */
  method ComputeCrc16(data: seq<byte>) returns (crc: bv16)
    requires |data| < U32_MOD
    ensures crc == Crc16(data)
  {
    crc := CRC16_INIT;
    var i := 0;
    while i < |data|
      invariant 0 <= i <= |data|
      invariant crc == Fold16(CRC16_INIT, data[..i])
    {
      ghost var before := crc;
      crc := crc ^ ((data[i] as bv16) << 8);
      ghost var mixed := crc;
      var j := 0;
      while j < 8
        invariant 0 <= j <= 8
        invariant Shifts16(crc, 8 - j) == Shifts16(mixed, 8)
      {
        if crc & 0x8000 != 0 {
          crc := (crc << 1) ^ CRC16_POLY;
        } else {
          crc := crc << 1;
        }
        j := j + 1;
      }
      assert crc == Step16(before, data[i]);
      assert data[..i + 1][..i] == data[..i];
      i := i + 1;
    }
    assert data[..|data|] == data;
  }

  /** Folding a concatenation continues from the register the first part leaves. */
  lemma {:induction false} Fold16Append(init: bv16, a: seq<byte>, b: seq<byte>)
    ensures Fold16(init, a + b) == Fold16(Fold16(init, a), b)
    decreases |b|
  {
    if |b| == 0 {
      assert a + b == a;
    } else {
      var b' := b[..|b| - 1];
      assert (a + b)[..|a + b| - 1] == a + b';
      Fold16Append(init, a, b');
    }
  }

  /** kv_crc16(a ++ b) resumes from the register left by kv_crc16(a). */
  lemma Crc16Concat(a: seq<byte>, b: seq<byte>)
    ensures Crc16(a + b) == Fold16(Crc16(a), b)
  {
    Fold16Append(CRC16_INIT, a, b);
  }

  /** Since there is no final XOR, the CRC-16 of nothing is the initial register. */
  lemma Crc16Empty()
    ensures Crc16([]) == 0xFFFF
  {
  }

  // ---------------------------------------------------------------- CRC-32

  function Shift32(crc: bv32): bv32
  {
    if crc & 0x8000_0000 != 0 then (crc << 1) ^ CRC32_POLY else crc << 1
  }

  function Shifts32(crc: bv32, n: nat): bv32
    decreases n
  {
    if n == 0 then crc else Shifts32(Shift32(crc), n - 1)
  }

  function Step32(crc: bv32, b: byte): bv32
  {
    Shifts32(crc ^ ((b as bv32) << 24), 8)
  }

  /** The CRC-32 register before the final XOR. */
  function Fold32(init: bv32, data: seq<byte>): bv32
    decreases |data|
  {
    if |data| == 0 then init else Step32(Fold32(init, data[..|data| - 1]), data[|data| - 1])
  }

  /** kv_crc32: the CRC-32/BZIP2 of `data`. */
  function Crc32(data: seq<byte>): bv32
  {
    Fold32(CRC32_INIT, data) ^ CRC32_XOROUT
  }

  /** kv_crc32 as written: nested loops, then the final XOR. */
  method ComputeCrc32(data: seq<byte>) returns (result: bv32)
    requires |data| < U32_MOD
    ensures result == Crc32(data)
  {
    var crc: bv32 := CRC32_INIT;
    var i := 0;
    while i < |data|
      invariant 0 <= i <= |data|
      invariant crc == Fold32(CRC32_INIT, data[..i])
    {
      ghost var before := crc;
      crc := crc ^ ((data[i] as bv32) << 24);
      ghost var mixed := crc;
      var j := 0;
      while j < 8
        invariant 0 <= j <= 8
        invariant Shifts32(crc, 8 - j) == Shifts32(mixed, 8)
      {
        if crc & 0x8000_0000 != 0 {
          crc := (crc << 1) ^ CRC32_POLY;
        } else {
          crc := crc << 1;
        }
        j := j + 1;
      }
      assert crc == Step32(before, data[i]);
      assert data[..i + 1][..i] == data[..i];
      i := i + 1;
    }
    assert data[..|data|] == data;
    result := crc ^ CRC32_XOROUT;
  }

  lemma {:induction false} Fold32Append(init: bv32, a: seq<byte>, b: seq<byte>)
    ensures Fold32(init, a + b) == Fold32(Fold32(init, a), b)
    decreases |b|
  {
    if |b| == 0 {
      assert a + b == a;
    } else {
      var b' := b[..|b| - 1];
      assert (a + b)[..|a + b| - 1] == a + b';
      Fold32Append(init, a, b');
    }
  }

  /** kv_crc32(a ++ b) is the register left by `a`, folded over `b`, then XORed. */
  lemma Crc32Concat(a: seq<byte>, b: seq<byte>)
    ensures Crc32(a + b) == Fold32(Fold32(CRC32_INIT, a), b) ^ CRC32_XOROUT
  {
    Fold32Append(CRC32_INIT, a, b);
  }

  /** Initial register XOR final XOR: the CRC-32 of nothing is zero. */
  lemma Crc32Empty()
    ensures Crc32([]) == 0
  {
  }

  /** The standard check input, ASCII "123456789". */
  const CHECK_INPUT: seq<byte> := [0x31, 0x32, 0x33, 0x34, 0x35, 0x36, 0x37, 0x38, 0x39]

  lemma Crc16Steps1()
    ensures Step16(0xFFFF, 0x31) == 0xC782
    ensures Step16(0xC782, 0x32) == 0x3DBA
    ensures Step16(0x3DBA, 0x33) == 0x5BCE
  {
  }

  lemma Crc16Steps2()
    ensures Step16(0x5BCE, 0x34) == 0x5349
    ensures Step16(0x5349, 0x35) == 0x4560
    ensures Step16(0x4560, 0x36) == 0x2EF4
  {
  }

  lemma Crc16Steps3()
    ensures Step16(0x2EF4, 0x37) == 0x7718
    ensures Step16(0x7718, 0x38) == 0xA12B
    ensures Step16(0xA12B, 0x39) == 0x29B1
  {
  }

  lemma Crc16Prefix5()
    ensures Fold16(CRC16_INIT, CHECK_INPUT[..5]) == 0x4560
  {
    Crc16Steps1();
    Crc16Steps2();
    assert CHECK_INPUT[..0] == [];
    assert CHECK_INPUT[..1][..0] == CHECK_INPUT[..0];
    assert Fold16(CRC16_INIT, CHECK_INPUT[..1]) == 0xC782;
    assert CHECK_INPUT[..2][..1] == CHECK_INPUT[..1];
    assert Fold16(CRC16_INIT, CHECK_INPUT[..2]) == 0x3DBA;
    assert CHECK_INPUT[..3][..2] == CHECK_INPUT[..2];
    assert Fold16(CRC16_INIT, CHECK_INPUT[..3]) == 0x5BCE;
    assert CHECK_INPUT[..4][..3] == CHECK_INPUT[..3];
    assert Fold16(CRC16_INIT, CHECK_INPUT[..4]) == 0x5349;
    assert CHECK_INPUT[..5][..4] == CHECK_INPUT[..4];
  }

  lemma Crc16CheckValue()
    ensures Crc16(CHECK_INPUT) == 0x29B1
  {
    Crc16Prefix5();
    Crc16Steps2();
    Crc16Steps3();
    assert CHECK_INPUT[..6][..5] == CHECK_INPUT[..5];
    assert Fold16(CRC16_INIT, CHECK_INPUT[..6]) == 0x2EF4;
    assert CHECK_INPUT[..7][..6] == CHECK_INPUT[..6];
    assert Fold16(CRC16_INIT, CHECK_INPUT[..7]) == 0x7718;
    assert CHECK_INPUT[..8][..7] == CHECK_INPUT[..7];
    assert Fold16(CRC16_INIT, CHECK_INPUT[..8]) == 0xA12B;
    assert CHECK_INPUT[..9][..8] == CHECK_INPUT[..8];
    assert Fold16(CRC16_INIT, CHECK_INPUT[..9]) == 0x29B1;
    assert CHECK_INPUT[..9] == CHECK_INPUT;
  }

  lemma Crc32Steps1()
    ensures Step32(0xFFFF_FFFF, 0x31) == 0x9EFB_CF93
    ensures Step32(0x9EFB_CF93, 0x32) == 0x3FEC_5E6A
    ensures Step32(0x3FEC_5E6A, 0x33) == 0xD952_F164
  {
  }

  lemma Crc32Steps2()
    ensures Step32(0xD952_F164, 0x34) == 0xA695_C4AA
    ensures Step32(0xA695_C4AA, 0x35) == 0xBD9A_B747
    ensures Step32(0xBD9A_B747, 0x36) == 0xD8F0_6C8F
  {
  }

  lemma Crc32Steps3()
    ensures Step32(0xD8F0_6C8F, 0x37) == 0x0D8A_14C4
    ensures Step32(0x0D8A_14C4, 0x38) == 0x49E3_C2FB
    ensures Step32(0x49E3_C2FB, 0x39) == 0x0376_E6E7
  {
  }

  lemma Crc32Prefix3()
    ensures Fold32(CRC32_INIT, CHECK_INPUT[..3]) == 0xD952_F164
  {
    Crc32Steps1();
    assert CHECK_INPUT[..0] == [];
    assert CHECK_INPUT[..1][..0] == CHECK_INPUT[..0];
    assert Fold32(CRC32_INIT, CHECK_INPUT[..1]) == 0x9EFB_CF93;
    assert CHECK_INPUT[..2][..1] == CHECK_INPUT[..1];
    assert Fold32(CRC32_INIT, CHECK_INPUT[..2]) == 0x3FEC_5E6A;
    assert CHECK_INPUT[..3][..2] == CHECK_INPUT[..2];
  }

  lemma Crc32Prefix6()
    ensures Fold32(CRC32_INIT, CHECK_INPUT[..6]) == 0xD8F0_6C8F
  {
    Crc32Prefix3();
    Crc32Steps2();
    assert CHECK_INPUT[..4][..3] == CHECK_INPUT[..3];
    assert Fold32(CRC32_INIT, CHECK_INPUT[..4]) == 0xA695_C4AA;
    assert CHECK_INPUT[..5][..4] == CHECK_INPUT[..4];
    assert Fold32(CRC32_INIT, CHECK_INPUT[..5]) == 0xBD9A_B747;
    assert CHECK_INPUT[..6][..5] == CHECK_INPUT[..5];
  }

  lemma Crc32CheckValue()
    ensures Crc32(CHECK_INPUT) == 0xFC89_1918
  {
    Crc32Prefix6();
    Crc32Steps3();
    assert CHECK_INPUT[..7][..6] == CHECK_INPUT[..6];
    assert Fold32(CRC32_INIT, CHECK_INPUT[..7]) == 0x0D8A_14C4;
    assert CHECK_INPUT[..8][..7] == CHECK_INPUT[..7];
    assert Fold32(CRC32_INIT, CHECK_INPUT[..8]) == 0x49E3_C2FB;
    assert CHECK_INPUT[..9][..8] == CHECK_INPUT[..8];
    assert Fold32(CRC32_INIT, CHECK_INPUT[..9]) == 0x0376_E6E7;
    assert CHECK_INPUT[..9] == CHECK_INPUT;
  }
}
