/**
 * Basic types, configuration constants and error codes shared by every part
 * of the flash key-value store.
 *
 * The four FLASH_KV_* sizes come from a configuration header that is not part
 * of this model; they are fixed here to one admissible configuration (the
 * hash size is a power of two, as the index's masking requires).
 */
module Types {

  /** One byte of flash or of a caller buffer. */
  type byte = bv8

  type u8 = x: int | 0 <= x < 0x100
  type u16 = x: int | 0 <= x < 0x1_0000
  type u32 = x: int | 0 <= x < 0x1_0000_0000

  const U16_MOD: int := 0x1_0000
  const U32_MOD: int := 0x1_0000_0000

  /** Wrap-around arithmetic of the C `uint32_t` type. */
  function Add32(a: u32, b: u32): (r: u32)
    ensures a + b < U32_MOD ==> r == a + b
    ensures a + b >= U32_MOD ==> r == a + b - U32_MOD
  {
    (a + b) % U32_MOD
  }

  function Sub32(a: u32, b: u32): (r: u32)
    ensures b <= a ==> r == a - b
    ensures a < b ==> r == a - b + U32_MOD
  {
    (a - b) % U32_MOD
  }

  function Mul32(a: u32, b: u32): u32
  {
    (a * b) % U32_MOD
  }

  /** Counting one and then `k` more in 32 bits is counting `k + 1` in 32 bits. */
  lemma Add32Then(n: u32, k: nat)
    ensures (Add32(n, 1) + k) % U32_MOD == (n + 1 + k) % U32_MOD
  {
    if n + 1 == U32_MOD {
      assert (U32_MOD + k) % U32_MOD == k % U32_MOD;
    }
  }

  /** Adding back a wrapped difference gives the original value: `a + (b - a) == b` in 32 bits. */
  lemma AddSubCancel(a: u32, b: u32)
    ensures Add32(a, Sub32(b, a)) == b
  {
  }

  /** FLASH_KV_KEY_SIZE: bytes reserved for a key in a record and in a hash slot. */
  const KEY_SIZE: nat := 32
  /** FLASH_KV_VALUE_SIZE: bytes reserved for a value in a record. */
  const VALUE_SIZE: nat := 64
  /** FLASH_KV_HASH_SIZE: number of slots of the in-memory index (a power of two). */
  const HASH_SIZE: nat := 512
  /** FLASH_KV_BLOCK_SIZE: erase granularity of the flash. */
  const BLOCK_SIZE: nat := 2048

  /** Magic words accepted in a region header. */
  const KV_MAGIC: bv32 := 0x4B56_5341
  const KV_MAGIC_B: bv32 := 0x4B56_5342

  /** Persisted transaction state (`kv_tx_state_persist_t`). */
  datatype TxState = TxIdle | TxPrepared | TxCommitted

  /** The error codes of `kv_err_t`. */
  datatype KvError =
    | Ok
    | InvalidParam
    | NoSpace
    | NotFound
    | CrcFail
    | FlashFail
    | TransactionError
    | NoInit
    | GcFail
    | InvalidRegion
    | HashFull
  {
    /** The integer value the C API returns for this outcome. */
    function Code(): (c: int)
      ensures (c == 0) <==> this == Ok
      ensures -10 <= c <= 0
    {
      match this
      case Ok => 0
      case InvalidParam => -1
      case NoSpace => -2
      case NotFound => -3
      case CrcFail => -4
      case FlashFail => -5
      case TransactionError => -6
      case NoInit => -7
      case GcFail => -8
      case InvalidRegion => -9
      case HashFull => -10
    }
  }

  datatype Option<T> = None | Some(value: T)

  /** `n` zero bytes, the state `memset(.., 0, n)` leaves behind. */
  function Zeros(n: nat): (s: seq<byte>)
    ensures |s| == n && forall i :: 0 <= i < n ==> s[i] == 0
  {
    seq(n, _ => 0)
  }
}
