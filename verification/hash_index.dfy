/**
 * The in-memory index of flash_kv_hash.c: a fixed array of FLASH_KV_HASH_SIZE
 * slots, DJB2 hashing and linear probing, mapping a key to the offset of its
 * record inside the active region.
 *
 * The pure part (search along a probe path, and the effect of set and del on
 * a sequence of slots) is specified by functions on `seq<Slot>`; the class
 * `HashTable` updates its slot array in place and is proved against them.
 *
 * Two behaviours of the C code are kept as they are:
 *  - `kv_hash_set` tests `key_len == 0` after overwriting the slot's length,
 *    so `count` only grows when an empty key is stored, while `kv_hash_del`
 *    always decrements it (16-bit wrap-around);
 *  - `kv_hash_del` empties the slot with no tombstone, so a key stored further
 *    along the same probe path can become unreachable.
 */
module HashIndex {
  import opened Types

  /** `kv_hash_slot_t`: a key of `keyLen` bytes (padded to KEY_SIZE) and its record offset. */
  datatype Slot = Slot(keyLen: u8, key: seq<byte>, flashOffset: u32)

  /** The all-zero slot `memset` produces. */
  function EmptySlot(): Slot
  {
    Slot(0, Zeros(KEY_SIZE), 0)
  }

  ghost predicate SlotOk(s: Slot)
  {
    |s.key| == KEY_SIZE && s.keyLen <= KEY_SIZE
  }

  ghost predicate TableOk(t: seq<Slot>)
  {
    |t| == HASH_SIZE && forall p :: 0 <= p < |t| ==> SlotOk(t[p])
  }

  function EmptyTable(): (t: seq<Slot>)
    ensures TableOk(t)
  {
    seq(HASH_SIZE, _ => EmptySlot())
  }

  /** A slot whose length is zero is free. */
  predicate Occupied(s: Slot)
  {
    s.keyLen != 0
  }

  /** `slot->key_len == key_len && memcmp(slot->key, key, key_len) == 0` */
  predicate Holds(s: Slot, key: seq<byte>)
    requires |s.key| == KEY_SIZE && s.keyLen <= KEY_SIZE
  {
    s.keyLen == |key| && s.key[..s.keyLen] == key
  }

  /** The key a slot stores. */
  function StoredKey(s: Slot): seq<byte>
    requires |s.key| == KEY_SIZE && s.keyLen <= KEY_SIZE
  {
    s.key[..s.keyLen]
  }

  // ------------------------------------------------------------------ DJB2

  /** The 32-bit DJB2 accumulator: h0 = 5381, h = h * 33 + b (mod 2^32). */
  function Djb2(key: seq<byte>): u32
    decreases |key|
  {
    if |key| == 0 then 5381
    else (Djb2(key[..|key| - 1]) * 33 + key[|key| - 1] as int) % U32_MOD
  }

  /** The home slot of a key: the DJB2 value masked with HASH_SIZE - 1. */
  function HomeSlot(key: seq<byte>): (h: nat)
    ensures h < HASH_SIZE
  {
    Djb2(key) % HASH_SIZE
  }

  /** Masking with HASH_SIZE - 1 keeps the low nine bits: it is the remainder modulo HASH_SIZE. */
  lemma MaskIsRemainder(h: bv32)
    ensures (h & 0x1FF) == h % 0x200
  {
  }

  /** kv_hash_djb2: the accumulator loop, then the mask. */
  method HashKey(key: seq<byte>) returns (h: nat)
    requires |key| < 0x100
    ensures h == HomeSlot(key)
  {
    var hash: u32 := 5381;
    var i := 0;
    while i < |key|
      invariant 0 <= i <= |key|
      invariant hash == Djb2(key[..i])
    {
      assert key[..i + 1][..i] == key[..i];
      // (hash << 5) + hash + key[i] in uint32_t arithmetic
      hash := (hash * 33 + key[i] as int) % U32_MOD;
      i := i + 1;
    }
    assert key[..|key|] == key;
    h := hash % HASH_SIZE;
  }

  // ------------------------------------------------------------- probing

  /** The slot visited at probe step `i` from home slot `h`. */
  function ProbeAt(h: nat, i: nat): (p: nat)
    ensures p < HASH_SIZE
  {
    (h + i) % HASH_SIZE
  }

  /** Outcome of a walk along a probe path: the step that found a free slot,
    * the step that found the key, or all HASH_SIZE steps passed. */
  datatype Probe = FreeAt(step: nat) | MatchAt(step: nat) | Exhausted

  /** Steps `i..j` of the path from `h` all see occupied slots holding other keys. */
  ghost predicate PassesOver(t: seq<Slot>, key: seq<byte>, h: nat, i: nat, j: nat)
    requires TableOk(t)
  {
    forall k :: i <= k < j ==> Occupied(t[ProbeAt(h, k)]) && !Holds(t[ProbeAt(h, k)], key)
  }

  /** The walk of kv_hash_get / kv_hash_set / kv_hash_del from step `i` on. */
  function SearchFrom(t: seq<Slot>, key: seq<byte>, h: nat, i: nat): (r: Probe)
    requires TableOk(t) && i <= HASH_SIZE
    decreases HASH_SIZE - i
    ensures r.FreeAt? ==> i <= r.step < HASH_SIZE && !Occupied(t[ProbeAt(h, r.step)]) && PassesOver(t, key, h, i, r.step)
    ensures r.MatchAt? ==> i <= r.step < HASH_SIZE && Occupied(t[ProbeAt(h, r.step)]) && Holds(t[ProbeAt(h, r.step)], key) && PassesOver(t, key, h, i, r.step)
    ensures r.Exhausted? ==> PassesOver(t, key, h, i, HASH_SIZE)
  {
    if i == HASH_SIZE then Exhausted
    else
      var p := ProbeAt(h, i);
      if !Occupied(t[p]) then FreeAt(i)
      else if Holds(t[p], key) then MatchAt(i)
      else SearchFrom(t, key, h, i + 1)
  }

  /** The walk for `key` from its home slot. */
  function Search(t: seq<Slot>, key: seq<byte>): Probe
    requires TableOk(t)
  {
    SearchFrom(t, key, HomeSlot(key), 0)
  }

  /** The slot index a walk stopped at. */
  function StopSlot(key: seq<byte>, r: Probe): nat
    requires !r.Exhausted?
  {
    ProbeAt(HomeSlot(key), r.step)
  }

  /** What kv_hash_get reports: the stored offset, or nothing. */
  function Lookup(t: seq<Slot>, key: seq<byte>): Option<u32>
    requires TableOk(t)
  {
    var r := Search(t, key);
    if r.MatchAt? then Some(t[StopSlot(key, r)].flashOffset) else None
  }

  // ----------------------------------------------- set and del on values

  datatype Update = Update(ok: bool, table: seq<Slot>)

  /** kv_hash_set on a table value: the first slot on the path that is free or
    * holds `key` receives the key and offset; a full path changes nothing. */
  function SetSlots(t: seq<Slot>, key: seq<byte>, offset: u32): (u: Update)
    requires TableOk(t) && |key| <= KEY_SIZE
    ensures TableOk(u.table)
    ensures u.ok <==> !Search(t, key).Exhausted?
    ensures !u.ok ==> u.table == t
    ensures u.ok ==> forall q :: 0 <= q < HASH_SIZE && q != StopSlot(key, Search(t, key)) ==> u.table[q] == t[q]
  {
    var r := Search(t, key);
    if r.Exhausted? then Update(false, t)
    else
      var p := StopSlot(key, r);
      var old_ := t[p];
      Update(true, t[p := Slot(|key|, key + old_.key[|key|..], offset)])
  }

  /** kv_hash_del on a table value: the slot holding `key` is emptied and its key zeroed. */
  function DelSlots(t: seq<Slot>, key: seq<byte>): (u: Update)
    requires TableOk(t)
    ensures TableOk(u.table)
    ensures u.ok <==> Search(t, key).MatchAt?
    ensures !u.ok ==> u.table == t
    ensures u.ok ==> forall q :: 0 <= q < HASH_SIZE && q != StopSlot(key, Search(t, key)) ==> u.table[q] == t[q]
  {
    var r := Search(t, key);
    if !r.MatchAt? then Update(false, t)
    else
      var p := StopSlot(key, r);
      Update(true, t[p := Slot(0, Zeros(KEY_SIZE), t[p].flashOffset)])
  }

  /** The new value of `count` after kv_hash_set (the check reads the length just written). */
  function CountAfterSet(count: u16, ok: bool, key: seq<byte>): u16
  {
    if ok && |key| == 0 then (count + 1) % U16_MOD else count
  }

  /** The new value of `count` after kv_hash_del (16-bit wrap-around). */
  function CountAfterDel(count: u16, ok: bool): u16
  {
    if ok then (count - 1) % U16_MOD else count
  }

  /** The whole index as a value: the slots and the `count` field. */
  datatype Index = Index(slots: seq<Slot>, count: u16)

  function EmptyIndex(): (ix: Index)
    ensures TableOk(ix.slots)
  {
    Index(EmptyTable(), 0)
  }

  /** The index after kv_hash_set. */
  function IndexSet(ix: Index, key: seq<byte>, offset: u32): (r: Index)
    requires TableOk(ix.slots) && |key| <= KEY_SIZE
    ensures TableOk(r.slots)
  {
    var u := SetSlots(ix.slots, key, offset);
    Index(u.table, CountAfterSet(ix.count, u.ok, key))
  }

  /** The index after kv_hash_del. */
  function IndexDel(ix: Index, key: seq<byte>): (r: Index)
    requires TableOk(ix.slots)
    ensures TableOk(r.slots)
  {
    var u := DelSlots(ix.slots, key);
    Index(u.table, CountAfterDel(ix.count, u.ok))
  }

  // ---------------------------------------------------------- the class

  /** `kv_hash_table_t`: the slot array and the occupancy counter. */
  class HashTable {
    const slots: array<Slot>
    var count: u16

    ghost predicate Valid()
      reads this, slots
    {
      slots.Length == HASH_SIZE && TableOk(slots[..])
    }

    /** The table's contents as a value. */
    ghost function Model(): Index
      reads this, slots
    {
      Index(slots[..], count)
    }

    /** A zero-initialised table (static storage, or a local followed by kv_hash_init). */
    constructor ()
      ensures Valid() && fresh(slots)
      ensures slots[..] == EmptyTable() && count == 0
    {
      slots := new Slot[HASH_SIZE](_ => EmptySlot());
      count := 0;
      new;
      assert slots[..] == EmptyTable();
    }

    /** kv_hash_init: zero the whole table. */
    method Init()
      requires Valid()
      modifies this, slots
      ensures Valid()
      ensures slots[..] == EmptyTable() && count == 0
    {
      forall p | 0 <= p < slots.Length {
        slots[p] := EmptySlot();
      }
      count := 0;
      assert slots[..] == EmptyTable();
    }

    /** kv_hash_get: walk the probe path until a free slot (-1), a match (0) or HASH_SIZE steps (-1). */
    method Get(key: seq<byte>) returns (r: int, offset: u32)
      requires Valid() && |key| < 0x100
      ensures r == 0 || r == -1
      ensures r == 0 <==> Lookup(slots[..], key).Some?
      ensures r == 0 ==> offset == Lookup(slots[..], key).value
    {
      ghost var t := slots[..];
      var h := HashKey(key);
      var i := 0;
      while i < HASH_SIZE
        invariant 0 <= i <= HASH_SIZE
        invariant Search(t, key) == SearchFrom(t, key, h, i)
      {
        var idx := ProbeAt(h, i);
        var slot := slots[idx];
        if slot.keyLen == 0 {
          return -1, 0;
        }
        if Holds(slot, key) {
          return 0, slot.flashOffset;
        }
        i := i + 1;
      }
      return -1, 0;
    }

    /** kv_hash_set: store `key` -> `offset` in the first free or matching slot of its path. */
    method Set(key: seq<byte>, offset: u32) returns (r: int)
      requires Valid() && |key| <= KEY_SIZE
      modifies this, slots
      ensures Valid()
      ensures r == 0 || r == -1
      ensures r == 0 <==> SetSlots(old(slots[..]), key, offset).ok
      ensures Model() == IndexSet(old(Model()), key, offset)
    {
      var h := HashKey(key);
      var i := 0;
      while i < HASH_SIZE
        invariant 0 <= i <= HASH_SIZE
        invariant slots[..] == old(slots[..]) && count == old(count)
        invariant Search(slots[..], key) == SearchFrom(slots[..], key, h, i)
      {
        var idx := ProbeAt(h, i);
        var slot := slots[idx];
        if slot.keyLen == 0 || (slot.keyLen == |key| && slot.key[..|key|] == key) {
          assert idx == StopSlot(key, Search(slots[..], key));
          slots[idx] := Slot(|key|, key + slot.key[|key|..], offset);
          assert slots[..] == SetSlots(old(slots[..]), key, offset).table;
          if slots[idx].keyLen == 0 {
            count := (count + 1) % U16_MOD;
          }
          return 0;
        }
        i := i + 1;
      }
      return -1;
    }

    /** kv_hash_del: clear the slot holding `key`; -1 if a free slot or the end of the path comes first. */
    method Del(key: seq<byte>) returns (r: int)
      requires Valid() && |key| < 0x100
      modifies this, slots
      ensures Valid()
      ensures r == 0 || r == -1
      ensures r == 0 <==> DelSlots(old(slots[..]), key).ok
      ensures Model() == IndexDel(old(Model()), key)
    {
      var h := HashKey(key);
      var i := 0;
      while i < HASH_SIZE
        invariant 0 <= i <= HASH_SIZE
        invariant Search(slots[..], key) == SearchFrom(slots[..], key, h, i)
      {
        var idx := ProbeAt(h, i);
        var slot := slots[idx];
        if slot.keyLen == 0 {
          return -1;
        }
        if slot.keyLen == |key| && slot.key[..|key|] == key {
          slots[idx] := Slot(0, Zeros(KEY_SIZE), slot.flashOffset);
          count := (count - 1) % U16_MOD;
          return 0;
        }
        i := i + 1;
      }
      return -1;
    }

    /** `memcpy(dst, src, sizeof(kv_hash_table_t))`: take over another table's contents. */
    method CopyFrom(src: HashTable)
      requires Valid() && src.Valid() && src.slots != slots
      modifies this, slots
      ensures Valid()
      ensures Model() == old(src.Model())
    {
      forall p | 0 <= p < slots.Length {
        slots[p] := src.slots[p];
      }
      count := src.count;
    }
  }

  // ------------------------------------------------------ probe paths

  /** The first HASH_SIZE steps of a probe path visit distinct slots. */
  lemma ProbeDistinct(h: nat, i: nat, j: nat)
    requires h < HASH_SIZE && i < HASH_SIZE && j < HASH_SIZE && i != j
    ensures ProbeAt(h, i) != ProbeAt(h, j)
  {
  }

  /** ... and every slot lies on every path. */
  lemma ProbeCovers(h: nat, p: nat) returns (j: nat)
    requires h < HASH_SIZE && p < HASH_SIZE
    ensures j < HASH_SIZE && ProbeAt(h, j) == p
  {
    j := if h <= p then p - h else p + HASH_SIZE - h;
  }

  /** Skipping a stretch of the path the walk passes over does not change where it stops. */
  lemma {:induction false} SearchSkips(t: seq<Slot>, key: seq<byte>, h: nat, i: nat, s: nat)
    requires TableOk(t) && i <= s <= HASH_SIZE
    requires PassesOver(t, key, h, i, s)
    ensures SearchFrom(t, key, h, i) == SearchFrom(t, key, h, s)
    decreases s - i
  {
    if i < s {
      SearchSkips(t, key, h, i + 1, s);
    }
  }

  /** Two slots agree on whether they are free and whether they hold `key`. */
  ghost predicate SameFor(a: Slot, b: Slot, key: seq<byte>)
    requires SlotOk(a) && SlotOk(b)
  {
    Occupied(a) == Occupied(b) && Holds(a, key) == Holds(b, key)
  }

  /** A walk that stops only depends on the slots it visits up to its stop. */
  lemma {:induction false} SearchAgrees(t: seq<Slot>, u: seq<Slot>, key: seq<byte>, h: nat, i: nat)
    requires TableOk(t) && TableOk(u) && i <= HASH_SIZE
    requires !SearchFrom(t, key, h, i).Exhausted?
    requires forall j :: i <= j <= SearchFrom(t, key, h, i).step ==> SameFor(t[ProbeAt(h, j)], u[ProbeAt(h, j)], key)
    ensures SearchFrom(u, key, h, i) == SearchFrom(t, key, h, i)
    decreases HASH_SIZE - i
  {
    var p := ProbeAt(h, i);
    assert SameFor(t[p], u[p], key);
    if Occupied(t[p]) && !Holds(t[p], key) {
      SearchAgrees(t, u, key, h, i + 1);
    }
  }

  /** A slot holds exactly one key. */
  lemma HoldsUnique(s: Slot, k1: seq<byte>, k2: seq<byte>)
    requires SlotOk(s) && Holds(s, k1) && Holds(s, k2)
    ensures k1 == k2
  {
  }

  /** The empty key is never found: a slot holding it counts as free. */
  lemma EmptyKeyNeverFound(t: seq<Slot>)
    requires TableOk(t)
    ensures Lookup(t, []) == None
  {
  }

  // ---------------------------------------------------------- get after set / del

  /** After a successful set of a non-empty key, get finds the key with the new offset. */
  lemma LookupAfterSet(t: seq<Slot>, key: seq<byte>, offset: u32)
    requires TableOk(t) && 1 <= |key| <= KEY_SIZE
    requires SetSlots(t, key, offset).ok
    ensures Lookup(SetSlots(t, key, offset).table, key) == Some(offset)
  {
    var u := SetSlots(t, key, offset).table;
    var h := HomeSlot(key);
    var r := Search(t, key);
    var p := StopSlot(key, r);
    forall k | 0 <= k < r.step
      ensures Occupied(u[ProbeAt(h, k)]) && !Holds(u[ProbeAt(h, k)], key)
    {
      ProbeDistinct(h, k, r.step);
    }
    SearchSkips(u, key, h, 0, r.step);
    assert u[p].key[..|key|] == key;
    assert Search(u, key) == MatchAt(r.step);
  }

  /** After a successful del, get no longer finds the key. */
  lemma LookupAfterDel(t: seq<Slot>, key: seq<byte>)
    requires TableOk(t)
    requires DelSlots(t, key).ok
    ensures Lookup(DelSlots(t, key).table, key) == None
  {
    var u := DelSlots(t, key).table;
    var h := HomeSlot(key);
    var r := Search(t, key);
    forall k | 0 <= k < r.step
      ensures Occupied(u[ProbeAt(h, k)]) && !Holds(u[ProbeAt(h, k)], key)
    {
      ProbeDistinct(h, k, r.step);
    }
    SearchSkips(u, key, h, 0, r.step);
    assert Search(u, key) == FreeAt(r.step);
  }

  /** Set fails only when the whole path is taken by other keys: every slot is occupied. */
  lemma SetFailsOnlyWhenFull(t: seq<Slot>, key: seq<byte>, offset: u32)
    requires TableOk(t) && |key| <= KEY_SIZE
    requires !SetSlots(t, key, offset).ok
    ensures forall p :: 0 <= p < HASH_SIZE ==> Occupied(t[p]) && !Holds(t[p], key)
  {
    var h := HomeSlot(key);
    forall p | 0 <= p < HASH_SIZE
      ensures Occupied(t[p]) && !Holds(t[p], key)
    {
      var j := ProbeCovers(h, p);
    }
  }

  /**
   * Deleting a key empties a slot without leaving a marker, so a key stored
   * further along the same probe path is no longer found: get stops at the
   * hole. (kv_hash_del has no tombstone.)
   */
  lemma DelHidesLaterKey(t: seq<Slot>, k1: seq<byte>, k2: seq<byte>, j: nat)
    requires TableOk(t)
    requires Search(t, k1).MatchAt? && Search(t, k2).MatchAt?
    requires j < Search(t, k2).step && StopSlot(k1, Search(t, k1)) == ProbeAt(HomeSlot(k2), j)
    ensures Lookup(t, k2).Some?
    ensures Lookup(DelSlots(t, k1).table, k2) == None
  {
    var u := DelSlots(t, k1).table;
    var h := HomeSlot(k2);
    var s2 := Search(t, k2).step;
    forall k | 0 <= k < j
      ensures Occupied(u[ProbeAt(h, k)]) && !Holds(u[ProbeAt(h, k)], k2)
    {
      ProbeDistinct(h, k, j);
    }
    SearchSkips(u, k2, h, 0, j);
    assert Search(u, k2) == FreeAt(j);
  }

  // ------------------------------------------------ the index invariant

  /** Every occupied slot is where a walk for its own key stops. */
  ghost predicate Consistent(t: seq<Slot>)
    requires TableOk(t)
  {
    forall p :: 0 <= p < HASH_SIZE && Occupied(t[p]) ==>
      Search(t, StoredKey(t[p])).MatchAt? && StopSlot(StoredKey(t[p]), Search(t, StoredKey(t[p]))) == p
  }

  lemma EmptyTableConsistent()
    ensures Consistent(EmptyTable())
    ensures forall key :: Lookup(EmptyTable(), key) == None
  {
    forall key
      ensures Lookup(EmptyTable(), key) == None
    {
      assert Search(EmptyTable(), key) == FreeAt(0);
    }
  }

  /** Setting one key does not move the walk of another key that is found. */
  lemma SetKeepsOtherMatch(t: seq<Slot>, key: seq<byte>, offset: u32, k: seq<byte>)
    requires TableOk(t) && 1 <= |key| <= KEY_SIZE && k != key
    requires Search(t, k).MatchAt?
    ensures Search(SetSlots(t, key, offset).table, k) == Search(t, k)
  {
    var u := SetSlots(t, key, offset);
    if u.ok {
      var h := HomeSlot(k);
      var rk := Search(t, k);
      var p := StopSlot(key, Search(t, key));
      forall j | 0 <= j <= rk.step
        ensures SameFor(t[ProbeAt(h, j)], u.table[ProbeAt(h, j)], k)
      {
        if ProbeAt(h, j) == p {
          assert Occupied(t[p]);
          assert Holds(t[p], key);
          assert u.table[p].key[..|key|] == key;
        }
      }
      SearchAgrees(t, u.table, k, h, 0);
    }
  }

  /** Setting one key never makes a missing key appear. */
  lemma SetKeepsOtherMissing(t: seq<Slot>, key: seq<byte>, offset: u32, k: seq<byte>)
    requires TableOk(t) && Consistent(t) && 1 <= |key| <= KEY_SIZE && k != key
    requires !Search(t, k).MatchAt?
    ensures !Search(SetSlots(t, key, offset).table, k).MatchAt?
  {
  }

  /** Set of a non-empty key keeps the index consistent, and no other key's lookup changes. */
  lemma SetKeepsConsistent(t: seq<Slot>, key: seq<byte>, offset: u32)
    requires TableOk(t) && Consistent(t) && 1 <= |key| <= KEY_SIZE
    ensures Consistent(SetSlots(t, key, offset).table)
    ensures forall k :: k != key ==> Lookup(SetSlots(t, key, offset).table, k) == Lookup(t, k)
  {
    var u := SetSlots(t, key, offset);
    forall k | k != key
      ensures Lookup(u.table, k) == Lookup(t, k)
    {
      if Search(t, k).MatchAt? {
        SetKeepsOtherMatch(t, key, offset, k);
      } else {
        SetKeepsOtherMissing(t, key, offset, k);
      }
    }
    if u.ok {
      var p := StopSlot(key, Search(t, key));
      LookupAfterSet(t, key, offset);
      forall q | 0 <= q < HASH_SIZE && Occupied(u.table[q])
        ensures Search(u.table, StoredKey(u.table[q])).MatchAt?
        ensures StopSlot(StoredKey(u.table[q]), Search(u.table, StoredKey(u.table[q]))) == q
      {
        if q == p {
          assert StoredKey(u.table[q]) == key;
        } else {
          var k := StoredKey(t[q]);
          assert u.table[q] == t[q];
          assert k != key;
          SetKeepsOtherMatch(t, key, offset, k);
        }
      }
    }
  }

  // ------------------------------------------------------- occupancy

  /** Number of occupied slots. */
  function OccupiedCount(t: seq<Slot>): (n: nat)
    ensures n <= |t|
  {
    if |t| == 0 then 0
    else OccupiedCount(t[..|t| - 1]) + (if Occupied(t[|t| - 1]) then 1 else 0)
  }

  /** Overwriting one slot adds at most one occupied slot. */
  lemma {:induction false} OccupiedCountUpdate(t: seq<Slot>, p: nat, x: Slot)
    requires p < |t|
    ensures OccupiedCount(t[p := x]) <= OccupiedCount(t) + 1
  {
    if p < |t| - 1 {
      assert t[p := x][..|t| - 1] == t[..|t| - 1][p := x];
      OccupiedCountUpdate(t[..|t| - 1], p, x);
    } else {
      assert t[p := x][..|t| - 1] == t[..|t| - 1];
    }
  }

  lemma {:induction false} NoneOccupiedCount(t: seq<Slot>)
    requires forall p :: 0 <= p < |t| ==> !Occupied(t[p])
    ensures OccupiedCount(t) == 0
  {
    if |t| > 0 {
      NoneOccupiedCount(t[..|t| - 1]);
    }
  }

  lemma {:induction false} AllOccupiedCount(t: seq<Slot>)
    requires forall p :: 0 <= p < |t| ==> Occupied(t[p])
    ensures OccupiedCount(t) == |t|
  {
    if |t| > 0 {
      AllOccupiedCount(t[..|t| - 1]);
    }
  }

  /** While fewer than HASH_SIZE slots are occupied, set always succeeds. */
  lemma SetSucceedsBelowCapacity(t: seq<Slot>, key: seq<byte>, offset: u32)
    requires TableOk(t) && |key| <= KEY_SIZE && OccupiedCount(t) < HASH_SIZE
    ensures SetSlots(t, key, offset).ok
    ensures OccupiedCount(SetSlots(t, key, offset).table) <= OccupiedCount(t) + 1
  {
    if !SetSlots(t, key, offset).ok {
      SetFailsOnlyWhenFull(t, key, offset);
      AllOccupiedCount(t);
    }
    var u := SetSlots(t, key, offset).table;
    var p := StopSlot(key, Search(t, key));
    assert u == t[p := u[p]];
    OccupiedCountUpdate(t, p, u[p]);
  }

  // ------------------------------------------------------- rebuilding

  /** A key and the record offset the scan found it at. */
  datatype Entry = Entry(key: seq<byte>, offset: u32)

  ghost predicate KeysFit(es: seq<Entry>)
  {
    forall i :: 0 <= i < |es| ==> |es[i].key| <= KEY_SIZE
  }

  ghost predicate NonEmptyKeys(es: seq<Entry>)
  {
    forall i :: 0 <= i < |es| ==> 1 <= |es[i].key|
  }

  /** The index after kv_hash_set of each entry in order, failures ignored. */
  function InsertAll(ix: Index, es: seq<Entry>): (r: Index)
    requires TableOk(ix.slots) && KeysFit(es)
    ensures TableOk(r.slots)
  {
    if |es| == 0 then ix
    else
      var e := es[|es| - 1];
      IndexSet(InsertAll(ix, es[..|es| - 1]), e.key, e.offset)
  }

  /** The offset of the last entry for `key`, if any: a reference map built by overwriting. */
  function LastOffset(es: seq<Entry>, key: seq<byte>): Option<u32>
  {
    if |es| == 0 then None
    else if es[|es| - 1].key == key then Some(es[|es| - 1].offset)
    else LastOffset(es[..|es| - 1], key)
  }

  /**
   * Inserting up to HASH_SIZE entries with non-empty keys into an empty index
   * loses nothing: every key maps to the offset of its last entry, and keys
   * that were never inserted are not found.
   */
  lemma {:induction false} InsertAllLastWins(es: seq<Entry>)
    requires KeysFit(es) && NonEmptyKeys(es) && |es| <= HASH_SIZE
    ensures Consistent(InsertAll(EmptyIndex(), es).slots)
    ensures OccupiedCount(InsertAll(EmptyIndex(), es).slots) <= |es|
    ensures forall k :: Lookup(InsertAll(EmptyIndex(), es).slots, k) == LastOffset(es, k)
  {
    if |es| == 0 {
      EmptyTableConsistent();
      NoneOccupiedCount(EmptyTable());
    } else {
      var init := es[..|es| - 1];
      var e := es[|es| - 1];
      assert KeysFit(init) && NonEmptyKeys(init);
      InsertAllLastWins(init);
      var t := InsertAll(EmptyIndex(), init).slots;
      SetSucceedsBelowCapacity(t, e.key, e.offset);
      SetKeepsConsistent(t, e.key, e.offset);
      LookupAfterSet(t, e.key, e.offset);
    }
  }

  /** Inserting a first entry and then the rest is inserting them all, in order. */
  lemma {:induction false} InsertAllCons(ix: Index, e: Entry, es: seq<Entry>)
    requires TableOk(ix.slots) && |e.key| <= KEY_SIZE && KeysFit(es)
    ensures KeysFit([e] + es)
    ensures InsertAll(ix, [e] + es) == InsertAll(IndexSet(ix, e.key, e.offset), es)
  {
    var xs := [e] + es;
    assert KeysFit(xs) by {
      forall i | 0 <= i < |xs|
        ensures |xs[i].key| <= KEY_SIZE
      {
        if i > 0 {
          assert xs[i] == es[i - 1];
        }
      }
    }
    if |es| == 0 {
      assert xs[..0] == [];
    } else {
      var init := es[..|es| - 1];
      var last := es[|es| - 1];
      assert xs[..|xs| - 1] == [e] + init;
      assert KeysFit(init);
      InsertAllCons(ix, e, init);
    }
  }

  // ------------------------------------------------------- the counter

  /**
   * `count` is never incremented for a real key, while kv_hash_del
   * decrements it: a set and a del of the same key on a fresh table leave
   * the 16-bit counter wrapped to 0xFFFF.
   */
  lemma CountUnderflows(key: seq<byte>, offset: u32)
    requires 1 <= |key| <= KEY_SIZE
    ensures IndexSet(EmptyIndex(), key, offset).count == 0
    ensures IndexDel(IndexSet(EmptyIndex(), key, offset), key).count == 0xFFFF
  {
    var t := EmptyTable();
    NoneOccupiedCount(t);
    SetSucceedsBelowCapacity(t, key, offset);
    LookupAfterSet(t, key, offset);
  }
}
