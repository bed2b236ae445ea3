/** Index entries: one per key, remembering where the key's list was put when it was written. */
module IndexEntry {
  import opened Arithmetic
  import opened Wrappers

  datatype Pubkey = Pubkey(bytes: seq<nat>)

  /**
   What the code takes from outside: the two hash computations, the length of the probe window, and the
   element that the bytes of a fresh file denote. `keyHash` and `indexHash` are arbitrary functions.
   */
  datatype Env<+T> = Env(keyHash: Pubkey -> nat, indexHash: (nat, nat) -> nat, maxSearch: nat, zero: T)

  datatype IndexEntry = IndexEntry(key: Pubkey, refCount: nat, createdPow2: nat, offset: nat, numSlots: nat)

  const ZERO_ENTRY := IndexEntry(Pubkey([]), 0, 0, 0, 0)

  function InitEntry(key: Pubkey): IndexEntry {
    IndexEntry(key, 0, 0, 0, 0)
  }

  /** The hash of a key, bumped to one so that it never looks like an unlocked header. */
  function KeyUid<T>(env: Env<T>, key: Pubkey): (uid: nat)
    ensures uid != 0
    ensures env.keyHash(key) != 0 ==> uid == env.keyHash(key)
    ensures env.keyHash(key) == 0 ==> uid == 1
  {
    if env.keyHash(key) > 1 then env.keyHash(key) else 1
  }

  function DataBucket(numSlots: nat): nat {
    CeilLog2(numSlots)
  }

  /** The data bucket of a list is the first one whose cells are long enough. */
  lemma DataBucketIsLeast(numSlots: nat, c: nat)
    ensures numSlots <= Pow2(c) <==> DataBucket(numSlots) <= c
  {
    if numSlots <= Pow2(c) {
      CeilLog2Least(numSlots, c);
    } else if DataBucket(numSlots) <= c {
      Pow2Monotone(DataBucket(numSlots), c);
    }
  }

  /** Where an entry's list is in a storage that may have grown since the entry was written. */
  function DataLoc(e: IndexEntry, capacityPow2: nat): nat
    requires e.createdPow2 <= capacityPow2
  {
    Shl(e.offset, capacityPow2 - e.createdPow2)
  }

  lemma DataLocInRange(e: IndexEntry, capacityPow2: nat)
    requires e.createdPow2 <= capacityPow2 && e.offset < Pow2(e.createdPow2)
    ensures DataLoc(e, capacityPow2) < Pow2(capacityPow2)
  {
    ShlBound(e.offset, e.createdPow2, capacityPow2 - e.createdPow2);
  }

  /** Growing a storage again moves an entry's cell exactly as `DataLoc` recomputes it. */
  lemma DataLocAfterGrowth(e: IndexEntry, oldPow2: nat, newPow2: nat)
    requires e.createdPow2 <= oldPow2 <= newPow2
    ensures Shl(DataLoc(e, oldPow2), newPow2 - oldPow2) == DataLoc(e, newPow2)
  {
    ShlCompose(e.offset, oldPow2 - e.createdPow2, newPow2 - oldPow2);
  }

  // ---------------------------------------------------------------------------------------------
  // The packed word: eight bits of capacity, 56 bits of offset.

  const OFFSET_LIMIT: nat := 0x100_0000_0000_0000

  function PackedCapacity(word: nat): nat {
    word % 256
  }

  function PackedOffset(word: nat): nat {
    word / 256
  }

  /** The capacity takes the low byte, the offset the seven others. */
  lemma PackedWord(word: nat)
    requires word < U64
    ensures word == PackedOffset(word) * 256 + PackedCapacity(word)
    ensures PackedCapacity(word) < 256 && PackedOffset(word) < OFFSET_LIMIT
  {
  }

  function SetPackedCapacity(word: nat, capacityPow2: nat): (w: nat)
    requires word < U64 && capacityPow2 < 256
    ensures w < U64
    ensures PackedCapacity(w) == capacityPow2 && PackedOffset(w) == PackedOffset(word)
  {
    word / 256 * 256 + capacityPow2
  }

  /** Fails exactly on the offsets that do not fit into seven bytes. */
  function SetPackedOffset(word: nat, offset: nat): (w: Option<nat>)
    requires word < U64
    ensures w.Some? <==> offset < OFFSET_LIMIT
    ensures w.Some? ==> w.value < U64
    ensures w.Some? ==> PackedOffset(w.value) == offset && PackedCapacity(w.value) == PackedCapacity(word)
  {
    if offset < OFFSET_LIMIT then Some(offset * 256 + word % 256) else None
  }
}
