/**
 The packed word of an index entry. As long as no data storage has more than 2^56 cells, every entry of a
 bucket fits into its word, and no write is stopped by an offset that is too large.
 */
module Packing {
  import opened Arithmetic
  import opened BucketModel
  import opened BucketRuns
  import opened DataCells
  import opened DataOps
  import opened IndexEntry
  import opened IndexTable
  import opened Storage
  import opened Wrappers

  const MAX_CAPACITY_POW2: nat := 56

  ghost predicate Packable<T>(data: seq<DataStorage<T>>) {
    forall c :: 0 <= c < |data| ==> data[c].capacityPow2 <= MAX_CAPACITY_POW2
  }

  /** The word holds the place of the entry. */
  predicate Packs(word: nat, e: IndexEntry) {
    word < U64 && PackedOffset(word) == e.offset && PackedCapacity(word) == e.createdPow2
  }

  /** The two updates of a write that moves a list, in their order. */
  function Repacked(word: nat, offset: nat, capacityPow2: nat): (w: Option<nat>)
    requires word < U64 && capacityPow2 < 256
    ensures w.Some? <==> offset < OFFSET_LIMIT
  {
    match SetPackedOffset(word, offset)
    case None => None
    case Some(w) => Some(SetPackedCapacity(w, capacityPow2))
  }

  lemma ByteUp(n: nat)
    ensures Pow2(n + 8) == 256 * Pow2(n)
  {
    assert Pow2(n + 4) == 2 * Pow2(n + 3) == 4 * Pow2(n + 2) == 8 * Pow2(n + 1) == 16 * Pow2(n);
    assert Pow2(n + 8) == 2 * Pow2(n + 7) == 4 * Pow2(n + 6) == 8 * Pow2(n + 5) == 16 * Pow2(n + 4);
  }

  lemma OffsetLimitIsPow2()
    ensures Pow2(MAX_CAPACITY_POW2) == OFFSET_LIMIT
  {
    ByteUp(0);
    ByteUp(8);
    ByteUp(16);
    ByteUp(24);
    ByteUp(32);
    ByteUp(40);
    ByteUp(48);
  }

  /** Every cell of a storage can be the place of a list if and only if there are at most 2^56 cells. */
  lemma AllOffsetsFitIff(word: nat, capacityPow2: nat)
    requires word < U64
    ensures (forall ix: nat :: ix < Pow2(capacityPow2) ==> SetPackedOffset(word, ix).Some?)
            <==> capacityPow2 <= MAX_CAPACITY_POW2
  {
    OffsetLimitIsPow2();
    if capacityPow2 <= MAX_CAPACITY_POW2 {
      Pow2Monotone(capacityPow2, MAX_CAPACITY_POW2);
    } else {
      Pow2Monotone(MAX_CAPACITY_POW2 + 1, capacityPow2);
      assert SetPackedOffset(word, OFFSET_LIMIT).None?;
    }
  }

  lemma PlacePacks(word: nat, e: IndexEntry)
    requires word < U64 && e.createdPow2 <= MAX_CAPACITY_POW2 && e.offset < Pow2(e.createdPow2)
    ensures Repacked(word, e.offset, e.createdPow2).Some?
    ensures Packs(Repacked(word, e.offset, e.createdPow2).value, e)
  {
    AllOffsetsFitIff(word, e.createdPow2);
  }

  /** Every entry of a bucket fits into its word, whatever the word held before. */
  lemma EntryPacks<T>(env: Env<T>, b: Bucket<T>, e: IndexEntry, word: nat)
    requires LiveInv(env, b) && Packable(b.data) && e in Entries(b.index) && word < U64
    ensures e.createdPow2 < 256
    ensures Repacked(word, e.offset, e.createdPow2).Some?
    ensures Packs(Repacked(word, e.offset, e.createdPow2).value, e)
  {
    assert Stored(env, b.data, e);
    PlacePacks(word, e);
  }

  /** A write that moves a list to a free cell is not stopped, and the word then holds the new entry. */
  lemma MovedEntryPacks<T>(env: Env<T>, b: Bucket<T>, ii: nat, list: seq<T>, refCount: nat, ix: nat, word: nat)
    requires LiveInv(env, b) && b.index.Occupied(ii) && DataBucket(|list|) < |b.data| && Packable(b.data)
    requires ix < |b.data[DataBucket(|list|)].cells| && word < U64
    ensures var s := b.data[DataBucket(|list|)];
            && s.capacityPow2 < 256
            && Repacked(word, ix, s.capacityPow2).Some?
            && Packs(Repacked(word, ix, s.capacityPow2).value,
                     WrittenElsewhere(env, b, ii, list, refCount, ix).index.cells[ii].item)
  {
    ItemFits(b.data, DataBucket(|list|), ix);
    PlacePacks(word, WrittenElsewhere(env, b, ii, list, refCount, ix).index.cells[ii].item);
  }

  /** After any run that kept every data storage within 2^56 cells, all places fit into their words. */
  lemma RunPacks<T>(env: Env<T>, events: seq<Event<T>>, e: IndexEntry, word: nat)
    requires Admissible(env, None, events) && Run(env, None, events).0.Some? && word < U64
    requires var b := Run(env, None, events).0.value; Packable(b.data) && e in Entries(b.index)
    ensures e.createdPow2 < 256
    ensures Repacked(word, e.offset, e.createdPow2).Some?
    ensures Packs(Repacked(word, e.offset, e.createdPow2).value, e)
  {
    RunRefines(env, None, events);
    EntryPacks(env, Run(env, None, events).0.value, e, word);
  }
}
