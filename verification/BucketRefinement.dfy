/**
 Each operation of a bucket does to the plain map what its name says, keeps the invariants, and keeps
 the books on allocated cells.
 */
module BucketRefinement {
  import opened BucketModel
  import opened DataCells
  import opened DataOps
  import opened IndexEntry
  import opened IndexTable
  import opened Storage
  import opened Wrappers

  // ---------------------------------------------------------------------------------------------
  // The plain map

  ghost function Lookup<T>(m: map<Pubkey, Value<T>>, key: Pubkey): Option<Value<T>> {
    if key in m then Some(m[key]) else None
  }

  ghost function ListIn<T>(m: map<Pubkey, Value<T>>, key: Pubkey): seq<T> {
    if key in m then m[key].list else []
  }

  /** What a write leaves when there is no room for the list: the count is set, the list is as before. */
  ghost function OnlyCountSet<T>(m: map<Pubkey, Value<T>>, key: Pubkey, refCount: nat): map<Pubkey, Value<T>> {
    m[key := Value(ListIn(m, key), refCount)]
  }

  /** The meaning of `TryWrite` for each of its outcomes. */
  ghost function WriteMeans<T>(m: map<Pubkey, Value<T>>, key: Pubkey, list: seq<T>, refCount: nat, outcome: Outcome)
    : map<Pubkey, Value<T>>
  {
    match outcome
    case Ok => m[key := Value(list, refCount)]
    case Err(IndexNoSpace(_)) => m
    case Err(DataNoSpace(_, capacityPow2)) => if capacityPow2 == 0 then m else OnlyCountSet(m, key, refCount)
  }

  // ---------------------------------------------------------------------------------------------
  // The books

  /** The keys whose list is kept in data storage `b`. */
  ghost function KeysIn<T>(m: map<Pubkey, Value<T>>, b: nat): set<Pubkey> {
    set k | k in m && |m[k].list| > 0 && DataBucket(|m[k].list|) == b
  }

  /** The count of a data storage; a storage that does not exist yet has no allocated cells. */
  function CountAt<T>(data: seq<DataStorage<T>>, b: nat): nat {
    if b < |data| then data[b].count else 0
  }

  /**
   `count` of the index is the number of keys. `count` of `data[b]` is the number of keys whose list is
   kept there; in `data[0]` there are `leaked` more, one per overwrite of a one-element list by an
   empty one, whose cell stays locked for good.
   */
  ghost predicate Balanced<T>(m: map<Pubkey, Value<T>>, index: Table, data: seq<DataStorage<T>>, leaked: nat) {
    && index.count == |m|
    && forall b: nat :: CountAt(data, b) == |KeysIn(m, b)| + if b == 0 then leaked else 0
  }

  ghost predicate Books<T>(env: Env<T>, b: Bucket<T>, leaked: nat)
    requires LiveInv(env, b)
  {
    Balanced(Map(env, b), b.index, b.data, leaked)
  }

  /** One when the write takes the place of a one-element list with an empty one. */
  ghost function LeakOf<T>(m: map<Pubkey, Value<T>>, key: Pubkey, list: seq<T>): nat {
    if |ListIn(m, key)| == 1 && list == [] then 1 else 0
  }

  /** The key has a list, and the new one belongs into the same data storage. */
  ghost predicate StaysInPlace<T>(m: map<Pubkey, Value<T>>, key: Pubkey, list: seq<T>) {
    |ListIn(m, key)| > 0 && DataBucket(|ListIn(m, key)|) == DataBucket(|list|)
  }

  /**
   What the plain map decides about the outcome of a write. A list that stays in its storage is always
   written. The index is full only for an absent key. The error names the storage of the new list, and
   reports it missing only if it lies beyond the storage that the key uses.
   */
  ghost predicate WriteAnswers<T>(m: map<Pubkey, Value<T>>, key: Pubkey, list: seq<T>, outcome: Outcome) {
    outcome.Err? ==>
      && !StaysInPlace(m, key, list)
      && match outcome.error
         case IndexNoSpace(_) => key !in m
         case DataNoSpace(ix, capacityPow2) =>
           && ix == DataBucket(|list|)
           && (key in m && ix <= DataBucket(|m[key].list|) ==> capacityPow2 > 0)
  }

  lemma EmptyingStaysInPlace<T>(m: map<Pubkey, Value<T>>, key: Pubkey, list: seq<T>)
    requires LeakOf(m, key, list) > 0
    ensures StaysInPlace(m, key, list)
  {
    assert DataBucket(1) == DataBucket(0);
  }

  lemma KeysInPut<T>(m: map<Pubkey, Value<T>>, key: Pubkey, v: Value<T>, b: nat)
    ensures KeysIn(m[key := v], b) ==
            KeysIn(m, b) - {key} + if |v.list| > 0 && DataBucket(|v.list|) == b then {key} else {}
  {
  }

  lemma KeysInDrop<T>(m: map<Pubkey, Value<T>>, key: Pubkey, b: nat)
    ensures KeysIn(m - {key}, b) == KeysIn(m, b) - {key}
  {
  }

  ghost function In<T>(list: seq<T>, b: nat): nat {
    if |list| > 0 && DataBucket(|list|) == b then 1 else 0
  }

  /** Putting a list moves one unit from the storage of the old list to that of the new one. */
  lemma KeysInPutSize<T>(m: map<Pubkey, Value<T>>, key: Pubkey, v: Value<T>, b: nat)
    ensures |KeysIn(m[key := v], b)| == |KeysIn(m, b)| - In(ListIn(m, key), b) + In(v.list, b)
  {
    KeysInPut(m, key, v, b);
    assert key in KeysIn(m, b) <==> In(ListIn(m, key), b) == 1;
  }

  lemma KeysInDropSize<T>(m: map<Pubkey, Value<T>>, key: Pubkey, b: nat)
    ensures |KeysIn(m - {key}, b)| == |KeysIn(m, b)| - In(ListIn(m, key), b)
  {
    KeysInDrop(m, key, b);
    assert key in KeysIn(m, b) <==> In(ListIn(m, key), b) == 1;
  }

  // ---------------------------------------------------------------------------------------------
  // Reading

  /** The probing read agrees with the plain map on every key. */
  lemma ReadValueIsLookup<T>(env: Env<T>, b: Bucket<T>, key: Pubkey)
    requires LiveInv(env, b)
    ensures ReadValue(env, b, key) == Lookup(Map(env, b), key)
  {
    FindIffStored(env, b.index, b.random, key);
    MeaningKeys(Entries(b.index), b.data);
    var r := FindEntry(env, b.index, b.random, key);
    if r.Some? {
      var e := b.index.cells[r.value].item;
      assert e in Entries(b.index);
      MeaningAt(Entries(b.index), b.data, e);
    }
  }

  /** An entry and the plain map say the same about its key. */
  lemma EntryInMap<T>(env: Env<T>, b: Bucket<T>, ii: nat)
    requires LiveInv(env, b) && b.index.Occupied(ii)
    ensures var e := b.index.cells[ii].item;
            && e.key in Map(env, b)
            && Map(env, b)[e.key] == ValueOf(b.data, e)
            && |ListOf(b.data, e)| == e.numSlots
  {
    var e := b.index.cells[ii].item;
    EntryIsStored(env, b, ii);
    MeaningAt(Entries(b.index), b.data, e);
    if e.numSlots > 0 {
      StoredList(env, b.data, e);
    }
  }

  // ---------------------------------------------------------------------------------------------
  // Writing

  lemma InPlaceMeans<T>(env: Env<T>, b: Bucket<T>, ii: nat, list: seq<T>, refCount: nat)
    requires LiveInv(env, b) && b.index.Occupied(ii)
    requires var e := b.index.cells[ii].item; DataBucket(|list|) == DataBucket(e.numSlots) && e.numSlots > 0
    ensures var e := b.index.cells[ii].item;
            && Stored(env, b.data, e)
            && CellOf(b.data, e) < |b.data[DataBucket(e.numSlots)].cells|
            && |list| <= |b.data[DataBucket(e.numSlots)].cells[CellOf(b.data, e)].item|
            && var b' := WrittenInPlace(b, ii, list, refCount);
            && LiveInv(env, b')
            && Map(env, b') == Map(env, b)[e.key := Value(list, refCount)]
  {
    var e := b.index.cells[ii].item;
    EntryIsStored(env, b, ii);
    Rewritten(env, b.index, b.random, ii, Resliced(e, refCount, |list|));
    Overwritten(env, Entries(b.index), b.data, e, refCount, list);
  }

  lemma DataFreedMeans<T>(env: Env<T>, b: Bucket<T>, ii: nat)
    requires LiveInv(env, b) && b.index.Occupied(ii)
    ensures var e, data := b.index.cells[ii].item, DataFreed(env, b, ii);
            && DataInv(env, Entries(b.index) - {e}, data)
            && e.key !in KeysOf(Entries(b.index) - {e})
            && Meaning(Entries(b.index) - {e}, data) == Map(env, b) - {e.key}
  {
    var e := b.index.cells[ii].item;
    EntryIsStored(env, b, ii);
    if e.numSlots > 0 {
      Released(env, Entries(b.index), b.data, e);
    } else {
      Leave(env, Entries(b.index), b.data, e);
    }
  }

  lemma ElsewhereMeans<T>(env: Env<T>, b: Bucket<T>, ii: nat, list: seq<T>, refCount: nat, ix: nat)
    requires LiveInv(env, b) && b.index.Occupied(ii) && DataBucket(|list|) < |b.data|
    requires ix < |b.data[DataBucket(|list|)].cells| && !b.data[DataBucket(|list|)].Occupied(ix)
    requires var e := b.index.cells[ii].item; DataBucket(|list|) != DataBucket(e.numSlots) || e.numSlots == 0
    ensures var e := b.index.cells[ii].item;
            var b' := WrittenElsewhere(env, b, ii, list, refCount, ix);
            && LiveInv(env, b')
            && Map(env, b') == Map(env, b)[e.key := Value(list, refCount)]
  {
    var e, best := b.index.cells[ii].item, DataBucket(|list|);
    var e' := Relocated(e, refCount, |list|, ix, b.data[best].capacityPow2);
    EntryIsStored(env, b, ii);
    Rewritten(env, b.index, b.random, ii, e');
    DataFreedMeans(env, b, ii);
    var data := DataFreed(env, b, ii);
    assert data[best] == b.data[best];
    MapPut(Map(env, b), e.key, Value(list, refCount));
    if |list| > 0 {
      Filled(env, Entries(b.index) - {e}, data, e, refCount, list, ix);
    } else {
      assert BucketValid(b.data[best], best);
      Emptied(env, Entries(b.index) - {e}, data, e');
    }
  }

  lemma CountSetMeans<T>(env: Env<T>, b: Bucket<T>, ii: nat, refCount: nat)
    requires LiveInv(env, b) && b.index.Occupied(ii)
    ensures var e := b.index.cells[ii].item;
            var b' := WithEntry(b, ii, e.(refCount := refCount));
            && LiveInv(env, b')
            && Map(env, b') == OnlyCountSet(Map(env, b), e.key, refCount)
  {
    var e := b.index.cells[ii].item;
    EntryIsStored(env, b, ii);
    EntryInMap(env, b, ii);
    Rewritten(env, b.index, b.random, ii, e.(refCount := refCount));
    Recounted(env, Entries(b.index), b.data, e, refCount);
  }

  /** The new state is live, it means what the outcome says, and pending growth is untouched. */
  ghost predicate Wrote<T>(env: Env<T>, b: Bucket<T>, key: Pubkey, list: seq<T>, refCount: nat, r: (Bucket<T>, Outcome))
    requires LiveInv(env, b)
  {
    && LiveInv(env, r.0)
    && Map(env, r.0) == WriteMeans(Map(env, b), key, list, refCount, r.1)
    && r.0.reallocated == b.reallocated
  }

  lemma WriteEntryFits<T>(env: Env<T>, b: Bucket<T>, ii: nat, list: seq<T>, refCount: nat, pos: nat)
    requires LiveInv(env, b) && b.index.Occupied(ii) && DataBucket(|list|) < |b.data|
    requires WriteEntry(env, b, ii, list, refCount, pos).1.Ok?
    ensures Wrote(env, b, b.index.cells[ii].item.key, list, refCount, WriteEntry(env, b, ii, list, refCount, pos))
  {
    var e, best := b.index.cells[ii].item, DataBucket(|list|);
    if best == DataBucket(e.numSlots) && e.numSlots > 0 {
      InPlaceMeans(env, b, ii, list, refCount);
    } else {
      ElsewhereMeans(env, b, ii, list, refCount, ProbeFree(b.data[best], pos, 0, env.maxSearch).value);
    }
  }

  lemma WriteEntryFull<T>(env: Env<T>, b: Bucket<T>, ii: nat, list: seq<T>, refCount: nat, pos: nat)
    requires LiveInv(env, b) && b.index.Occupied(ii) && DataBucket(|list|) < |b.data|
    requires WriteEntry(env, b, ii, list, refCount, pos).1.Err?
    ensures var r := WriteEntry(env, b, ii, list, refCount, pos);
            && r.1.error == DataNoSpace(DataBucket(|list|), b.data[DataBucket(|list|)].capacityPow2)
            && r.1.error.capacityPow2 >= DEFAULT_CAPACITY_POW2
            && r.0.data == b.data
            && Wrote(env, b, b.index.cells[ii].item.key, list, refCount, r)
  {
    var best := DataBucket(|list|);
    CapacityAtLeastDefault(b.data, best);
    assert ProbeFree(b.data[best], pos, 0, env.maxSearch).None?;
    CountSetMeans(env, b, ii, refCount);
  }

  lemma CapacityAtLeastDefault<T>(data: seq<DataStorage<T>>, b: nat)
    requires DataValid(data) && b < |data|
    ensures BucketValid(data[b], b) && data[b].capacityPow2 >= DEFAULT_CAPACITY_POW2
  {
    assert BucketValid(data[b], b);
  }

  /** Where a failed write leaves the storages, and what its error reports. */
  ghost predicate FailedCleanly<T>(b: Bucket<T>, list: seq<T>, b': Bucket<T>, error: Error) {
    match error
    case IndexNoSpace(capacityPow2) => b' == b && capacityPow2 == b.index.capacityPow2
    case DataNoSpace(dataIndex, capacityPow2) =>
      && dataIndex == DataBucket(|list|)
      && b'.data == b.data
      && if capacityPow2 == 0 then b' == b && dataIndex >= |b.data|
         else dataIndex < |b.data| && capacityPow2 == b.data[dataIndex].capacityPow2
  }

  lemma TryWriteExisting<T>(env: Env<T>, b: Bucket<T>, key: Pubkey, list: seq<T>, refCount: nat, pos: nat)
    requires LiveInv(env, b) && DataBucket(|list|) < |b.data|
    requires FindEntry(env, b.index, b.random, key).Some?
    ensures var r := TryWrite(env, b, key, list, refCount, pos);
            && Wrote(env, b, key, list, refCount, r)
            && (r.1.Err? ==> FailedCleanly(b, list, r.0, r.1.error))
  {
    var ii := FindEntry(env, b.index, b.random, key).value;
    if WriteEntry(env, b, ii, list, refCount, pos).1.Ok? {
      WriteEntryFits(env, b, ii, list, refCount, pos);
    } else {
      WriteEntryFull(env, b, ii, list, refCount, pos);
    }
  }

  lemma TryWriteNew<T>(env: Env<T>, b: Bucket<T>, key: Pubkey, list: seq<T>, refCount: nat, pos: nat)
    requires LiveInv(env, b) && DataBucket(|list|) < |b.data|
    requires FindEntry(env, b.index, b.random, key).None? && FindVacancy(env, b.index, b.random, key).Some?
    ensures var r := TryWrite(env, b, key, list, refCount, pos);
            && Wrote(env, b, key, list, refCount, r)
            && (r.1.Err? ==> FailedCleanly(b, list, r.0, r.1.error))
  {
    var ii := FindVacancy(env, b.index, b.random, key).value;
    CreatedMeans(env, b, ii, key);
    var c := Created(env, b, ii, key);
    var r := WriteEntry(env, c, ii, list, refCount, pos);
    if r.1.Ok? {
      WriteEntryFits(env, c, ii, list, refCount, pos);
    } else {
      WriteEntryFull(env, c, ii, list, refCount, pos);
    }
    CreateThenWrite(Map(env, b), key, list, refCount, r.1);
  }

  /** Creating the entry first makes no difference to what a write means. */
  lemma CreateThenWrite<T>(m: map<Pubkey, Value<T>>, key: Pubkey, list: seq<T>, refCount: nat, outcome: Outcome)
    requires key !in m
    requires outcome.Ok? || (outcome.error.DataNoSpace? && outcome.error.capacityPow2 > 0)
    ensures WriteMeans(m[key := Value([], 0)], key, list, refCount, outcome) == WriteMeans(m, key, list, refCount, outcome)
    ensures LeakOf(m[key := Value([], 0)], key, list) == LeakOf(m, key, list) == 0
  {
    assert m[key := Value([], 0)][key := Value(list, refCount)] == m[key := Value(list, refCount)];
  }

  /**
   `TryWrite` refines the plain map for every outcome. On a missing storage or a full index window
   nothing changes at all; on a full storage only that key's count changes, and its old list survives.
   */
  lemma TryWriteMeans<T>(env: Env<T>, b: Bucket<T>, key: Pubkey, list: seq<T>, refCount: nat, pos: nat)
    requires LiveInv(env, b)
    ensures var r := TryWrite(env, b, key, list, refCount, pos);
            && Wrote(env, b, key, list, refCount, r)
            && (r.1.Err? ==> FailedCleanly(b, list, r.0, r.1.error))
  {
    if DataBucket(|list|) < |b.data| {
      if FindEntry(env, b.index, b.random, key).Some? {
        TryWriteExisting(env, b, key, list, refCount, pos);
      } else if FindVacancy(env, b.index, b.random, key).Some? {
        TryWriteNew(env, b, key, list, refCount, pos);
      }
    }
  }

  lemma TryWriteAnswers<T>(env: Env<T>, b: Bucket<T>, key: Pubkey, list: seq<T>, refCount: nat, pos: nat)
    requires LiveInv(env, b)
    ensures WriteAnswers(Map(env, b), key, list, TryWrite(env, b, key, list, refCount, pos).1)
  {
    TryWriteMeans(env, b, key, list, refCount, pos);
    FindIffStored(env, b.index, b.random, key);
    MeaningKeys(Entries(b.index), b.data);
    if FindEntry(env, b.index, b.random, key).Some? {
      var ii := FindEntry(env, b.index, b.random, key).value;
      EntryInMap(env, b, ii);
      EntryIsStored(env, b, ii);
    }
  }

  /** The search for a data cell from `pos` sees no free one. */
  ghost predicate SearchFull<T>(s: DataStorage<T>, pos: nat, maxSearch: nat)
    requires |s.cells| > 0
  {
    forall d: nat :: d < maxSearch ==> s.Occupied(Slot(pos, d, |s.cells|))
  }

  /** The outcome of a write, from what is stored: no search is left to be done here. */
  ghost function OutcomeOf<T>(env: Env<T>, b: Bucket<T>, key: Pubkey, list: seq<T>, pos: nat): Outcome
    requires LiveInv(env, b)
  {
    var best := DataBucket(|list|);
    if best >= |b.data| then Err(DataNoSpace(best, 0))
    else
      CapacityAtLeastDefault(b.data, best);
      if key !in Map(env, b) && WindowFull(env, b.index, b.random, key) then Err(IndexNoSpace(b.index.capacityPow2))
      else if !StaysInPlace(Map(env, b), key, list) && SearchFull(b.data[best], pos, env.maxSearch)
      then Err(DataNoSpace(best, b.data[best].capacityPow2))
      else Ok
  }

  lemma WriteEntryOutcome<T>(env: Env<T>, b: Bucket<T>, ii: nat, list: seq<T>, refCount: nat, pos: nat)
    requires LiveInv(env, b) && b.index.Occupied(ii) && DataBucket(|list|) < |b.data|
    ensures var s := b.data[DataBucket(|list|)];
            && |s.cells| > 0
            && WriteEntry(env, b, ii, list, refCount, pos).1 ==
               if !StaysInPlace(Map(env, b), b.index.cells[ii].item.key, list) && SearchFull(s, pos, env.maxSearch)
               then Err(DataNoSpace(DataBucket(|list|), s.capacityPow2)) else Ok
  {
    CapacityAtLeastDefault(b.data, DataBucket(|list|));
    EntryInMap(env, b, ii);
  }

  /** Exactly when a write succeeds, and exactly which error it gives otherwise. */
  lemma TryWriteOutcome<T>(env: Env<T>, b: Bucket<T>, key: Pubkey, list: seq<T>, refCount: nat, pos: nat)
    requires LiveInv(env, b)
    ensures TryWrite(env, b, key, list, refCount, pos).1 == OutcomeOf(env, b, key, list, pos)
  {
    FindIffStored(env, b.index, b.random, key);
    MeaningKeys(Entries(b.index), b.data);
    VacancyIff(env, b.index, b.random, key);
    if DataBucket(|list|) < |b.data| {
      if FindEntry(env, b.index, b.random, key).Some? {
        WriteEntryOutcome(env, b, FindEntry(env, b.index, b.random, key).value, list, refCount, pos);
      } else if FindVacancy(env, b.index, b.random, key).Some? {
        var ii := FindVacancy(env, b.index, b.random, key).value;
        CreatedMeans(env, b, ii, key);
        WriteEntryOutcome(env, Created(env, b, ii, key), ii, list, refCount, pos);
      }
    }
  }

  /** A list that has to move goes to the first free cell from `pos` on, under the uid of its key. */
  ghost predicate PutAt<T>(env: Env<T>, b: Bucket<T>, key: Pubkey, list: seq<T>, pos: nat, d: nat, b': Bucket<T>) {
    var best := DataBucket(|list|);
    && best < |b.data| && |b'.data| == |b.data| && d < env.maxSearch && FirstFree(b.data[best], pos, d)
    && var i := Slot(pos, d, |b.data[best].cells|);
    && i < |b'.data[best].cells| && b'.data[best].cells[i].lock == KeyUid(env, key)
    && list <= b'.data[best].cells[i].item
  }

  lemma WriteEntryPlaces<T>(env: Env<T>, b: Bucket<T>, ii: nat, list: seq<T>, refCount: nat, pos: nat) returns (d: nat)
    requires LiveInv(env, b) && b.index.Occupied(ii) && DataBucket(|list|) < |b.data| && list != []
    requires !StaysInPlace(Map(env, b), b.index.cells[ii].item.key, list)
    requires WriteEntry(env, b, ii, list, refCount, pos).1.Ok?
    ensures PutAt(env, b, b.index.cells[ii].item.key, list, pos, d, WriteEntry(env, b, ii, list, refCount, pos).0)
  {
    var best := DataBucket(|list|);
    CapacityAtLeastDefault(b.data, best);
    EntryInMap(env, b, ii);
    EntryIsStored(env, b, ii);
    d := ProbeFreeIsFirst(b.data[best], pos, 0, env.maxSearch);
  }

  lemma TryWritePlaces<T>(env: Env<T>, b: Bucket<T>, key: Pubkey, list: seq<T>, refCount: nat, pos: nat) returns (d: nat)
    requires LiveInv(env, b) && list != [] && !StaysInPlace(Map(env, b), key, list)
    requires TryWrite(env, b, key, list, refCount, pos).1.Ok?
    ensures PutAt(env, b, key, list, pos, d, TryWrite(env, b, key, list, refCount, pos).0)
  {
    if FindEntry(env, b.index, b.random, key).Some? {
      d := WriteEntryPlaces(env, b, FindEntry(env, b.index, b.random, key).value, list, refCount, pos);
    } else {
      var ii := FindVacancy(env, b.index, b.random, key).value;
      CreatedMeans(env, b, ii, key);
      d := WriteEntryPlaces(env, Created(env, b, ii, key), ii, list, refCount, pos);
    }
  }

  /** A write that fails has emptied no list. */
  lemma RefusedWriteLeaksNothing<T>(env: Env<T>, b: Bucket<T>, key: Pubkey, list: seq<T>, refCount: nat, pos: nat)
    requires LiveInv(env, b) && TryWrite(env, b, key, list, refCount, pos).1.Err?
    ensures LeakOf(Map(env, b), key, list) == 0
  {
    TryWriteAnswers(env, b, key, list, refCount, pos);
    if LeakOf(Map(env, b), key, list) > 0 {
      EmptyingStaysInPlace(Map(env, b), key, list);
    }
  }

  lemma DeleteKeyMeans<T>(env: Env<T>, b: Bucket<T>, key: Pubkey)
    requires LiveInv(env, b)
    ensures var b' := DeleteKey(env, b, key);
            && LiveInv(env, b')
            && Map(env, b') == Map(env, b) - {key}
            && b'.reallocated == b.reallocated
  {
    match FindEntry(env, b.index, b.random, key)
    case None =>
      FindIffStored(env, b.index, b.random, key);
      MeaningKeys(Entries(b.index), b.data);
    case Some(ii) =>
      Removed(env, b.index, b.random, ii);
      DataFreedMeans(env, b, ii);
  }

  lemma BumpMeans<T>(env: Env<T>, b: Bucket<T>, key: Pubkey, delta: int)
    requires LiveInv(env, b)
    ensures var (b', r) := Bump(env, b, key, delta);
            var m := Map(env, b);
            && LiveInv(env, b')
            && Map(env, b') == (if key in m then m[key := Value(m[key].list, Bumped(m[key].refCount, delta))] else m)
            && r == (if key in m then Some(Bumped(m[key].refCount, delta)) else None)
            && b'.reallocated == b.reallocated
  {
    FindIffStored(env, b.index, b.random, key);
    MeaningKeys(Entries(b.index), b.data);
    match FindEntry(env, b.index, b.random, key)
    case None =>
    case Some(ii) =>
      EntryInMap(env, b, ii);
      CountSetMeans(env, b, ii, Bumped(b.index.cells[ii].item.refCount, delta));
  }
}
