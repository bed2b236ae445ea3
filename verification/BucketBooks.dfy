/** Exact conservation of cells: every operation keeps the counts equal to what the plain map accounts for. */
module BucketBooks {
  import opened Arithmetic
  import opened BucketModel
  import opened BucketRefinement
  import opened DataCells
  import opened DataOps
  import opened IndexEntry
  import opened IndexTable
  import opened Storage

  /** The counts follow one list from the storage of `from` to that of `to`; `more` cells stay locked in `data[0]`. */
  ghost predicate CountsFollow<T>(data: seq<DataStorage<T>>, data': seq<DataStorage<T>>,
                                  from: seq<T>, to: seq<T>, more: nat)
  {
    forall c: nat :: CountAt(data', c) == CountAt(data, c) - In(from, c) + In(to, c) + if c == 0 then more else 0
  }

  lemma OverwriteCounts<T>(data: seq<DataStorage<T>>, b: nat, i: nat, from: seq<T>, to: seq<T>)
    requires b < |data| && i < |data[b].cells| && |to| <= |data[b].cells[i].item|
    requires |from| > 0 && DataBucket(|from|) == b == DataBucket(|to|)
    ensures CountsFollow(data, OverwriteAt(data, b, i, to), from, to, if |from| == 1 && to == [] then 1 else 0)
  {
    if to == [] {
      EmptyInPlaceWasOne(|from|);
    }
  }

  lemma EmptyInPlaceWasOne(numSlots: nat)
    requires numSlots > 0 && DataBucket(numSlots) == DataBucket(0)
    ensures numSlots == 1
  {
  }

  lemma MoveCounts<T>(data: seq<DataStorage<T>>, freed: seq<DataStorage<T>>, b: nat, i: nat, uid: nat,
                      from: seq<T>, to: seq<T>)
    requires CountsFollow(data, freed, from, [], 0)
    requires b == DataBucket(|to|) < |freed| && i < |freed[b].cells| && |to| <= |freed[b].cells[i].item|
    ensures CountsFollow(data, if |to| > 0 then AllocateAt(freed, b, i, uid, to) else freed, from, to, 0)
  {
  }

  /** The books stay balanced when the value of a key changes and the counts follow its list. */
  lemma BalancedPut<T>(m: map<Pubkey, Value<T>>, key: Pubkey, v: Value<T>, index: Table, index': Table,
                       data: seq<DataStorage<T>>, data': seq<DataStorage<T>>, leaked: nat, more: nat)
    requires Balanced(m, index, data, leaked) && CountsFollow(data, data', ListIn(m, key), v.list, more)
    requires index'.count == index.count + if key in m then 0 else 1
    ensures Balanced(m[key := v], index', data', leaked + more)
  {
    assert m[key := v].Keys == m.Keys + {key};
    assert |m[key := v]| == |m[key := v].Keys| && |m| == |m.Keys|;
    forall c: nat
      ensures CountAt(data', c) == |KeysIn(m[key := v], c)| + if c == 0 then leaked + more else 0
    {
      KeysInPutSize(m, key, v, c);
    }
  }

  lemma BalancedDrop<T>(m: map<Pubkey, Value<T>>, key: Pubkey, index: Table, index': Table,
                        data: seq<DataStorage<T>>, data': seq<DataStorage<T>>, leaked: nat)
    requires Balanced(m, index, data, leaked) && CountsFollow(data, data', ListIn(m, key), [], 0)
    requires key in m && index'.count == index.count - 1
    ensures Balanced(m - {key}, index', data', leaked)
  {
    assert (m - {key}).Keys == m.Keys - {key};
    assert |m - {key}| == |(m - {key}).Keys| && |m| == |m.Keys|;
    forall c: nat
      ensures CountAt(data', c) == |KeysIn(m - {key}, c)| + if c == 0 then leaked else 0
    {
      KeysInDropSize(m, key, c);
    }
  }

  // ---------------------------------------------------------------------------------------------
  // The counts of each kind of write

  lemma InPlaceCounts<T>(env: Env<T>, b: Bucket<T>, ii: nat, list: seq<T>, refCount: nat)
    requires LiveInv(env, b) && b.index.Occupied(ii)
    requires var e := b.index.cells[ii].item; DataBucket(|list|) == DataBucket(e.numSlots) && e.numSlots > 0
    ensures var e, m := b.index.cells[ii].item, Map(env, b);
            && Stored(env, b.data, e)
            && CellOf(b.data, e) < |b.data[DataBucket(e.numSlots)].cells|
            && |list| <= |b.data[DataBucket(e.numSlots)].cells[CellOf(b.data, e)].item|
            && CountsFollow(b.data, WrittenInPlace(b, ii, list, refCount).data, ListIn(m, e.key), list, LeakOf(m, e.key, list))
  {
    var e := b.index.cells[ii].item;
    EntryIsStored(env, b, ii);
    EntryInMap(env, b, ii);
    OverwriteCounts(b.data, DataBucket(e.numSlots), CellOf(b.data, e), ListOf(b.data, e), list);
  }

  lemma DataFreedCounts<T>(env: Env<T>, b: Bucket<T>, ii: nat)
    requires LiveInv(env, b) && b.index.Occupied(ii)
    ensures CountsFollow(b.data, DataFreed(env, b, ii), ListIn(Map(env, b), b.index.cells[ii].item.key), [], 0)
  {
    EntryInMap(env, b, ii);
    EntryIsStored(env, b, ii);
  }

  lemma ElsewhereCounts<T>(env: Env<T>, b: Bucket<T>, ii: nat, list: seq<T>, refCount: nat, ix: nat)
    requires LiveInv(env, b) && b.index.Occupied(ii) && DataBucket(|list|) < |b.data|
    requires ix < |b.data[DataBucket(|list|)].cells|
    ensures CountsFollow(b.data, WrittenElsewhere(env, b, ii, list, refCount, ix).data,
                         ListIn(Map(env, b), b.index.cells[ii].item.key), list, 0)
  {
    var e, best := b.index.cells[ii].item, DataBucket(|list|);
    DataFreedCounts(env, b, ii);
    EntryIsStored(env, b, ii);
    assert BucketValid(b.data[best], best);
    MoveCounts(b.data, DataFreed(env, b, ii), best, ix, b.index.cells[ii].lock, ListIn(Map(env, b), e.key), list);
  }

  lemma CountSetCounts<T>(env: Env<T>, b: Bucket<T>, ii: nat, refCount: nat, leaked: nat)
    requires LiveInv(env, b) && b.index.Occupied(ii) && Books(env, b, leaked)
    ensures var e := b.index.cells[ii].item;
            var b' := WithEntry(b, ii, e.(refCount := refCount));
            Balanced(OnlyCountSet(Map(env, b), e.key, refCount), b'.index, b'.data, leaked)
  {
    var e, m := b.index.cells[ii].item, Map(env, b);
    EntryInMap(env, b, ii);
    var b' := WithEntry(b, ii, e.(refCount := refCount));
    BalancedPut(m, e.key, Value(ListIn(m, e.key), refCount), b.index, b'.index, b.data, b'.data, leaked, 0);
  }

  lemma CreatedCounts<T>(env: Env<T>, b: Bucket<T>, ii: nat, key: Pubkey, leaked: nat)
    requires LiveInv(env, b) && ii < |b.index.cells| && key !in Map(env, b) && Books(env, b, leaked)
    ensures Balanced(Map(env, b)[key := Value([], 0)], Created(env, b, ii, key).index, b.data, leaked)
  {
    assert CountsFollow(b.data, b.data, ListIn(Map(env, b), key), [], 0);
    BalancedPut(Map(env, b), key, Value([], 0), b.index, Created(env, b, ii, key).index, b.data, b.data, leaked, 0);
  }

  // ---------------------------------------------------------------------------------------------
  // The operations

  lemma InPlaceBalances<T>(env: Env<T>, b: Bucket<T>, ii: nat, list: seq<T>, refCount: nat, pos: nat, leaked: nat)
    requires LiveInv(env, b) && b.index.Occupied(ii) && DataBucket(|list|) < |b.data| && Books(env, b, leaked)
    requires var e := b.index.cells[ii].item; DataBucket(|list|) == DataBucket(e.numSlots) && e.numSlots > 0
    ensures var key, m, r := b.index.cells[ii].item.key, Map(env, b), WriteEntry(env, b, ii, list, refCount, pos);
            && r.1.Ok?
            && Balanced(m[key := Value(list, refCount)], r.0.index, r.0.data, leaked + LeakOf(m, key, list))
  {
    var key, m := b.index.cells[ii].item.key, Map(env, b);
    EntryInMap(env, b, ii);
    InPlaceCounts(env, b, ii, list, refCount);
    var b' := WrittenInPlace(b, ii, list, refCount);
    BalancedPut(m, key, Value(list, refCount), b.index, b'.index, b.data, b'.data, leaked, LeakOf(m, key, list));
  }

  lemma ElsewhereBalances<T>(env: Env<T>, b: Bucket<T>, ii: nat, list: seq<T>, refCount: nat, ix: nat, leaked: nat)
    requires LiveInv(env, b) && b.index.Occupied(ii) && DataBucket(|list|) < |b.data| && Books(env, b, leaked)
    requires ix < |b.data[DataBucket(|list|)].cells|
    requires var e := b.index.cells[ii].item; DataBucket(|list|) != DataBucket(e.numSlots) || e.numSlots == 0
    ensures var key, m, b' := b.index.cells[ii].item.key, Map(env, b), WrittenElsewhere(env, b, ii, list, refCount, ix);
            Balanced(m[key := Value(list, refCount)], b'.index, b'.data, leaked + LeakOf(m, key, list))
  {
    var key, m := b.index.cells[ii].item.key, Map(env, b);
    EntryInMap(env, b, ii);
    ElsewhereCounts(env, b, ii, list, refCount, ix);
    var b' := WrittenElsewhere(env, b, ii, list, refCount, ix);
    BalancedPut(m, key, Value(list, refCount), b.index, b'.index, b.data, b'.data, leaked, 0);
  }

  lemma WriteEntryBalances<T>(env: Env<T>, b: Bucket<T>, ii: nat, list: seq<T>, refCount: nat, pos: nat, leaked: nat)
    requires LiveInv(env, b) && b.index.Occupied(ii) && DataBucket(|list|) < |b.data| && Books(env, b, leaked)
    ensures var key, m, r := b.index.cells[ii].item.key, Map(env, b), WriteEntry(env, b, ii, list, refCount, pos);
            && (r.1.Err? ==> r.1.error.DataNoSpace? && r.1.error.capacityPow2 > 0)
            && Balanced(WriteMeans(m, key, list, refCount, r.1), r.0.index, r.0.data, leaked + LeakOf(m, key, list))
  {
    var e, best := b.index.cells[ii].item, DataBucket(|list|);
    if best == DataBucket(e.numSlots) && e.numSlots > 0 {
      InPlaceBalances(env, b, ii, list, refCount, pos, leaked);
    } else if WriteEntry(env, b, ii, list, refCount, pos).1.Ok? {
      ElsewhereBalances(env, b, ii, list, refCount, ProbeFree(b.data[best], pos, 0, env.maxSearch).value, leaked);
    } else {
      EntryInMap(env, b, ii);
      CountSetCounts(env, b, ii, refCount, leaked);
      CapacityAtLeastDefault(b.data, best);
    }
  }

  /** A write keeps the books, with one more leaked cell when it empties a one-element list in place. */
  lemma TryWriteBalances<T>(env: Env<T>, b: Bucket<T>, key: Pubkey, list: seq<T>, refCount: nat, pos: nat, leaked: nat)
    requires LiveInv(env, b) && Books(env, b, leaked)
    ensures var r := TryWrite(env, b, key, list, refCount, pos);
            && LiveInv(env, r.0)
            && Books(env, r.0, leaked + LeakOf(Map(env, b), key, list))
  {
    TryWriteMeans(env, b, key, list, refCount, pos);
    if DataBucket(|list|) < |b.data| {
      if FindEntry(env, b.index, b.random, key).Some? {
        WriteEntryBalances(env, b, FindEntry(env, b.index, b.random, key).value, list, refCount, pos, leaked);
      } else if FindVacancy(env, b.index, b.random, key).Some? {
        NewKeyBalances(env, b, key, list, refCount, pos, leaked);
      } else {
        RefusedWriteLeaksNothing(env, b, key, list, refCount, pos);
      }
    } else {
      RefusedWriteLeaksNothing(env, b, key, list, refCount, pos);
    }
  }

  lemma NewKeyBalances<T>(env: Env<T>, b: Bucket<T>, key: Pubkey, list: seq<T>, refCount: nat, pos: nat, leaked: nat)
    requires LiveInv(env, b) && Books(env, b, leaked) && DataBucket(|list|) < |b.data|
    requires FindEntry(env, b.index, b.random, key).None? && FindVacancy(env, b.index, b.random, key).Some?
    ensures var r := TryWrite(env, b, key, list, refCount, pos);
            Balanced(WriteMeans(Map(env, b), key, list, refCount, r.1), r.0.index, r.0.data,
                     leaked + LeakOf(Map(env, b), key, list))
  {
    var ii := FindVacancy(env, b.index, b.random, key).value;
    CreatedMeans(env, b, ii, key);
    CreatedCounts(env, b, ii, key, leaked);
    var c := Created(env, b, ii, key);
    var r := WriteEntry(env, c, ii, list, refCount, pos);
    WriteEntryBalances(env, c, ii, list, refCount, pos, leaked);
    CreateThenWrite(Map(env, b), key, list, refCount, r.1);
  }

  ghost predicate NoSpaceFor<T>(maxSearch: nat, m: map<Pubkey, Value<T>>, leaked: nat, error: Error) {
    match error
    case IndexNoSpace(capacityPow2) => |m| >= Min(maxSearch, Pow2(capacityPow2))
    case DataNoSpace(ix, capacityPow2) =>
      var held := |KeysIn(m, ix)| + if ix == 0 then leaked else 0;
      if capacityPow2 == 0 then held == 0 else held >= Min(maxSearch, Pow2(capacityPow2))
  }

  /**
   A write is refused only for want of space. A full index, or a full data storage, holds as many lists as
   the window or the storage is long, not counting the cells lost before; a missing storage holds none.
   */
  lemma RefusedWriteFoundItFull<T>(env: Env<T>, b: Bucket<T>, key: Pubkey, list: seq<T>, refCount: nat, pos: nat, leaked: nat)
    requires LiveInv(env, b) && Books(env, b, leaked) && TryWrite(env, b, key, list, refCount, pos).1.Err?
    ensures NoSpaceFor(env.maxSearch, Map(env, b), leaked, TryWrite(env, b, key, list, refCount, pos).1.error)
  {
    var error := TryWrite(env, b, key, list, refCount, pos).1.error;
    TryWriteMeans(env, b, key, list, refCount, pos);
    match error
    case IndexNoSpace(_) =>
      FullWindowIsLarge(b.index, Home(env, key, b.random, |b.index.cells|), env.maxSearch);
    case DataNoSpace(ix, capacityPow2) =>
      assert CountAt(b.data, ix) == |KeysIn(Map(env, b), ix)| + if ix == 0 then leaked else 0;
      if capacityPow2 > 0 {
        CapacityAtLeastDefault(b.data, ix);
        RefusedWriteProbed(env, b, key, list, refCount, pos);
        FullWindowIsLarge(b.data[ix], pos, env.maxSearch);
      }
  }

  lemma RefusedWriteProbed<T>(env: Env<T>, b: Bucket<T>, key: Pubkey, list: seq<T>, refCount: nat, pos: nat)
    requires LiveInv(env, b)
    requires var r := TryWrite(env, b, key, list, refCount, pos).1;
             r.Err? && r.error.DataNoSpace? && DataBucket(|list|) < |b.data|
    ensures |b.data[DataBucket(|list|)].cells| > 0
    ensures ProbeFree(b.data[DataBucket(|list|)], pos, 0, env.maxSearch).None?
  {
    CapacityAtLeastDefault(b.data, DataBucket(|list|));
    if FindEntry(env, b.index, b.random, key).None? {
      CreatedMeans(env, b, FindVacancy(env, b.index, b.random, key).value, key);
    }
  }

  lemma DeleteKeyBalances<T>(env: Env<T>, b: Bucket<T>, key: Pubkey, leaked: nat)
    requires LiveInv(env, b) && Books(env, b, leaked)
    ensures LiveInv(env, DeleteKey(env, b, key)) && Books(env, DeleteKey(env, b, key), leaked)
  {
    DeleteKeyMeans(env, b, key);
    if FindEntry(env, b.index, b.random, key).Some? {
      var ii := FindEntry(env, b.index, b.random, key).value;
      EntryInMap(env, b, ii);
      DataFreedCounts(env, b, ii);
      OccupiedIsCounted(b.index, ii);
      var b' := DeleteKey(env, b, key);
      BalancedDrop(Map(env, b), key, b.index, b'.index, b.data, b'.data, leaked);
    }
  }

  lemma BumpBalances<T>(env: Env<T>, b: Bucket<T>, key: Pubkey, delta: int, leaked: nat)
    requires LiveInv(env, b) && Books(env, b, leaked)
    ensures LiveInv(env, Bump(env, b, key, delta).0) && Books(env, Bump(env, b, key, delta).0, leaked)
  {
    BumpMeans(env, b, key, delta);
    if FindEntry(env, b.index, b.random, key).Some? {
      var ii := FindEntry(env, b.index, b.random, key).value;
      EntryInMap(env, b, ii);
      CountSetCounts(env, b, ii, Bumped(b.index.cells[ii].item.refCount, delta), leaked);
    }
  }
}
