/**
 The data storages. `data[b]` holds the lists of up to `2^b` elements, one list per cell. An entry with
 a non-empty list owns the cell its offset points to; an entry with an empty list owns none.
 */
module DataCells {
  import opened Arithmetic
  import opened IndexEntry
  import opened IndexTable
  import opened Storage

  type DataStorage<+T> = Storage<seq<T>>

  datatype Value<+T> = Value(list: seq<T>, refCount: nat)

  ghost predicate BucketValid<T>(s: DataStorage<T>, b: nat) {
    && s.Valid()
    && s.capacityPow2 >= DEFAULT_CAPACITY_POW2
    && forall i :: 0 <= i < |s.cells| ==> |s.cells[i].item| == Pow2(b)
  }

  ghost predicate DataValid<T>(data: seq<DataStorage<T>>) {
    forall b {:trigger BucketValid(data[b], b)} :: 0 <= b < |data| ==> BucketValid(data[b], b)
  }

  /** The entry's data storage exists and is no smaller than when the entry was written. */
  predicate Locatable<T>(data: seq<DataStorage<T>>, e: IndexEntry) {
    && DataBucket(e.numSlots) < |data|
    && e.createdPow2 <= data[DataBucket(e.numSlots)].capacityPow2
  }

  function CellOf<T>(data: seq<DataStorage<T>>, e: IndexEntry): nat
    requires Locatable(data, e)
  {
    DataLoc(e, data[DataBucket(e.numSlots)].capacityPow2)
  }

  /** The entry's offset means a cell of its storage, locked by the key if the list is not empty. */
  ghost predicate Stored<T>(env: Env<T>, data: seq<DataStorage<T>>, e: IndexEntry) {
    && Locatable(data, e)
    && e.offset < Pow2(e.createdPow2)
    && (e.numSlots > 0 ==>
          && data[DataBucket(e.numSlots)].Occupied(CellOf(data, e))
          && data[DataBucket(e.numSlots)].cells[CellOf(data, e)].lock == KeyUid(env, e.key))
  }

  /** The entry's list is kept in cell `i` of data storage `b`. */
  ghost predicate Owns<T>(data: seq<DataStorage<T>>, e: IndexEntry, b: nat, i: nat) {
    e.numSlots > 0 && DataBucket(e.numSlots) == b && Locatable(data, e) && CellOf(data, e) == i
  }

  ghost predicate AllStored<T>(env: Env<T>, entries: set<IndexEntry>, data: seq<DataStorage<T>>) {
    forall e {:trigger Stored(env, data, e)} :: e in entries ==> Stored(env, data, e)
  }

  /** No cell has two owners. */
  ghost predicate Disjoint<T>(entries: set<IndexEntry>, data: seq<DataStorage<T>>) {
    forall e, e', b, i {:trigger Owns(data, e, b, i), Owns(data, e', b, i)} ::
      e in entries && e' in entries && Owns(data, e, b, i) && Owns(data, e', b, i) ==> e == e'
  }

  ghost predicate Unowned<T>(entries: set<IndexEntry>, data: seq<DataStorage<T>>, b: nat, i: nat) {
    forall x :: x in entries ==> !Owns(data, x, b, i)
  }

  ghost predicate DataInv<T>(env: Env<T>, entries: set<IndexEntry>, data: seq<DataStorage<T>>) {
    && UniqueKeys(entries)
    && DataValid(data)
    && AllStored(env, entries, data)
    && Disjoint(entries, data)
  }

  /** The entry's list: the first `numSlots` elements of its cell. `StoredList` shows the cell holds that many. */
  function ListOf<T>(data: seq<DataStorage<T>>, e: IndexEntry): (list: seq<T>) {
    var b := DataBucket(e.numSlots);
    if e.numSlots > 0 && Locatable(data, e) then
      var i := CellOf(data, e);
      if i < |data[b].cells| && e.numSlots <= |data[b].cells[i].item|
      then data[b].cells[i].item[..e.numSlots] else []
    else []
  }

  /** A slice of `numSlots` elements never leaves the cell it is taken from. */
  lemma StoredList<T>(env: Env<T>, data: seq<DataStorage<T>>, e: IndexEntry)
    requires DataValid(data) && Stored(env, data, e) && e.numSlots > 0
    ensures var cell := data[DataBucket(e.numSlots)].cells[CellOf(data, e)];
            e.numSlots <= |cell.item| && ListOf(data, e) == cell.item[..e.numSlots]
  {
    assert BucketValid(data[DataBucket(e.numSlots)], DataBucket(e.numSlots));
  }

  function ValueOf<T>(data: seq<DataStorage<T>>, e: IndexEntry): Value<T> {
    Value(ListOf(data, e), e.refCount)
  }

  /** What a bucket means: the plain map from keys to lists and reference counts. */
  ghost function Meaning<T>(entries: set<IndexEntry>, data: seq<DataStorage<T>>): map<Pubkey, Value<T>>
    requires UniqueKeys(entries)
  {
    map e | e in entries :: e.key := ValueOf(data, e)
  }

  lemma MeaningAt<T>(entries: set<IndexEntry>, data: seq<DataStorage<T>>, e: IndexEntry)
    requires UniqueKeys(entries) && e in entries
    ensures e.key in Meaning(entries, data) && Meaning(entries, data)[e.key] == ValueOf(data, e)
  {
  }

  lemma MeaningKeys<T>(entries: set<IndexEntry>, data: seq<DataStorage<T>>)
    requires UniqueKeys(entries)
    ensures Meaning(entries, data).Keys == KeysOf(entries)
  {
  }

  lemma MeaningJoin<T>(entries: set<IndexEntry>, data: seq<DataStorage<T>>, e: IndexEntry)
    requires UniqueKeys(entries) && e.key !in KeysOf(entries)
    ensures UniqueKeys(entries + {e})
    ensures Meaning(entries + {e}, data) == Meaning(entries, data)[e.key := ValueOf(data, e)]
  {
    var m := Meaning(entries, data)[e.key := ValueOf(data, e)];
    forall x | x in entries ensures x.key != e.key && m[x.key] == ValueOf(data, x) {
      assert x.key in KeysOf(entries);
      MeaningAt(entries, data, x);
    }
    var m' := Meaning(entries + {e}, data);
    forall x | x in entries + {e} ensures x.key in m && x.key in m' && m'[x.key] == m[x.key] {
      MeaningAt(entries + {e}, data, x);
    }
    MeaningKeys(entries, data);
    MeaningKeys(entries + {e}, data);
  }

  lemma MeaningLeave<T>(entries: set<IndexEntry>, data: seq<DataStorage<T>>, e: IndexEntry)
    requires UniqueKeys(entries) && e in entries
    ensures UniqueKeys(entries - {e}) && e.key !in KeysOf(entries - {e})
    ensures Meaning(entries - {e}, data) == Meaning(entries, data) - {e.key}
  {
    var m, m' := Meaning(entries, data) - {e.key}, Meaning(entries - {e}, data);
    forall x | x in entries - {e} ensures x.key in m && x.key in m' && m'[x.key] == m[x.key] {
      MeaningAt(entries, data, x);
      MeaningAt(entries - {e}, data, x);
    }
    MeaningKeys(entries, data);
    MeaningKeys(entries - {e}, data);
  }

  lemma MeaningFrame<T>(entries: set<IndexEntry>, data: seq<DataStorage<T>>, data': seq<DataStorage<T>>)
    requires UniqueKeys(entries)
    requires forall x :: x in entries ==> ListOf(data', x) == ListOf(data, x)
    ensures Meaning(entries, data') == Meaning(entries, data)
  {
  }

  // ---------------------------------------------------------------------------------------------
  // Frames

  /** Nothing but the cell `i` of bucket `b` may differ, and the counts. */
  ghost predicate SameExcept<T>(data: seq<DataStorage<T>>, data': seq<DataStorage<T>>, b: nat, i: nat) {
    && |data'| == |data|
    && (forall c :: 0 <= c < |data| ==>
          && data'[c].capacityPow2 == data[c].capacityPow2
          && |data'[c].cells| == |data[c].cells|)
    && (forall c, j :: 0 <= c < |data| && 0 <= j < |data[c].cells| && (c != b || j != i) ==>
          data'[c].cells[j] == data[c].cells[j])
  }

  /** The entry keeps its cell and its list. */
  ghost predicate Kept<T>(env: Env<T>, data: seq<DataStorage<T>>, data': seq<DataStorage<T>>, e: IndexEntry)
    requires Stored(env, data, e)
  {
    && Stored(env, data', e)
    && CellOf(data', e) == CellOf(data, e)
    && ListOf(data', e) == ListOf(data, e)
  }

  lemma KeptOutside<T>(env: Env<T>, data: seq<DataStorage<T>>, data': seq<DataStorage<T>>, b: nat, i: nat, e: IndexEntry)
    requires SameExcept(data, data', b, i)
    requires Stored(env, data, e) && !Owns(data, e, b, i)
    ensures Kept(env, data, data', e)
  {
    if e.numSlots > 0 {
      var c, j := DataBucket(e.numSlots), CellOf(data, e);
      assert data'[c].cells[j] == data[c].cells[j];
    }
  }

  lemma KeptInv<T>(env: Env<T>, entries: set<IndexEntry>, data: seq<DataStorage<T>>, data': seq<DataStorage<T>>)
    requires DataInv(env, entries, data) && DataValid(data')
    requires forall x :: x in entries ==> Stored(env, data, x) && Kept(env, data, data', x)
    ensures DataInv(env, entries, data')
    ensures Meaning(entries, data') == Meaning(entries, data)
  {
    MeaningFrame(entries, data, data');
    forall x | x in entries ensures Stored(env, data', x) {
      assert Kept(env, data, data', x);
    }
    forall e, e', b, i | e in entries && e' in entries && Owns(data', e, b, i) && Owns(data', e', b, i)
      ensures e == e'
    {
      assert Kept(env, data, data', e) && Kept(env, data, data', e');
      assert Owns(data, e, b, i) && Owns(data, e', b, i);
    }
  }

  /** A new entry joins, owning nothing that another entry owns. */
  lemma Join<T>(env: Env<T>, entries: set<IndexEntry>, data: seq<DataStorage<T>>, e: IndexEntry)
    requires DataInv(env, entries, data) && Stored(env, data, e)
    requires e.key !in KeysOf(entries)
    requires forall b, i :: Owns(data, e, b, i) ==> Unowned(entries, data, b, i)
    ensures DataInv(env, entries + {e}, data)
    ensures Meaning(entries + {e}, data) == Meaning(entries, data)[e.key := ValueOf(data, e)]
  {
    MeaningJoin(entries, data, e);
    JoinDisjoint(entries, data, e);
  }

  lemma JoinDisjoint<T>(entries: set<IndexEntry>, data: seq<DataStorage<T>>, e: IndexEntry)
    requires Disjoint(entries, data)
    requires forall b, i :: Owns(data, e, b, i) ==> Unowned(entries, data, b, i)
    ensures Disjoint(entries + {e}, data)
  {
  }

  /** An entry leaves; what it owned becomes nobody's. */
  lemma Leave<T>(env: Env<T>, entries: set<IndexEntry>, data: seq<DataStorage<T>>, e: IndexEntry)
    requires DataInv(env, entries, data) && e in entries
    ensures DataInv(env, entries - {e}, data)
    ensures e.key !in KeysOf(entries - {e})
    ensures Meaning(entries - {e}, data) == Meaning(entries, data) - {e.key}
    ensures forall b, i :: Owns(data, e, b, i) ==> Unowned(entries - {e}, data, b, i)
  {
    MeaningLeave(entries, data, e);
  }
}
