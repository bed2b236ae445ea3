/** The changes that writes, deletes and growth make to the data storages, each with its effect on the meaning. */
module DataOps {
  import opened Arithmetic
  import opened DataCells
  import opened IndexEntry
  import opened IndexTable
  import opened Storage

  /** Copies a list over the beginning of a cell. */
  function Blit<T>(item: seq<T>, list: seq<T>): (r: seq<T>)
    requires |list| <= |item|
    ensures |r| == |item| && r[..|list|] == list
  {
    list + item[|list|..]
  }

  function OverwriteAt<T>(data: seq<DataStorage<T>>, b: nat, i: nat, list: seq<T>): seq<DataStorage<T>>
    requires b < |data| && i < |data[b].cells| && |list| <= |data[b].cells[i].item|
  {
    data[b := data[b].WithCell(i, data[b].cells[i].lock, Blit(data[b].cells[i].item, list))]
  }

  function FreeAt<T>(data: seq<DataStorage<T>>, b: nat, i: nat): seq<DataStorage<T>>
    requires b < |data| && i < |data[b].cells| && data[b].count > 0
  {
    data[b := data[b].Free(i)]
  }

  function AllocateAt<T>(data: seq<DataStorage<T>>, b: nat, i: nat, uid: nat, list: seq<T>): seq<DataStorage<T>>
    requires b < |data| && i < |data[b].cells| && |list| <= |data[b].cells[i].item|
  {
    data[b := data[b].Allocate(i, uid, Blit(data[b].cells[i].item, list))]
  }

  // ---------------------------------------------------------------------------------------------
  // Validity of the storages

  lemma ItemFits<T>(data: seq<DataStorage<T>>, b: nat, i: nat)
    requires DataValid(data) && b < |data|
    ensures BucketValid(data[b], b)
    ensures i < |data[b].cells| ==> |data[b].cells[i].item| == Pow2(b)
  {
    assert BucketValid(data[b], b);
  }

  lemma ReplacedValid<T>(data: seq<DataStorage<T>>, b: nat, s: DataStorage<T>)
    requires DataValid(data) && b < |data| && BucketValid(s, b)
    ensures DataValid(data[b := s])
  {
    var data' := data[b := s];
    forall c | 0 <= c < |data'| ensures BucketValid(data'[c], c) {
      assert c != b ==> BucketValid(data[c], c);
    }
  }

  lemma OverwriteValid<T>(data: seq<DataStorage<T>>, b: nat, i: nat, list: seq<T>)
    requires DataValid(data) && b < |data| && data[b].Occupied(i) && |list| <= Pow2(b)
    ensures |list| <= |data[b].cells[i].item|
    ensures DataValid(OverwriteAt(data, b, i, list))
    ensures SameExcept(data, OverwriteAt(data, b, i, list), b, i)
  {
    ItemFits(data, b, i);
    var item := Blit(data[b].cells[i].item, list);
    OverwriteKeepsValid(data[b], i, item);
    ReplacedValid(data, b, data[b].WithCell(i, data[b].cells[i].lock, item));
  }

  lemma FreeValid<T>(data: seq<DataStorage<T>>, b: nat, i: nat)
    requires DataValid(data) && b < |data| && data[b].Occupied(i)
    ensures data[b].count > 0
    ensures DataValid(FreeAt(data, b, i))
    ensures SameExcept(data, FreeAt(data, b, i), b, i)
  {
    ItemFits(data, b, i);
    FreeKeepsValid(data[b], i);
    ReplacedValid(data, b, data[b].Free(i));
  }

  lemma AllocateValid<T>(data: seq<DataStorage<T>>, b: nat, i: nat, uid: nat, list: seq<T>)
    requires DataValid(data) && b < |data| && i < |data[b].cells| && !data[b].Occupied(i)
    requires uid != UNLOCKED && |list| <= Pow2(b)
    ensures |list| <= |data[b].cells[i].item|
    ensures DataValid(AllocateAt(data, b, i, uid, list))
    ensures SameExcept(data, AllocateAt(data, b, i, uid, list), b, i)
  {
    ItemFits(data, b, i);
    var item := Blit(data[b].cells[i].item, list);
    AllocateKeepsValid(data[b], i, uid, item);
    ReplacedValid(data, b, data[b].Allocate(i, uid, item));
  }

  /** Changing a cell that no entry owns changes no entry. */
  lemma UnownedCellChanged<T>(env: Env<T>, entries: set<IndexEntry>,
                              data: seq<DataStorage<T>>, data': seq<DataStorage<T>>, b: nat, i: nat)
    requires DataInv(env, entries, data) && DataValid(data') && SameExcept(data, data', b, i)
    requires Unowned(entries, data, b, i)
    ensures DataInv(env, entries, data')
    ensures Meaning(entries, data') == Meaning(entries, data)
    ensures Unowned(entries, data', b, i)
  {
    forall x | x in entries ensures Stored(env, data, x) && Kept(env, data, data', x) {
      assert Stored(env, data, x);
      KeptOutside(env, data, data', b, i, x);
    }
    KeptInv(env, entries, data, data');
  }

  // ---------------------------------------------------------------------------------------------
  // The effect on entries and meaning

  /** The rewritten entry for an overwrite in place. */
  function Resliced(e: IndexEntry, refCount: nat, numSlots: nat): IndexEntry {
    e.(refCount := refCount, numSlots := numSlots)
  }

  /** The rewritten entry for a list that moved to cell `i` of a storage of the given capacity. */
  function Relocated(e: IndexEntry, refCount: nat, numSlots: nat, i: nat, capacityPow2: nat): IndexEntry {
    IndexEntry(e.key, refCount, capacityPow2, i, numSlots)
  }

  lemma Overwritten<T>(env: Env<T>, entries: set<IndexEntry>, data: seq<DataStorage<T>>,
                       e: IndexEntry, refCount: nat, list: seq<T>)
    requires DataInv(env, entries, data) && e in entries && Stored(env, data, e) && e.numSlots > 0
    requires DataBucket(|list|) == DataBucket(e.numSlots)
    ensures var b, i, e' := DataBucket(e.numSlots), CellOf(data, e), Resliced(e, refCount, |list|);
            && |list| <= |data[b].cells[i].item|
            && DataInv(env, entries - {e} + {e'}, OverwriteAt(data, b, i, list))
            && Meaning(entries - {e} + {e'}, OverwriteAt(data, b, i, list)) ==
               Meaning(entries, data)[e.key := Value(list, refCount)]
  {
    var b, i, e' := DataBucket(e.numSlots), CellOf(data, e), Resliced(e, refCount, |list|);
    OverwriteValid(data, b, i, list);
    var data' := OverwriteAt(data, b, i, list);
    Leave(env, entries, data, e);
    assert Owns(data, e, b, i);
    UnownedCellChanged(env, entries - {e}, data, data', b, i);
    assert Locatable(data', e') && CellOf(data', e') == i;
    if |list| > 0 {
      StoredList(env, data', e');
    }
    Join(env, entries - {e}, data', e');
    MapPut(Meaning(entries, data), e.key, Value(list, refCount));
  }

  lemma Released<T>(env: Env<T>, entries: set<IndexEntry>, data: seq<DataStorage<T>>, e: IndexEntry)
    requires DataInv(env, entries, data) && e in entries && Stored(env, data, e) && e.numSlots > 0
    ensures var b, i := DataBucket(e.numSlots), CellOf(data, e);
            && data[b].count > 0
            && DataInv(env, entries - {e}, FreeAt(data, b, i))
            && e.key !in KeysOf(entries - {e})
            && Meaning(entries - {e}, FreeAt(data, b, i)) == Meaning(entries, data) - {e.key}
  {
    var b, i := DataBucket(e.numSlots), CellOf(data, e);
    FreeValid(data, b, i);
    Leave(env, entries, data, e);
    assert Owns(data, e, b, i);
    UnownedCellChanged(env, entries - {e}, data, FreeAt(data, b, i), b, i);
  }

  /** A free cell has no owner. */
  lemma FreeCellUnowned<T>(env: Env<T>, entries: set<IndexEntry>, data: seq<DataStorage<T>>, b: nat, i: nat)
    requires AllStored(env, entries, data) && b < |data| && !data[b].Occupied(i)
    ensures Unowned(entries, data, b, i)
  {
    forall x | x in entries ensures !Owns(data, x, b, i) {
      assert Stored(env, data, x);
    }
  }

  lemma Filled<T>(env: Env<T>, entries: set<IndexEntry>, data: seq<DataStorage<T>>,
                  e: IndexEntry, refCount: nat, list: seq<T>, i: nat)
    requires DataInv(env, entries, data) && e.key !in KeysOf(entries) && |list| > 0
    requires DataBucket(|list|) < |data|
    requires i < |data[DataBucket(|list|)].cells| && !data[DataBucket(|list|)].Occupied(i)
    ensures var b := DataBucket(|list|);
            var e' := Relocated(e, refCount, |list|, i, data[b].capacityPow2);
            && |list| <= |data[b].cells[i].item|
            && var data' := AllocateAt(data, b, i, KeyUid(env, e.key), list);
            && DataInv(env, entries + {e'}, data')
            && Meaning(entries + {e'}, data') == Meaning(entries, data)[e.key := Value(list, refCount)]
  {
    var b := DataBucket(|list|);
    var e' := Relocated(e, refCount, |list|, i, data[b].capacityPow2);
    AllocateValid(data, b, i, KeyUid(env, e.key), list);
    ItemFits(data, b, i);
    var data' := AllocateAt(data, b, i, KeyUid(env, e.key), list);
    FreeCellUnowned(env, entries, data, b, i);
    UnownedCellChanged(env, entries, data, data', b, i);
    assert Locatable(data', e') && CellOf(data', e') == i;
    StoredList(env, data', e');
    Join(env, entries, data', e');
  }

  /** An entry with an empty list needs no cell. */
  lemma Emptied<T>(env: Env<T>, entries: set<IndexEntry>, data: seq<DataStorage<T>>, e: IndexEntry)
    requires DataInv(env, entries, data) && e.key !in KeysOf(entries)
    requires e.numSlots == 0 && |data| > 0
    requires e.createdPow2 <= data[0].capacityPow2 && e.offset < Pow2(e.createdPow2)
    ensures DataInv(env, entries + {e}, data)
    ensures Meaning(entries + {e}, data) == Meaning(entries, data)[e.key := Value([], e.refCount)]
  {
    Join(env, entries, data, e);
  }

  /** Changing the reference count alone. */
  lemma Recounted<T>(env: Env<T>, entries: set<IndexEntry>, data: seq<DataStorage<T>>, e: IndexEntry, refCount: nat)
    requires DataInv(env, entries, data) && e in entries
    ensures var e' := e.(refCount := refCount);
            && DataInv(env, entries - {e} + {e'}, data)
            && Meaning(entries - {e} + {e'}, data) ==
               Meaning(entries, data)[e.key := Value(ListOf(data, e), refCount)]
  {
    var e' := e.(refCount := refCount);
    Leave(env, entries, data, e);
    assert Stored(env, data, e);
    forall b, i | Owns(data, e', b, i) ensures Unowned(entries - {e}, data, b, i) {
      assert Owns(data, e, b, i);
    }
    Join(env, entries - {e}, data, e');
    MapPut(Meaning(entries, data), e.key, Value(ListOf(data, e), refCount));
  }

  lemma MapPut<K, V>(m: map<K, V>, k: K, v: V)
    ensures (m - {k})[k := v] == m[k := v]
  {
  }

  // ---------------------------------------------------------------------------------------------
  // Growth

  /** Replacing one storage by its resized copy moves every list together with its owner's cell. */
  lemma Grown<T>(env: Env<T>, entries: set<IndexEntry>, data: seq<DataStorage<T>>, b: nat, newPow2: nat, blank: seq<T>)
    requires DataInv(env, entries, data) && b < |data| && BucketValid(data[b], b) && data[b].capacityPow2 <= newPow2
    requires |blank| == Pow2(b)
    ensures DataInv(env, entries, data[b := Resized(data[b], newPow2, blank)])
    ensures Meaning(entries, data[b := Resized(data[b], newPow2, blank)]) == Meaning(entries, data)
  {
    var data' := data[b := Resized(data[b], newPow2, blank)];
    ResizedKeepsValid(data[b], newPow2, blank);
    ResizedItems(data[b], newPow2, blank, b);
    ReplacedValid(data, b, data'[b]);
    forall e | e in entries ensures Stored(env, data', e) && ListOf(data', e) == ListOf(data, e) {
      assert Stored(env, data, e);
      GrownOne(env, data, b, newPow2, blank, e);
    }
    MeaningFrame(entries, data, data');
    forall e, e', c, i | e in entries && e' in entries && Owns(data', e, c, i) && Owns(data', e', c, i)
      ensures e == e'
    {
      assert Stored(env, data, e) && Stored(env, data, e');
      GrownApart(env, data, b, newPow2, blank, e, e', c, i);
    }
  }

  lemma ResizedItems<T>(s: DataStorage<T>, newPow2: nat, blank: seq<T>, b: nat)
    requires BucketValid(s, b) && s.capacityPow2 <= newPow2 && |blank| == Pow2(b)
    ensures forall j :: 0 <= j < Pow2(newPow2) ==> |Resized(s, newPow2, blank).cells[j].item| == Pow2(b)
  {
    forall j: nat | j < Pow2(newPow2) ensures |Resized(s, newPow2, blank).cells[j].item| == Pow2(b) {
      ImageInRange(s.capacityPow2, newPow2, j);
      assert Resized(s, newPow2, blank).cells[j] == ResizedCell(s, newPow2, blank, j);
    }
  }

  /** `DataLoc` after growth is the cell the bytes were copied to, with lock and contents intact. */
  lemma GrownOne<T>(env: Env<T>, data: seq<DataStorage<T>>, b: nat, newPow2: nat, blank: seq<T>, e: IndexEntry)
    requires b < |data| && BucketValid(data[b], b) && Stored(env, data, e) && data[b].capacityPow2 <= newPow2
    ensures var data' := data[b := Resized(data[b], newPow2, blank)];
            && Stored(env, data', e)
            && ListOf(data', e) == ListOf(data, e)
            && (DataBucket(e.numSlots) == b ==>
                  && CellOf(data', e) == Shl(CellOf(data, e), newPow2 - data[b].capacityPow2)
                  && (e.numSlots > 0 ==> data'[b].cells[CellOf(data', e)] == data[b].cells[CellOf(data, e)]))
            && (DataBucket(e.numSlots) != b ==> CellOf(data', e) == CellOf(data, e))
  {
    if DataBucket(e.numSlots) == b {
      DataLocAfterGrowth(e, data[b].capacityPow2, newPow2);
      DataLocInRange(e, data[b].capacityPow2);
      ResizedImage(data[b], newPow2, blank, CellOf(data, e));
    }
  }

  /** Entries that share a cell after growth shared one before. */
  lemma GrownApart<T>(env: Env<T>, data: seq<DataStorage<T>>, b: nat, newPow2: nat, blank: seq<T>,
                      e: IndexEntry, e': IndexEntry, c: nat, i: nat)
    requires b < |data| && BucketValid(data[b], b) && data[b].capacityPow2 <= newPow2
    requires Stored(env, data, e) && Stored(env, data, e')
    requires var data' := data[b := Resized(data[b], newPow2, blank)]; Owns(data', e, c, i) && Owns(data', e', c, i)
    ensures Owns(data, e, c, CellOf(data, e)) && Owns(data, e', c, CellOf(data, e))
  {
    GrownOne(env, data, b, newPow2, blank, e);
    GrownOne(env, data, b, newPow2, blank, e');
    if c == b {
      ShlInjective(CellOf(data, e), CellOf(data, e'), newPow2 - data[b].capacityPow2);
    }
  }

  /** Appending empty storages. */
  lemma Appended<T>(env: Env<T>, entries: set<IndexEntry>, data: seq<DataStorage<T>>, extra: seq<DataStorage<T>>)
    requires DataInv(env, entries, data)
    requires forall c :: 0 <= c < |extra| ==> BucketValid(extra[c], |data| + c)
    ensures DataInv(env, entries, data + extra)
    ensures Meaning(entries, data + extra) == Meaning(entries, data)
  {
    var data' := data + extra;
    forall c | 0 <= c < |data'| ensures BucketValid(data'[c], c) {
      if c < |data| {
        assert BucketValid(data[c], c);
      } else {
        assert BucketValid(extra[c - |data|], |data| + (c - |data|));
      }
    }
    forall e | e in entries ensures Stored(env, data, e) && Kept(env, data, data', e) {
      assert Stored(env, data, e);
      assert data'[DataBucket(e.numSlots)] == data[DataBucket(e.numSlots)];
    }
    KeptInv(env, entries, data, data');
  }
}
