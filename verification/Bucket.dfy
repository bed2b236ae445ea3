/**
 The bucket as an object. Its methods search, write and grow in place; each is proved to take the
 bucket from one value to the next exactly as the function of the same name in `BucketModel`,
 `BucketGrowth` or `BucketInsert` does.
 */
module Bucket {
  import opened Arithmetic
  import opened BucketGrowth
  import opened BucketInsert
  import opened BucketModel
  import opened BucketRefinement
  import opened BucketStorage
  import opened DataCells
  import opened DataOps
  import opened IndexEntry
  import opened IndexGrowth
  import opened IndexTable
  import opened Storage
  import opened Wrappers

  type IndexStorage = BucketStorage<IndexEntry>
  type ListStorage<T> = BucketStorage<seq<T>>

  /** The growth that waits for the next writer. */
  class Pending<T> {
    var active: nat
    var index: Option<(nat, IndexStorage)>
    var data: Option<(nat, ListStorage<T>)>

    constructor ()
      ensures active == 0 && index == None && data == None
    {
      active, index, data := 0, None, None;
    }

    /** Only one reallocation may be pending. */
    method AddReallocation()
      requires active == 0
      modifies this`active
      ensures active == 1
    {
      active := active + 1;
    }

    /** Takes over the pending reallocation, if there is one. */
    method GetReallocated() returns (taken: bool)
      modifies this`active
      ensures taken <==> old(active) == 1
      ensures active == if taken then 0 else old(active)
    {
      taken := active == 1;
      if taken {
        active := 0;
      }
    }
  }

  class Bucket<T> {
    const env: Env<T>
    const count: Counter
    var index: IndexStorage
    var random: nat
    var data: seq<ListStorage<T>>
    const reallocated: Pending<T>

    /** The bucket as a value, and the objects it is made of. */
    ghost var state: BucketModel.Bucket<T>
    ghost var Repr: set<object>

    // -------------------------------------------------------------------------------------------
    // Representation

    /** No two storages share cells or counters; the index, whichever it is, counts with the bucket's counter. */
    ghost predicate Separate()
      reads this
    {
      && index.Sized() && index.count == count
      && (forall i :: 0 <= i < |data| ==> data[i].Sized())
      && (forall i, j :: 0 <= i < j < |data| ==> data[i].cells != data[j].cells && data[i].count != data[j].count)
      && (forall i :: 0 <= i < |data| ==> data[i].count != index.count)
      && (forall i :: 0 <= i < |data| ==> data[i].cells as object != index.cells as object)
    }

    ghost predicate InRepr()
      reads this
    {
      && this in Repr && reallocated in Repr
      && index.cells in Repr && index.count in Repr
      && (forall i :: 0 <= i < |data| ==> data[i].cells in Repr && data[i].count in Repr)
    }

    /** The live storages are what `state` says. */
    ghost predicate LiveView()
      reads this, Repr
    {
      && InRepr() && Separate()
      && index.View() == state.index && random == state.random
      && |data| == |state.data| && (forall i :: 0 <= i < |data| ==> data[i].View() == state.data[i])
    }

    ghost predicate PendingIndexView()
      requires InRepr()
      reads this, Repr
    {
      match reallocated.index
      case None => state.reallocated.index == None
      case Some((r, t)) =>
        && t.cells in Repr && t.count == index.count && t.Sized()
        && t.cells != index.cells && (forall i :: 0 <= i < |data| ==> data[i].cells as object != t.cells as object)
        && state.reallocated.index == Some((r, t.View()))
    }

    ghost predicate PendingDataView()
      requires InRepr()
      reads this, Repr
    {
      match reallocated.data
      case None => state.reallocated.data == None
      case Some((ix, s)) =>
        && s.cells in Repr && s.count in Repr && s.Sized()
        && s.cells as object != index.cells as object && s.count != index.count
        && (forall i :: 0 <= i < |data| ==> data[i].cells != s.cells && (i != ix ==> data[i].count != s.count))
        && state.reallocated.data == Some((ix, s.View()))
    }

    ghost predicate Valid()
      reads this, Repr
    {
      && LiveView()
      && reallocated.active == state.reallocated.active
      && PendingIndexView() && PendingDataView()
    }

    constructor (env: Env<T>, random: nat, count: Counter)
      requires count.value == 0
      ensures Valid() && this.env == env && this.count == count && fresh(Repr - {count})
      ensures state == NewBucket(random)
    {
      this.env := env;
      this.count := count;
      this.random := random;
      var i := new BucketStorage<IndexEntry>(DEFAULT_CAPACITY_POW2, ZERO_ENTRY, count);
      var p := new Pending<T>();
      index := i;
      data := [];
      reallocated := p;
      state := NewBucket(random);
      Repr := {this, p, i.cells, count};
    }

    // -------------------------------------------------------------------------------------------
    // Searching and reading

    method FindEntry(key: Pubkey) returns (r: Option<nat>)
      requires Valid()
      ensures |state.index.cells| > 0 && r == IndexTable.FindEntry(env, state.index, state.random, key)
    {
      var cap := Pow2(index.capacityPow2);
      var ix := Home(env, key, random, cap);
      var i := 0;
      while i < env.maxSearch
        invariant 0 <= i <= env.maxSearch
        invariant ProbeKey(state.index, key, ix, 0, env.maxSearch) == ProbeKey(state.index, key, ix, i, env.maxSearch)
      {
        var ii := Slot(ix, i, cap);
        var free := index.IsFree(ii);
        if !free {
          var elem := index.Get(ii);
          if elem.key == key {
            return Some(ii);
          }
        }
        i := i + 1;
      }
      r := None;
    }

    method ReadValue(key: Pubkey) returns (r: Option<Value<T>>)
      requires Valid() && LiveInv(env, state)
      ensures |state.index.cells| > 0 && r == BucketModel.ReadValue(env, state, key)
    {
      var found := FindEntry(key);
      if found.None? {
        return None;
      }
      var elem := index.Get(found.value);
      r := ReadEntry(elem, found.value);
    }

    /** The list of an entry, read from its cell after checking that the cell is locked by the key. */
    method ReadEntry(elem: IndexEntry, ghost ii: nat) returns (r: Option<Value<T>>)
      requires Valid() && LiveInv(env, state) && state.index.Occupied(ii) && elem == state.index.cells[ii].item
      ensures r == Some(ValueOf(state.data, elem))
    {
      EntryIsStored(env, state, ii);
      var bucketIx := DataBucket(elem.numSlots);
      if elem.numSlots > 0 {
        var loc := DataLoc(elem, data[bucketIx].capacityPow2);
        var uid := data[bucketIx].Uid(loc);
        assert uid == Some(KeyUid(env, elem.key));
        var item := data[bucketIx].Get(loc);
        StoredList(env, state.data, elem);
        r := Some(Value(item[..elem.numSlots], elem.refCount));
      } else {
        r := Some(Value([], elem.refCount));
      }
    }

    method Keys() returns (keys: seq<Pubkey>)
      requires Valid()
      ensures keys == BucketModel.Keys(state.index, 0)
    {
      keys := [];
      var i := 0;
      while i < index.cells.Length
        invariant 0 <= i <= index.cells.Length
        invariant keys + BucketModel.Keys(state.index, i) == BucketModel.Keys(state.index, 0)
      {
        var free := index.IsFree(i);
        if !free {
          var elem := index.Get(i);
          assert keys + ([elem.key] + BucketModel.Keys(state.index, i + 1)) == (keys + [elem.key]) + BucketModel.Keys(state.index, i + 1);
          keys := keys + [elem.key];
        }
        i := i + 1;
      }
    }

    /** The item of one cell, if it is allocated and in range. */
    method ItemAt(i: nat, inRange: Pubkey -> bool) returns (items: seq<BucketItem<T>>)
      requires Valid() && LiveInv(env, state) && i < |state.index.cells|
      ensures items + BucketModel.ItemsInRange(state, inRange, i + 1) == BucketModel.ItemsInRange(state, inRange, i)
    {
      items := [];
      var free := index.IsFree(i);
      if !free {
        var elem := index.Get(i);
        if inRange(elem.key) {
          var value := ReadEntry(elem, i);
          items := [BucketItem(elem.key, elem.refCount, value.value.list)];
        }
      }
    }

    method ItemsInRange(inRange: Pubkey -> bool) returns (items: seq<BucketItem<T>>)
      requires Valid() && LiveInv(env, state)
      ensures items == BucketModel.ItemsInRange(state, inRange, 0)
    {
      items := [];
      var i := 0;
      while i < index.cells.Length
        invariant 0 <= i <= index.cells.Length
        invariant items + BucketModel.ItemsInRange(state, inRange, i) == BucketModel.ItemsInRange(state, inRange, 0)
      {
        var here := ItemAt(i, inRange);
        ghost var rest := BucketModel.ItemsInRange(state, inRange, i + 1);
        assert items + (here + rest) == (items + here) + rest;
        items := items + here;
        i := i + 1;
      }
    }

    // -------------------------------------------------------------------------------------------
    // Single writes

    method PutEntry(ii: nat, e: IndexEntry)
      requires Valid() && state.reallocated == NothingPending() && ii < |state.index.cells|
      modifies Repr
      ensures Valid() && Repr == old(Repr) && index == old(index) && data == old(data)
      ensures state == WithEntry(old(state), ii, e)
    {
      index.Put(ii, e);
      state := WithEntry(state, ii, e);
    }

    method PutList(b: nat, i: nat, list: seq<T>)
      requires Valid() && state.reallocated == NothingPending()
      requires b < |state.data| && i < |state.data[b].cells| && |list| <= |state.data[b].cells[i].item|
      modifies Repr
      ensures Valid() && Repr == old(Repr) && index == old(index) && data == old(data)
      ensures state == old(state).(data := OverwriteAt(old(state).data, b, i, list))
    {
      var item := data[b].Get(i);
      data[b].Put(i, Blit(item, list));
      state := state.(data := OverwriteAt(state.data, b, i, list));
    }

    method FreeList(b: nat, i: nat, uid: nat)
      requires Valid() && state.reallocated == NothingPending()
      requires b < |state.data| && i < |state.data[b].cells| && state.data[b].count > 0
      requires uid != UNLOCKED && state.data[b].cells[i].lock == uid
      modifies Repr
      ensures Valid() && Repr == old(Repr) && index == old(index) && data == old(data)
      ensures state == old(state).(data := FreeAt(old(state).data, b, i))
    {
      data[b].Free(i, uid);
      state := state.(data := FreeAt(state.data, b, i));
    }

    method AllocateList(b: nat, i: nat, uid: nat, list: seq<T>)
      requires Valid() && state.reallocated == NothingPending()
      requires b < |state.data| && i < |state.data[b].cells| && |list| <= |state.data[b].cells[i].item|
      requires uid != UNLOCKED && !state.data[b].Occupied(i)
      modifies Repr
      ensures Valid() && Repr == old(Repr) && index == old(index) && data == old(data)
      ensures state == old(state).(data := AllocateAt(old(state).data, b, i, uid, list))
    {
      var ok := data[b].Allocate(i, uid, false);
      assert ok;
      var item := data[b].Get(i);
      data[b].Put(i, Blit(item, list));
      assert data[b].View() == AllocateAt(state.data, b, i, uid, list)[b];
      state := state.(data := AllocateAt(state.data, b, i, uid, list));
    }

    // -------------------------------------------------------------------------------------------
    // Writing

    method CreateKey(key: Pubkey) returns (r: Option<nat>)
      requires Valid() && state.reallocated == NothingPending()
      modifies Repr
      ensures Valid() && Repr == old(Repr) && index == old(index) && data == old(data)
      ensures |old(state).index.cells| > 0
      ensures r == FindVacancy(env, old(state).index, old(state).random, key)
      ensures r.None? ==> state == old(state)
      ensures r.Some? ==> state == Created(env, old(state), r.value, key)
    {
      r := CreateKeyIn(env, index, key, KeyUid(env, key), random, false);
      if r.Some? {
        state := Created(env, state, r.value, key);
      }
    }

    /** The write when the list stays in its cell. */
    method WriteInPlace(ii: nat, elem: IndexEntry, list: seq<T>, refCount: nat)
      requires Valid() && Writable(env, state) && state.index.Occupied(ii) && elem == state.index.cells[ii].item
      requires DataBucket(|list|) == DataBucket(elem.numSlots) < |state.data| && elem.numSlots > 0
      modifies Repr
      ensures Valid() && Repr == old(Repr)
      ensures (state, Ok) == BucketModel.WriteEntry(env, old(state), ii, list, refCount, 0)
    {
      EntryIsStored(env, state, ii);
      var b := DataBucket(elem.numSlots);
      var elemUid := index.Uid(ii);
      var loc := DataLoc(elem, data[b].capacityPow2);
      var uid := data[b].Uid(loc);
      assert uid == elemUid;
      PutEntry(ii, Resliced(elem, refCount, |list|));
      PutList(b, loc, list);
    }

    /** The write when the list moves to the free cell `ix` of its best-fit storage. */
    method WriteElsewhere(ii: nat, elem: IndexEntry, list: seq<T>, refCount: nat, ix: nat)
      requires Valid() && Writable(env, state) && state.index.Occupied(ii) && elem == state.index.cells[ii].item
      requires DataBucket(|list|) < |state.data|
      requires DataBucket(|list|) != DataBucket(elem.numSlots) || elem.numSlots == 0
      requires ix < |state.data[DataBucket(|list|)].cells| && !state.data[DataBucket(|list|)].Occupied(ix)
      modifies Repr
      ensures Valid() && Repr == old(Repr)
      ensures state == WrittenElsewhere(env, old(state), ii, list, refCount, ix)
    {
      EntryIsStored(env, state, ii);
      var best := DataBucket(|list|);
      ItemFits(state.data, best, ix);
      var b := DataBucket(elem.numSlots);
      var elemLoc := DataLoc(elem, data[b].capacityPow2);
      var elemUid := index.Uid(ii);
      if elem.numSlots > 0 {
        OccupiedIsCounted(state.data[b], elemLoc);
      }
      PutEntry(ii, Relocated(elem, refCount, |list|, ix, data[best].capacityPow2));
      if elem.numSlots > 0 {
        FreeList(b, elemLoc, elemUid.value);
      }
      if |list| > 0 {
        AllocateList(best, ix, elemUid.value, list);
      }
    }

    method WriteEntry(ii: nat, list: seq<T>, refCount: nat, pos: nat) returns (outcome: Outcome)
      requires Valid() && Writable(env, state) && state.index.Occupied(ii) && DataBucket(|list|) < |state.data|
      modifies Repr
      ensures Valid() && Repr == old(Repr)
      ensures (state, outcome) == BucketModel.WriteEntry(env, old(state), ii, list, refCount, pos)
    {
      var elem := index.Get(ii);
      var best := DataBucket(|list|);
      EntryIsStored(env, state, ii);
      ItemFits(state.data, best, 0);
      if best == DataBucket(elem.numSlots) && elem.numSlots > 0 {
        WriteInPlace(ii, elem, list, refCount);
        return Ok;
      }
      var free := FindFreeCell(best, pos);
      if free.Some? {
        WriteElsewhere(ii, elem, list, refCount, free.value);
        return Ok;
      }
      PutEntry(ii, elem.(refCount := refCount));
      outcome := Err(DataNoSpace(best, data[best].capacityPow2));
    }

    /** The search for a free data cell, from a random start position. */
    method FindFreeCell(b: nat, pos: nat) returns (r: Option<nat>)
      requires Valid() && b < |state.data|
      ensures |state.data[b].cells| > 0 && r == ProbeFree(state.data[b], pos, 0, env.maxSearch)
    {
      var cap := Pow2(data[b].capacityPow2);
      var i := 0;
      while i < env.maxSearch
        invariant 0 <= i <= env.maxSearch
        invariant ProbeFree(state.data[b], pos, 0, env.maxSearch) == ProbeFree(state.data[b], pos, i, env.maxSearch)
      {
        var ix := Slot(pos, i, cap);
        var free := data[b].IsFree(ix);
        if free {
          return Some(ix);
        }
        i := i + 1;
      }
      r := None;
    }

    method TryWrite(key: Pubkey, list: seq<T>, refCount: nat, pos: nat) returns (outcome: Outcome)
      requires Valid() && Writable(env, state)
      modifies Repr
      ensures Valid() && Repr == old(Repr)
      ensures (state, outcome) == BucketModel.TryWrite(env, old(state), key, list, refCount, pos)
    {
      var best := DataBucket(|list|);
      if best >= |data| {
        return Err(DataNoSpace(best, 0));
      }
      var found := FindEntry(key);
      if found.None? {
        var created := CreateKey(key);
        if created.None? {
          return Err(IndexNoSpace(index.capacityPow2));
        }
        CreatedMeans(env, old(state), created.value, key);
        found := created;
      }
      outcome := WriteEntry(found.value, list, refCount, pos);
    }

    method DeleteKey(key: Pubkey)
      requires Valid() && Writable(env, state)
      modifies Repr
      ensures Valid() && Repr == old(Repr)
      ensures state == BucketModel.DeleteKey(env, old(state), key)
    {
      var found := FindEntry(key);
      if found.Some? {
        var ii := found.value;
        EntryIsStored(env, state, ii);
        OccupiedIsCounted(state.index, ii);
        var elem := index.Get(ii);
        var elemUid := index.Uid(ii);
        if elem.numSlots > 0 {
          var b := DataBucket(elem.numSlots);
          var loc := DataLoc(elem, data[b].capacityPow2);
          OccupiedIsCounted(state.data[b], loc);
          FreeList(b, loc, elemUid.value);
        }
        FreeEntry(ii, elemUid.value);
      }
    }

    method FreeEntry(ii: nat, uid: nat)
      requires Valid() && state.reallocated == NothingPending()
      requires ii < |state.index.cells| && state.index.count > 0
      requires uid != UNLOCKED && state.index.cells[ii].lock == uid
      modifies Repr
      ensures Valid() && Repr == old(Repr) && index == old(index) && data == old(data)
      ensures state == old(state).(index := old(state).index.Free(ii))
    {
      index.Free(ii, uid);
      state := state.(index := state.index.Free(ii));
    }

    method AddRef(key: Pubkey) returns (r: Option<nat>)
      requires Valid() && Writable(env, state)
      modifies Repr
      ensures Valid() && Repr == old(Repr)
      ensures |old(state).index.cells| > 0 && (state, r) == Bump(env, old(state), key, 1)
    {
      var found := FindEntry(key);
      if found.None? {
        return None;
      }
      var elem := index.Get(found.value);
      PutEntry(found.value, elem.(refCount := (elem.refCount + 1) % U64));
      r := Some((elem.refCount + 1) % U64);
    }

    method UnRef(key: Pubkey) returns (r: Option<nat>)
      requires Valid() && Writable(env, state)
      modifies Repr
      ensures Valid() && Repr == old(Repr)
      ensures |old(state).index.cells| > 0 && (state, r) == Bump(env, old(state), key, -1)
    {
      var found := FindEntry(key);
      if found.None? {
        return None;
      }
      var elem := index.Get(found.value);
      PutEntry(found.value, elem.(refCount := (elem.refCount - 1) % U64));
      r := Some((elem.refCount - 1) % U64);
    }

    // -------------------------------------------------------------------------------------------
    // Growing

    /** Computes a larger index under the read lock. Nothing that a reader can see changes. */
    method GrowIndex(currentPow2: nat, seeds: seq<nat>)
      requires Valid() && Inv(env, state) && GrowAllowed(state, IndexNoSpace(currentPow2))
      modifies reallocated, this`state, this`Repr
      ensures Valid() && fresh(Repr - old(Repr)) && Repr >= old(Repr)
      ensures state == BucketGrowth.GrowIndex(env, old(state), currentPow2, seeds)
    {
      if index.capacityPow2 == currentPow2 {
        var r := RegrowIndex(env, index, random, seeds);
        if r.Some? {
          InstallIndex(r.value.0, r.value.1);
        }
      }
    }

    method InstallIndex(seed: nat, t: IndexStorage)
      requires Valid() && state.reallocated == NothingPending()
      requires t.Sized() && t.cells !in Repr && t.count == index.count
      modifies reallocated, this`state, this`Repr
      ensures Valid() && Repr == old(Repr) + {t.cells}
      ensures state == old(state).(reallocated := Reallocated(1, Some((seed, old(t.View()))), None))
    {
      reallocated.index := Some((seed, t));
      reallocated.AddReallocation();
      state := state.(reallocated := Reallocated(1, Some((seed, t.View())), None));
      Repr := Repr + {t.cells};
    }

    /** Computes a larger data storage under the read lock. Nothing that a reader can see changes. */
    method GrowData(ix: nat, currentPow2: nat)
      requires Valid() && Inv(env, state) && GrowAllowed(state, DataNoSpace(ix, currentPow2))
      modifies reallocated, this`state, this`Repr
      ensures Valid() && fresh(Repr - old(Repr)) && Repr >= old(Repr)
      ensures state == BucketGrowth.GrowData(env, old(state), ix, currentPow2)
    {
      var newPow2 := GrownPow2(currentPow2);
      var s: ListStorage<T>;
      if ix < |data| {
        s := NewResized(data[ix], newPow2, BlankItem(env, ix));
      } else {
        var count := new Counter(0);
        s := new BucketStorage<seq<T>>(newPow2, BlankItem(env, ix), count);
      }
      InstallData(ix, s);
    }

    method InstallData(ix: nat, s: ListStorage<T>)
      requires Valid() && state.reallocated == NothingPending()
      requires s.Sized() && s.cells !in Repr && if ix < |data| then s.count == data[ix].count else s.count !in Repr
      modifies reallocated, this`state, this`Repr
      ensures Valid() && Repr == old(Repr) + {s.cells, s.count}
      ensures state == old(state).(reallocated := Reallocated(1, None, Some((ix, old(s.View())))))
    {
      reallocated.AddReallocation();
      reallocated.data := Some((ix, s));
      state := state.(reallocated := Reallocated(1, None, Some((ix, s.View()))));
      Repr := Repr + {s.cells, s.count};
    }

    method Grow(error: Error, seeds: seq<nat>)
      requires Valid() && Inv(env, state) && GrowAllowed(state, error)
      modifies reallocated, this`state, this`Repr
      ensures Valid() && fresh(Repr - old(Repr)) && Repr >= old(Repr)
      ensures state == BucketGrowth.Grow(env, old(state), error, seeds)
    {
      match error
      case DataNoSpace(ix, currentPow2) => GrowData(ix, currentPow2);
      case IndexNoSpace(currentPow2) => GrowIndex(currentPow2, seeds);
    }

    // -------------------------------------------------------------------------------------------
    // Applying a growth

    method PushStorage(s: ListStorage<T>)
      requires Valid() && state.reallocated == NothingPending()
      requires s.Sized() && s.cells as object != index.cells as object && s.count != index.count
      requires forall i :: 0 <= i < |data| ==> data[i].cells != s.cells && data[i].count != s.count
      modifies this
      ensures Valid() && Repr == old(Repr) + {s.cells, s.count} && index == old(index) && data == old(data) + [s]
      ensures state == old(state).(data := old(state).data + [s.View()])
    {
      data := data + [s];
      state := state.(data := state.data + [s.View()]);
      Repr := Repr + {s.cells, s.count};
    }

    /** Empty storages up to, but not including, number `ix`. */
    method PushFillers(ix: nat, ghost s: ListStorage<T>)
      requires Valid() && state.reallocated == NothingPending() && |data| <= ix
      requires s.cells in Repr && s.count in Repr
      requires forall i :: 0 <= i < |data| ==> data[i].cells != s.cells && data[i].count != s.count
      modifies this
      ensures Valid() && fresh(Repr - old(Repr)) && Repr >= old(Repr)
      ensures index == old(index) && |data| == ix
      ensures forall i :: 0 <= i < |data| ==> data[i].cells != s.cells && data[i].count != s.count
      ensures state == old(state).(data := old(state).data + Fillers(env, |old(state).data|, ix))
    {
      ghost var d := state.data;
      while |data| < ix
        invariant |d| <= |data| <= ix && Valid() && state.reallocated == NothingPending()
        invariant fresh(Repr - old(Repr)) && Repr >= old(Repr)
        invariant index == old(index)
        invariant forall i :: 0 <= i < |data| ==> data[i].cells != s.cells && data[i].count != s.count
        invariant state == old(state).(data := d + Fillers(env, |d|, |data|))
        decreases ix - |data|
      {
        var count := new Counter(0);
        var filler := new BucketStorage<seq<T>>(DEFAULT_CAPACITY_POW2, BlankItem(env, |data|), count);
        FillersStep(env, |d|, |data|);
        PushStorage(filler);
      }
    }

    method ReplaceStorage(ix: nat, s: ListStorage<T>)
      requires Valid() && state.reallocated == NothingPending() && ix < |data|
      requires s.Sized() && s.cells in Repr && s.count in Repr
      requires s.cells as object != index.cells as object && s.count != index.count
      requires forall i :: 0 <= i < |data| ==> data[i].cells != s.cells && (i != ix ==> data[i].count != s.count)
      modifies this
      ensures Valid() && Repr == old(Repr)
      ensures state == old(state).(data := old(state).data[ix := s.View()])
    {
      data := data[ix := s];
      state := state.(data := state.data[ix := s.View()]);
    }

    method ApplyGrowData(ix: nat, s: ListStorage<T>)
      requires Valid() && state.reallocated == NothingPending()
      requires s.Sized() && s.cells in Repr && s.count in Repr
      requires s.cells as object != index.cells as object && s.count != index.count
      requires forall i :: 0 <= i < |data| ==> data[i].cells != s.cells && (i != ix ==> data[i].count != s.count)
      modifies this
      ensures Valid() && fresh(Repr - old(Repr)) && Repr >= old(Repr)
      ensures state == old(state).(data := BucketGrowth.ApplyGrowData(env, old(state).data, ix, s.View()))
    {
      if ix < |data| {
        ReplaceStorage(ix, s);
      } else {
        ghost var d := state.data;
        PushFillers(ix, s);
        PushStorage(s);
        assert d + Fillers(env, |d|, ix) + [s.View()] == d + (Fillers(env, |d|, ix) + [s.View()]);
      }
    }

    method ApplyGrowIndex(seed: nat, t: IndexStorage)
      requires Valid() && state.reallocated == NothingPending()
      requires t.Sized() && t.cells in Repr && t.count == index.count
      requires forall i :: 0 <= i < |data| ==> data[i].cells as object != t.cells as object
      modifies this
      ensures Valid() && Repr == old(Repr)
      ensures state == old(state).(index := t.View(), random := seed)
    {
      random := seed;
      index := t;
      state := state.(index := t.View(), random := seed);
    }

    /** Empties the pending slot; what was in it may now go live. */
    method TakePending() returns (pendingIndex: Option<(nat, IndexStorage)>, pendingData: Option<(nat, ListStorage<T>)>)
      requires Valid() && state.reallocated.active == 1
      modifies this`state, reallocated
      ensures Valid() && state == old(state).(reallocated := NothingPending())
      ensures pendingIndex == old(reallocated.index) && pendingData == old(reallocated.data)
    {
      var taken := reallocated.GetReallocated();
      assert taken;
      pendingIndex, pendingData := reallocated.index, reallocated.data;
      reallocated.index, reallocated.data := None, None;
      state := state.(reallocated := NothingPending());
    }

    method HandleDelayedGrows()
      requires Valid()
      requires state.reallocated.active == 1 ==> state.reallocated.index.Some? || state.reallocated.data.Some?
      modifies this, reallocated
      ensures Valid() && fresh(Repr - old(Repr)) && Repr >= old(Repr)
      ensures state == BucketGrowth.HandleDelayedGrows(env, old(state))
    {
      if reallocated.active == 1 {
        var pendingIndex, pendingData := TakePending();
        if pendingIndex.Some? {
          ApplyGrowIndex(pendingIndex.value.0, pendingIndex.value.1);
        } else {
          ApplyGrowData(pendingData.value.0, pendingData.value.1);
        }
      }
    }

    // -------------------------------------------------------------------------------------------
    // Inserting

    /** One round of the retry loop; `stuck` if the rehash has not come to an end. */
    method Round(key: Pubkey, list: seq<T>, refCount: nat, choice: Choice) returns (outcome: Outcome, stuck: bool)
      requires Valid() && Writable(env, state)
      modifies Repr
      ensures Valid() && fresh(Repr - old(Repr)) && Repr >= old(Repr)
      ensures outcome == BucketModel.TryWrite(env, old(state), key, list, refCount, choice.pos).1
      ensures outcome.Ok? ==> state == BucketModel.TryWrite(env, old(state), key, list, refCount, choice.pos).0
      ensures outcome.Err? ==>
                var g := WriteThenGrow(env, old(state), key, list, refCount, choice);
                && (stuck <==> g.reallocated.active == 0)
                && state == if stuck then g else AfterRound(env, old(state), key, list, refCount, choice)
    {
      stuck := false;
      outcome := TryWrite(key, list, refCount, choice.pos);
      if outcome.Err? {
        TryWriteMeans(env, old(state), key, list, refCount, choice.pos);
        FreshErrorAllowed(env, old(state), list, state, outcome.error);
        WriteThenGrowMeans(env, old(state), key, list, refCount, choice);
        Grow(outcome.error, choice.seeds);
        if reallocated.active == 0 {
          stuck := true;
        } else {
          HandleDelayedGrows();
        }
      }
    }

    method Insert(key: Pubkey, list: seq<T>, refCount: nat, choices: seq<Choice>) returns (end: InsertEnd)
      requires Valid() && Writable(env, state)
      modifies Repr
      ensures Valid() && fresh(Repr - old(Repr)) && Repr >= old(Repr)
      ensures (state, end) == BucketInsert.Insert(env, old(state), key, list, refCount, choices)
    {
      var k, countSet := 0, false;
      while k < |choices|
        invariant 0 <= k <= |choices| && Valid() && Writable(env, state)
        invariant fresh(Repr - old(Repr)) && Repr >= old(Repr)
        invariant Resumes(BucketInsert.Insert(env, old(state), key, list, refCount, choices), countSet,
                          BucketInsert.Insert(env, state, key, list, refCount, choices[k..]))
      {
        ghost var before := state;
        var outcome, stuck := Round(key, list, refCount, choices[k]);
        RoundResumes(env, before, key, list, refCount, choices, k);
        if outcome.Ok? {
          return Finished;
        }
        countSet := countSet || (outcome.error.DataNoSpace? && outcome.error.capacityPow2 > 0);
        if stuck {
          return Unfinished(countSet);
        }
        k := k + 1;
      }
      end := Unfinished(countSet);
    }

    method Update(key: Pubkey, f: Option<Value<T>> -> Option<Value<T>>, choices: seq<Choice>) returns (end: InsertEnd)
      requires Valid() && Writable(env, state)
      modifies Repr
      ensures Valid() && fresh(Repr - old(Repr)) && Repr >= old(Repr)
      ensures (state, end) == BucketInsert.Update(env, old(state), key, f, choices)
    {
      var current := ReadValue(key);
      var next := f(current);
      if next.None? {
        DeleteKey(key);
        return Finished;
      }
      end := Insert(key, next.value.list, next.value.refCount, choices);
    }
  }

  /** The whole loop ends as the rest of it does, except that the count may have been set before. */
  ghost predicate Resumes<T>(whole: (BucketModel.Bucket<T>, InsertEnd), countSet: bool,
                             rest: (BucketModel.Bucket<T>, InsertEnd))
  {
    && whole.0 == rest.0
    && whole.1 == match rest.1 { case Finished => Finished case Unfinished(c) => Unfinished(countSet || c) }
  }

  lemma RoundResumes<T>(env: Env<T>, b: BucketModel.Bucket<T>, key: Pubkey, list: seq<T>, refCount: nat,
                        choices: seq<Choice>, k: nat)
    requires Writable(env, b) && k < |choices|
    ensures var r := TryWrite(env, b, key, list, refCount, choices[k].pos);
            var rest := Insert(env, b, key, list, refCount, choices[k..]);
            if r.1.Ok? then rest == (r.0, Finished)
            else
              var g, h := WriteThenGrow(env, b, key, list, refCount, choices[k]),
                          AfterRound(env, b, key, list, refCount, choices[k]);
              if g.reallocated.active == 0 then rest == (g, After(r.1.error, Unfinished(false)))
              else
                && Writable(env, h)
                && rest.0 == Insert(env, h, key, list, refCount, choices[k + 1..]).0
                && rest.1 == After(r.1.error, Insert(env, h, key, list, refCount, choices[k + 1..]).1)
  {
    assert choices[k..][0] == choices[k] && choices[k..][1..] == choices[k + 1..];
    if TryWrite(env, b, key, list, refCount, choices[k].pos).1.Err? {
      AfterRoundMeans(env, b, key, list, refCount, choices[k]);
    }
  }

  lemma FillersStep<T>(env: Env<T>, from: nat, to: nat)
    requires from <= to
    ensures Fillers(env, from, to + 1) == Fillers(env, from, to) + [Blank(DEFAULT_CAPACITY_POW2, BlankItem(env, to))]
  {
  }

  /** Puts a key into the first free cell of its window in a given index storage. */
  method CreateKeyIn<T>(env: Env<T>, storage: IndexStorage, key: Pubkey, uid: nat, random: nat, isResizing: bool)
    returns (r: Option<nat>)
    requires storage.Sized() && uid != UNLOCKED
    modifies storage.cells, if isResizing then {} else {storage.count}
    ensures |old(storage.View()).cells| > 0
    ensures r == FindVacancy(env, old(storage.View()), random, key)
    ensures r.None? ==> storage.View() == old(storage.View())
    ensures r.Some? ==>
              storage.View() == old(storage.View()).WithCell(r.value, uid, InitEntry(key))
                                .(count := old(storage.count.value) + if isResizing then 0 else 1)
  {
    ghost var view := storage.View();
    var cap := Pow2(storage.capacityPow2);
    var ix := Home(env, key, random, cap);
    var i := 0;
    while i < env.maxSearch
      invariant 0 <= i <= env.maxSearch
      invariant storage.View() == view
      invariant ProbeFree(view, ix, 0, env.maxSearch) == ProbeFree(view, ix, i, env.maxSearch)
    {
      var ii := Slot(ix, i, cap);
      var free := storage.IsFree(ii);
      if free {
        var ok := storage.Allocate(ii, uid, isResizing);
        assert ok;
        storage.Put(ii, InitEntry(key));
        return Some(ii);
      }
      i := i + 1;
    }
    r := None;
  }

  /** Places the entry of one cell in a larger table, as the disabled assertion in the source claims it. */
  method RehashOne<T>(env: Env<T>, source: IndexStorage, ghost sourceSeed: nat, t: IndexStorage, seed: nat, ix: nat)
    returns (placed: bool)
    requires source.Sized() && TableInv(env, source.View(), sourceSeed) && ix < source.cells.Length
    requires t.Sized() && t.cells != source.cells
    requires Placed(env, t.View(), seed) && Entries(t.View()) == EntriesBelow(source.View(), ix)
    modifies t.cells
    ensures source.View() == old(source.View())
    ensures !source.View().Occupied(ix) ==> placed && t.View() == old(t.View())
    ensures source.View().Occupied(ix) ==>
              var cell, was := source.View().cells[ix], old(t.View());
              && |was.cells| > 0 && (placed <==> !WindowFull(env, was, seed, cell.item.key))
              && (placed ==>
                    && FindVacancy(env, was, seed, cell.item.key).Some?
                    && t.View() == was.WithCell(FindVacancy(env, was, seed, cell.item.key).value, cell.lock, cell.item))
    ensures !placed ==> Rehash(env, source.View(), ix, old(t.View()), seed) == None
    ensures placed ==>
              && Rehash(env, source.View(), ix, old(t.View()), seed) == Rehash(env, source.View(), ix + 1, t.View(), seed)
              && Placed(env, t.View(), seed) && Entries(t.View()) == EntriesBelow(source.View(), ix + 1)
  {
    EntriesBelowStep(source.View(), ix);
    var uid := source.Uid(ix);
    if uid.None? {
      return true;
    }
    var elem := source.Get(ix);
    assert WellPlaced(env, source.View(), sourceSeed, ix);
    NotBelowItself(env, source.View(), sourceSeed, ix);
    ghost var before := t.View();
    VacancyIff(env, before, seed, elem.key);
    var newIx := CreateKeyIn(env, t, elem.key, uid.value, seed, true);
    if newIx.None? {
      return false;
    }
    t.Put(newIx.value, elem);
    assert t.View() == before.WithCell(newIx.value, uid.value, elem);
    PlacedAfterAdd(env, before, seed, newIx.value, elem, before.count);
    FindsStoredKey(env, t.View(), seed, newIx.value);
    assert IndexTable.FindEntry(env, t.View(), seed, elem.key) == newIx;
    placed := true;
  }

  /** One attempt to place all the entries in a larger table. The shared counter is not touched. */
  method RehashInto<T>(env: Env<T>, source: IndexStorage, ghost sourceSeed: nat, t: IndexStorage, seed: nat)
    returns (valid: bool)
    requires source.Sized() && TableInv(env, source.View(), sourceSeed)
    requires t.Sized() && t.cells != source.cells
    requires t.View() == EmptyTable(t.capacityPow2, source.count.value)
    modifies t.cells
    ensures source.View() == old(source.View())
    ensures var r := Rehash(env, source.View(), 0, old(t.View()), seed);
            (valid <==> r.Some?) && (valid ==> t.View() == r.value)
  {
    ghost var empty, view := t.View(), source.View();
    assert EntriesBelow(view, 0) == {} == Entries(t.View());
    var ix := 0;
    while ix < source.cells.Length
      invariant 0 <= ix <= source.cells.Length && source.View() == view
      invariant Rehash(env, view, ix, t.View(), seed) == Rehash(env, view, 0, empty, seed)
      invariant Placed(env, t.View(), seed) && Entries(t.View()) == EntriesBelow(view, ix)
    {
      var placed := RehashOne(env, source, sourceSeed, t, seed, ix);
      if !placed {
        return false;
      }
      ix := ix + 1;
    }
    valid := true;
  }

  /** Attempts with growing capacities, until one of the seeds leaves room for every entry. */
  method RegrowIndex<T>(env: Env<T>, source: IndexStorage, ghost sourceSeed: nat, seeds: seq<nat>)
    returns (r: Option<(nat, IndexStorage)>)
    requires source.Sized() && TableInv(env, source.View(), sourceSeed)
    ensures source.View() == old(source.View())
    ensures var spec := Regrow(env, source.View(), 1, seeds);
            && (r.Some? <==> spec.Some?)
            && (r.Some? ==>
                  && fresh(r.value.1.cells) && r.value.1.Sized() && r.value.1.count == source.count
                  && spec.value == (r.value.0, r.value.1.View()))
  {
    ghost var view := source.View();
    var k := 0;
    while k < |seeds|
      invariant 0 <= k <= |seeds| && source.View() == view
      invariant Regrow(env, view, 1, seeds) == Regrow(env, view, 1 + k, seeds[k..])
    {
      var t := new BucketStorage<IndexEntry>(source.capacityPow2 + 1 + k, ZERO_ENTRY, source.count);
      var valid := RehashInto(env, source, sourceSeed, t, seeds[k]);
      if valid {
        return Some((seeds[k], t));
      }
      assert seeds[k..][1..] == seeds[k + 1..];
      k := k + 1;
    }
    r := None;
  }
}
