/**
 The open-addressed index. A key lives in one of the `maxSearch` cells after its home cell; a search
 skips free cells instead of stopping at them, so removing a key leaves no marker behind.
 */
module IndexTable {
  import opened Arithmetic
  import opened IndexEntry
  import opened Storage
  import opened Wrappers

  type Table = Storage<IndexEntry>

  /** The cell where the search for a key starts under a given random seed. */
  function Home<T>(env: Env<T>, key: Pubkey, random: nat, capacity: nat): (ix: nat)
    requires capacity > 0
    ensures ix < capacity
  {
    env.indexHash(KeyUid(env, key), random) % capacity
  }

  ghost predicate InWindow<T>(env: Env<T>, key: Pubkey, random: nat, capacity: nat, i: int)
    requires capacity > 0
  {
    exists d: nat :: d < env.maxSearch && i == Slot(Home(env, key, random, capacity), d, capacity)
  }

  /** No cell of the key's window is free. */
  ghost predicate WindowFull<T>(env: Env<T>, index: Table, random: nat, key: Pubkey)
    requires |index.cells| > 0
  {
    forall i {:trigger InWindow(env, key, random, |index.cells|, i)} ::
      InWindow(env, key, random, |index.cells|, i) ==> index.Occupied(i)
  }

  ghost predicate WellPlaced<T>(env: Env<T>, index: Table, random: nat, i: int)
    requires index.Occupied(i)
  {
    && index.cells[i].lock == KeyUid(env, index.cells[i].item.key)
    && InWindow(env, index.cells[i].item.key, random, |index.cells|, i)
  }

  predicate SameKeyAt(index: Table, i: int, j: int) {
    index.Occupied(i) && index.Occupied(j) && index.cells[i].item.key == index.cells[j].item.key
  }

  /** Everything but the count: each entry is in its window under its own uid, and no key is there twice. */
  ghost predicate Placed<T>(env: Env<T>, index: Table, random: nat) {
    && |index.cells| == Pow2(index.capacityPow2)
    && (forall i {:trigger WellPlaced(env, index, random, i)} ::
          index.Occupied(i) ==> WellPlaced(env, index, random, i))
    && (forall i, j {:trigger SameKeyAt(index, i, j)} :: SameKeyAt(index, i, j) ==> i == j)
  }

  ghost predicate TableInv<T>(env: Env<T>, index: Table, random: nat) {
    Placed(env, index, random) && index.Valid()
  }

  /** What the index holds, without the positions. */
  ghost function Entries(index: Table): set<IndexEntry> {
    set i | 0 <= i < |index.cells| && index.cells[i].lock != UNLOCKED :: index.cells[i].item
  }

  ghost function KeysOf(entries: set<IndexEntry>): set<Pubkey> {
    set e | e in entries :: e.key
  }

  ghost predicate UniqueKeys(entries: set<IndexEntry>) {
    forall e, e' :: e in entries && e' in entries && e.key == e'.key ==> e == e'
  }

  // ---------------------------------------------------------------------------------------------
  // Searching

  function ProbeKey(index: Table, key: Pubkey, start: nat, d: nat, limit: nat): (r: Option<nat>)
    requires |index.cells| > 0
    ensures r.Some? ==> index.Occupied(r.value) && index.cells[r.value].item.key == key
    ensures r.None? ==>
              forall e: nat :: d <= e < limit && index.Occupied(Slot(start, e, |index.cells|))
                               ==> index.cells[Slot(start, e, |index.cells|)].item.key != key
    decreases limit - d
  {
    if d >= limit then None
    else
      var i := Slot(start, d, |index.cells|);
      if index.Occupied(i) && index.cells[i].item.key == key then Some(i)
      else ProbeKey(index, key, start, d + 1, limit)
  }

  function FindEntry<T>(env: Env<T>, index: Table, random: nat, key: Pubkey): (r: Option<nat>)
    requires |index.cells| > 0
    ensures r.Some? ==> index.Occupied(r.value) && index.cells[r.value].item.key == key
  {
    ProbeKey(index, key, Home(env, key, random, |index.cells|), 0, env.maxSearch)
  }

  /** The free cell a new key goes to. */
  function FindVacancy<T>(env: Env<T>, index: Table, random: nat, key: Pubkey): (r: Option<nat>)
    requires |index.cells| > 0
    ensures r.Some? ==> r.value < |index.cells| && !index.Occupied(r.value)
    ensures r.Some? ==> InWindow(env, key, random, |index.cells|, r.value)
    ensures r.None? ==> WindowFull(env, index, random, key)
  {
    ProbeFree(index, Home(env, key, random, |index.cells|), 0, env.maxSearch)
  }

  /** The probe start is the hash of uid and seed, up to a multiple of the capacity. */
  lemma HomeIsHash<T>(env: Env<T>, key: Pubkey, random: nat, capacity: nat)
    requires capacity > 0
    ensures (env.indexHash(KeyUid(env, key), random) - Home(env, key, random, capacity)) % capacity == 0
  {
    RestIsMultiple(env.indexHash(KeyUid(env, key), random), capacity);
  }

  /** There is a free cell for a key exactly if its window is not full, and then the first one is taken. */
  lemma VacancyIff<T>(env: Env<T>, index: Table, random: nat, key: Pubkey)
    requires |index.cells| > 0
    ensures FindVacancy(env, index, random, key).None? <==> WindowFull(env, index, random, key)
    ensures FindVacancy(env, index, random, key).Some? ==>
              exists d: nat :: d < env.maxSearch && FirstFree(index, Home(env, key, random, |index.cells|), d)
                               && FindVacancy(env, index, random, key).value == Slot(Home(env, key, random, |index.cells|), d, |index.cells|)
  {
    if FindVacancy(env, index, random, key).Some? {
      var d := ProbeFreeIsFirst(index, Home(env, key, random, |index.cells|), 0, env.maxSearch);
      assert FirstFree(index, Home(env, key, random, |index.cells|), d);
    }
  }

  /** A key is found in its own cell, whatever was freed in between. */
  lemma FindsStoredKey<T>(env: Env<T>, index: Table, random: nat, i: nat)
    requires Placed(env, index, random) && index.Occupied(i)
    ensures FindEntry(env, index, random, index.cells[i].item.key) == Some(i)
  {
    assert WellPlaced(env, index, random, i);
    var r := FindEntry(env, index, random, index.cells[i].item.key);
    assert r.Some? ==> SameKeyAt(index, r.value, i);
  }

  /** A search succeeds exactly on the keys that are stored. */
  lemma FindIffStored<T>(env: Env<T>, index: Table, random: nat, key: Pubkey)
    requires Placed(env, index, random)
    ensures FindEntry(env, index, random, key).Some? <==> key in KeysOf(Entries(index))
    ensures forall e :: e in Entries(index) && e.key == key ==>
                          FindEntry(env, index, random, key).Some?
                          && index.cells[FindEntry(env, index, random, key).value].item == e
  {
    var r := FindEntry(env, index, random, key);
    if r.Some? {
      assert index.cells[r.value].item in Entries(index);
    }
    forall e | e in Entries(index) && e.key == key
      ensures r.Some? && index.cells[r.value].item == e
    {
      var i :| 0 <= i < |index.cells| && index.cells[i].lock != UNLOCKED && index.cells[i].item == e;
      FindsStoredKey(env, index, random, i);
    }
  }

  lemma EntryCount<T>(env: Env<T>, index: Table, random: nat)
    requires Placed(env, index, random)
    ensures |Entries(index)| == |index.OccupiedCells()|
  {
    var itemAt := (i: int) => if 0 <= i < |index.cells| then index.cells[i].item else ZERO_ENTRY;
    forall i | i in index.OccupiedCells() ensures itemAt(i) in Entries(index) {}
    forall e | e in Entries(index) ensures exists i :: i in index.OccupiedCells() && itemAt(i) == e {
      var i :| 0 <= i < |index.cells| && index.cells[i].lock != UNLOCKED && index.cells[i].item == e;
      assert i in index.OccupiedCells();
    }
    forall i, j | i in index.OccupiedCells() && j in index.OccupiedCells() && itemAt(i) == itemAt(j) ensures i == j {
      assert SameKeyAt(index, i, j);
    }
    InjectiveImageSize(index.OccupiedCells(), itemAt, Entries(index));
  }

  // ---------------------------------------------------------------------------------------------
  // The three ways a table changes

  lemma OthersDiffer<T>(env: Env<T>, index: Table, random: nat, i: nat)
    requires Placed(env, index, random) && index.Occupied(i)
    ensures forall j :: index.Occupied(j) && j != i ==> index.cells[j].item.key != index.cells[i].item.key
  {
    forall j | index.Occupied(j) && j != i ensures index.cells[j].item.key != index.cells[i].item.key {
      assert !SameKeyAt(index, i, j);
    }
  }

  lemma EntriesAfterSet(index: Table, i: nat, lock: nat, e: IndexEntry)
    requires i < |index.cells|
    requires index.Occupied(i) ==>
               forall j :: index.Occupied(j) && j != i ==> index.cells[j].item.key != index.cells[i].item.key
    ensures Entries(index.WithCell(i, lock, e)) ==
            Entries(index) - (if index.Occupied(i) then {index.cells[i].item} else {})
            + if lock != UNLOCKED then {e} else {}
  {
    var index' := index.WithCell(i, lock, e);
    var gone := if index.Occupied(i) then {index.cells[i].item} else {};
    forall x | x in Entries(index) - gone ensures x in Entries(index') {
      var j :| 0 <= j < |index.cells| && index.cells[j].lock != UNLOCKED && index.cells[j].item == x;
      assert index'.cells[j] == index.cells[j];
    }
    forall x | x in Entries(index') ensures x in Entries(index) - gone || (x == e && lock != UNLOCKED) {
      var j :| 0 <= j < |index'.cells| && index'.cells[j].lock != UNLOCKED && index'.cells[j].item == x;
      if j != i {
        assert index'.cells[j] == index.cells[j] && index.Occupied(j);
      }
    }
    if lock != UNLOCKED {
      assert index'.cells[i].item == e;
    }
  }

  lemma PlacedAfterSet<T>(env: Env<T>, index: Table, random: nat, i: nat, lock: nat, e: IndexEntry, count: nat)
    requires Placed(env, index, random) && i < |index.cells|
    requires lock != UNLOCKED ==>
               && lock == KeyUid(env, e.key) && InWindow(env, e.key, random, |index.cells|, i)
               && forall j :: index.Occupied(j) && j != i ==> index.cells[j].item.key != e.key
    ensures Placed(env, index.WithCell(i, lock, e).(count := count), random)
  {
    var index' := index.WithCell(i, lock, e).(count := count);
    forall j | index'.Occupied(j) ensures WellPlaced(env, index', random, j) {
      if j != i {
        assert index.Occupied(j) && WellPlaced(env, index, random, j);
      }
    }
    forall j, k | SameKeyAt(index', j, k) ensures j == k {
      if j != i && k != i {
        assert SameKeyAt(index, j, k);
      }
    }
  }

  /** Rewriting an entry in place under the same key. */
  lemma Rewritten<T>(env: Env<T>, index: Table, random: nat, i: nat, e: IndexEntry)
    requires TableInv(env, index, random) && index.Occupied(i) && e.key == index.cells[i].item.key
    ensures TableInv(env, index.WithCell(i, index.cells[i].lock, e), random)
    ensures Entries(index.WithCell(i, index.cells[i].lock, e)) == Entries(index) - {index.cells[i].item} + {e}
  {
    OthersDiffer(env, index, random, i);
    OverwriteKeepsValid(index, i, e);
    assert WellPlaced(env, index, random, i);
    PlacedAfterSet(env, index, random, i, index.cells[i].lock, e, index.count);
    EntriesAfterSet(index, i, index.cells[i].lock, e);
  }

  /** Adding a key that is not there to a free cell of its window. */
  lemma Added<T>(env: Env<T>, index: Table, random: nat, i: nat, e: IndexEntry)
    requires TableInv(env, index, random) && i < |index.cells| && !index.Occupied(i)
    requires InWindow(env, e.key, random, |index.cells|, i)
    requires e.key !in KeysOf(Entries(index))
    ensures TableInv(env, index.Allocate(i, KeyUid(env, e.key), e), random)
    ensures Entries(index.Allocate(i, KeyUid(env, e.key), e)) == Entries(index) + {e}
  {
    AllocateKeepsValid(index, i, KeyUid(env, e.key), e);
    PlacedAfterAdd(env, index, random, i, e, index.count + 1);
  }

  lemma PlacedAfterAdd<T>(env: Env<T>, index: Table, random: nat, i: nat, e: IndexEntry, count: nat)
    requires Placed(env, index, random) && i < |index.cells| && !index.Occupied(i)
    requires InWindow(env, e.key, random, |index.cells|, i)
    requires e.key !in KeysOf(Entries(index))
    ensures Placed(env, index.WithCell(i, KeyUid(env, e.key), e).(count := count), random)
    ensures Entries(index.WithCell(i, KeyUid(env, e.key), e).(count := count)) == Entries(index) + {e}
  {
    forall j | index.Occupied(j) ensures index.cells[j].item.key != e.key {
      assert index.cells[j].item in Entries(index);
    }
    PlacedAfterSet(env, index, random, i, KeyUid(env, e.key), e, count);
    EntriesAfterSet(index, i, KeyUid(env, e.key), e);
  }

  /** Removing a key; no other key is hidden by it. */
  lemma Removed<T>(env: Env<T>, index: Table, random: nat, i: nat)
    requires TableInv(env, index, random) && index.Occupied(i)
    ensures index.count > 0 && TableInv(env, index.Free(i), random)
    ensures Entries(index.Free(i)) == Entries(index) - {index.cells[i].item}
  {
    OthersDiffer(env, index, random, i);
    FreeKeepsValid(index, i);
    PlacedAfterSet(env, index, random, i, UNLOCKED, index.cells[i].item, index.count - 1);
    EntriesAfterSet(index, i, UNLOCKED, index.cells[i].item);
  }
}
