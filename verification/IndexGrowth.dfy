/** Growing the index: every entry is placed again in a larger table under a fresh random seed. */
module IndexGrowth {
  import opened Arithmetic
  import opened IndexEntry
  import opened IndexTable
  import opened Storage
  import opened Wrappers

  /** One attempt: place the entries of cells `ix`, `ix + 1`, .. of `source`, or give up on the first that has no room. */
  function Rehash<T>(env: Env<T>, source: Table, ix: nat, target: Table, random: nat): (r: Option<Table>)
    requires ix <= |source.cells| && |target.cells| > 0
    ensures r.Some? ==> r.value.count == target.count && r.value.capacityPow2 == target.capacityPow2
    decreases |source.cells| - ix
  {
    if ix == |source.cells| then Some(target)
    else if !source.Occupied(ix) then Rehash(env, source, ix + 1, target, random)
    else
      match FindVacancy(env, target, random, source.cells[ix].item.key)
      case None => None
      case Some(j) =>
        Rehash(env, source, ix + 1, target.WithCell(j, source.cells[ix].lock, source.cells[ix].item), random)
  }

  function EmptyTable(capacityPow2: nat, count: nat): (t: Table)
    ensures |t.cells| == Pow2(capacityPow2)
  {
    Blank(capacityPow2, ZERO_ENTRY).(count := count)
  }

  /** One attempt from an empty table, `increment` sizes larger. */
  function Attempt<T>(env: Env<T>, source: Table, increment: nat, seed: nat): (r: Option<Table>)
    ensures r.Some? ==> r.value.capacityPow2 == source.capacityPow2 + increment && r.value.count == source.count
  {
    Rehash(env, source, 0, EmptyTable(source.capacityPow2 + increment, source.count), seed)
  }

  /**
   Attempts with growing capacity, one per element of `seeds`, until one succeeds. `None` means that
   all the given seeds failed, and the loop would go on.
   */
  function Regrow<T>(env: Env<T>, source: Table, increment: nat, seeds: seq<nat>): (r: Option<(nat, Table)>)
    decreases |seeds|
  {
    if seeds == [] then None
    else
      match Attempt(env, source, increment, seeds[0])
      case Some(t) => Some((seeds[0], t))
      case None => Regrow(env, source, increment + 1, seeds[1..])
  }

  ghost function EntriesBelow(index: Table, ix: nat): set<IndexEntry> {
    set i | 0 <= i < ix && i < |index.cells| && index.cells[i].lock != UNLOCKED :: index.cells[i].item
  }

  lemma EntriesBelowStep(index: Table, ix: nat)
    requires ix < |index.cells|
    ensures EntriesBelow(index, ix + 1) ==
            EntriesBelow(index, ix) + if index.Occupied(ix) then {index.cells[ix].item} else {}
  {
  }

  lemma NotBelowItself<T>(env: Env<T>, index: Table, random: nat, ix: nat)
    requires Placed(env, index, random) && index.Occupied(ix)
    ensures index.cells[ix].item.key !in KeysOf(EntriesBelow(index, ix))
  {
    OthersDiffer(env, index, random, ix);
  }

  lemma {:induction false} RehashKeepsEntries<T>(
    env: Env<T>, source: Table, sourceRandom: nat, ix: nat, target: Table, random: nat)
    requires Placed(env, source, sourceRandom) && Placed(env, target, random)
    requires ix <= |source.cells| && Entries(target) == EntriesBelow(source, ix)
    ensures var r := Rehash(env, source, ix, target, random);
            r.Some? ==> Placed(env, r.value, random) && Entries(r.value) == Entries(source)
    decreases |source.cells| - ix
  {
    if ix == |source.cells| {
      assert EntriesBelow(source, ix) == Entries(source);
    } else {
      EntriesBelowStep(source, ix);
      if !source.Occupied(ix) {
        RehashKeepsEntries(env, source, sourceRandom, ix + 1, target, random);
      } else {
        var e := source.cells[ix].item;
        assert WellPlaced(env, source, sourceRandom, ix);
        NotBelowItself(env, source, sourceRandom, ix);
        match FindVacancy(env, target, random, e.key)
        case None =>
        case Some(j) =>
          PlacedAfterAdd(env, target, random, j, e, target.count);
          RehashKeepsEntries(env, source, sourceRandom, ix + 1, target.WithCell(j, source.cells[ix].lock, e), random);
      }
    }
  }

  /** An attempt fails only on an entry whose window is full of entries placed before it. */
  lemma {:induction false} RehashFailsOnFullWindow<T>(
    env: Env<T>, source: Table, sourceRandom: nat, ix: nat, target: Table, random: nat) returns (jx: nat, t: Table)
    requires Placed(env, source, sourceRandom) && Placed(env, target, random)
    requires ix <= |source.cells| && Entries(target) == EntriesBelow(source, ix)
    requires Rehash(env, source, ix, target, random).None?
    ensures source.Occupied(jx) && |t.cells| == |target.cells|
    ensures Placed(env, t, random) && Entries(t) == EntriesBelow(source, jx)
    ensures WindowFull(env, t, random, source.cells[jx].item.key)
    decreases |source.cells| - ix
  {
    EntriesBelowStep(source, ix);
    if !source.Occupied(ix) {
      jx, t := RehashFailsOnFullWindow(env, source, sourceRandom, ix + 1, target, random);
    } else {
      var e := source.cells[ix].item;
      match FindVacancy(env, target, random, e.key)
      case None =>
        jx, t := ix, target;
      case Some(j) =>
        assert WellPlaced(env, source, sourceRandom, ix);
        NotBelowItself(env, source, sourceRandom, ix);
        PlacedAfterAdd(env, target, random, j, e, target.count);
        jx, t := RehashFailsOnFullWindow(env, source, sourceRandom, ix + 1,
                                         target.WithCell(j, source.cells[ix].lock, e), random);
    }
  }

  /** With no more entries than the window, or the new table, is long, an attempt succeeds under every seed. */
  lemma RehashSucceeds<T>(env: Env<T>, source: Table, sourceRandom: nat, target: Table, random: nat)
    requires Placed(env, source, sourceRandom) && Placed(env, target, random) && Entries(target) == {}
    requires |Entries(source)| <= Min(env.maxSearch, |target.cells|)
    ensures Rehash(env, source, 0, target, random).Some?
  {
    assert EntriesBelow(source, 0) == {};
    if Rehash(env, source, 0, target, random).None? {
      var jx, t := RehashFailsOnFullWindow(env, source, sourceRandom, 0, target, random);
      var e := source.cells[jx].item;
      NotBelowItself(env, source, sourceRandom, jx);
      SubsetSize(EntriesBelow(source, jx), Entries(source) - {e});
      EntryCount(env, t, random);
      VacancyIff(env, t, random, e.key);
      FullWindowIsLarge(t, Home(env, e.key, random, |t.cells|), env.maxSearch);
    }
  }

  /** While there are no more keys than the window is long, the first seed that is tried will do. */
  lemma RegrowSucceeds<T>(env: Env<T>, source: Table, sourceRandom: nat, increment: nat, seeds: seq<nat>)
    requires TableInv(env, source, sourceRandom) && source.count <= env.maxSearch && seeds != []
    ensures Regrow(env, source, increment, seeds).Some?
    ensures Regrow(env, source, increment, seeds).value.0 == seeds[0]
    ensures Regrow(env, source, increment, seeds).value.1.capacityPow2 == source.capacityPow2 + increment
  {
    var empty := EmptyTable(source.capacityPow2 + increment, source.count);
    EntryCount(env, source, sourceRandom);
    OccupiedBound(source);
    Pow2Monotone(source.capacityPow2, source.capacityPow2 + increment);
    assert Entries(empty) == {};
    RehashSucceeds(env, source, sourceRandom, empty, seeds[0]);
  }

  /** The attempts are made in order, each one size larger than the one before, up to the first that succeeds. */
  lemma {:induction false} RegrowIsFirstSuccess<T>(env: Env<T>, source: Table, increment: nat, seeds: seq<nat>)
    returns (k: nat)
    requires Regrow(env, source, increment, seeds).Some?
    ensures k < |seeds|
    ensures var (random, t) := Regrow(env, source, increment, seeds).value;
            && random == seeds[k] && t.capacityPow2 == source.capacityPow2 + increment + k
            && Attempt(env, source, increment + k, seeds[k]) == Some(t)
    ensures forall j: nat :: j < k ==> Attempt(env, source, increment + j, seeds[j]).None?
    decreases |seeds|
  {
    if Attempt(env, source, increment, seeds[0]).Some? {
      k := 0;
    } else {
      var k' := RegrowIsFirstSuccess(env, source, increment + 1, seeds[1..]);
      k := k' + 1;
      forall j: nat | j < k ensures Attempt(env, source, increment + j, seeds[j]).None? {
        if j > 0 {
          assert seeds[1..][j - 1] == seeds[j];
          assert Attempt(env, source, increment + 1 + (j - 1), seeds[1..][j - 1]).None?;
        }
      }
    }
  }

  /**
   A successful regrowth holds exactly the old entries, in a valid table with the shared count
   unchanged, and each key is found again with its old entry.
   */
  lemma {:induction false} RegrowKeepsMeaning<T>(
    env: Env<T>, source: Table, sourceRandom: nat, increment: nat, seeds: seq<nat>)
    requires TableInv(env, source, sourceRandom)
    ensures var r := Regrow(env, source, increment, seeds);
            r.Some? ==>
              && TableInv(env, r.value.1, r.value.0)
              && Entries(r.value.1) == Entries(source)
              && r.value.1.count == source.count
              && r.value.1.capacityPow2 >= source.capacityPow2 + increment
    decreases |seeds|
  {
    if seeds != [] {
      var empty := EmptyTable(source.capacityPow2 + increment, source.count);
      assert EntriesBelow(source, 0) == {} == Entries(empty);
      RehashKeepsEntries(env, source, sourceRandom, 0, empty, seeds[0]);
      match Rehash(env, source, 0, empty, seeds[0])
      case Some(t) =>
        EntryCount(env, t, seeds[0]);
        EntryCount(env, source, sourceRandom);
      case None =>
        RegrowKeepsMeaning(env, source, sourceRandom, increment + 1, seeds[1..]);
    }
  }

  /** The claim of the disabled assertion in the rehash loop, for every entry of the finished table. */
  lemma RegrowFindsEveryKey<T>(
    env: Env<T>, source: Table, sourceRandom: nat, increment: nat, seeds: seq<nat>, i: nat)
    requires TableInv(env, source, sourceRandom) && source.Occupied(i)
    requires Regrow(env, source, increment, seeds).Some?
    ensures var (random, t) := Regrow(env, source, increment, seeds).value;
            && |t.cells| > 0
            && FindEntry(env, t, random, source.cells[i].item.key).Some?
            && t.cells[FindEntry(env, t, random, source.cells[i].item.key).value] == source.cells[i]
  {
    RegrowKeepsMeaning(env, source, sourceRandom, increment, seeds);
    var (random, t) := Regrow(env, source, increment, seeds).value;
    assert source.cells[i].item in Entries(source);
    FindIffStored(env, t, random, source.cells[i].item.key);
    assert WellPlaced(env, source, sourceRandom, i);
    assert WellPlaced(env, t, random, FindEntry(env, t, random, source.cells[i].item.key).value);
  }
}
