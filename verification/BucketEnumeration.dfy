/** Listing a bucket: every key of the plain map once, with its current value. */
module BucketEnumeration {
  import opened Arithmetic
  import opened BucketModel
  import opened BucketRefinement
  import opened DataCells
  import opened IndexEntry
  import opened IndexTable
  import opened Storage

  lemma {:induction false} KeysAreCells<T>(env: Env<T>, index: Table, random: nat, ix: nat)
    requires Placed(env, index, random) && ix <= |index.cells|
    ensures forall k :: k in Keys(index, ix) ==> exists i :: ix <= i && index.Occupied(i) && index.cells[i].item.key == k
    ensures forall i :: ix <= i && index.Occupied(i) ==> index.cells[i].item.key in Keys(index, ix)
    ensures NoDuplicates(Keys(index, ix))
    decreases |index.cells| - ix
  {
    if ix < |index.cells| {
      KeysAreCells(env, index, random, ix + 1);
      if index.Occupied(ix) {
        OthersDiffer(env, index, random, ix);
        var rest := Keys(index, ix + 1);
        assert index.cells[ix].item.key !in rest;
        assert Keys(index, ix) == [index.cells[ix].item.key] + rest;
      }
    }
  }

  /** `Keys` lists exactly the keys of the plain map, each once. */
  lemma KeysListTheMap<T>(env: Env<T>, b: Bucket<T>)
    requires LiveInv(env, b)
    ensures forall k :: k in Keys(b.index, 0) <==> k in Map(env, b)
    ensures NoDuplicates(Keys(b.index, 0))
    ensures |Keys(b.index, 0)| == |Map(env, b)|
  {
    KeysAreCells(env, b.index, b.random, 0);
    MeaningKeys(Entries(b.index), b.data);
    forall k | k in Map(env, b) ensures k in Keys(b.index, 0) {
      var e :| e in Entries(b.index) && e.key == k;
      var i :| 0 <= i < |b.index.cells| && b.index.cells[i].lock != UNLOCKED && b.index.cells[i].item == e;
      assert b.index.Occupied(i);
    }
    forall k | k in Keys(b.index, 0) ensures k in Map(env, b) {
      var i :| 0 <= i && b.index.Occupied(i) && b.index.cells[i].item.key == k;
      assert b.index.cells[i].item in Entries(b.index);
    }
    DistinctIffFullSize(Keys(b.index, 0));
    assert (set k | k in Keys(b.index, 0)) == Map(env, b).Keys;
  }

  ghost predicate Shown<T>(b: Bucket<T>, inRange: Pubkey -> bool, i: int) {
    b.index.Occupied(i) && inRange(b.index.cells[i].item.key)
  }

  lemma {:induction false} ItemsAreCells<T>(b: Bucket<T>, inRange: Pubkey -> bool, ix: nat)
    requires ix <= |b.index.cells|
    ensures forall item :: item in ItemsInRange(b, inRange, ix) ==>
              exists i :: ix <= i && Shown(b, inRange, i) && item == ItemOf(b.data, b.index.cells[i].item)
    ensures forall i :: ix <= i && Shown(b, inRange, i) ==>
              ItemOf(b.data, b.index.cells[i].item) in ItemsInRange(b, inRange, ix)
    decreases |b.index.cells| - ix
  {
    if ix < |b.index.cells| {
      ItemsAreCells(b, inRange, ix + 1);
      if Shown(b, inRange, ix) {
        assert ItemsInRange(b, inRange, ix) ==
               [ItemOf(b.data, b.index.cells[ix].item)] + ItemsInRange(b, inRange, ix + 1);
      }
    }
  }

  ghost predicate DistinctKeys<T>(items: seq<BucketItem<T>>) {
    forall i, j :: 0 <= i < j < |items| ==> items[i].pubkey != items[j].pubkey
  }

  lemma {:induction false} ItemsHaveDistinctKeys<T>(env: Env<T>, b: Bucket<T>, inRange: Pubkey -> bool, ix: nat)
    requires Placed(env, b.index, b.random) && ix <= |b.index.cells|
    ensures DistinctKeys(ItemsInRange(b, inRange, ix))
    decreases |b.index.cells| - ix
  {
    if ix < |b.index.cells| {
      ItemsHaveDistinctKeys(env, b, inRange, ix + 1);
      if Shown(b, inRange, ix) {
        var rest := ItemsInRange(b, inRange, ix + 1);
        ItemsAreCells(b, inRange, ix + 1);
        OthersDiffer(env, b.index, b.random, ix);
        forall i | 0 <= i < |rest| ensures rest[i].pubkey != b.index.cells[ix].item.key {
          assert rest[i] in rest;
        }
        assert ItemsInRange(b, inRange, ix) == [ItemOf(b.data, b.index.cells[ix].item)] + rest;
      }
    }
  }

  /** The item is a key of the plain map within the range, with its list and count. */
  ghost predicate ItemIn<T>(m: map<Pubkey, Value<T>>, inRange: Pubkey -> bool, item: BucketItem<T>) {
    item.pubkey in m && inRange(item.pubkey) && m[item.pubkey] == Value(item.slotList, item.refCount)
  }

  /** `ItemsInRange` returns exactly the in-range keys of the plain map, each once, with list and count. */
  lemma ItemsListTheMap<T>(env: Env<T>, b: Bucket<T>, inRange: Pubkey -> bool)
    requires LiveInv(env, b)
    ensures var items, m := ItemsInRange(b, inRange, 0), Map(env, b);
            && (forall item :: item in items <==> ItemIn(m, inRange, item))
            && DistinctKeys(items)
  {
    ItemsAreCells(b, inRange, 0);
    ItemsHaveDistinctKeys(env, b, inRange, 0);
    MeaningKeys(Entries(b.index), b.data);
    var items, m := ItemsInRange(b, inRange, 0), Map(env, b);
    forall item: BucketItem<T> | item in items
      ensures ItemIn(m, inRange, item)
    {
      var i: nat :| Shown(b, inRange, i) && item == ItemOf(b.data, b.index.cells[i].item);
      EntryInMap(env, b, i);
    }
    forall item: BucketItem<T> | ItemIn(m, inRange, item)
      ensures item in items
    {
      var e :| e in Entries(b.index) && e.key == item.pubkey;
      var i :| 0 <= i < |b.index.cells| && b.index.cells[i].lock != UNLOCKED && b.index.cells[i].item == e;
      EntryInMap(env, b, i);
      assert Shown(b, inRange, i) && ItemOf(b.data, e) == item;
    }
  }

  /** The cell where a stored key is. */
  ghost predicate AtCell(index: Table, key: Pubkey, i: int) {
    index.Occupied(i) && index.cells[i].item.key == key
  }

  /** Keys come in the order of their cells. */
  lemma {:induction false} KeysInCellOrder<T>(env: Env<T>, index: Table, random: nat, ix: nat, a: nat, b: nat, i: int, j: int)
    requires Placed(env, index, random) && ix <= |index.cells|
    requires a < b < |Keys(index, ix)| && AtCell(index, Keys(index, ix)[a], i) && AtCell(index, Keys(index, ix)[b], j)
    ensures i < j
    decreases |index.cells| - ix
  {
    if !index.Occupied(ix) {
      KeysInCellOrder(env, index, random, ix + 1, a, b, i, j);
    } else if a == 0 {
      assert SameKeyAt(index, ix, i);
      KeysAreCells(env, index, random, ix + 1);
      var key := Keys(index, ix + 1)[b - 1];
      assert key in Keys(index, ix + 1) && key == Keys(index, ix)[b];
      var k :| ix + 1 <= k && index.Occupied(k) && index.cells[k].item.key == key;
      assert SameKeyAt(index, k, j);
    } else {
      KeysInCellOrder(env, index, random, ix + 1, a - 1, b - 1, i, j);
    }
  }

  ghost function InRangeKeys(keys: seq<Pubkey>, inRange: Pubkey -> bool): seq<Pubkey> {
    if keys == [] then [] else (if inRange(keys[0]) then [keys[0]] else []) + InRangeKeys(keys[1..], inRange)
  }

  /** The items are those of the keys in range, in the order of the keys. */
  lemma {:induction false} ItemsFollowKeys<T>(b: Bucket<T>, inRange: Pubkey -> bool, ix: nat)
    requires ix <= |b.index.cells|
    ensures var items, keys := ItemsInRange(b, inRange, ix), InRangeKeys(Keys(b.index, ix), inRange);
            |items| == |keys| && forall a :: 0 <= a < |items| ==> items[a].pubkey == keys[a]
    decreases |b.index.cells| - ix
  {
    if ix < |b.index.cells| {
      ItemsFollowKeys(b, inRange, ix + 1);
      if b.index.Occupied(ix) {
        assert Keys(b.index, ix)[1..] == Keys(b.index, ix + 1);
      }
    }
  }
}
