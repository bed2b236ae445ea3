/** Bucket storages as objects: cells that are locked, written and copied in place, and a shared counter. */
module BucketStorage {
  import opened Arithmetic
  import opened Storage
  import opened Wrappers

  /** A counter that several storages may share. */
  class Counter {
    var value: nat

    constructor (value: nat)
      ensures this.value == value
    {
      this.value := value;
    }
  }

  class BucketStorage<E> {
    const capacityPow2: nat
    const cells: array<Cell<E>>
    const count: Counter

    /** The storage as a value. */
    ghost function View(): Storage<E>
      reads cells, count
    {
      Storage(capacityPow2, cells[..], count.value)
    }

    /** Never changes: the number of cells is the power of two that the storage was made with. */
    ghost predicate Sized() {
      cells.Length == Pow2(capacityPow2)
    }

    /** A new file of free cells. The counter is given: a larger copy of a storage goes on with the old one. */
    constructor (capacityPow2: nat, item: E, count: Counter)
      ensures this.capacityPow2 == capacityPow2 && this.count == count
      ensures fresh(cells) && Sized()
      ensures View() == Blank(capacityPow2, item).(count := count.value)
    {
      this.capacityPow2 := capacityPow2;
      this.count := count;
      var blank := Cell(UNLOCKED, item);
      cells := new Cell<E>[Pow2(capacityPow2)](_ => blank);
      new;
      assert cells[..] == Blank(capacityPow2, item).cells;
    }

    method IsFree(ix: nat) returns (free: bool)
      requires ix < cells.Length
      ensures free <==> !View().Occupied(ix)
    {
      free := cells[ix].lock == UNLOCKED;
    }

    /** The uid that has locked a cell, if any. */
    method Uid(ix: nat) returns (uid: Option<nat>)
      requires ix < cells.Length
      ensures uid == if View().Occupied(ix) then Some(View().cells[ix].lock) else None
    {
      if cells[ix].lock == UNLOCKED {
        uid := None;
      } else {
        uid := Some(cells[ix].lock);
      }
    }

    method Get(ix: nat) returns (item: E)
      requires ix < cells.Length
      ensures item == View().cells[ix].item
    {
      item := cells[ix].item;
    }

    /** Overwrites the item of a cell; the lock stays. */
    method Put(ix: nat, item: E)
      requires ix < cells.Length
      modifies cells
      ensures View() == old(View()).WithCell(ix, old(cells[ix].lock), item)
    {
      cells[ix] := Cell(cells[ix].lock, item);
    }

    /** Locks a free cell, and counts it unless a resize moves it from another storage. */
    method Allocate(ix: nat, uid: nat, isResizing: bool) returns (ok: bool)
      requires ix < cells.Length && uid != UNLOCKED
      modifies cells, if isResizing then {} else {count}
      ensures ok <==> !old(View()).Occupied(ix)
      ensures !ok ==> View() == old(View())
      ensures ok ==> View() == old(View()).WithCell(ix, uid, old(cells[ix].item))
                               .(count := old(count.value) + if isResizing then 0 else 1)
    {
      ok := cells[ix].lock == UNLOCKED;
      if ok {
        cells[ix] := Cell(uid, cells[ix].item);
        if !isResizing {
          count.value := count.value + 1;
        }
      }
    }

    /** Unlocks a cell that `uid` has locked. */
    method Free(ix: nat, uid: nat)
      requires ix < cells.Length && uid != UNLOCKED && cells[ix].lock == uid && count.value > 0
      modifies cells, count
      ensures View() == old(View()).Free(ix)
    {
      cells[ix] := Cell(UNLOCKED, cells[ix].item);
      count.value := count.value - 1;
    }

    /** Copies every cell `i` of a smaller storage to cell `i << increment`. */
    method CopyContents(source: BucketStorage<E>, ghost item: E)
      requires Sized() && source.Sized() && source.capacityPow2 <= capacityPow2 && source.cells != cells
      requires forall j :: 0 <= j < cells.Length ==> cells[j] == Cell(UNLOCKED, item)
      modifies cells
      ensures View() == Resized(source.View(), capacityPow2, item).(count := count.value)
    {
      ghost var s := source.View();
      ghost var increment := capacityPow2 - source.capacityPow2;
      var indexGrow := Pow2(capacityPow2 - source.capacityPow2);
      var i := 0;
      while i < source.cells.Length
        invariant 0 <= i <= source.cells.Length
        invariant source.cells[..] == s.cells
        invariant forall j: nat :: j < i ==> Shl(j, increment) < cells.Length && cells[Shl(j, increment)] == s.cells[j]
        invariant forall k: nat :: k < cells.Length && cells[k] != Cell(UNLOCKED, item) ==>
                                     k % indexGrow == 0 && k / indexGrow < i
      {
        ShlBound(i, source.capacityPow2, increment);
        ShlIsProduct(i, increment);
        MultipleDivides(i, indexGrow);
        ImagesDiffer(i, increment);
        cells[i * indexGrow] := source.cells[i];
        i := i + 1;
      }
      CopiedEverything(s, capacityPow2, item, cells[..]);
    }
  }

  lemma ImagesDiffer(i: nat, increment: nat)
    ensures forall j: nat :: j < i ==> Shl(j, increment) != Shl(i, increment)
  {
    forall j: nat | j < i ensures Shl(j, increment) != Shl(i, increment) {
      if Shl(j, increment) == Shl(i, increment) {
        ShlInjective(j, i, increment);
      }
    }
  }

  lemma CopiedEverything<E>(s: Storage<E>, newPow2: nat, item: E, cells: seq<Cell<E>>)
    requires |s.cells| == Pow2(s.capacityPow2) && s.capacityPow2 <= newPow2 && |cells| == Pow2(newPow2)
    requires forall j: nat :: j < |s.cells| ==>
               var k := Shl(j, newPow2 - s.capacityPow2); k < |cells| && cells[k] == s.cells[j]
    requires forall k: nat :: k < |cells| && cells[k] != Cell(UNLOCKED, item) ==> k % Pow2(newPow2 - s.capacityPow2) == 0
    ensures cells == Resized(s, newPow2, item).cells
  {
    var step := Pow2(newPow2 - s.capacityPow2);
    forall k: nat | k < |cells| ensures cells[k] == ResizedCell(s, newPow2, item, k) {
      ImageInRange(s.capacityPow2, newPow2, k);
      if k % step == 0 {
        ShlIsProduct(k / step, newPow2 - s.capacityPow2);
        assert Shl(k / step, newPow2 - s.capacityPow2) == k;
      }
    }
  }

  /** A storage of the given capacity that goes on where `source` was, counter included. */
  method NewResized<E>(source: BucketStorage<E>, capacityPow2: nat, item: E) returns (r: BucketStorage<E>)
    requires source.Sized() && source.capacityPow2 <= capacityPow2
    ensures r.capacityPow2 == capacityPow2 && r.count == source.count && r.Sized()
    ensures fresh(r.cells)
    ensures r.View() == Resized(source.View(), capacityPow2, item)
  {
    r := new BucketStorage<E>(capacityPow2, item, source.count);
    assert forall j :: 0 <= j < r.cells.Length ==> r.View().cells[j] == Cell(UNLOCKED, item);
    r.CopyContents(source, item);
  }
}
