/**
 Bucket storages as values: `2^capacityPow2` cells, each with a lock and an item. A lock of zero marks
 a free cell, any other lock is the uid of the key the cell is allocated to.
 */
module Storage {
  import opened Arithmetic
  import opened Wrappers

  const UNLOCKED: nat := 0
  const DEFAULT_CAPACITY_POW2: nat := 5

  datatype Cell<+E> = Cell(lock: nat, item: E)

  datatype Storage<+E> = Storage(capacityPow2: nat, cells: seq<Cell<E>>, count: nat) {

    predicate Occupied(i: int) {
      0 <= i < |cells| && cells[i].lock != UNLOCKED
    }

    ghost function OccupiedCells(): set<int> {
      set i | 0 <= i < |cells| && cells[i].lock != UNLOCKED
    }

    /** The capacity is a power of two, and `count` is the number of allocated cells. */
    ghost predicate Valid() {
      |cells| == Pow2(capacityPow2) && count == |OccupiedCells()|
    }

    function WithCell(i: nat, lock: nat, item: E): (s: Storage<E>)
      requires i < |cells|
    {
      this.(cells := cells[i := Cell(lock, item)])
    }

    function Allocate(i: nat, uid: nat, item: E): (s: Storage<E>)
      requires i < |cells|
    {
      WithCell(i, uid, item).(count := count + 1)
    }

    function Free(i: nat): (s: Storage<E>)
      requires i < |cells| && count > 0
    {
      WithCell(i, UNLOCKED, cells[i].item).(count := count - 1)
    }
  }

  /** A new file: every header reads as zero, so every cell is free. */
  function Blank<E>(capacityPow2: nat, item: E): (s: Storage<E>)
    ensures s.Valid() && s.OccupiedCells() == {} && s.count == 0
  {
    var s := Storage(capacityPow2, seq(Pow2(capacityPow2), _ => Cell(UNLOCKED, item)), 0);
    assert s.OccupiedCells() == {};
    s
  }

  /** The cell that probe number `d` looks at when the search starts at `start`. */
  function Slot(start: nat, d: nat, capacity: nat): (i: nat)
    requires capacity > 0
    ensures i < capacity
  {
    (start + d) % capacity
  }

  /** The first free cell among probes `d`, `d + 1`, .., `limit - 1`. */
  function ProbeFree<E>(s: Storage<E>, start: nat, d: nat, limit: nat): (r: Option<nat>)
    requires |s.cells| > 0
    ensures r.Some? ==> r.value < |s.cells| && !s.Occupied(r.value)
    ensures r.Some? ==> exists e: nat :: d <= e < limit && r.value == Slot(start, e, |s.cells|)
    ensures r.None? ==> forall e: nat :: d <= e < limit ==> s.Occupied(Slot(start, e, |s.cells|))
    decreases limit - d
  {
    if d >= limit then None
    else if !s.Occupied(Slot(start, d, |s.cells|)) then Some(Slot(start, d, |s.cells|))
    else ProbeFree(s, start, d + 1, limit)
  }

  /** Probe `d` from `start` is free, and all the probes before it are allocated. */
  ghost predicate FirstFree<E>(s: Storage<E>, start: nat, d: nat) {
    && |s.cells| > 0 && !s.Occupied(Slot(start, d, |s.cells|))
    && forall e: nat :: e < d ==> s.Occupied(Slot(start, e, |s.cells|))
  }

  /** The cell that the search returns is the first free one in probe order. */
  lemma {:induction false} ProbeFreeIsFirst<E>(s: Storage<E>, start: nat, d: nat, limit: nat) returns (e: nat)
    requires |s.cells| > 0 && ProbeFree(s, start, d, limit).Some?
    ensures d <= e < limit && ProbeFree(s, start, d, limit).value == Slot(start, e, |s.cells|)
    ensures forall e': nat :: d <= e' < e ==> s.Occupied(Slot(start, e', |s.cells|))
    decreases limit - d
  {
    if s.Occupied(Slot(start, d, |s.cells|)) {
      e := ProbeFreeIsFirst(s, start, d + 1, limit);
    } else {
      e := d;
    }
  }

  lemma AllocateKeepsValid<E>(s: Storage<E>, i: nat, uid: nat, item: E)
    requires s.Valid() && i < |s.cells| && !s.Occupied(i) && uid != UNLOCKED
    ensures s.Allocate(i, uid, item).Valid()
    ensures s.Allocate(i, uid, item).OccupiedCells() == s.OccupiedCells() + {i}
  {
    assert s.Allocate(i, uid, item).OccupiedCells() == s.OccupiedCells() + {i};
  }

  lemma OccupiedIsCounted<E>(s: Storage<E>, i: nat)
    requires s.Valid() && s.Occupied(i)
    ensures s.count > 0
  {
    assert i in s.OccupiedCells();
  }

  lemma FreeKeepsValid<E>(s: Storage<E>, i: nat)
    requires s.Valid() && s.Occupied(i)
    ensures s.count > 0 && s.Free(i).Valid()
    ensures s.Free(i).OccupiedCells() == s.OccupiedCells() - {i}
  {
    OccupiedIsCounted(s, i);
    assert s.Free(i).OccupiedCells() == s.OccupiedCells() - {i};
  }

  lemma OverwriteKeepsValid<E>(s: Storage<E>, i: nat, item: E)
    requires s.Valid() && s.Occupied(i)
    ensures s.WithCell(i, s.cells[i].lock, item).Valid()
    ensures s.WithCell(i, s.cells[i].lock, item).OccupiedCells() == s.OccupiedCells()
  {
    assert s.WithCell(i, s.cells[i].lock, item).OccupiedCells() == s.OccupiedCells();
  }

  // ---------------------------------------------------------------------------------------------
  // Growth by copying: cell i moves to cell i << increment.

  /** The storage after growth: the multiples of `2^increment` hold the old cells, the rest is free. */
  function Resized<E>(s: Storage<E>, newPow2: nat, item: E): (r: Storage<E>)
    requires |s.cells| == Pow2(s.capacityPow2) && s.capacityPow2 <= newPow2
    ensures r.capacityPow2 == newPow2 && |r.cells| == Pow2(newPow2) && r.count == s.count
  {
    Storage(newPow2,
            seq(Pow2(newPow2),
                j requires 0 <= j < Pow2(newPow2) => ResizedCell(s, newPow2, item, j)),
            s.count)
  }

  function ResizedCell<E>(s: Storage<E>, newPow2: nat, item: E, j: nat): (c: Cell<E>)
    requires |s.cells| == Pow2(s.capacityPow2) && s.capacityPow2 <= newPow2 && j < Pow2(newPow2)
  {
    var step := Pow2(newPow2 - s.capacityPow2);
    ImageInRange(s.capacityPow2, newPow2, j);
    if j % step == 0 then s.cells[j / step] else Cell(UNLOCKED, item)
  }

  lemma ImageInRange(oldPow2: nat, newPow2: nat, j: nat)
    requires oldPow2 <= newPow2 && j < Pow2(newPow2)
    ensures 0 <= j / Pow2(newPow2 - oldPow2) < Pow2(oldPow2)
  {
    Pow2Sum(oldPow2, newPow2 - oldPow2);
    QuotientInRange(j, Pow2(newPow2 - oldPow2), Pow2(oldPow2));
  }

  /** Old cell `i` is intact, lock and item, at `i << increment`. */
  lemma ResizedImage<E>(s: Storage<E>, newPow2: nat, item: E, i: nat)
    requires |s.cells| == Pow2(s.capacityPow2) && s.capacityPow2 <= newPow2 && i < |s.cells|
    ensures Shl(i, newPow2 - s.capacityPow2) < Pow2(newPow2)
    ensures Resized(s, newPow2, item).cells[Shl(i, newPow2 - s.capacityPow2)] == s.cells[i]
  {
    ShlBound(i, s.capacityPow2, newPow2 - s.capacityPow2);
    ShlIsProduct(i, newPow2 - s.capacityPow2);
    MultipleDivides(i, Pow2(newPow2 - s.capacityPow2));
  }

  /** Every occupied cell is the image of an old cell: all the others are free. */
  lemma ResizedOccupiedIsImage<E>(s: Storage<E>, newPow2: nat, item: E, j: nat) returns (i: nat)
    requires |s.cells| == Pow2(s.capacityPow2) && s.capacityPow2 <= newPow2
    requires Resized(s, newPow2, item).Occupied(j)
    ensures s.Occupied(i) && Shl(i, newPow2 - s.capacityPow2) == j
  {
    var step := Pow2(newPow2 - s.capacityPow2);
    ImageInRange(s.capacityPow2, newPow2, j);
    i := j / step;
    assert j % step == 0;
    ShlIsProduct(i, newPow2 - s.capacityPow2);
  }

  /** Where the allocated cells of a storage go when it grows. */
  ghost function Spread<E>(s: Storage<E>, newPow2: nat): set<int> {
    if s.capacityPow2 <= newPow2 then set i | i in s.OccupiedCells() :: Shl(i, newPow2 - s.capacityPow2) else {}
  }

  lemma SpreadOccupied<E>(s: Storage<E>, newPow2: nat, item: E)
    requires s.Valid() && s.capacityPow2 <= newPow2
    ensures Resized(s, newPow2, item).OccupiedCells() == Spread(s, newPow2)
  {
    var r := Resized(s, newPow2, item);
    forall j | j in r.OccupiedCells() ensures j in Spread(s, newPow2) {
      var i := ResizedOccupiedIsImage(s, newPow2, item, j);
      assert i in s.OccupiedCells();
    }
    forall i | i in s.OccupiedCells() ensures Shl(i, newPow2 - s.capacityPow2) in r.OccupiedCells() {
      ResizedImage(s, newPow2, item, i);
    }
  }

  lemma ResizedKeepsValid<E>(s: Storage<E>, newPow2: nat, item: E)
    requires s.Valid() && s.capacityPow2 <= newPow2
    ensures Resized(s, newPow2, item).Valid()
  {
    var r := Resized(s, newPow2, item);
    var inc := newPow2 - s.capacityPow2;
    var image := (i: int) => if i >= 0 then Shl(i, inc) else i;
    forall i | i in s.OccupiedCells() ensures image(i) in r.OccupiedCells() {
      ResizedImage(s, newPow2, item, i);
    }
    forall j | j in r.OccupiedCells() ensures exists i :: i in s.OccupiedCells() && image(i) == j {
      var i := ResizedOccupiedIsImage(s, newPow2, item, j);
      assert i in s.OccupiedCells();
    }
    forall i, i' | i in s.OccupiedCells() && i' in s.OccupiedCells() && image(i) == image(i')
      ensures i == i'
    {
      ShlInjective(i, i', inc);
    }
    InjectiveImageSize(s.OccupiedCells(), image, r.OccupiedCells());
  }

  /** Right after doubling, two consecutive probes cannot both hit an occupied cell. */
  lemma DoubledHasFreeNeighbour<E>(s: Storage<E>, item: E, start: nat)
    requires |s.cells| == Pow2(s.capacityPow2)
    ensures ProbeFree(Resized(s, s.capacityPow2 + 1, item), start, 0, 2).Some?
  {
    var r := Resized(s, s.capacityPow2 + 1, item);
    var cap := |r.cells|;
    assert cap == 2 * Pow2(s.capacityPow2);
    assert Pow2(1) == 2;
    var a, b := Slot(start, 0, cap), Slot(start, 1, cap);
    assert a % 2 == 1 || b % 2 == 1 by {
      SlotStep(start, cap);
    }
    if a % 2 == 1 {
      assert !r.Occupied(a);
    } else {
      assert !r.Occupied(b);
    }
  }

  lemma SlotStep(start: nat, cap: nat)
    requires cap > 1
    ensures Slot(start, 1, cap) == if Slot(start, 0, cap) + 1 == cap then 0 else Slot(start, 0, cap) + 1
  {
    var q, r := start / cap, start % cap;
    assert start == q * cap + r;
    if r + 1 == cap {
      assert start + 1 == (q + 1) * cap + 0;
      DivModUnique(start + 1, cap, q + 1, 0);
    } else {
      DivModUnique(start + 1, cap, q, r + 1);
    }
  }

  /** Every probe is one cell after the one before, and the first cell follows the last one. */
  lemma SlotNext(start: nat, d: nat, cap: nat)
    requires cap > 0
    ensures Slot(start, d + 1, cap) == if Slot(start, d, cap) + 1 == cap then 0 else Slot(start, d, cap) + 1
  {
    if cap > 1 {
      SlotStep(start + d, cap);
    }
  }

  lemma SlotAtStart(i: nat, cap: nat)
    requires i < cap
    ensures Slot(i, 0, cap) == i
  {}

  lemma MultiplesAreApart(k: int, n: nat)
    ensures k * n <= 0 || k * n >= n
  {
    if k > 0 {
      MulAtLeast(k, n);
    } else {
      assert k * n <= 0;
    }
  }

  lemma SlotsDiffer(start: nat, d: nat, e: nat, cap: nat)
    requires d < e < cap
    ensures Slot(start, d, cap) != Slot(start, e, cap)
  {
    var q, q' := (start + d) / cap, (start + e) / cap;
    assert start + d == q * cap + Slot(start, d, cap) && start + e == q' * cap + Slot(start, e, cap);
    assert (q' - q) * cap == q' * cap - q * cap;
    MultiplesAreApart(q' - q, cap);
  }

  lemma OccupiedBound<E>(s: Storage<E>)
    ensures |s.OccupiedCells()| <= |s.cells|
  {
    var all := seq(|s.cells|, i requires 0 <= i < |s.cells| => i);
    DistinctIffFullSize(all);
    forall i | i in s.OccupiedCells() ensures i in all {
      assert all[i] == i;
    }
    SubsetSize(s.OccupiedCells(), (set i | i in all));
  }

  /** A search that fails has seen as many allocated cells as its window, or the storage, is long. */
  lemma FullWindowIsLarge<E>(s: Storage<E>, start: nat, limit: nat)
    requires 0 < |s.cells| && ProbeFree(s, start, 0, limit).None?
    ensures |s.OccupiedCells()| >= Min(limit, |s.cells|)
  {
    var cap, n := |s.cells|, Min(limit, |s.cells|);
    var window := seq(n, d requires 0 <= d < n => Slot(start, d, cap) as int);
    forall d, e | 0 <= d < e < n ensures window[d] != window[e] {
      SlotsDiffer(start, d, e, cap);
    }
    DistinctIffFullSize(window);
    forall i | i in window ensures i in s.OccupiedCells() {
      var d :| 0 <= d < n && window[d] == i;
      assert s.Occupied(Slot(start, d, cap));
    }
    SubsetSize((set i | i in window), s.OccupiedCells());
  }
}
