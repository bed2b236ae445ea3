/**
 The bytes of a storage file. Cell `i` takes `cellSize` bytes from `i * cellSize`: a header of eight
 bytes that holds the lock, and the elements after it.
 */
module Layout {
  import opened Arithmetic
  import opened IndexEntry
  import opened Storage

  const HEADER_SIZE: nat := 8

  /** The size of a cell for `numElems` elements of `elemSize` bytes. */
  function CellSize(elemSize: nat, numElems: nat): nat {
    elemSize * numElems + HEADER_SIZE
  }

  /** A half-open range of byte positions. */
  datatype Range = Range(start: nat, end: nat) {
    predicate Within(r: Range) {
      r.start <= start <= end <= r.end
    }

    predicate DisjointFrom(r: Range) {
      end <= r.start || r.end <= start
    }
  }

  function CellRange(cellSize: nat, i: nat): Range {
    Range(i * cellSize, i * cellSize + cellSize)
  }

  function HeaderRange(cellSize: nat, i: nat): Range {
    Range(i * cellSize, i * cellSize + HEADER_SIZE)
  }

  /** The bytes that `get_cell_slice` takes for `len` elements. */
  function SliceRange(cellSize: nat, elemSize: nat, i: nat, len: nat): Range {
    Range(i * cellSize + HEADER_SIZE, i * cellSize + HEADER_SIZE + elemSize * len)
  }

  lemma CellInFile(cellSize: nat, i: nat, capacity: nat)
    requires i < capacity && cellSize > 0
    ensures CellRange(cellSize, i).Within(Range(0, capacity * cellSize))
  {
    MulStrict(i, capacity, cellSize);
    assert (i + 1) * cellSize == i * cellSize + cellSize;
  }

  lemma CellsAreDisjoint(cellSize: nat, i: nat, j: nat)
    requires i != j && cellSize > 0
    ensures CellRange(cellSize, i).DisjointFrom(CellRange(cellSize, j))
  {
    if i < j {
      MulStrict(i, j, cellSize);
      assert (i + 1) * cellSize == i * cellSize + cellSize;
    } else {
      MulStrict(j, i, cellSize);
      assert (j + 1) * cellSize == j * cellSize + cellSize;
    }
  }

  /**
   A list of `n` elements in a storage for `2^ceil(log2 n)` elements: the slice is inside its own cell
   and inside the file, after its own header, and apart from every byte of every other cell.
   */
  lemma SliceIsSafe(elemSize: nat, n: nat, capacityPow2: nat, i: nat)
    requires i < Pow2(capacityPow2)
    ensures var cellSize := CellSize(elemSize, Pow2(DataBucket(n)));
            var slice := SliceRange(cellSize, elemSize, i, n);
            && cellSize == 8 + elemSize * Pow2(DataBucket(n))
            && slice.start == i * cellSize + 8 && slice.end == slice.start + elemSize * n
            && slice.Within(CellRange(cellSize, i))
            && slice.Within(Range(0, Pow2(capacityPow2) * cellSize))
            && slice.DisjointFrom(HeaderRange(cellSize, i))
            && forall j: nat :: j != i ==> slice.DisjointFrom(CellRange(cellSize, j))
  {
    var cellSize := CellSize(elemSize, Pow2(DataBucket(n)));
    MulMonotone(n, Pow2(DataBucket(n)), elemSize);
    assert elemSize * n == n * elemSize;
    assert elemSize * Pow2(DataBucket(n)) == Pow2(DataBucket(n)) * elemSize;
    CellInFile(cellSize, i, Pow2(capacityPow2));
    forall j: nat | j != i ensures SliceRange(cellSize, elemSize, i, n).DisjointFrom(CellRange(cellSize, j)) {
      CellsAreDisjoint(cellSize, i, j);
    }
  }

  // ---------------------------------------------------------------------------------------------
  // Copying bytes

  ghost function CellBytes(bytes: seq<bv8>, cellSize: nat, i: nat): seq<bv8>
    requires i * cellSize + cellSize <= |bytes|
  {
    bytes[i * cellSize..i * cellSize + cellSize]
  }

  ghost predicate Holds(bytes: seq<bv8>, cellSize: nat, i: nat, cell: seq<bv8>) {
    i * cellSize + cellSize <= |bytes| && CellBytes(bytes, cellSize, i) == cell
  }

  /** Copies one cell byte by byte; the bytes of all the other cells stay. */
  method CopyCell(dst: array<bv8>, src: array<bv8>, cellSize: nat, from: nat, to: nat)
    requires cellSize > 0 && dst != src
    requires from * cellSize + cellSize <= src.Length && to * cellSize + cellSize <= dst.Length
    modifies dst
    ensures Holds(dst[..], cellSize, to, CellBytes(src[..], cellSize, from))
    ensures forall j: nat :: j != to && j * cellSize + cellSize <= dst.Length ==>
              Holds(dst[..], cellSize, j, CellBytes(old(dst[..]), cellSize, j))
  {
    var s, d := from * cellSize, to * cellSize;
    var k := 0;
    while k < cellSize
      invariant 0 <= k <= cellSize
      invariant dst[d..d + k] == src[s..s + k]
      invariant forall x :: 0 <= x < dst.Length && !(d <= x < d + cellSize) ==> dst[x] == old(dst[x])
    {
      dst[d + k] := src[s + k];
      k := k + 1;
    }
    forall j: nat | j != to && j * cellSize + cellSize <= dst.Length
      ensures Holds(dst[..], cellSize, j, CellBytes(old(dst[..]), cellSize, j))
    {
      CellsAreDisjoint(cellSize, to, j);
      assert CellBytes(dst[..], cellSize, j) == CellBytes(old(dst[..]), cellSize, j);
    }
  }

  /**
   The copy loop of a growth, on bytes. Every write is inside the new file, and cell by cell the result
   is the old cell where one lands, and what was there before everywhere else.
   */
  method CopyContents(dst: array<bv8>, src: array<bv8>, cellSize: nat, oldPow2: nat, newPow2: nat)
    requires cellSize > 0 && dst != src && oldPow2 <= newPow2
    requires src.Length == Pow2(oldPow2) * cellSize && dst.Length == Pow2(newPow2) * cellSize
    modifies dst
    ensures forall j: nat :: j < Pow2(newPow2) ==>
              Holds(dst[..], cellSize, j, CopiedCell(src[..], old(dst[..]), cellSize, oldPow2, newPow2, Pow2(oldPow2), j))
  {
    var oldCap := Pow2(oldPow2);
    var indexGrow := Pow2(newPow2 - oldPow2);
    ghost var was := dst[..];
    var i := 0;
    forall j: nat | j < Pow2(newPow2)
      ensures Holds(was, cellSize, j, CopiedCell(src[..], was, cellSize, oldPow2, newPow2, 0, j))
    {
      CellInFile(cellSize, j, Pow2(newPow2));
    }
    while i < oldCap
      invariant 0 <= i <= oldCap
      invariant forall j: nat :: j < Pow2(newPow2) ==>
                  Holds(dst[..], cellSize, j, CopiedCell(src[..], was, cellSize, oldPow2, newPow2, i, j))
    {
      CellInFile(cellSize, i, oldCap);
      ShlBound(i, oldPow2, newPow2 - oldPow2);
      ShlIsProduct(i, newPow2 - oldPow2);
      CellInFile(cellSize, i * indexGrow, Pow2(newPow2));
      ghost var before := dst[..];
      CopyCell(dst, src, cellSize, i, i * indexGrow);
      ghost var next := i + 1;
      forall j: nat | j < Pow2(newPow2)
        ensures Holds(dst[..], cellSize, j, CopiedCell(src[..], was, cellSize, oldPow2, newPow2, next, j))
      {
        CellInFile(cellSize, j, Pow2(newPow2));
        CopiedCellStep(src[..], was, cellSize, oldPow2, newPow2, i, j);
        assert Holds(before, cellSize, j, CopiedCell(src[..], was, cellSize, oldPow2, newPow2, i, j));
      }
      i := i + 1;
    }
  }

  /** What cell `j` of the new file holds after the first `done` old cells have been copied. */
  ghost function CopiedCell(src: seq<bv8>, was: seq<bv8>, cellSize: nat, oldPow2: nat, newPow2: nat, done: nat, j: nat)
    : seq<bv8>
    requires cellSize > 0 && oldPow2 <= newPow2 && j < Pow2(newPow2)
    requires |src| == Pow2(oldPow2) * cellSize && |was| == Pow2(newPow2) * cellSize
  {
    var i := Preimage(oldPow2, newPow2, j);
    if i < done && j == i * Pow2(newPow2 - oldPow2) then
      CellInFile(cellSize, i, Pow2(oldPow2));
      CellBytes(src, cellSize, i)
    else
      CellInFile(cellSize, j, Pow2(newPow2));
      CellBytes(was, cellSize, j)
  }

  /** The old cell that lands on new cell `j`, if `j` is a multiple of the step at all. */
  ghost function Preimage(oldPow2: nat, newPow2: nat, j: nat): (i: nat)
    requires oldPow2 <= newPow2 && j < Pow2(newPow2)
    ensures i < Pow2(oldPow2)
  {
    ImageInRange(oldPow2, newPow2, j);
    j / Pow2(newPow2 - oldPow2)
  }

  lemma CopiedCellStep(src: seq<bv8>, was: seq<bv8>, cellSize: nat, oldPow2: nat, newPow2: nat, i: nat, j: nat)
    requires cellSize > 0 && oldPow2 <= newPow2 && j < Pow2(newPow2) && i < Pow2(oldPow2)
    requires |src| == Pow2(oldPow2) * cellSize && |was| == Pow2(newPow2) * cellSize
    ensures i * cellSize + cellSize <= |src|
    ensures CopiedCell(src, was, cellSize, oldPow2, newPow2, i + 1, j) ==
            if j == i * Pow2(newPow2 - oldPow2) then CellBytes(src, cellSize, i)
            else CopiedCell(src, was, cellSize, oldPow2, newPow2, i, j)
  {
    var step := Pow2(newPow2 - oldPow2);
    CellInFile(cellSize, i, Pow2(oldPow2));
    MultipleDivides(i, step);
  }

  /** In the end every old cell is at its image. */
  lemma CopiedImage(src: seq<bv8>, was: seq<bv8>, cellSize: nat, oldPow2: nat, newPow2: nat, i: nat)
    requires cellSize > 0 && oldPow2 <= newPow2 && i < Pow2(oldPow2)
    requires |src| == Pow2(oldPow2) * cellSize && |was| == Pow2(newPow2) * cellSize
    ensures i * cellSize + cellSize <= |src|
    ensures Shl(i, newPow2 - oldPow2) < Pow2(newPow2)
    ensures CopiedCell(src, was, cellSize, oldPow2, newPow2, Pow2(oldPow2), Shl(i, newPow2 - oldPow2)) ==
            CellBytes(src, cellSize, i)
  {
    CellInFile(cellSize, i, Pow2(oldPow2));
    ShlBound(i, oldPow2, newPow2 - oldPow2);
    ShlIsProduct(i, newPow2 - oldPow2);
    MultipleDivides(i, Pow2(newPow2 - oldPow2));
  }

  /** Every cell that is no image has the bytes it had before. */
  lemma CopiedGap(src: seq<bv8>, was: seq<bv8>, cellSize: nat, oldPow2: nat, newPow2: nat, j: nat)
    requires cellSize > 0 && oldPow2 <= newPow2 && j < Pow2(newPow2)
    requires j % Pow2(newPow2 - oldPow2) != 0
    requires |src| == Pow2(oldPow2) * cellSize && |was| == Pow2(newPow2) * cellSize
    ensures j * cellSize + cellSize <= |was|
    ensures CopiedCell(src, was, cellSize, oldPow2, newPow2, Pow2(oldPow2), j) == CellBytes(was, cellSize, j)
  {
    CellInFile(cellSize, j, Pow2(newPow2));
    MultipleDivides(Preimage(oldPow2, newPow2, j), Pow2(newPow2 - oldPow2));
  }
}
