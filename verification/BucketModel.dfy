/** A bucket as a value: the index, its seed, the data storages and the growth that waits to be applied. */
module BucketModel {
  import opened Arithmetic
  import opened DataCells
  import opened DataOps
  import opened IndexEntry
  import opened IndexTable
  import opened Storage
  import opened Wrappers

  datatype Error = DataNoSpace(dataIndex: nat, capacityPow2: nat) | IndexNoSpace(capacityPow2: nat)

  datatype Outcome = Ok | Err(error: Error)

  /** Storages computed under a read lock; `active` counts them. */
  datatype Reallocated<+T> = Reallocated(
    active: nat,
    index: Option<(nat, Table)>,
    data: Option<(nat, DataStorage<T>)>)

  datatype Bucket<+T> = Bucket(
    index: Table,
    random: nat,
    data: seq<DataStorage<T>>,
    reallocated: Reallocated<T>)

  function NothingPending<T>(): Reallocated<T> {
    Reallocated(0, None, None)
  }

  function BlankItem<T>(env: Env<T>, b: nat): (item: seq<T>)
    ensures |item| == Pow2(b)
  {
    seq(Pow2(b), _ => env.zero)
  }

  function NewBucket<T>(random: nat): Bucket<T> {
    Bucket(Blank(DEFAULT_CAPACITY_POW2, ZERO_ENTRY), random, [], NothingPending())
  }

  // ---------------------------------------------------------------------------------------------
  // Invariants

  /** The live storages. */
  ghost predicate LiveInv<T>(env: Env<T>, b: Bucket<T>) {
    && TableInv(env, b.index, b.random)
    && DataInv(env, Entries(b.index), b.data)
  }

  /** A pending index holds the entries of the live one. */
  ghost predicate PendingIndex<T>(env: Env<T>, index: Table, random: nat, t: Table) {
    TableInv(env, t, random) && Entries(t) == Entries(index) && t.count == index.count
  }

  /** A pending data storage is the live one resized, or an empty one if there is none. */
  ghost predicate PendingData<T>(env: Env<T>, data: seq<DataStorage<T>>, b: nat, s: DataStorage<T>) {
    if b < |data| then
      && |data[b].cells| == Pow2(data[b].capacityPow2)
      && data[b].capacityPow2 <= s.capacityPow2
      && s == Resized(data[b], s.capacityPow2, BlankItem(env, b))
    else
      s.capacityPow2 >= DEFAULT_CAPACITY_POW2 && s == Blank(s.capacityPow2, BlankItem(env, b))
  }

  /** One pending storage exactly when `active` is one, none when it is zero, and never more. */
  ghost predicate PendingInv<T>(env: Env<T>, b: Bucket<T>) {
    && b.reallocated.active <= 1
    && (b.reallocated.active == 0 ==> b.reallocated == NothingPending())
    && (b.reallocated.active == 1 ==> (b.reallocated.index.Some? <==> b.reallocated.data.None?))
    && (b.reallocated.index.Some? ==>
          PendingIndex(env, b.index, b.reallocated.index.value.0, b.reallocated.index.value.1))
    && (b.reallocated.data.Some? ==>
          PendingData(env, b.data, b.reallocated.data.value.0, b.reallocated.data.value.1))
  }

  ghost predicate Inv<T>(env: Env<T>, b: Bucket<T>) {
    LiveInv(env, b) && PendingInv(env, b)
  }

  /** A write may only run when no growth is pending. */
  ghost predicate Writable<T>(env: Env<T>, b: Bucket<T>) {
    LiveInv(env, b) && b.reallocated == NothingPending()
  }

  /** The plain map that a bucket stands for. */
  ghost function Map<T>(env: Env<T>, b: Bucket<T>): map<Pubkey, Value<T>>
    requires LiveInv(env, b)
  {
    Meaning(Entries(b.index), b.data)
  }

  // ---------------------------------------------------------------------------------------------
  // Reading

  function ReadValue<T>(env: Env<T>, b: Bucket<T>, key: Pubkey): (r: Option<Value<T>>)
    requires |b.index.cells| > 0
  {
    match FindEntry(env, b.index, b.random, key)
    case None => None
    case Some(ii) => Some(ValueOf(b.data, b.index.cells[ii].item))
  }

  function Keys(index: Table, ix: nat): (keys: seq<Pubkey>)
    requires ix <= |index.cells|
    decreases |index.cells| - ix
  {
    if ix == |index.cells| then []
    else if !index.Occupied(ix) then Keys(index, ix + 1)
    else [index.cells[ix].item.key] + Keys(index, ix + 1)
  }

  datatype BucketItem<+T> = BucketItem(pubkey: Pubkey, refCount: nat, slotList: seq<T>)

  function ItemOf<T>(data: seq<DataStorage<T>>, e: IndexEntry): BucketItem<T> {
    BucketItem(e.key, e.refCount, ListOf(data, e))
  }

  function ItemsInRange<T>(b: Bucket<T>, inRange: Pubkey -> bool, ix: nat): (items: seq<BucketItem<T>>)
    requires ix <= |b.index.cells|
    decreases |b.index.cells| - ix
  {
    if ix == |b.index.cells| then []
    else if !b.index.Occupied(ix) || !inRange(b.index.cells[ix].item.key) then ItemsInRange(b, inRange, ix + 1)
    else [ItemOf(b.data, b.index.cells[ix].item)] + ItemsInRange(b, inRange, ix + 1)
  }

  // ---------------------------------------------------------------------------------------------
  // Writing

  function WithEntry<T>(b: Bucket<T>, ii: nat, e: IndexEntry): (b': Bucket<T>)
    requires ii < |b.index.cells|
  {
    b.(index := b.index.WithCell(ii, b.index.cells[ii].lock, e))
  }

  function Created<T>(env: Env<T>, b: Bucket<T>, ii: nat, key: Pubkey): (b': Bucket<T>)
    requires ii < |b.index.cells|
  {
    b.(index := b.index.Allocate(ii, KeyUid(env, key), InitEntry(key)))
  }

  /** The list stays in its cell. */
  function WrittenInPlace<T>(b: Bucket<T>, ii: nat, list: seq<T>, refCount: nat): (b': Bucket<T>)
    requires ii < |b.index.cells|
    requires var e := b.index.cells[ii].item;
             && DataBucket(e.numSlots) < |b.data|
             && e.createdPow2 <= b.data[DataBucket(e.numSlots)].capacityPow2
             && CellOf(b.data, e) < |b.data[DataBucket(e.numSlots)].cells|
             && |list| <= |b.data[DataBucket(e.numSlots)].cells[CellOf(b.data, e)].item|
  {
    var e := b.index.cells[ii].item;
    WithEntry(b, ii, Resliced(e, refCount, |list|))
    .(data := OverwriteAt(b.data, DataBucket(e.numSlots), CellOf(b.data, e), list))
  }

  function DataFreed<T>(env: Env<T>, b: Bucket<T>, ii: nat): (data: seq<DataStorage<T>>)
    requires LiveInv(env, b) && b.index.Occupied(ii)
  {
    var e := b.index.cells[ii].item;
    EntryIsStored(env, b, ii);
    if e.numSlots > 0 then
      OccupiedIsCounted(b.data[DataBucket(e.numSlots)], CellOf(b.data, e));
      FreeAt(b.data, DataBucket(e.numSlots), CellOf(b.data, e))
    else b.data
  }

  /** The list moves to cell `ix` of its best-fit storage; its old cell is freed. */
  function WrittenElsewhere<T>(env: Env<T>, b: Bucket<T>, ii: nat, list: seq<T>, refCount: nat, ix: nat): (b': Bucket<T>)
    requires LiveInv(env, b) && b.index.Occupied(ii)
    requires DataBucket(|list|) < |b.data|
    requires ix < |b.data[DataBucket(|list|)].cells|
  {
    var e := b.index.cells[ii].item;
    var best := DataBucket(|list|);
    EntryIsStored(env, b, ii);
    ItemFits(b.data, best, ix);
    var data := DataFreed(env, b, ii);
    WithEntry(b, ii, Relocated(e, refCount, |list|, ix, b.data[best].capacityPow2))
    .(data := if |list| > 0 then AllocateAt(data, best, ix, b.index.cells[ii].lock, list) else data)
  }

  function WriteEntry<T>(env: Env<T>, b: Bucket<T>, ii: nat, list: seq<T>, refCount: nat, pos: nat)
    : (r: (Bucket<T>, Outcome))
    requires LiveInv(env, b) && b.index.Occupied(ii) && DataBucket(|list|) < |b.data|
  {
    var e := b.index.cells[ii].item;
    var best := DataBucket(|list|);
    EntryIsStored(env, b, ii);
    ItemFits(b.data, best, 0);
    if best == DataBucket(e.numSlots) && e.numSlots > 0 then (WrittenInPlace(b, ii, list, refCount), Ok)
    else
      match ProbeFree(b.data[best], pos, 0, env.maxSearch)
      case Some(ix) => (WrittenElsewhere(env, b, ii, list, refCount, ix), Ok)
      case None => (WithEntry(b, ii, e.(refCount := refCount)), Err(DataNoSpace(best, b.data[best].capacityPow2)))
  }

  function TryWrite<T>(env: Env<T>, b: Bucket<T>, key: Pubkey, list: seq<T>, refCount: nat, pos: nat)
    : (r: (Bucket<T>, Outcome))
    requires LiveInv(env, b)
  {
    var best := DataBucket(|list|);
    if best >= |b.data| then (b, Err(DataNoSpace(best, 0)))
    else
      match FindEntry(env, b.index, b.random, key)
      case Some(ii) => WriteEntry(env, b, ii, list, refCount, pos)
      case None =>
        match FindVacancy(env, b.index, b.random, key)
        case None => (b, Err(IndexNoSpace(b.index.capacityPow2)))
        case Some(ii) =>
          CreatedMeans(env, b, ii, key);
          WriteEntry(env, Created(env, b, ii, key), ii, list, refCount, pos)
  }

  function DeleteKey<T>(env: Env<T>, b: Bucket<T>, key: Pubkey): (b': Bucket<T>)
    requires LiveInv(env, b)
  {
    match FindEntry(env, b.index, b.random, key)
    case None => b
    case Some(ii) =>
      OccupiedIsCounted(b.index, ii);
      b.(index := b.index.Free(ii), data := DataFreed(env, b, ii))
  }

  /** Adds `delta` to a reference count, wrapping as 64-bit arithmetic does. */
  function Bumped(refCount: nat, delta: int): (r: nat)
    ensures r < U64
    ensures 0 <= refCount + delta < U64 ==> r == refCount + delta
    ensures refCount + delta == U64 ==> r == 0
    ensures refCount + delta == -1 ==> r == U64 - 1
  {
    (refCount + delta) % U64
  }

  function Bump<T>(env: Env<T>, b: Bucket<T>, key: Pubkey, delta: int): (r: (Bucket<T>, Option<nat>))
    requires |b.index.cells| > 0
  {
    match FindEntry(env, b.index, b.random, key)
    case None => (b, None)
    case Some(ii) =>
      var e := b.index.cells[ii].item;
      (WithEntry(b, ii, e.(refCount := Bumped(e.refCount, delta))), Some(Bumped(e.refCount, delta)))
  }

  // ---------------------------------------------------------------------------------------------
  // Facts the operations rest on

  lemma EntryIsStored<T>(env: Env<T>, b: Bucket<T>, ii: nat)
    requires LiveInv(env, b) && b.index.Occupied(ii)
    ensures var e := b.index.cells[ii].item;
            && e in Entries(b.index)
            && Stored(env, b.data, e)
            && BucketValid(b.data[DataBucket(e.numSlots)], DataBucket(e.numSlots))
            && CellOf(b.data, e) < |b.data[DataBucket(e.numSlots)].cells|
            && |b.data[DataBucket(e.numSlots)].cells[CellOf(b.data, e)].item| == Pow2(DataBucket(e.numSlots))
            && b.index.cells[ii].lock == KeyUid(env, e.key)
  {
    var e := b.index.cells[ii].item;
    assert e in Entries(b.index);
    assert Stored(env, b.data, e);
    assert WellPlaced(env, b.index, b.random, ii);
    assert BucketValid(b.data[DataBucket(e.numSlots)], DataBucket(e.numSlots));
    DataLocInRange(e, b.data[DataBucket(e.numSlots)].capacityPow2);
  }

  lemma CreatedMeans<T>(env: Env<T>, b: Bucket<T>, ii: nat, key: Pubkey)
    requires LiveInv(env, b) && |b.data| > 0
    requires FindEntry(env, b.index, b.random, key) == None
    requires FindVacancy(env, b.index, b.random, key) == Some(ii)
    ensures LiveInv(env, Created(env, b, ii, key))
    ensures Created(env, b, ii, key).index.Occupied(ii)
    ensures Map(env, Created(env, b, ii, key)) == Map(env, b)[key := Value([], 0)]
    ensures key !in Map(env, b)
  {
    FindIffStored(env, b.index, b.random, key);
    MeaningKeys(Entries(b.index), b.data);
    Added(env, b.index, b.random, ii, InitEntry(key));
    Emptied(env, Entries(b.index), b.data, InitEntry(key));
  }
}
