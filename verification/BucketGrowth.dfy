/**
 Growth in two halves. The new storage is computed while others may read, and is put next to the live
 one; the next writer swaps it in before it writes anything.
 */
module BucketGrowth {
  import opened BucketModel
  import opened BucketRefinement
  import opened DataCells
  import opened DataOps
  import opened IndexEntry
  import opened IndexGrowth
  import opened IndexTable
  import opened Storage
  import opened Wrappers

  function GrownPow2(currentPow2: nat): (r: nat)
    ensures r > currentPow2 && r >= DEFAULT_CAPACITY_POW2
    ensures r == currentPow2 + 1 || r == DEFAULT_CAPACITY_POW2
  {
    if currentPow2 + 1 > DEFAULT_CAPACITY_POW2 then currentPow2 + 1 else DEFAULT_CAPACITY_POW2
  }

  /**
   When a growth can be computed: nothing else is pending, and a reported data capacity is not so old
   that the new storage would be smaller than the live one. A stale index capacity is ignored.
   */
  predicate GrowAllowed<T>(b: Bucket<T>, error: Error) {
    match error
    case DataNoSpace(ix, currentPow2) =>
      b.reallocated.active == 0 && (ix < |b.data| ==> b.data[ix].capacityPow2 <= GrownPow2(currentPow2))
    case IndexNoSpace(currentPow2) =>
      b.index.capacityPow2 == currentPow2 ==> b.reallocated.active == 0
  }

  function GrowData<T>(env: Env<T>, b: Bucket<T>, ix: nat, currentPow2: nat): (b': Bucket<T>)
    requires LiveInv(env, b) && GrowAllowed(b, DataNoSpace(ix, currentPow2))
  {
    var newPow2 := GrownPow2(currentPow2);
    var s :=
      if ix < |b.data| then
        ItemFits(b.data, ix, 0);
        Resized(b.data[ix], newPow2, BlankItem(env, ix))
      else Blank(newPow2, BlankItem(env, ix));
    b.(reallocated := b.reallocated.(active := b.reallocated.active + 1, data := Some((ix, s))))
  }

  /** Stays without a pending index if all the seeds fail, that is, while the rehash still goes on. */
  function GrowIndex<T>(env: Env<T>, b: Bucket<T>, currentPow2: nat, seeds: seq<nat>): (b': Bucket<T>) {
    if b.index.capacityPow2 != currentPow2 then b
    else
      match Regrow(env, b.index, 1, seeds)
      case None => b
      case Some(t) => b.(reallocated := b.reallocated.(active := b.reallocated.active + 1, index := Some(t)))
  }

  function Grow<T>(env: Env<T>, b: Bucket<T>, error: Error, seeds: seq<nat>): (b': Bucket<T>)
    requires LiveInv(env, b) && GrowAllowed(b, error)
  {
    match error
    case DataNoSpace(ix, currentPow2) => GrowData(env, b, ix, currentPow2)
    case IndexNoSpace(currentPow2) => GrowIndex(env, b, currentPow2, seeds)
  }

  /** The empty storages between the last one and a new one further up. */
  function Fillers<T>(env: Env<T>, from: nat, to: nat): (s: seq<DataStorage<T>>)
    requires from <= to
    ensures |s| == to - from
    ensures forall c :: 0 <= c < to - from ==> s[c] == Blank(DEFAULT_CAPACITY_POW2, BlankItem(env, from + c))
  {
    seq(to - from, c requires 0 <= c < to - from => Blank(DEFAULT_CAPACITY_POW2, BlankItem(env, from + c)))
  }

  function ApplyGrowData<T>(env: Env<T>, data: seq<DataStorage<T>>, ix: nat, s: DataStorage<T>)
    : (data': seq<DataStorage<T>>)
  {
    if ix >= |data| then data + (Fillers(env, |data|, ix) + [s]) else data[ix := s]
  }

  function HandleDelayedGrows<T>(env: Env<T>, b: Bucket<T>): (b': Bucket<T>)
    requires b.reallocated.active == 1 ==> b.reallocated.index.Some? || b.reallocated.data.Some?
  {
    if b.reallocated.active != 1 then b
    else
      match b.reallocated.index
      case Some((random, t)) => b.(index := t, random := random, reallocated := NothingPending())
      case None =>
        var (ix, s) := b.reallocated.data.value;
        b.(data := ApplyGrowData(env, b.data, ix, s), reallocated := NothingPending())
  }

  // ---------------------------------------------------------------------------------------------
  // What growth means

  /** Computing a growth leaves the live storages alone, so every reader sees the same map. */
  lemma GrowMeans<T>(env: Env<T>, b: Bucket<T>, error: Error, seeds: seq<nat>)
    requires Inv(env, b) && GrowAllowed(b, error)
    ensures var b' := Grow(env, b, error, seeds);
            && Inv(env, b')
            && b'.index == b.index && b'.random == b.random && b'.data == b.data
  {
    match error
    case DataNoSpace(ix, currentPow2) =>
      if ix < |b.data| {
        ItemFits(b.data, ix, 0);
      }
    case IndexNoSpace(currentPow2) =>
      RegrowKeepsMeaning(env, b.index, b.random, 1, seeds);
  }

  /**
   What is pending afterwards. A stale index error is ignored. Otherwise the index is the first attempt that
   succeeds, if one does, and a data storage is the live one spread out, or an empty one where there is none.
   */
  lemma GrowInstalls<T>(env: Env<T>, b: Bucket<T>, error: Error, seeds: seq<nat>)
    requires Writable(env, b) && GrowAllowed(b, error)
    ensures var b' := Grow(env, b, error, seeds);
            match error
            case IndexNoSpace(capacityPow2) =>
              if capacityPow2 != b.index.capacityPow2 || Regrow(env, b.index, 1, seeds).None? then b' == b
              else b'.reallocated == Reallocated(1, Regrow(env, b.index, 1, seeds), None)
            case DataNoSpace(ix, capacityPow2) =>
              && b'.reallocated.active == 1 && b'.reallocated.index.None? && b'.reallocated.data.Some?
              && var (jx, s) := b'.reallocated.data.value;
              && jx == ix && s.capacityPow2 == GrownPow2(capacityPow2)
              && (ix < |b.data| ==> s.OccupiedCells() == Spread(b.data[ix], s.capacityPow2))
              && (ix >= |b.data| ==> s.OccupiedCells() == {})
  {
    if error.DataNoSpace? && error.dataIndex < |b.data| {
      var live := b.data[error.dataIndex];
      ItemFits(b.data, error.dataIndex, 0);
      SpreadOccupied(live, GrownPow2(error.capacityPow2), BlankItem(env, error.dataIndex));
    }
  }

  lemma BlankBucket<T>(env: Env<T>, b: nat, capacityPow2: nat)
    requires capacityPow2 >= DEFAULT_CAPACITY_POW2
    ensures BucketValid(Blank(capacityPow2, BlankItem(env, b)), b)
  {
  }

  lemma DataSwapMeans<T>(env: Env<T>, entries: set<IndexEntry>, data: seq<DataStorage<T>>, ix: nat, s: DataStorage<T>)
    requires DataInv(env, entries, data) && PendingData(env, data, ix, s)
    ensures DataInv(env, entries, ApplyGrowData(env, data, ix, s))
    ensures Meaning(entries, ApplyGrowData(env, data, ix, s)) == Meaning(entries, data)
  {
    if ix < |data| {
      ItemFits(data, ix, 0);
      Grown(env, entries, data, ix, s.capacityPow2, BlankItem(env, ix));
    } else {
      var extra := Fillers(env, |data|, ix) + [s];
      forall c | 0 <= c < |extra| ensures BucketValid(extra[c], |data| + c) {
        assert extra[c] == Blank(extra[c].capacityPow2, BlankItem(env, |data| + c));
        BlankBucket(env, |data| + c, extra[c].capacityPow2);
      }
      Appended(env, entries, data, extra);
    }
  }

  /** The new storage is at its place, the others stay, and what is missing below it is empty and of the default size. */
  lemma DataSwapInstalls<T>(env: Env<T>, data: seq<DataStorage<T>>, ix: nat, s: DataStorage<T>, c: nat)
    requires c < |ApplyGrowData(env, data, ix, s)|
    ensures |ApplyGrowData(env, data, ix, s)| == if ix < |data| then |data| else ix + 1
    ensures ApplyGrowData(env, data, ix, s)[c] ==
            if c == ix then s
            else if c < |data| then data[c]
            else Blank(DEFAULT_CAPACITY_POW2, BlankItem(env, c))
  {
  }

  /** Swapping in a pending storage never changes the plain map, and leaves nothing pending. */
  lemma DelayedGrowsMean<T>(env: Env<T>, b: Bucket<T>)
    requires Inv(env, b)
    ensures var b' := HandleDelayedGrows(env, b);
            && Writable(env, b')
            && Map(env, b') == Map(env, b)
            && b'.index.count == b.index.count
  {
    if b.reallocated.active == 1 && b.reallocated.index.None? {
      var (ix, s) := b.reallocated.data.value;
      DataSwapMeans(env, Entries(b.index), b.data, ix, s);
    }
  }

  lemma DataSwapCounts<T>(env: Env<T>, m: map<Pubkey, Value<T>>, index: Table, data: seq<DataStorage<T>>,
                          ix: nat, s: DataStorage<T>, leaked: nat)
    requires PendingData(env, data, ix, s) && Balanced(m, index, data, leaked)
    ensures Balanced(m, index, ApplyGrowData(env, data, ix, s), leaked)
  {
    var data' := ApplyGrowData(env, data, ix, s);
    forall c: nat ensures CountAt(data', c) == CountAt(data, c) {
      if |data| <= c < |data'| {
        assert data'[c] == (Fillers(env, |data|, ix) + [s])[c - |data|];
        if c < ix {
          assert data'[c] == Fillers(env, |data|, ix)[c - |data|];
        }
      }
    }
  }

  lemma DelayedGrowsBalance<T>(env: Env<T>, b: Bucket<T>, leaked: nat)
    requires Inv(env, b) && Books(env, b, leaked)
    ensures LiveInv(env, HandleDelayedGrows(env, b)) && Books(env, HandleDelayedGrows(env, b), leaked)
  {
    DelayedGrowsMean(env, b);
    if b.reallocated.active == 1 && b.reallocated.index.None? {
      var (ix, s) := b.reallocated.data.value;
      DataSwapCounts(env, Map(env, b), b.index, b.data, ix, s, leaked);
    }
  }
}
