/** Insertion: write, and while there is no room, grow and write again. */
module BucketInsert {
  import opened Arithmetic
  import opened BucketBooks
  import opened BucketGrowth
  import opened BucketModel
  import opened BucketRefinement
  import opened DataCells
  import opened IndexEntry
  import opened IndexGrowth
  import opened IndexTable
  import opened Storage
  import opened Wrappers

  /** The random draws of one round: the start position in the data storage and the seeds of a rehash. */
  datatype Choice = Choice(pos: nat, seeds: seq<nat>)

  /** Whether an insertion is over; if not, whether it has set the count of its key on the way. */
  datatype InsertEnd = Finished | Unfinished(countSet: bool)

  /** The end of an insertion whose first round failed with `error`. */
  function After(error: Error, end: InsertEnd): InsertEnd {
    match end
    case Finished => Finished
    case Unfinished(countSet) => Unfinished(countSet || (error.DataNoSpace? && error.capacityPow2 > 0))
  }

  /** A failed write and the growth it asks for. */
  function WriteThenGrow<T>(env: Env<T>, b: Bucket<T>, key: Pubkey, list: seq<T>, refCount: nat, choice: Choice)
    : (b': Bucket<T>)
    requires Writable(env, b)
    requires TryWrite(env, b, key, list, refCount, choice.pos).1.Err?
  {
    var r := TryWrite(env, b, key, list, refCount, choice.pos);
    TryWriteMeans(env, b, key, list, refCount, choice.pos);
    FreshErrorAllowed(env, b, list, r.0, r.1.error);
    Grow(env, r.0, r.1.error, choice.seeds)
  }

  /** The state after a round that failed and grew something. */
  function AfterRound<T>(env: Env<T>, b: Bucket<T>, key: Pubkey, list: seq<T>, refCount: nat, choice: Choice)
    : (h: Bucket<T>)
    requires Writable(env, b)
    requires TryWrite(env, b, key, list, refCount, choice.pos).1.Err?
  {
    WriteThenGrowMeans(env, b, key, list, refCount, choice);
    HandleDelayedGrows(env, WriteThenGrow(env, b, key, list, refCount, choice))
  }

  /**
   The retry loop, for as many rounds as there are choices. It is unfinished if the choices run out,
   or if a rehash fails with all the seeds of its round.
   */
  function Insert<T>(env: Env<T>, b: Bucket<T>, key: Pubkey, list: seq<T>, refCount: nat, choices: seq<Choice>)
    : (r: (Bucket<T>, InsertEnd))
    requires Writable(env, b)
    decreases |choices|
  {
    if choices == [] then (b, Unfinished(false))
    else
      var r := TryWrite(env, b, key, list, refCount, choices[0].pos);
      if r.1.Ok? then (r.0, Finished)
      else
        var g := WriteThenGrow(env, b, key, list, refCount, choices[0]);
        WriteThenGrowMeans(env, b, key, list, refCount, choices[0]);
        if g.reallocated.active == 0 then (g, After(r.1.error, Unfinished(false)))
        else
          DelayedGrowsMean(env, g);
          var r' := Insert(env, AfterRound(env, b, key, list, refCount, choices[0]), key, list, refCount, choices[1..]);
          (r'.0, After(r.1.error, r'.1))
  }

  function Update<T>(env: Env<T>, b: Bucket<T>, key: Pubkey, f: Option<Value<T>> -> Option<Value<T>>, choices: seq<Choice>)
    : (r: (Bucket<T>, InsertEnd))
    requires Writable(env, b)
  {
    match f(ReadValue(env, b, key))
    case None => (DeleteKey(env, b, key), Finished)
    case Some(v) => Insert(env, b, key, v.list, v.refCount, choices)
  }

  // ---------------------------------------------------------------------------------------------
  // Meaning

  /** The error a write has just returned is never stale. */
  lemma FreshErrorAllowed<T>(env: Env<T>, b: Bucket<T>, list: seq<T>, b': Bucket<T>, error: Error)
    requires b'.reallocated == NothingPending() && FailedCleanly(b, list, b', error)
    ensures GrowAllowed(b', error)
  {
  }

  lemma WriteThenGrowMeans<T>(env: Env<T>, b: Bucket<T>, key: Pubkey, list: seq<T>, refCount: nat, choice: Choice)
    requires Writable(env, b)
    requires TryWrite(env, b, key, list, refCount, choice.pos).1.Err?
    ensures var r, g := TryWrite(env, b, key, list, refCount, choice.pos),
                        WriteThenGrow(env, b, key, list, refCount, choice);
            && Inv(env, g)
            && g.index == r.0.index && g.random == r.0.random && g.data == r.0.data
            && Map(env, g) == WriteMeans(Map(env, b), key, list, refCount, r.1)
  {
    var r := TryWrite(env, b, key, list, refCount, choice.pos);
    TryWriteMeans(env, b, key, list, refCount, choice.pos);
    FreshErrorAllowed(env, b, list, r.0, r.1.error);
    GrowMeans(env, r.0, r.1.error, choice.seeds);
  }

  /** What an insertion does to the plain map, finished or not. */
  ghost function InsertMeans<T>(m: map<Pubkey, Value<T>>, key: Pubkey, list: seq<T>, refCount: nat, end: InsertEnd)
    : map<Pubkey, Value<T>>
  {
    match end
    case Finished => m[key := Value(list, refCount)]
    case Unfinished(countSet) => if countSet then OnlyCountSet(m, key, refCount) else m
  }

  lemma InsertMeansLater<T>(m: map<Pubkey, Value<T>>, key: Pubkey, list: seq<T>, refCount: nat,
                            error: Error, end: InsertEnd)
    ensures InsertMeans(WriteMeans(m, key, list, refCount, Err(error)), key, list, refCount, end)
            == InsertMeans(m, key, list, refCount, After(error, end))
  {
    assert OnlyCountSet(OnlyCountSet(m, key, refCount), key, refCount) == OnlyCountSet(m, key, refCount);
    assert OnlyCountSet(m, key, refCount)[key := Value(list, refCount)] == m[key := Value(list, refCount)];
  }

  lemma AfterRoundMeans<T>(env: Env<T>, b: Bucket<T>, key: Pubkey, list: seq<T>, refCount: nat, choice: Choice)
    requires Writable(env, b)
    requires TryWrite(env, b, key, list, refCount, choice.pos).1.Err?
    ensures var r, h := TryWrite(env, b, key, list, refCount, choice.pos),
                        AfterRound(env, b, key, list, refCount, choice);
            && Writable(env, h)
            && Map(env, h) == WriteMeans(Map(env, b), key, list, refCount, r.1)
  {
    WriteThenGrowMeans(env, b, key, list, refCount, choice);
    DelayedGrowsMean(env, WriteThenGrow(env, b, key, list, refCount, choice));
  }

  /** Insertion refines putting the value into the plain map; until it ends, no list has changed. */
  lemma {:induction false} InsertRefines<T>(
    env: Env<T>, b: Bucket<T>, key: Pubkey, list: seq<T>, refCount: nat, choices: seq<Choice>)
    requires Writable(env, b)
    ensures var r := Insert(env, b, key, list, refCount, choices);
            && Writable(env, r.0)
            && Map(env, r.0) == InsertMeans(Map(env, b), key, list, refCount, r.1)
    decreases |choices|
  {
    if choices != [] {
      var r := TryWrite(env, b, key, list, refCount, choices[0].pos);
      TryWriteMeans(env, b, key, list, refCount, choices[0].pos);
      if r.1.Err? {
        var g := WriteThenGrow(env, b, key, list, refCount, choices[0]);
        WriteThenGrowMeans(env, b, key, list, refCount, choices[0]);
        if g.reallocated.active != 0 {
          AfterRoundMeans(env, b, key, list, refCount, choices[0]);
          var h := AfterRound(env, b, key, list, refCount, choices[0]);
          InsertRefines(env, h, key, list, refCount, choices[1..]);
          var r' := Insert(env, h, key, list, refCount, choices[1..]);
          InsertMeansLater(Map(env, b), key, list, refCount, r.1.error, r'.1);
        }
      }
    }
  }

  lemma FailedWriteKeepsLeak<T>(m: map<Pubkey, Value<T>>, key: Pubkey, list: seq<T>, refCount: nat, outcome: Outcome)
    requires outcome.Err?
    ensures LeakOf(WriteMeans(m, key, list, refCount, outcome), key, list) == LeakOf(m, key, list)
  {
  }

  lemma RoundBalances<T>(env: Env<T>, b: Bucket<T>, key: Pubkey, list: seq<T>, refCount: nat, choice: Choice, leaked: nat)
    requires Writable(env, b) && Books(env, b, leaked)
    requires TryWrite(env, b, key, list, refCount, choice.pos).1.Err?
    ensures var g, h := WriteThenGrow(env, b, key, list, refCount, choice), AfterRound(env, b, key, list, refCount, choice);
            && LiveInv(env, g) && Books(env, g, leaked)
            && Writable(env, h) && Books(env, h, leaked)
            && LeakOf(Map(env, h), key, list) == LeakOf(Map(env, b), key, list) == 0
  {
    var r := TryWrite(env, b, key, list, refCount, choice.pos);
    var g := WriteThenGrow(env, b, key, list, refCount, choice);
    TryWriteBalances(env, b, key, list, refCount, choice.pos, leaked);
    RefusedWriteLeaksNothing(env, b, key, list, refCount, choice.pos);
    WriteThenGrowMeans(env, b, key, list, refCount, choice);
    DelayedGrowsMean(env, g);
    DelayedGrowsBalance(env, g, leaked);
    FailedWriteKeepsLeak(Map(env, b), key, list, refCount, r.1);
  }

  /** An insertion that gets as far as its first write leaks what that write leaks. */
  ghost function LeakOfInsert<T>(m: map<Pubkey, Value<T>>, key: Pubkey, list: seq<T>, choices: seq<Choice>): nat {
    if choices != [] then LeakOf(m, key, list) else 0
  }

  /** One step of unrolling the retry loop. */
  lemma InsertUnrolls<T>(env: Env<T>, b: Bucket<T>, key: Pubkey, list: seq<T>, refCount: nat, choices: seq<Choice>)
    requires Writable(env, b) && choices != []
    ensures var r, i := TryWrite(env, b, key, list, refCount, choices[0].pos), Insert(env, b, key, list, refCount, choices);
            if r.1.Ok? then i == (r.0, Finished)
            else
              var g, h := WriteThenGrow(env, b, key, list, refCount, choices[0]),
                          AfterRound(env, b, key, list, refCount, choices[0]);
              if g.reallocated.active == 0 then i.0 == g && i.1.Unfinished?
              else
                && Writable(env, h)
                && i.0 == Insert(env, h, key, list, refCount, choices[1..]).0
                && (i.1.Finished? <==> Insert(env, h, key, list, refCount, choices[1..]).1.Finished?)
  {
    if TryWrite(env, b, key, list, refCount, choices[0].pos).1.Err? {
      AfterRoundMeans(env, b, key, list, refCount, choices[0]);
    }
  }

  lemma {:induction false} InsertBalances<T>(
    env: Env<T>, b: Bucket<T>, key: Pubkey, list: seq<T>, refCount: nat, choices: seq<Choice>, leaked: nat)
    requires Writable(env, b) && Books(env, b, leaked)
    ensures var r := Insert(env, b, key, list, refCount, choices);
            && LiveInv(env, r.0)
            && Books(env, r.0, leaked + LeakOfInsert(Map(env, b), key, list, choices))
    decreases |choices|
  {
    if choices != [] {
      InsertUnrolls(env, b, key, list, refCount, choices);
      if TryWrite(env, b, key, list, refCount, choices[0].pos).1.Ok? {
        TryWriteBalances(env, b, key, list, refCount, choices[0].pos, leaked);
      } else {
        RoundBalances(env, b, key, list, refCount, choices[0], leaked);
        assert LeakOfInsert(Map(env, b), key, list, choices) == 0;
        if WriteThenGrow(env, b, key, list, refCount, choices[0]).reallocated.active != 0 {
          var h := AfterRound(env, b, key, list, refCount, choices[0]);
          assert LeakOfInsert(Map(env, h), key, list, choices[1..]) == 0;
          InsertBalances(env, h, key, list, refCount, choices[1..], leaked);
        }
      }
    }
  }

  // ---------------------------------------------------------------------------------------------
  // Progress

  /** Every search for a free cell in the best-fit storage succeeds, wherever it starts. */
  ghost predicate Roomy<T>(env: Env<T>, data: seq<DataStorage<T>>, b: nat) {
    && b < |data| && |data[b].cells| > 0
    && forall pos: nat :: ProbeFree(data[b], pos, 0, env.maxSearch).Some?
  }

  lemma {:induction false} ProbeFreeFurther<E>(s: Storage<E>, start: nat, d: nat, limit: nat, limit': nat)
    requires |s.cells| > 0 && limit <= limit' && ProbeFree(s, start, d, limit).Some?
    ensures ProbeFree(s, start, d, limit').Some?
    decreases limit - d
  {
    if s.Occupied(Slot(start, d, |s.cells|)) {
      ProbeFreeFurther(s, start, d + 1, limit, limit');
    }
  }

  /** With a window of two or more, a storage that has just been doubled, or created, has room. */
  lemma GrownIsRoomy<T>(env: Env<T>, data: seq<DataStorage<T>>, ix: nat, currentPow2: nat, s: DataStorage<T>)
    requires env.maxSearch >= 2
    requires PendingData(env, data, ix, s) && s.capacityPow2 == GrownPow2(currentPow2)
    requires ix < |data| ==> data[ix].capacityPow2 == currentPow2 >= DEFAULT_CAPACITY_POW2
    ensures Roomy(env, ApplyGrowData(env, data, ix, s), ix)
  {
    var data' := ApplyGrowData(env, data, ix, s);
    assert data'[ix] == s;
    forall pos: nat ensures ProbeFree(s, pos, 0, env.maxSearch).Some? {
      if ix < |data| {
        DoubledHasFreeNeighbour(data[ix], BlankItem(env, ix), pos);
        ProbeFreeFurther(s, pos, 0, 2, env.maxSearch);
      } else {
        assert !s.Occupied(Slot(pos, 0, |s.cells|));
      }
    }
  }

  /** With room in the best-fit storage, only a full index window can stop a write. */
  lemma RoomyWriteOnlyFailsInIndex<T>(env: Env<T>, b: Bucket<T>, key: Pubkey, list: seq<T>, refCount: nat, pos: nat)
    requires LiveInv(env, b) && Roomy(env, b.data, DataBucket(|list|))
    ensures var r := TryWrite(env, b, key, list, refCount, pos);
            r.1.Err? ==>
              && r.1.error.IndexNoSpace?
              && FindEntry(env, b.index, b.random, key).None? && FindVacancy(env, b.index, b.random, key).None?
  {
    if FindEntry(env, b.index, b.random, key).Some? {
      assert WriteEntry(env, b, FindEntry(env, b.index, b.random, key).value, list, refCount, pos).1.Ok?;
    } else if FindVacancy(env, b.index, b.random, key).Some? {
      var ii := FindVacancy(env, b.index, b.random, key).value;
      CreatedMeans(env, b, ii, key);
      assert WriteEntry(env, Created(env, b, ii, key), ii, list, refCount, pos).1.Ok?;
    }
  }

  /** After a write that failed for want of data cells, and one growth, there is room. */
  lemma RoomAfterDataGrowth<T>(env: Env<T>, b: Bucket<T>, key: Pubkey, list: seq<T>, refCount: nat, choice: Choice)
    requires Writable(env, b) && env.maxSearch >= 2
    requires var r := TryWrite(env, b, key, list, refCount, choice.pos); r.1.Err? && r.1.error.DataNoSpace?
    ensures var g := WriteThenGrow(env, b, key, list, refCount, choice);
            && Inv(env, g)
            && g.reallocated.active == 1
            && Roomy(env, HandleDelayedGrows(env, g).data, DataBucket(|list|))
  {
    var r := TryWrite(env, b, key, list, refCount, choice.pos);
    TryWriteMeans(env, b, key, list, refCount, choice.pos);
    WriteThenGrowMeans(env, b, key, list, refCount, choice);
    var g := WriteThenGrow(env, b, key, list, refCount, choice);
    var (ix, s) := g.reallocated.data.value;
    if ix < |b.data| {
      CapacityAtLeastDefault(b.data, ix);
    }
    GrownIsRoomy(env, r.0.data, ix, r.1.error.capacityPow2, s);
  }

  /** The number of data storages that an insertion grows. */
  function DataGrowths<T>(env: Env<T>, b: Bucket<T>, key: Pubkey, list: seq<T>, refCount: nat, choices: seq<Choice>)
    : (n: nat)
    requires Writable(env, b)
    decreases |choices|
  {
    if choices == [] then 0
    else
      var r := TryWrite(env, b, key, list, refCount, choices[0].pos);
      if r.1.Ok? then 0
      else
        var g := WriteThenGrow(env, b, key, list, refCount, choices[0]);
        WriteThenGrowMeans(env, b, key, list, refCount, choices[0]);
        (if r.1.error.DataNoSpace? then 1 else 0) +
        if g.reallocated.active == 0 then 0
        else
          DelayedGrowsMean(env, g);
          DataGrowths(env, HandleDelayedGrows(env, g), key, list, refCount, choices[1..])
  }

  lemma {:induction false} RoomyInsertGrowsNoData<T>(
    env: Env<T>, b: Bucket<T>, key: Pubkey, list: seq<T>, refCount: nat, choices: seq<Choice>)
    requires Writable(env, b) && Roomy(env, b.data, DataBucket(|list|))
    ensures DataGrowths(env, b, key, list, refCount, choices) == 0
    decreases |choices|
  {
    if choices != [] {
      RoomyWriteOnlyFailsInIndex(env, b, key, list, refCount, choices[0].pos);
      var r := TryWrite(env, b, key, list, refCount, choices[0].pos);
      if r.1.Err? {
        TryWriteMeans(env, b, key, list, refCount, choices[0].pos);
        var g := WriteThenGrow(env, b, key, list, refCount, choices[0]);
        WriteThenGrowMeans(env, b, key, list, refCount, choices[0]);
        if g.reallocated.active != 0 {
          DelayedGrowsMean(env, g);
          RoomyInsertGrowsNoData(env, HandleDelayedGrows(env, g), key, list, refCount, choices[1..]);
        }
      }
    }
  }

  /** With a window of two or more, no insertion ever grows data storages more than once. */
  lemma {:induction false} InsertGrowsDataOnce<T>(
    env: Env<T>, b: Bucket<T>, key: Pubkey, list: seq<T>, refCount: nat, choices: seq<Choice>)
    requires Writable(env, b) && env.maxSearch >= 2
    ensures DataGrowths(env, b, key, list, refCount, choices) <= 1
    decreases |choices|
  {
    if choices != [] {
      var r := TryWrite(env, b, key, list, refCount, choices[0].pos);
      if r.1.Err? {
        var g := WriteThenGrow(env, b, key, list, refCount, choices[0]);
        WriteThenGrowMeans(env, b, key, list, refCount, choices[0]);
        DelayedGrowsMean(env, g);
        if r.1.error.DataNoSpace? {
          RoomAfterDataGrowth(env, b, key, list, refCount, choices[0]);
          RoomyInsertGrowsNoData(env, HandleDelayedGrows(env, g), key, list, refCount, choices[1..]);
        } else if g.reallocated.active != 0 {
          InsertGrowsDataOnce(env, HandleDelayedGrows(env, g), key, list, refCount, choices[1..]);
        }
      }
    }
  }

  lemma WriteEntryKeepsCapacities<T>(
    env: Env<T>, b: Bucket<T>, ii: nat, list: seq<T>, refCount: nat, pos: nat, c: nat)
    requires LiveInv(env, b) && b.index.Occupied(ii) && DataBucket(|list|) < |b.data| && c < |b.data|
    ensures var r := WriteEntry(env, b, ii, list, refCount, pos).0;
            && r.index.capacityPow2 == b.index.capacityPow2
            && |r.data| == |b.data| && r.data[c].capacityPow2 == b.data[c].capacityPow2
  {
    EntryIsStored(env, b, ii);
    assert |DataFreed(env, b, ii)| == |b.data| && DataFreed(env, b, ii)[c].capacityPow2 == b.data[c].capacityPow2;
  }

  /** Writing changes no capacity. */
  lemma TryWriteKeepsCapacities<T>(env: Env<T>, b: Bucket<T>, key: Pubkey, list: seq<T>, refCount: nat, pos: nat, c: nat)
    requires LiveInv(env, b) && c < |b.data|
    ensures var r := TryWrite(env, b, key, list, refCount, pos).0;
            && r.index.capacityPow2 == b.index.capacityPow2
            && |r.data| == |b.data| && r.data[c].capacityPow2 == b.data[c].capacityPow2
  {
    if DataBucket(|list|) < |b.data| {
      if FindEntry(env, b.index, b.random, key).Some? {
        WriteEntryKeepsCapacities(env, b, FindEntry(env, b.index, b.random, key).value, list, refCount, pos, c);
      } else if FindVacancy(env, b.index, b.random, key).Some? {
        var ii := FindVacancy(env, b.index, b.random, key).value;
        CreatedMeans(env, b, ii, key);
        WriteEntryKeepsCapacities(env, Created(env, b, ii, key), ii, list, refCount, pos, c);
      }
    }
  }

  lemma {:induction false} RoomyInsertKeepsCapacity<T>(
    env: Env<T>, b: Bucket<T>, key: Pubkey, list: seq<T>, refCount: nat, choices: seq<Choice>, c: nat)
    requires Writable(env, b) && Roomy(env, b.data, DataBucket(|list|)) && c < |b.data|
    ensures var r := Insert(env, b, key, list, refCount, choices).0;
            |r.data| == |b.data| && r.data[c].capacityPow2 == b.data[c].capacityPow2
    decreases |choices|
  {
    if choices != [] {
      InsertUnrolls(env, b, key, list, refCount, choices);
      TryWriteKeepsCapacities(env, b, key, list, refCount, choices[0].pos, c);
      RoomyWriteOnlyFailsInIndex(env, b, key, list, refCount, choices[0].pos);
      if TryWrite(env, b, key, list, refCount, choices[0].pos).1.Err? {
        IndexRoundKeepsData(env, b, key, list, refCount, choices[0]);
        if WriteThenGrow(env, b, key, list, refCount, choices[0]).reallocated.active != 0 {
          RoomyInsertKeepsCapacity(env, AfterRound(env, b, key, list, refCount, choices[0]), key, list, refCount,
                                   choices[1..], c);
        }
      }
    }
  }

  /** A round that fails in the index touches no data storage. */
  lemma IndexRoundKeepsData<T>(env: Env<T>, b: Bucket<T>, key: Pubkey, list: seq<T>, refCount: nat, choice: Choice)
    requires Writable(env, b)
    requires var r := TryWrite(env, b, key, list, refCount, choice.pos); r.1.Err? && r.1.error.IndexNoSpace?
    ensures WriteThenGrow(env, b, key, list, refCount, choice).data == b.data
    ensures AfterRound(env, b, key, list, refCount, choice).data == b.data
  {
    TryWriteMeans(env, b, key, list, refCount, choice.pos);
    WriteThenGrowMeans(env, b, key, list, refCount, choice);
  }

  /** A round that fails in a data storage of the right kind grows this one by one size, and no other. */
  lemma DataRoundDoubles<T>(env: Env<T>, b: Bucket<T>, key: Pubkey, list: seq<T>, refCount: nat, choice: Choice, c: nat)
    requires Writable(env, b) && DataBucket(|list|) < |b.data| && c < |b.data|
    requires var r := TryWrite(env, b, key, list, refCount, choice.pos); r.1.Err? && r.1.error.DataNoSpace?
    ensures var h := AfterRound(env, b, key, list, refCount, choice);
            && |h.data| == |b.data|
            && h.data[c].capacityPow2 == b.data[c].capacityPow2 + if c == DataBucket(|list|) then 1 else 0
  {
    CapacityAtLeastDefault(b.data, DataBucket(|list|));
    TryWriteMeans(env, b, key, list, refCount, choice.pos);
    WriteThenGrowMeans(env, b, key, list, refCount, choice);
  }

  /**
   With a window of two or more, an insertion makes the storage of its list at most one size larger, and no
   other storage, however many rounds it takes.
   */
  lemma {:induction false} InsertDoublesAtMostOnce<T>(
    env: Env<T>, b: Bucket<T>, key: Pubkey, list: seq<T>, refCount: nat, choices: seq<Choice>, c: nat)
    requires Writable(env, b) && env.maxSearch >= 2 && DataBucket(|list|) < |b.data| && c < |b.data|
    ensures var r := Insert(env, b, key, list, refCount, choices).0;
            && |r.data| == |b.data|
            && b.data[c].capacityPow2 <= r.data[c].capacityPow2
            && r.data[c].capacityPow2 <= b.data[c].capacityPow2 + if c == DataBucket(|list|) then 1 else 0
    decreases |choices|
  {
    if choices != [] {
      var r := TryWrite(env, b, key, list, refCount, choices[0].pos);
      InsertUnrolls(env, b, key, list, refCount, choices);
      TryWriteKeepsCapacities(env, b, key, list, refCount, choices[0].pos, c);
      if r.1.Err? {
        var h := AfterRound(env, b, key, list, refCount, choices[0]);
        if r.1.error.DataNoSpace? {
          RoomAfterDataGrowth(env, b, key, list, refCount, choices[0]);
          DataRoundDoubles(env, b, key, list, refCount, choices[0], c);
          RoomyInsertKeepsCapacity(env, h, key, list, refCount, choices[1..], c);
        } else {
          IndexRoundKeepsData(env, b, key, list, refCount, choices[0]);
          if WriteThenGrow(env, b, key, list, refCount, choices[0]).reallocated.active != 0 {
            InsertDoublesAtMostOnce(env, h, key, list, refCount, choices[1..], c);
          }
        }
      }
    }
  }

  lemma KnownKeyStaysKnown<T>(env: Env<T>, b: Bucket<T>, key: Pubkey, list: seq<T>, refCount: nat, choice: Choice)
    requires Writable(env, b) && key in Map(env, b)
    requires TryWrite(env, b, key, list, refCount, choice.pos).1.Err?
    ensures Writable(env, AfterRound(env, b, key, list, refCount, choice))
    ensures key in Map(env, AfterRound(env, b, key, list, refCount, choice))
    ensures TryWrite(env, b, key, list, refCount, choice.pos).1.error.DataNoSpace?
  {
    WriteThenGrowMeans(env, b, key, list, refCount, choice);
    DelayedGrowsMean(env, WriteThenGrow(env, b, key, list, refCount, choice));
    FindIffStored(env, b.index, b.random, key);
    MeaningKeys(Entries(b.index), b.data);
  }

  lemma KnownKeyFitsRoomy<T>(env: Env<T>, b: Bucket<T>, key: Pubkey, list: seq<T>, refCount: nat, pos: nat)
    requires LiveInv(env, b) && Roomy(env, b.data, DataBucket(|list|)) && key in Map(env, b)
    ensures TryWrite(env, b, key, list, refCount, pos).1.Ok?
  {
    FindIffStored(env, b.index, b.random, key);
    MeaningKeys(Entries(b.index), b.data);
    RoomyWriteOnlyFailsInIndex(env, b, key, list, refCount, pos);
  }

  lemma SecondRoundFits<T>(
    env: Env<T>, b: Bucket<T>, key: Pubkey, list: seq<T>, refCount: nat, choice: Choice, pos: nat)
    requires Writable(env, b) && env.maxSearch >= 2 && key in Map(env, b)
    requires TryWrite(env, b, key, list, refCount, choice.pos).1.Err?
    ensures WriteThenGrow(env, b, key, list, refCount, choice).reallocated.active == 1
    ensures var h := AfterRound(env, b, key, list, refCount, choice);
            Writable(env, h) && TryWrite(env, h, key, list, refCount, pos).1.Ok?
  {
    KnownKeyStaysKnown(env, b, key, list, refCount, choice);
    RoomAfterDataGrowth(env, b, key, list, refCount, choice);
    KnownKeyFitsRoomy(env, AfterRound(env, b, key, list, refCount, choice), key, list, refCount, pos);
  }

  /** With a window of two or more, inserting a key that is already there ends after at most one growth. */
  lemma InsertOfKnownKeyEnds<T>(
    env: Env<T>, b: Bucket<T>, key: Pubkey, list: seq<T>, refCount: nat, choices: seq<Choice>)
    requires Writable(env, b) && env.maxSearch >= 2 && key in Map(env, b) && |choices| >= 2
    ensures Insert(env, b, key, list, refCount, choices).1.Finished?
  {
    InsertUnrolls(env, b, key, list, refCount, choices);
    if TryWrite(env, b, key, list, refCount, choices[0].pos).1.Err? {
      SecondRoundFits(env, b, key, list, refCount, choices[0], choices[1..][0].pos);
      InsertUnrolls(env, AfterRound(env, b, key, list, refCount, choices[0]), key, list, refCount, choices[1..]);
    }
  }

  /**
   What the plain map decides about the end of an insertion: the first write ends it if the list stays in
   its storage, and with a window of two or more the second one does if the key was there.
   */
  ghost predicate InsertAnswers<T>(maxSearch: nat, m: map<Pubkey, Value<T>>, key: Pubkey, list: seq<T>,
                                   choices: seq<Choice>, end: InsertEnd) {
    && (choices == [] ==> end == Unfinished(false))
    && (choices != [] && StaysInPlace(m, key, list) ==> end.Finished?)
    && (maxSearch >= 2 && key in m && |choices| >= 2 ==> end.Finished?)
  }

  lemma InsertAnswersHold<T>(
    env: Env<T>, b: Bucket<T>, key: Pubkey, list: seq<T>, refCount: nat, choices: seq<Choice>)
    requires Writable(env, b)
    ensures InsertAnswers(env.maxSearch, Map(env, b), key, list, choices,
                          Insert(env, b, key, list, refCount, choices).1)
  {
    if choices != [] {
      TryWriteAnswers(env, b, key, list, refCount, choices[0].pos);
      InsertUnrolls(env, b, key, list, refCount, choices);
    }
    if env.maxSearch >= 2 && key in Map(env, b) && |choices| >= 2 {
      InsertOfKnownKeyEnds(env, b, key, list, refCount, choices);
    }
  }

  /** A key finds a free cell in the index as long as there are fewer keys than its window is long. */
  lemma VacancyBelowWindow<T>(env: Env<T>, index: Table, random: nat, key: Pubkey)
    requires TableInv(env, index, random) && index.count < env.maxSearch <= |index.cells|
    ensures FindVacancy(env, index, random, key).Some?
  {
    if FindVacancy(env, index, random, key).None? {
      FullWindowIsLarge(index, Home(env, key, random, |index.cells|), env.maxSearch);
    }
  }

  lemma NewKeySecondRoundFits<T>(
    env: Env<T>, b: Bucket<T>, key: Pubkey, list: seq<T>, refCount: nat, choice: Choice, pos: nat)
    requires Writable(env, b) && env.maxSearch >= 2 && FindVacancy(env, b.index, b.random, key).Some?
    requires key !in Map(env, b) && TryWrite(env, b, key, list, refCount, choice.pos).1.Err?
    ensures WriteThenGrow(env, b, key, list, refCount, choice).reallocated.active == 1
    ensures var h := AfterRound(env, b, key, list, refCount, choice);
            Writable(env, h) && TryWrite(env, h, key, list, refCount, pos).1.Ok?
  {
    var r, h := TryWrite(env, b, key, list, refCount, choice.pos), AfterRound(env, b, key, list, refCount, choice);
    TryWriteMeans(env, b, key, list, refCount, choice.pos);
    assert r.1.error.DataNoSpace?;
    RoomAfterDataGrowth(env, b, key, list, refCount, choice);
    AfterRoundMeans(env, b, key, list, refCount, choice);
    if r.1.error.capacityPow2 > 0 {
      KnownKeyFitsRoomy(env, h, key, list, refCount, pos);
    } else {
      WriteThenGrowMeans(env, b, key, list, refCount, choice);
      assert h.index == b.index && h.random == b.random;
      RoomyWriteOnlyFailsInIndex(env, h, key, list, refCount, pos);
    }
  }

  /** With a free cell in its window of two or more, every key is inserted after at most one growth. */
  lemma InsertWithVacancyEnds<T>(
    env: Env<T>, b: Bucket<T>, key: Pubkey, list: seq<T>, refCount: nat, choices: seq<Choice>)
    requires Writable(env, b) && env.maxSearch >= 2 && !WindowFull(env, b.index, b.random, key) && |choices| >= 2
    ensures Insert(env, b, key, list, refCount, choices).1.Finished?
  {
    VacancyIff(env, b.index, b.random, key);
    if key in Map(env, b) {
      InsertOfKnownKeyEnds(env, b, key, list, refCount, choices);
    } else {
      InsertUnrolls(env, b, key, list, refCount, choices);
      if TryWrite(env, b, key, list, refCount, choices[0].pos).1.Err? {
        NewKeySecondRoundFits(env, b, key, list, refCount, choices[0], choices[1..][0].pos);
        InsertUnrolls(env, AfterRound(env, b, key, list, refCount, choices[0]), key, list, refCount, choices[1..]);
      }
    }
  }

  /** While there are fewer keys than the window is long, every insertion ends after at most one growth. */
  lemma InsertBelowWindowEnds<T>(
    env: Env<T>, b: Bucket<T>, key: Pubkey, list: seq<T>, refCount: nat, choices: seq<Choice>)
    requires Writable(env, b) && 2 <= env.maxSearch <= |b.index.cells| && b.index.count < env.maxSearch
    requires |choices| >= 2
    ensures Insert(env, b, key, list, refCount, choices).1.Finished?
  {
    VacancyBelowWindow(env, b.index, b.random, key);
    VacancyIff(env, b.index, b.random, key);
    InsertWithVacancyEnds(env, b, key, list, refCount, choices);
  }

  /**
   A round that finds the window full, while there are no more keys than the window is long, always comes
   to an end: the index grows under the first seed, and nothing else changes.
   */
  lemma IndexRoundGrows<T>(env: Env<T>, b: Bucket<T>, key: Pubkey, list: seq<T>, refCount: nat, choice: Choice)
    requires Writable(env, b) && b.index.count <= env.maxSearch && choice.seeds != []
    requires var r := TryWrite(env, b, key, list, refCount, choice.pos); r.1.Err? && r.1.error.IndexNoSpace?
    ensures WriteThenGrow(env, b, key, list, refCount, choice).reallocated.active == 1
    ensures var h := AfterRound(env, b, key, list, refCount, choice);
            && Writable(env, h) && Map(env, h) == Map(env, b) && h.data == b.data
            && h.random == choice.seeds[0] && h.index.capacityPow2 == b.index.capacityPow2 + 1
            && h.index.count == b.index.count
  {
    TryWriteMeans(env, b, key, list, refCount, choice.pos);
    AfterRoundMeans(env, b, key, list, refCount, choice);
    RegrowSucceeds(env, b.index, b.random, 1, choice.seeds);
    RegrowKeepsMeaning(env, b.index, b.random, 1, choice.seeds);
  }

  /** If the grown index has a free cell in the window of the key, the insertion ends within two more rounds. */
  lemma InsertEndsAfterIndexGrowth<T>(
    env: Env<T>, b: Bucket<T>, key: Pubkey, list: seq<T>, refCount: nat, choices: seq<Choice>)
    requires Writable(env, b) && 2 <= env.maxSearch && b.index.count <= env.maxSearch
    requires |choices| >= 3 && choices[0].seeds != []
    requires var r := TryWrite(env, b, key, list, refCount, choices[0].pos); r.1.Err? && r.1.error.IndexNoSpace?
    requires var h := AfterRound(env, b, key, list, refCount, choices[0]);
             |h.index.cells| > 0 && !WindowFull(env, h.index, h.random, key)
    ensures Insert(env, b, key, list, refCount, choices).1.Finished?
  {
    IndexRoundGrows(env, b, key, list, refCount, choices[0]);
    InsertUnrolls(env, b, key, list, refCount, choices);
    InsertWithVacancyEnds(env, AfterRound(env, b, key, list, refCount, choices[0]), key, list, refCount, choices[1..]);
  }

  /** An index growth that has come to an end leaves a strictly larger index behind, with the same keys. */
  lemma IndexGrowthEnlarges<T>(env: Env<T>, b: Bucket<T>, seeds: seq<nat>)
    requires Writable(env, b) && Regrow(env, b.index, 1, seeds).Some?
    ensures var g := Grow(env, b, IndexNoSpace(b.index.capacityPow2), seeds);
            && Inv(env, g)
            && var h := HandleDelayedGrows(env, g);
            && Writable(env, h) && Map(env, h) == Map(env, b)
            && h.index.capacityPow2 > b.index.capacityPow2 && h.data == b.data
  {
    var g := Grow(env, b, IndexNoSpace(b.index.capacityPow2), seeds);
    GrowMeans(env, b, IndexNoSpace(b.index.capacityPow2), seeds);
    DelayedGrowsMean(env, g);
    RegrowKeepsMeaning(env, b.index, b.random, 1, seeds);
  }

  /** A window of one is not enough: doubling keeps an occupied start position occupied. */
  lemma OneProbeMayStillFail<E>(s: Storage<E>, item: E, i: nat)
    requires |s.cells| == Pow2(s.capacityPow2) && s.Occupied(i)
    ensures ProbeFree(Resized(s, s.capacityPow2 + 1, item), Shl(i, 1), 0, 1).None?
  {
    var r := Resized(s, s.capacityPow2 + 1, item);
    ResizedImage(s, s.capacityPow2 + 1, item, i);
    SlotAtStart(Shl(i, 1), |r.cells|);
  }
}
