/** What the preconditions and the bounds of the other modules are needed for, by runs that go wrong without them. */
module Limits {
  import opened Arithmetic
  import opened BucketGrowth
  import opened BucketInsert
  import opened BucketModel
  import opened BucketRefinement
  import opened BucketRuns
  import opened DataCells
  import opened IndexEntry
  import opened IndexTable
  import opened Ownership
  import opened Storage
  import opened Wrappers

  // ---------------------------------------------------------------------------------------------
  // Growths that are refused

  /**
   Exactly when a growth is refused: something is pending and the index error is not stale, or the storage
   that is asked for is neither of at least the live size nor of the default size when that is the live one.
   */
  lemma GrowthRefusedIff<T>(env: Env<T>, b: Bucket<T>, error: Error)
    requires Inv(env, b)
    ensures !GrowAllowed(b, error) <==>
              match error
              case IndexNoSpace(capacityPow2) =>
                (b.reallocated.index.Some? || b.reallocated.data.Some?) && capacityPow2 == b.index.capacityPow2
              case DataNoSpace(ix, capacityPow2) =>
                || b.reallocated.index.Some? || b.reallocated.data.Some?
                || (ix < |b.data| && b.data[ix].capacityPow2 > capacityPow2 + 1 && b.data[ix].capacityPow2 > 5)
  {
  }

  /** After a failed write, the growth it asks for can be computed once, and not again before the next write. */
  lemma SecondGrowthRefused<T>(env: Env<T>, api: Api<T>, event: Event<T>, seeds: seq<nat>, seeds': seq<nat>)
    requires ApiInv(env, api) && event.op.TryWriteOp?
    requires var outcome := Step(env, api, event).1.outcome; outcome.Err? && outcome.error.DataNoSpace?
    ensures var (s, answer) := Step(env, api, event);
            var grow := GrowOp(answer.outcome.error, seeds);
            && ApiInv(env, s) && Allowed(s, grow)
            && !Allowed(Step(env, s, Event(0, grow)).0, GrowOp(answer.outcome.error, seeds'))
  {
    StepRefines(env, api, event);
    GrowthAfterFailedWriteAllowed(env, api, event, seeds);
  }

  /** The same from nothing: one write and two growths. The write of a first list always fails. */
  lemma TwoGrowthsInARow<T>(env: Env<T>, key: Pubkey, list: seq<T>, refCount: nat, pos: nat, seed: nat)
    ensures var error := DataNoSpace(DataBucket(|list|), 0);
            var events := [Event(seed, TryWriteOp(key, list, refCount, pos)), Event(0, GrowOp(error, []))];
            && Admissible(env, None, events)
            && ApiInv(env, Run(env, None, events).0)
            && !Allowed(Run(env, None, events).0, GrowOp(error, []))
  {
    var none: Api<T> := None;
    var error := DataNoSpace(DataBucket(|list|), 0);
    var write, grow := Event(seed, TryWriteOp(key, list, refCount, pos)), Event(0, GrowOp(error, []));
    NewBucketIsEmpty(env, seed);
    assert Step(env, none, write).1 == Written(Err(error));
    SecondGrowthRefused(env, none, write, [], []);
    RunOfTwo(env, none, write, grow);
    RunRefines(env, none, [write, grow]);
  }

  /** An error from before the last growth of its storage asks for less than there is. */
  lemma StaleGrowthRefused<T>(env: Env<T>, b: Bucket<T>, ix: nat, stale: nat, seeds: seq<nat>)
    requires Writable(env, b) && ix < |b.data| && stale < b.data[ix].capacityPow2
    ensures var error := DataNoSpace(ix, b.data[ix].capacityPow2);
            && GrowAllowed(b, error)
            && Inv(env, Grow(env, b, error, seeds))
            && !GrowAllowed(HandleDelayedGrows(env, Grow(env, b, error, seeds)), DataNoSpace(ix, stale))
  {
    CapacityAtLeastDefault(b.data, ix);
    GrowMeans(env, b, DataNoSpace(ix, b.data[ix].capacityPow2), seeds);
  }

  // ---------------------------------------------------------------------------------------------
  // A window of one

  /** Start positions that follow the image of an allocated cell from one growth to the next. */
  function Following(i: nat, n: nat): (choices: seq<Choice>)
    ensures |choices| == n
    decreases n
  {
    if n == 0 then [] else [Choice(i, [])] + Following(Shl(i, 1), n - 1)
  }

  lemma OneProbeSeesOneCell<E>(s: Storage<E>, i: nat)
    requires s.Occupied(i)
    ensures ProbeFree(s, i, 0, 1).None?
  {
    SlotAtStart(i, |s.cells|);
  }

  /** With a window of one, a write that has to move its list fails if it starts at an allocated cell. */
  lemma OneProbeWriteFails<T>(env: Env<T>, b: Bucket<T>, key: Pubkey, list: seq<T>, refCount: nat, i: nat)
    requires LiveInv(env, b) && env.maxSearch == 1 && key in Map(env, b) && !StaysInPlace(Map(env, b), key, list)
    requires DataBucket(|list|) < |b.data| && b.data[DataBucket(|list|)].Occupied(i)
    ensures TryWrite(env, b, key, list, refCount, i).1 ==
            Err(DataNoSpace(DataBucket(|list|), b.data[DataBucket(|list|)].capacityPow2))
  {
    FindIffStored(env, b.index, b.random, key);
    MeaningKeys(Entries(b.index), b.data);
    EntryInMap(env, b, FindEntry(env, b.index, b.random, key).value);
    OneProbeSeesOneCell(b.data[DataBucket(|list|)], i);
  }

  /** A round that fails for want of data cells doubles its storage and leaves the others as they are. */
  lemma FailedRoundDoubles<T>(env: Env<T>, b: Bucket<T>, key: Pubkey, list: seq<T>, refCount: nat, choice: Choice)
    requires Writable(env, b) && DataBucket(|list|) < |b.data|
    requires TryWrite(env, b, key, list, refCount, choice.pos).1 ==
             Err(DataNoSpace(DataBucket(|list|), b.data[DataBucket(|list|)].capacityPow2))
    ensures WriteThenGrow(env, b, key, list, refCount, choice).reallocated.active == 1
    ensures var best, s := DataBucket(|list|), b.data[DataBucket(|list|)];
            && |s.cells| == Pow2(s.capacityPow2) && s.capacityPow2 > 0
            && AfterRound(env, b, key, list, refCount, choice).data ==
               b.data[best := Resized(s, s.capacityPow2 + 1, BlankItem(env, best))]
  {
    CapacityAtLeastDefault(b.data, DataBucket(|list|));
    TryWriteMeans(env, b, key, list, refCount, choice.pos);
  }

  /** With a window of one, the growth after a failed round copies the allocated cell along. */
  lemma OneProbeRound<T>(env: Env<T>, b: Bucket<T>, key: Pubkey, list: seq<T>, refCount: nat, i: nat)
    requires Writable(env, b) && env.maxSearch == 1 && key in Map(env, b) && !StaysInPlace(Map(env, b), key, list)
    requires DataBucket(|list|) < |b.data| && b.data[DataBucket(|list|)].Occupied(i)
    ensures TryWrite(env, b, key, list, refCount, i).1.Err?
    ensures WriteThenGrow(env, b, key, list, refCount, Choice(i, [])).reallocated.active == 1
    ensures var h := AfterRound(env, b, key, list, refCount, Choice(i, []));
            && Writable(env, h) && key in Map(env, h) && !StaysInPlace(Map(env, h), key, list)
            && DataBucket(|list|) < |h.data| && h.data[DataBucket(|list|)].Occupied(Shl(i, 1))
  {
    var s := b.data[DataBucket(|list|)];
    OneProbeWriteFails(env, b, key, list, refCount, i);
    FailedRoundDoubles(env, b, key, list, refCount, Choice(i, []));
    AfterRoundMeans(env, b, key, list, refCount, Choice(i, []));
    ResizedImage(s, s.capacityPow2 + 1, BlankItem(env, DataBucket(|list|)), i);
  }

  /** With a window of one there are, for every number of rounds, start positions that all of them fail with. */
  lemma {:induction false} WindowOfOneGoesOn<T>(
    env: Env<T>, b: Bucket<T>, key: Pubkey, list: seq<T>, refCount: nat, i: nat, n: nat)
    requires Writable(env, b) && env.maxSearch == 1 && key in Map(env, b) && !StaysInPlace(Map(env, b), key, list)
    requires DataBucket(|list|) < |b.data| && b.data[DataBucket(|list|)].Occupied(i)
    ensures Insert(env, b, key, list, refCount, Following(i, n)).1.Unfinished?
    decreases n
  {
    if n > 0 {
      var choices := Following(i, n);
      assert choices[0] == Choice(i, []) && choices[1..] == Following(Shl(i, 1), n - 1);
      OneProbeRound(env, b, key, list, refCount, i);
      InsertUnrolls(env, b, key, list, refCount, choices);
      WindowOfOneGoesOn(env, AfterRound(env, b, key, list, refCount, choices[0]), key, list, refCount, Shl(i, 1), n - 1);
    }
  }

  /**
   Such a bucket is reached: with a window of one, insert a list of one element, empty it, and insert it
   again. For every number of rounds the last insertion of the known key may still be unfinished.
   */
  lemma InsertWithOneProbeMayGoOn<T>(env: Env<T>, key: Pubkey, x: T, first: seq<Choice>, second: seq<Choice>, n: nat)
    returns (choices: seq<Choice>)
    requires env.maxSearch == 1 && |first| >= 2 && |second| >= 1
    ensures |choices| == n
    ensures var events := [PutEvent(key, [x], first), PutEvent(key, [], second)];
            && Admissible(env, None, events)
            && var api := Run(env, None, events).0;
            && ApiInv(env, api) && key in ApiMap(env, api)
            && Step(env, api, PutEvent(key, [x], choices)).1.end.Unfinished?
  {
    var events := [PutEvent(key, [x], first), PutEvent(key, [], second)];
    EmptyingInPlaceLeaks(env, key, x, first, second);
    RunRefines(env, None, events);
    var api := Run(env, None, events).0;
    GateOpens(env, api, 0);
    var b := WriteBucket(env, api, 0);
    var i := LostCell(env, events, b);
    assert DataBucket(1) == 0;
    choices := Following(i, n);
    WindowOfOneGoesOn(env, b, key, [x], 1, i, n);
  }

  lemma LostCell<T>(env: Env<T>, events: seq<Event<T>>, b: Bucket<T>) returns (i: nat)
    requires Admissible(env, None, events)
    requires ApiInv(env, Run(env, None, events).0) && b == WriteBucket(env, Run(env, None, events).0, 0)
    requires PlainLeaks(map[], events, Run(env, None, events).1) > 0
    ensures 0 < |b.data| && b.data[0].Occupied(i)
  {
    var r := Run(env, None, events);
    RunRefines(env, None, events);
    RunBalances(env, None, events, 0);
    GateBalances(env, r.0, 0, PlainLeaks(map[], events, r.1));
    assert CountAt(b.data, 0) > 0;
    CapacityAtLeastDefault(b.data, 0);
    i :| i in b.data[0].OccupiedCells();
  }

  // ---------------------------------------------------------------------------------------------
  // One window for all the keys

  ghost predicate OneHome<T>(env: Env<T>) {
    forall uid: nat, random: nat :: env.indexHash(uid, random) == env.indexHash(0, 0)
  }

  /** If all keys share one window, then as many keys as it is long fill it. */
  lemma SharedWindowFull<T>(env: Env<T>, index: Table, random: nat, key: Pubkey)
    requires OneHome(env) && TableInv(env, index, random) && index.count >= env.maxSearch
    ensures WindowFull(env, index, random, key)
  {
    var cap, home := |index.cells|, Home(env, key, random, |index.cells|);
    var window := seq(env.maxSearch, d requires 0 <= d < env.maxSearch => Slot(home, d, cap) as int);
    var cells := set i | i in window;
    DistinctIffFullSize(window);
    forall i | i in index.OccupiedCells() ensures i in cells {
      assert WellPlaced(env, index, random, i);
      var k := index.cells[i].item.key;
      assert Home(env, k, random, cap) == home;
      var d: nat :| d < env.maxSearch && i == Slot(home, d, cap);
      assert window[d] == i;
    }
    SubsetSize(index.OccupiedCells(), cells);
    SubsetOfSameSize(index.OccupiedCells(), cells);
    forall i | InWindow(env, key, random, cap, i) ensures index.Occupied(i) {
      var d: nat :| d < env.maxSearch && i == Slot(home, d, cap);
      assert window[d] == i;
      assert i in index.OccupiedCells();
    }
  }

  /** One failed round leaves such a bucket as it was, but for larger storages. */
  lemma SharedWindowRound<T>(env: Env<T>, b: Bucket<T>, key: Pubkey, list: seq<T>, refCount: nat, choice: Choice)
    requires Writable(env, b) && OneHome(env) && b.index.count >= env.maxSearch && key !in Map(env, b)
    ensures TryWrite(env, b, key, list, refCount, choice.pos).1.Err?
    ensures var h := AfterRound(env, b, key, list, refCount, choice);
            Writable(env, h) && h.index.count >= env.maxSearch && key !in Map(env, h)
  {
    SharedWindowFull(env, b.index, b.random, key);
    TryWriteOutcome(env, b, key, list, refCount, choice.pos);
    TryWriteMeans(env, b, key, list, refCount, choice.pos);
    WriteThenGrowMeans(env, b, key, list, refCount, choice);
    AfterRoundMeans(env, b, key, list, refCount, choice);
    DelayedGrowsMean(env, WriteThenGrow(env, b, key, list, refCount, choice));
  }

  /** Then the insertion of a new key never ends, whatever the random values and however large the index gets. */
  lemma {:induction false} SharedWindowInsertGoesOn<T>(
    env: Env<T>, b: Bucket<T>, key: Pubkey, list: seq<T>, refCount: nat, choices: seq<Choice>)
    requires Writable(env, b) && OneHome(env) && b.index.count >= env.maxSearch && key !in Map(env, b)
    ensures Insert(env, b, key, list, refCount, choices).1.Unfinished?
    decreases |choices|
  {
    if choices != [] {
      SharedWindowRound(env, b, key, list, refCount, choices[0]);
      InsertUnrolls(env, b, key, list, refCount, choices);
      if WriteThenGrow(env, b, key, list, refCount, choices[0]).reallocated.active != 0 {
        SharedWindowInsertGoesOn(env, AfterRound(env, b, key, list, refCount, choices[0]), key, list, refCount, choices[1..]);
      }
    }
  }

  /** Such a bucket is reached with a window of one: the first key keeps every other key out. */
  lemma FirstKeyKeepsOthersOut<T>(env: Env<T>, key: Pubkey, other: Pubkey, x: T, first: seq<Choice>,
                                  list: seq<T>, choices: seq<Choice>)
    requires OneHome(env) && env.maxSearch == 1 && |first| >= 2 && key != other
    ensures var events := [PutEvent(key, [x], first)];
            && Admissible(env, None, events)
            && var api := Run(env, None, events).0;
            && ApiInv(env, api) && ApiMap(env, api) == map[key := Value([x], 1)]
            && Step(env, api, PutEvent(other, list, choices)).1.end.Unfinished?
  {
    var none: Api<T> := None;
    var put := PutEvent(key, [x], first);
    FirstInsertEnds(env, key, x, first);
    StepRefines(env, none, put);
    RunOfOne(env, none, put);
    var api := Run(env, none, [put]).0;
    GateOpens(env, api, 0);
    var b := WriteBucket(env, api, 0);
    MeaningKeys(Entries(b.index), b.data);
    EntryCount(env, b.index, b.random);
    assert b.index.count >= 1 by {
      FindIffStored(env, b.index, b.random, key);
      OccupiedIsCounted(b.index, FindEntry(env, b.index, b.random, key).value);
    }
    SharedWindowInsertGoesOn(env, b, other, list, 1, choices);
  }
}
