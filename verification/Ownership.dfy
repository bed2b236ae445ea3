/** Which allocated data cells have an owner, and what the pending growth looks like, in every reachable state. */
module Ownership {
  import opened Arithmetic
  import opened BucketBooks
  import opened BucketInsert
  import opened BucketModel
  import opened BucketRefinement
  import opened BucketRuns
  import opened DataCells
  import opened DataOps
  import opened IndexEntry
  import opened IndexTable
  import opened Storage
  import opened Wrappers

  /** The cells of data storage `c` that hold the list of some key. */
  ghost function OwnedCells<T>(env: Env<T>, b: Bucket<T>, c: nat): set<int>
    requires LiveInv(env, b) && c < |b.data|
  {
    set i: int | 0 <= i < |b.data[c].cells| && HasOwner(b, c, i)
  }

  ghost predicate HasOwner<T>(b: Bucket<T>, c: nat, i: nat) {
    exists e :: e in Entries(b.index) && Owns(b.data, e, c, i)
  }

  ghost function OwnersOf<T>(b: Bucket<T>, c: nat): set<IndexEntry> {
    set e | e in Entries(b.index) && e.numSlots > 0 && DataBucket(e.numSlots) == c
  }

  lemma OwnedCellIsLocked<T>(env: Env<T>, b: Bucket<T>, e: IndexEntry, c: nat, i: nat)
    requires LiveInv(env, b) && e in Entries(b.index) && Owns(b.data, e, c, i)
    ensures c < |b.data| && b.data[c].Occupied(i) && b.data[c].cells[i].lock == KeyUid(env, e.key)
  {
    assert Stored(env, b.data, e);
  }

  lemma OwnedCellCount<T>(env: Env<T>, b: Bucket<T>, c: nat)
    requires LiveInv(env, b) && c < |b.data|
    ensures |OwnedCells(env, b, c)| == |OwnersOf(b, c)|
  {
    var owners := OwnersOf(b, c);
    var cellOf := (e: IndexEntry) => if Locatable(b.data, e) then CellOf(b.data, e) as int else 0;
    forall e | e in owners
      ensures cellOf(e) in OwnedCells(env, b, c) && Owns(b.data, e, c, cellOf(e))
    {
      assert Stored(env, b.data, e);
      assert Owns(b.data, e, c, CellOf(b.data, e));
    }
    forall i | i in OwnedCells(env, b, c) ensures exists e :: e in owners && cellOf(e) == i {
      var e :| e in Entries(b.index) && Owns(b.data, e, c, i);
      assert e in owners;
    }
    InjectiveImageSize(owners, cellOf, OwnedCells(env, b, c));
  }

  lemma OwnersAreKeys<T>(env: Env<T>, b: Bucket<T>, c: nat)
    requires LiveInv(env, b)
    ensures |OwnersOf(b, c)| == |KeysIn(Map(env, b), c)|
  {
    var m, owners := Map(env, b), OwnersOf(b, c);
    MeaningKeys(Entries(b.index), b.data);
    forall e | e in Entries(b.index) ensures e.key in m && |m[e.key].list| == e.numSlots {
      ListLength(env, b, e);
    }
    forall k | k in KeysIn(m, c) ensures exists e :: e in owners && e.key == k {
      var e :| e in Entries(b.index) && e.key == k;
      assert e in owners;
    }
    InjectiveImageSize(owners, (e: IndexEntry) => e.key, KeysIn(m, c));
  }

  lemma ListLength<T>(env: Env<T>, b: Bucket<T>, e: IndexEntry)
    requires LiveInv(env, b) && e in Entries(b.index)
    ensures e.key in Map(env, b) && |Map(env, b)[e.key].list| == e.numSlots
  {
    assert Stored(env, b.data, e);
    MeaningAt(Entries(b.index), b.data, e);
    if e.numSlots > 0 {
      StoredList(env, b.data, e);
    }
  }

  /**
   Every allocated cell of every data storage holds some key's list exactly when no cell has been lost.
   */
  lemma AllCellsOwnedIffNoLeak<T>(env: Env<T>, b: Bucket<T>, leaked: nat)
    requires LiveInv(env, b) && Books(env, b, leaked)
    ensures (forall c :: 0 <= c < |b.data| ==> OwnedCells(env, b, c) == b.data[c].OccupiedCells()) <==> leaked == 0
  {
    forall c: nat | c < |b.data|
      ensures OwnedCells(env, b, c) <= b.data[c].OccupiedCells()
      ensures |b.data[c].OccupiedCells()| == |OwnedCells(env, b, c)| + if c == 0 then leaked else 0
    {
      forall i | i in OwnedCells(env, b, c) ensures i in b.data[c].OccupiedCells() {
        var e :| e in Entries(b.index) && Owns(b.data, e, c, i);
        OwnedCellIsLocked(env, b, e, c, i);
      }
      OwnedCellCount(env, b, c);
      OwnersAreKeys(env, b, c);
      ItemFits(b.data, c, 0);
      assert CountAt(b.data, c) == b.data[c].count;
    }
    if leaked == 0 {
      forall c: nat | c < |b.data| ensures OwnedCells(env, b, c) == b.data[c].OccupiedCells() {
        SubsetOfSameSize(OwnedCells(env, b, c), b.data[c].OccupiedCells());
      }
    } else {
      assert CountAt(b.data, 0) > 0;
      assert 0 < |b.data|;
    }
  }

  /**
   After any run: all allocated data cells are in use if and only if the run never wrote the empty list
   over a list of one element.
   */
  lemma RunLeavesAllCellsOwnedIff<T>(env: Env<T>, events: seq<Event<T>>)
    requires Admissible(env, None, events)
    requires Run(env, None, events).0.Some?
    ensures var r := Run(env, None, events);
            && Inv(env, r.0.value)
            && ((forall c :: 0 <= c < |r.0.value.data| ==>
                  OwnedCells(env, r.0.value, c) == r.0.value.data[c].OccupiedCells())
                <==> PlainLeaks(map[], events, r.1) == 0)
  {
    RunRefines(env, None, events);
    RunBalances(env, None, events, 0);
    var r := Run(env, None, events);
    AllCellsOwnedIffNoLeak(env, r.0.value, PlainLeaks(map[], events, r.1));
  }

  /** Exact conservation: after any run the counts are those of the plain map, plus the leaked cells in `data[0]`. */
  lemma RunConservesCells<T>(env: Env<T>, events: seq<Event<T>>, c: nat)
    requires Admissible(env, None, events)
    requires Run(env, None, events).0.Some? && c < |Run(env, None, events).0.value.data|
    ensures var r := Run(env, None, events);
            var m := PlainRun(map[], events, r.1);
            r.0.value.data[c].count == |KeysIn(m, c)| + if c == 0 then PlainLeaks(map[], events, r.1) else 0
  {
    RunRefines(env, None, events);
    RunBalances(env, None, events, 0);
    var r := Run(env, None, events);
    assert CountAt(r.0.value.data, c) == r.0.value.data[c].count;
  }

  /** A write behind the gate is refused only for want of space. */
  lemma StepRefusesOnlyWhenFull<T>(env: Env<T>, api: Api<T>, event: Event<T>, leaked: nat)
    requires ApiInv(env, api) && ApiBooks(env, api, leaked) && event.op.TryWriteOp?
    requires Step(env, api, event).1.outcome.Err?
    ensures var outcome := Step(env, api, event).1.outcome;
            && WriteAnswers(ApiMap(env, api), event.op.key, event.op.list, outcome)
            && NoSpaceFor(env.maxSearch, ApiMap(env, api), leaked, outcome.error)
  {
    var op := event.op;
    StepRefines(env, api, event);
    GateOpens(env, api, event.seed);
    GateBalances(env, api, event.seed, leaked);
    RefusedWriteFoundItFull(env, WriteBucket(env, api, event.seed), op.key, op.list, op.refCount, op.pos, leaked);
  }

  /**
   After any run a write is refused only for want of space, which the plain map and the cells lost so far
   decide: see `NoSpaceFor` and `WriteAnswers`.
   */
  lemma RunRefusesOnlyWhenFull<T>(env: Env<T>, events: seq<Event<T>>, event: Event<T>)
    requires Admissible(env, None, events) && event.op.TryWriteOp?
    requires ApiInv(env, Run(env, None, events).0)
    requires Step(env, Run(env, None, events).0, event).1.outcome.Err?
    ensures var r := Run(env, None, events);
            var m, outcome := PlainRun(map[], events, r.1), Step(env, r.0, event).1.outcome;
            && WriteAnswers(m, event.op.key, event.op.list, outcome)
            && NoSpaceFor(env.maxSearch, m, PlainLeaks(map[], events, r.1), outcome.error)
  {
    RunRefines(env, None, events);
    RunBalances(env, None, events, 0);
    var r := Run(env, None, events);
    StepRefusesOnlyWhenFull(env, r.0, event, PlainLeaks(map[], events, r.1));
  }

  /** Two distinct keys never share a data cell, after any run. */
  lemma RunKeepsCellsApart<T>(env: Env<T>, events: seq<Event<T>>, e: IndexEntry, e': IndexEntry, c: nat, i: nat)
    requires Admissible(env, None, events)
    requires Run(env, None, events).0.Some?
    requires var b := Run(env, None, events).0.value;
             && e in Entries(b.index) && e' in Entries(b.index)
             && Owns(b.data, e, c, i) && Owns(b.data, e', c, i)
    ensures e == e'
    ensures var b := Run(env, None, events).0.value;
            c < |b.data| && b.data[c].Occupied(i) && b.data[c].cells[i].lock == KeyUid(env, e.key)
  {
    RunRefines(env, None, events);
    OwnedCellIsLocked(env, Run(env, None, events).0.value, e, c, i);
  }

  // ---------------------------------------------------------------------------------------------
  // A leak, concretely

  function PutEvent<T>(key: Pubkey, list: seq<T>, choices: seq<Choice>): Event<T> {
    Event(0, InsertOp(key, list, 1, choices))
  }

  /** In a new bucket, the second round of an insertion of one element finds room everywhere. */
  lemma FirstInsertEnds<T>(env: Env<T>, key: Pubkey, x: T, choices: seq<Choice>)
    requires env.maxSearch >= 1 && |choices| >= 2
    ensures Writable(env, NewBucket(0))
    ensures Insert(env, NewBucket(0), key, [x], 1, choices).1.Finished?
  {
    var b: Bucket<T> := NewBucket(0);
    NewBucketIsEmpty(env, 0);
    assert DataBucket(1) == 0;
    var r := TryWrite(env, b, key, [x], 1, choices[0].pos);
    assert r == (b, Err(DataNoSpace(0, 0)));
    InsertUnrolls(env, b, key, [x], 1, choices);
    AfterRoundMeans(env, b, key, [x], 1, choices[0]);
    var h := AfterRound(env, b, key, [x], 1, choices[0]);
    assert h.index == b.index && h.random == b.random;
    assert h.data == [Blank(DEFAULT_CAPACITY_POW2, BlankItem(env, 0))];
    EmptyBucketTakesOne(env, h, key, x, choices[1..][0].pos);
    InsertUnrolls(env, h, key, [x], 1, choices[1..]);
  }

  lemma EmptyBucketTakesOne<T>(env: Env<T>, h: Bucket<T>, key: Pubkey, x: T, pos: nat)
    requires env.maxSearch >= 1 && LiveInv(env, h)
    requires h.index == Blank(DEFAULT_CAPACITY_POW2, ZERO_ENTRY)
    requires h.data == [Blank(DEFAULT_CAPACITY_POW2, BlankItem(env, 0))]
    ensures TryWrite(env, h, key, [x], 1, pos).1.Ok?
  {
    assert DataBucket(1) == 0;
    forall p: nat ensures ProbeFree(h.data[0], p, 0, env.maxSearch).Some? {
      assert !h.data[0].Occupied(Slot(p, 0, |h.data[0].cells|));
    }
    assert FindEntry(env, h.index, h.random, key).None?;
    assert !h.index.Occupied(Slot(Home(env, key, h.random, |h.index.cells|), 0, |h.index.cells|));
    assert FindVacancy(env, h.index, h.random, key).Some?;
    RoomyWriteOnlyFailsInIndex(env, h, key, [x], 1, pos);
  }

  lemma RunOfOne<T>(env: Env<T>, api: Api<T>, event: Event<T>)
    requires ApiInv(env, api) && Allowed(api, event.op)
    ensures Admissible(env, api, [event])
    ensures Run(env, api, [event]) == (Step(env, api, event).0, [Step(env, api, event).1])
  {
    StepRefines(env, api, event);
    var s := Step(env, api, event);
    assert [event][1..] == [];
    assert Admissible(env, s.0, [event][1..]);
    assert Run(env, s.0, [event][1..]) == (s.0, []);
    assert [s.1] + [] == [s.1];
  }

  lemma RunOfTwo<T>(env: Env<T>, api: Api<T>, e0: Event<T>, e1: Event<T>)
    requires ApiInv(env, api) && Allowed(api, e0.op)
    requires ApiInv(env, Step(env, api, e0).0) && Allowed(Step(env, api, e0).0, e1.op)
    ensures Admissible(env, api, [e0, e1])
    ensures var s0 := Step(env, api, e0);
            var s1 := Step(env, s0.0, e1);
            Run(env, api, [e0, e1]).0 == s1.0 && Run(env, api, [e0, e1]).1 == [s0.1, s1.1]
  {
    var s := Step(env, api, e0);
    RunOfOne(env, s.0, e1);
    assert [e0, e1][1..] == [e1];
  }

  lemma EmptyingPutEnds<T>(env: Env<T>, api: Api<T>, key: Pubkey, x: T, second: seq<Choice>)
    requires ApiInv(env, api) && ApiMap(env, api) == map[key := Value([x], 1)] && |second| >= 1
    ensures Step(env, api, PutEvent(key, [], second)).1 == Inserted(Finished)
  {
    StepRefines(env, api, PutEvent(key, [], second));
    EmptyingStaysInPlace(ApiMap(env, api), key, []);
  }

  lemma PutEmptyRun<T>(env: Env<T>, key: Pubkey, x: T, first: seq<Choice>, second: seq<Choice>)
    requires env.maxSearch >= 1 && |first| >= 2 && |second| >= 1
    ensures var events := [PutEvent(key, [x], first), PutEvent(key, [], second)];
            && Admissible(env, None, events)
            && Run(env, None, events).1 == [Inserted(Finished), Inserted(Finished)]
  {
    var e0, e1 := PutEvent(key, [x], first), PutEvent(key, [], second);
    var none: Api<T> := None;
    FirstInsertEnds(env, key, x, first);
    StepRefines(env, none, e0);
    EmptyingPutEnds(env, Step(env, none, e0).0, key, x, second);
    RunOfTwo(env, none, e0, e1);
  }

  /**
   Insert a one-element list, then the empty list. The second write takes the in-place branch, and the
   cell stays locked although no key has a list.
   */
  lemma EmptyingInPlaceLeaks<T>(env: Env<T>, key: Pubkey, x: T, first: seq<Choice>, second: seq<Choice>)
    requires env.maxSearch >= 1 && |first| >= 2 && |second| >= 1
    ensures var events := [PutEvent(key, [x], first), PutEvent(key, [], second)];
            && Admissible(env, None, events)
            && var r := Run(env, None, events);
            && PlainRun(map[], events, r.1) == map[key := Value([], 1)]
            && PlainLeaks(map[], events, r.1) == 1
            && r.0.Some? && |r.0.value.data| > 0 && r.0.value.data[0].count == 1
  {
    var events := [PutEvent(key, [x], first), PutEvent(key, [], second)];
    PutEmptyRun(env, key, x, first, second);
    var r := Run(env, None, events);
    RunRefines(env, None, events);
    RunBalances(env, None, events, 0);
    TwoPuts(key, x, first, second);
    var m := PlainRun(map[], events, r.1);
    assert KeysIn(m, 0) == {};
    assert r.0.Some?;
    assert CountAt(r.0.value.data, 0) == 1;
  }

  lemma TwoPuts<T>(key: Pubkey, x: T, first: seq<Choice>, second: seq<Choice>)
    requires second != []
    ensures var events := [PutEvent(key, [x], first), PutEvent(key, [], second)];
            var answers := [Inserted(Finished), Inserted(Finished)];
            && PlainRun(map[], events, answers) == map[key := Value([], 1)]
            && PlainLeaks(map[], events, answers) == 1
  {
    var events := [PutEvent(key, [x], first), PutEvent(key, [], second)];
    var answers := [Inserted(Finished), Inserted(Finished)];
    var m1: map<Pubkey, Value<T>> := PlainStep(map[], events[0].op, answers[0]);
    assert m1 == map[key := Value([x], 1)];
    var m2 := PlainStep(m1, events[1].op, answers[1]);
    assert m2 == map[key := Value([], 1)];
    assert events[1..] == [events[1]] && answers[1..] == [answers[1]];
    assert events[1..][1..] == [] && answers[1..][1..] == [];
    assert PlainRun(m2, [], []) == m2 && PlainLeaks(m2, [], []) == 0;
    assert PlainRun(m1, events[1..], answers[1..]) == m2;
    assert PlainLeaks(m1, events[1..], answers[1..]) == 1;
  }

  // ---------------------------------------------------------------------------------------------
  // The growth protocol

  /** After any run, `active` is one exactly when exactly one storage is pending, and it is never more. */
  lemma RunKeepsOnePending<T>(env: Env<T>, events: seq<Event<T>>)
    requires Admissible(env, None, events)
    requires Run(env, None, events).0.Some?
    ensures var pending := Run(env, None, events).0.value.reallocated;
            && pending.active <= 1
            && (pending.active == 1 <==> (pending.index.Some? || pending.data.Some?))
            && !(pending.index.Some? && pending.data.Some?)
  {
    RunRefines(env, None, events);
  }

  /** The growth that a failed write asks for is always allowed right after it. */
  lemma GrowthAfterFailedWriteAllowed<T>(env: Env<T>, api: Api<T>, event: Event<T>, seeds: seq<nat>)
    requires ApiInv(env, api) && event.op.TryWriteOp?
    requires Step(env, api, event).1.outcome.Err?
    ensures Allowed(Step(env, api, event).0, GrowOp(Step(env, api, event).1.outcome.error, seeds))
  {
    var op := event.op;
    GateOpens(env, api, event.seed);
    var b := WriteBucket(env, api, event.seed);
    TryWriteMeans(env, b, op.key, op.list, op.refCount, op.pos);
    var r := TryWrite(env, b, op.key, op.list, op.refCount, op.pos);
    FreshErrorAllowed(env, b, op.list, r.0, r.1.error);
  }
}
