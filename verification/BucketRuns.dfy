/**
 Whole runs of one bucket behind its lock. A write operation first passes the gate that creates the
 bucket or swaps in a pending growth; a growth is computed under the read lock and only left pending.
 Every run answers and ends as the same run of a plain map.
 */
module BucketRuns {
  import opened Arithmetic
  import opened BucketBooks
  import opened BucketGrowth
  import opened BucketInsert
  import opened BucketModel
  import opened BucketRefinement
  import opened DataCells
  import opened IndexEntry
  import opened IndexTable
  import opened Wrappers

  /** The operations, with the random draws each of them makes. */
  datatype Op<!T> =
    | InsertOp(key: Pubkey, list: seq<T>, refCount: nat, choices: seq<Choice>)
    | UpdateOp(key: Pubkey, f: Option<Value<T>> -> Option<Value<T>>, choices: seq<Choice>)
    | DeleteOp(key: Pubkey)
    | AddRefOp(key: Pubkey)
    | UnRefOp(key: Pubkey)
    | TryWriteOp(key: Pubkey, list: seq<T>, refCount: nat, pos: nat)
    | GrowOp(error: Error, seeds: seq<nat>)

  /** An operation and the seed to be used if it is the one that creates the bucket. */
  datatype Event<!T> = Event(seed: nat, op: Op<T>)

  datatype Answer = Done | Inserted(end: InsertEnd) | Counted(count: Option<nat>) | Written(outcome: Outcome)

  type Api<+T> = Option<Bucket<T>>

  // ---------------------------------------------------------------------------------------------
  // The bucket

  function WriteBucket<T>(env: Env<T>, api: Api<T>, seed: nat): (b: Bucket<T>)
    requires api.Some? ==> Inv(env, api.value)
  {
    if api.None? then NewBucket(seed) else HandleDelayedGrows(env, api.value)
  }

  function Perform<T>(env: Env<T>, b: Bucket<T>, op: Op<T>): (r: (Bucket<T>, Answer))
    requires Writable(env, b) && !op.GrowOp?
  {
    match op
    case InsertOp(key, list, refCount, choices) =>
      var r := Insert(env, b, key, list, refCount, choices); (r.0, Inserted(r.1))
    case UpdateOp(key, f, choices) =>
      var r := Update(env, b, key, f, choices); (r.0, Inserted(r.1))
    case DeleteOp(key) => (DeleteKey(env, b, key), Done)
    case AddRefOp(key) => var r := Bump(env, b, key, 1); (r.0, Counted(r.1))
    case UnRefOp(key) => var r := Bump(env, b, key, -1); (r.0, Counted(r.1))
    case TryWriteOp(key, list, refCount, pos) =>
      var r := TryWrite(env, b, key, list, refCount, pos); (r.0, Written(r.1))
  }

  /** Only a growth can be refused, see `GrowAllowed`. */
  ghost predicate Allowed<T>(api: Api<T>, op: Op<T>) {
    op.GrowOp? && api.Some? ==> GrowAllowed(api.value, op.error)
  }

  function Step<T>(env: Env<T>, api: Api<T>, event: Event<T>): (r: (Api<T>, Answer))
    requires ApiInv(env, api) && Allowed(api, event.op)
  {
    if event.op.GrowOp? then
      if api.None? then (api, Done) else (Some(Grow(env, api.value, event.op.error, event.op.seeds)), Done)
    else
      GateOpens(env, api, event.seed);
      var r := Perform(env, WriteBucket(env, api, event.seed), event.op);
      (Some(r.0), r.1)
  }

  ghost predicate ApiInv<T>(env: Env<T>, api: Api<T>) {
    api.Some? ==> Inv(env, api.value)
  }

  ghost function ApiMap<T>(env: Env<T>, api: Api<T>): map<Pubkey, Value<T>>
    requires ApiInv(env, api)
  {
    if api.None? then map[] else Map(env, api.value)
  }

  function ApiRead<T>(env: Env<T>, api: Api<T>, key: Pubkey): Option<Value<T>>
    requires ApiInv(env, api)
  {
    if api.None? then None else ReadValue(env, api.value, key)
  }

  function BucketLen<T>(api: Api<T>): nat {
    if api.None? then 0 else api.value.index.count
  }

  ghost predicate ApiBooks<T>(env: Env<T>, api: Api<T>, leaked: nat)
    requires ApiInv(env, api)
  {
    if api.None? then leaked == 0 else Books(env, api.value, leaked)
  }

  // ---------------------------------------------------------------------------------------------
  // The plain map

  /** One more; the largest 64-bit count is followed by zero. */
  ghost function Incremented(n: nat): nat {
    if n + 1 < U64 then n + 1 else (n + 1) % U64
  }

  /** One less; zero is preceded by the largest 64-bit count. */
  ghost function Decremented(n: nat): nat {
    if 0 < n < U64 then n - 1 else (n - 1) % U64
  }

  /** On 64-bit counts, exactly: what comes after and before each of them, and that the two undo each other. */
  lemma CountsUpAndDown(n: nat)
    requires n < U64
    ensures Incremented(n) == if n == U64 - 1 then 0 else n + 1
    ensures Decremented(n) == if n == 0 then U64 - 1 else n - 1
    ensures Decremented(Incremented(n)) == n == Incremented(Decremented(n))
  {
  }

  ghost function CountIn<T>(m: map<Pubkey, Value<T>>, key: Pubkey): nat {
    if key in m then m[key].refCount else 0
  }

  ghost function WithCount<T>(m: map<Pubkey, Value<T>>, key: Pubkey, count: nat): map<Pubkey, Value<T>> {
    if key in m then m[key := Value(m[key].list, count)] else m
  }

  /** What an operation does to a plain map, given its answer. */
  ghost function PlainStep<T>(m: map<Pubkey, Value<T>>, op: Op<T>, answer: Answer): map<Pubkey, Value<T>> {
    match op
    case InsertOp(key, list, refCount, _) =>
      if answer.Inserted? then InsertMeans(m, key, list, refCount, answer.end) else m
    case UpdateOp(key, f, _) =>
      (match f(Lookup(m, key))
       case None => m - {key}
       case Some(v) => if answer.Inserted? then InsertMeans(m, key, v.list, v.refCount, answer.end) else m)
    case DeleteOp(key) => m - {key}
    case AddRefOp(key) => WithCount(m, key, Incremented(CountIn(m, key)))
    case UnRefOp(key) => WithCount(m, key, Decremented(CountIn(m, key)))
    case TryWriteOp(key, list, refCount, _) =>
      if answer.Written? then WriteMeans(m, key, list, refCount, answer.outcome) else m
    case GrowOp(_, _) => m
  }

  /**
   What the plain map decides about the answer: the count that is returned, whether an update that removes
   the key ends, and the outcome of a write as far as `WriteAnswers` and `InsertAnswers` go.
   */
  ghost predicate Answers<T>(maxSearch: nat, m: map<Pubkey, Value<T>>, op: Op<T>, answer: Answer) {
    match op
    case InsertOp(key, list, _, choices) =>
      answer.Inserted? && InsertAnswers(maxSearch, m, key, list, choices, answer.end)
    case UpdateOp(key, f, choices) =>
      answer.Inserted? &&
      (match f(Lookup(m, key))
       case None => answer.end.Finished?
       case Some(v) => InsertAnswers(maxSearch, m, key, v.list, choices, answer.end))
    case AddRefOp(key) => answer == Counted(if key in m then Some(Incremented(CountIn(m, key))) else None)
    case UnRefOp(key) => answer == Counted(if key in m then Some(Decremented(CountIn(m, key))) else None)
    case TryWriteOp(key, list, _, _) => answer.Written? && WriteAnswers(m, key, list, answer.outcome)
    case DeleteOp(_) => answer.Done?
    case GrowOp(_, _) => answer.Done?
  }

  /**
   The number of cells that an operation leaves locked for good: one if it writes the empty list over a
   list of one element.
   */
  ghost function Leaks<T>(m: map<Pubkey, Value<T>>, op: Op<T>): nat {
    match op
    case InsertOp(key, list, _, choices) => LeakOfInsert(m, key, list, choices)
    case UpdateOp(key, f, choices) =>
      (match f(Lookup(m, key))
       case None => 0
       case Some(v) => LeakOfInsert(m, key, v.list, choices))
    case TryWriteOp(key, list, _, _) => LeakOf(m, key, list)
    case _ => 0
  }

  // ---------------------------------------------------------------------------------------------
  // One step

  lemma NewBucketIsEmpty<T>(env: Env<T>, seed: nat)
    ensures Writable(env, NewBucket(seed)) && Map(env, NewBucket(seed)) == map[]
    ensures Books(env, NewBucket(seed), 0)
    ensures |NewBucket<T>(seed).index.cells| == 32 && NewBucket<T>(seed).data == []
  {
    assert Pow2(5) == 32;
    var b: Bucket<T> := NewBucket(seed);
    assert Entries(b.index) == {};
    forall c: nat ensures KeysIn(Map(env, b), c) == {} {}
  }

  /** The gate lets a writer in with nothing pending and the map unchanged. */
  lemma GateOpens<T>(env: Env<T>, api: Api<T>, seed: nat)
    requires ApiInv(env, api)
    ensures Writable(env, WriteBucket(env, api, seed))
    ensures Map(env, WriteBucket(env, api, seed)) == ApiMap(env, api)
  {
    if api.None? {
      NewBucketIsEmpty(env, seed);
    } else {
      DelayedGrowsMean(env, api.value);
    }
  }

  lemma GateBalances<T>(env: Env<T>, api: Api<T>, seed: nat, leaked: nat)
    requires ApiInv(env, api) && ApiBooks(env, api, leaked)
    ensures Writable(env, WriteBucket(env, api, seed)) && Books(env, WriteBucket(env, api, seed), leaked)
  {
    GateOpens(env, api, seed);
    if api.None? {
      NewBucketIsEmpty(env, seed);
    } else {
      DelayedGrowsBalance(env, api.value, leaked);
    }
  }

  lemma PerformRefines<T>(env: Env<T>, b: Bucket<T>, op: Op<T>)
    requires Writable(env, b) && !op.GrowOp?
    ensures var r := Perform(env, b, op);
            && Writable(env, r.0)
            && Map(env, r.0) == PlainStep(Map(env, b), op, r.1)
            && Answers(env.maxSearch, Map(env, b), op, r.1)
  {
    match op
    case InsertOp(key, list, refCount, choices) =>
      InsertRefines(env, b, key, list, refCount, choices);
      InsertAnswersHold(env, b, key, list, refCount, choices);
    case UpdateOp(key, f, choices) => UpdateRefines(env, b, key, f, choices);
    case DeleteOp(key) => DeleteKeyMeans(env, b, key);
    case AddRefOp(_) => CountRefines(env, b, op);
    case UnRefOp(_) => CountRefines(env, b, op);
    case TryWriteOp(key, list, refCount, pos) =>
      TryWriteMeans(env, b, key, list, refCount, pos);
      TryWriteAnswers(env, b, key, list, refCount, pos);
  }

  /** Counting references goes up and down by one. */
  lemma CountRefines<T>(env: Env<T>, b: Bucket<T>, op: Op<T>)
    requires Writable(env, b) && (op.AddRefOp? || op.UnRefOp?)
    ensures var r, m := Perform(env, b, op), Map(env, b);
            var count := if op.AddRefOp? then Incremented(CountIn(m, op.key)) else Decremented(CountIn(m, op.key));
            && Writable(env, r.0)
            && Map(env, r.0) == WithCount(m, op.key, count)
            && r.1 == Counted(if op.key in m then Some(count) else None)
  {
    BumpMeans(env, b, op.key, if op.AddRefOp? then 1 else -1);
  }

  /** The function given to an update sees the value in the plain map. */
  lemma UpdateRefines<T>(env: Env<T>, b: Bucket<T>, key: Pubkey, f: Option<Value<T>> -> Option<Value<T>>, choices: seq<Choice>)
    requires Writable(env, b)
    ensures var r := Update(env, b, key, f, choices);
            && Writable(env, r.0)
            && Map(env, r.0) == (match f(Lookup(Map(env, b), key))
                                 case None => Map(env, b) - {key}
                                 case Some(v) => InsertMeans(Map(env, b), key, v.list, v.refCount, r.1))
            && Answers(env.maxSearch, Map(env, b), UpdateOp(key, f, choices), Inserted(r.1))
  {
    ReadValueIsLookup(env, b, key);
    match f(ReadValue(env, b, key))
    case None => DeleteKeyMeans(env, b, key);
    case Some(v) =>
      InsertRefines(env, b, key, v.list, v.refCount, choices);
      InsertAnswersHold(env, b, key, v.list, v.refCount, choices);
  }

  lemma PerformBalances<T>(env: Env<T>, b: Bucket<T>, op: Op<T>, leaked: nat)
    requires Writable(env, b) && !op.GrowOp? && Books(env, b, leaked)
    ensures var r := Perform(env, b, op);
            LiveInv(env, r.0) && Books(env, r.0, leaked + Leaks(Map(env, b), op))
  {
    match op
    case InsertOp(key, list, refCount, choices) => InsertBalances(env, b, key, list, refCount, choices, leaked);
    case UpdateOp(key, f, choices) => UpdateBalances(env, b, op, leaked);
    case DeleteOp(key) => DeleteKeyBalances(env, b, key, leaked);
    case AddRefOp(key) => BumpBalances(env, b, key, 1, leaked);
    case UnRefOp(key) => BumpBalances(env, b, key, -1, leaked);
    case TryWriteOp(key, list, refCount, pos) => TryWriteBalances(env, b, key, list, refCount, pos, leaked);
  }

  lemma UpdateBalances<T>(env: Env<T>, b: Bucket<T>, op: Op<T>, leaked: nat)
    requires Writable(env, b) && op.UpdateOp? && Books(env, b, leaked)
    ensures var r := Perform(env, b, op);
            LiveInv(env, r.0) && Books(env, r.0, leaked + Leaks(Map(env, b), op))
  {
    ReadValueIsLookup(env, b, op.key);
    match op.f(ReadValue(env, b, op.key))
    case None => DeleteKeyBalances(env, b, op.key, leaked);
    case Some(v) => InsertBalances(env, b, op.key, v.list, v.refCount, op.choices, leaked);
  }

  /** Each step keeps the invariants and refines the plain map; a growth under the read lock changes nothing at all. */
  lemma StepRefines<T>(env: Env<T>, api: Api<T>, event: Event<T>)
    requires ApiInv(env, api) && Allowed(api, event.op)
    ensures var r := Step(env, api, event);
            && ApiInv(env, r.0)
            && ApiMap(env, r.0) == PlainStep(ApiMap(env, api), event.op, r.1)
            && Answers(env.maxSearch, ApiMap(env, api), event.op, r.1)
  {
    if event.op.GrowOp? {
      if api.Some? {
        GrowMeans(env, api.value, event.op.error, event.op.seeds);
      }
    } else {
      GateOpens(env, api, event.seed);
      PerformRefines(env, WriteBucket(env, api, event.seed), event.op);
    }
  }

  lemma StepBalances<T>(env: Env<T>, api: Api<T>, event: Event<T>, leaked: nat)
    requires ApiInv(env, api) && Allowed(api, event.op) && ApiBooks(env, api, leaked)
    ensures var r := Step(env, api, event);
            ApiInv(env, r.0) && ApiBooks(env, r.0, leaked + Leaks(ApiMap(env, api), event.op))
  {
    StepRefines(env, api, event);
    if event.op.GrowOp? {
      if api.Some? {
        GrowMeans(env, api.value, event.op.error, event.op.seeds);
      }
    } else {
      GateOpens(env, api, event.seed);
      GateBalances(env, api, event.seed, leaked);
      PerformBalances(env, WriteBucket(env, api, event.seed), event.op, leaked);
    }
  }

  // ---------------------------------------------------------------------------------------------
  // Runs

  ghost predicate Admissible<T>(env: Env<T>, api: Api<T>, events: seq<Event<T>>)
    requires ApiInv(env, api)
    decreases |events|
  {
    events != [] ==>
      && Allowed(api, events[0].op)
      && (StepRefines(env, api, events[0]); Admissible(env, Step(env, api, events[0]).0, events[1..]))
  }

  function Run<T>(env: Env<T>, api: Api<T>, events: seq<Event<T>>): (r: (Api<T>, seq<Answer>))
    requires ApiInv(env, api) && Admissible(env, api, events)
    ensures |r.1| == |events|
    decreases |events|
  {
    if events == [] then (api, [])
    else
      var (api', answer) := Step(env, api, events[0]);
      StepRefines(env, api, events[0]);
      var r := Run(env, api', events[1..]);
      (r.0, [answer] + r.1)
  }

  /** A run that has given `answers` and is at `api` with the events `rest` to come ends as `whole`. */
  ghost predicate Continues<T>(env: Env<T>, api: Api<T>, rest: seq<Event<T>>, answers: seq<Answer>,
                               whole: (Api<T>, seq<Answer>)) {
    && ApiInv(env, api) && Admissible(env, api, rest)
    && whole.0 == Run(env, api, rest).0 && whole.1 == answers + Run(env, api, rest).1
  }

  lemma ContinuesAfterStep<T>(env: Env<T>, api: Api<T>, events: seq<Event<T>>, i: nat, answers: seq<Answer>,
                              whole: (Api<T>, seq<Answer>))
    requires i < |events| && Continues(env, api, events[i..], answers, whole)
    ensures Allowed(api, events[i].op)
    ensures var (api', answer) := Step(env, api, events[i]);
            Continues(env, api', events[i + 1..], answers + [answer], whole)
  {
    var rest := events[i..];
    assert rest[0] == events[i] && rest[1..] == events[i + 1..];
    StepRefines(env, api, rest[0]);
    var (api', answer) := Step(env, api, rest[0]);
    assert answers + ([answer] + Run(env, api', rest[1..]).1) == answers + [answer] + Run(env, api', rest[1..]).1;
  }

  ghost function PlainRun<T>(m: map<Pubkey, Value<T>>, events: seq<Event<T>>, answers: seq<Answer>): map<Pubkey, Value<T>>
    requires |answers| == |events|
    decreases |events|
  {
    if events == [] then m else PlainRun(PlainStep(m, events[0].op, answers[0]), events[1..], answers[1..])
  }

  ghost predicate PlainAnswers<T>(maxSearch: nat, m: map<Pubkey, Value<T>>, events: seq<Event<T>>, answers: seq<Answer>)
    requires |answers| == |events|
    decreases |events|
  {
    events != [] ==>
      && Answers(maxSearch, m, events[0].op, answers[0])
      && PlainAnswers(maxSearch, PlainStep(m, events[0].op, answers[0]), events[1..], answers[1..])
  }

  /** How many times during a run the empty list was written over a list of one element. */
  ghost function PlainLeaks<T>(m: map<Pubkey, Value<T>>, events: seq<Event<T>>, answers: seq<Answer>): nat
    requires |answers| == |events|
    decreases |events|
  {
    if events == [] then 0
    else
      Leaks(m, events[0].op)
      + PlainLeaks(PlainStep(m, events[0].op, answers[0]), events[1..], answers[1..])
  }

  /** Refinement over whole runs, from any valid state. */
  lemma {:induction false} RunRefines<T>(env: Env<T>, api: Api<T>, events: seq<Event<T>>)
    requires ApiInv(env, api) && Admissible(env, api, events)
    ensures var r := Run(env, api, events);
            && ApiInv(env, r.0)
            && ApiMap(env, r.0) == PlainRun(ApiMap(env, api), events, r.1)
            && PlainAnswers(env.maxSearch, ApiMap(env, api), events, r.1)
    decreases |events|
  {
    if events != [] {
      StepRefines(env, api, events[0]);
      var s := Step(env, api, events[0]);
      RunRefines(env, s.0, events[1..]);
      var r' := Run(env, s.0, events[1..]);
      assert ([s.1] + r'.1)[1..] == r'.1;
    }
  }

  /** Conservation over whole runs. */
  lemma {:induction false} RunBalances<T>(env: Env<T>, api: Api<T>, events: seq<Event<T>>, leaked: nat)
    requires ApiInv(env, api) && Admissible(env, api, events) && ApiBooks(env, api, leaked)
    ensures var r := Run(env, api, events);
            ApiInv(env, r.0) && ApiBooks(env, r.0, leaked + PlainLeaks(ApiMap(env, api), events, r.1))
    decreases |events|
  {
    RunRefines(env, api, events);
    if events != [] {
      StepRefines(env, api, events[0]);
      var s := Step(env, api, events[0]);
      StepBalances(env, api, events[0], leaked);
      RunBalances(env, s.0, events[1..], leaked + Leaks(ApiMap(env, api), events[0].op));
      var r' := Run(env, s.0, events[1..]);
      assert ([s.1] + r'.1)[1..] == r'.1;
    }
  }

  /**
   From the empty bucket: after any admissible run, reading any key gives what the plain map holds, the
   length is the number of keys, and every answer was the plain map's answer.
   */
  lemma EveryRunRefinesThePlainMap<T>(env: Env<T>, events: seq<Event<T>>, key: Pubkey)
    requires Admissible(env, None, events)
    ensures var r := Run(env, None, events);
            var m := PlainRun(map[], events, r.1);
            && ApiInv(env, r.0)
            && ApiRead(env, r.0, key) == Lookup(m, key)
            && BucketLen(r.0) == |m|
            && PlainAnswers(env.maxSearch, map[], events, r.1)
  {
    RunRefines(env, None, events);
    RunBalances(env, None, events, 0);
    var r := Run(env, None, events);
    if r.0.Some? {
      ReadValueIsLookup(env, r.0.value, key);
    }
  }
}
