/**
 A bucket behind its lock, as an object. A method that takes the write lock first opens the gate:
 it creates the bucket, or swaps in the growth that was computed under the read lock.
 */
module BucketApi {
  import Live = Bucket
  import opened BucketInsert
  import opened BucketModel
  import opened BucketRefinement
  import opened BucketRuns
  import opened BucketStorage
  import opened DataCells
  import opened IndexEntry
  import opened Wrappers

  class BucketApi<T> {
    const env: Env<T>
    const count: Counter
    var bucket: Live.Bucket?<T>
    ghost var Repr: set<object>

    ghost function View(): Api<T>
      reads this, bucket
    {
      if bucket == null then None else Some(bucket.state)
    }

    /** The counter is shared with whatever index the bucket has; it is zero as long as there is no bucket. */
    ghost predicate Valid()
      reads this, Repr
    {
      && this in Repr && count in Repr
      && (bucket == null ==> count.value == 0)
      && (bucket != null ==>
            && bucket in Repr && bucket.Repr <= Repr && this !in bucket.Repr
            && bucket.env == env && bucket.count == count && bucket.Valid())
    }

    ghost function Held(): set<Live.Bucket<T>>
      reads this
    {
      if bucket == null then {} else {bucket}
    }

    constructor (env: Env<T>)
      ensures Valid() && this.env == env && fresh(Repr)
      ensures View() == None
    {
      this.env := env;
      count := new Counter(0);
      bucket := null;
      new;
      Repr := {this, count};
    }

    method BucketLen() returns (n: nat)
      requires Valid()
      ensures n == BucketRuns.BucketLen(View())
    {
      n := count.value;
    }

    method ReadValue(key: Pubkey) returns (r: Option<Value<T>>)
      requires Valid() && ApiInv(env, View())
      ensures r == ApiRead(env, View(), key)
    {
      if bucket == null {
        return None;
      }
      r := bucket.ReadValue(key);
    }

    method Keys() returns (keys: seq<Pubkey>)
      requires Valid()
      ensures keys == if View().None? then [] else BucketModel.Keys(View().value.index, 0)
    {
      if bucket == null {
        return [];
      }
      keys := bucket.Keys();
    }

    method ItemsInRange(inRange: Pubkey -> bool) returns (items: seq<BucketItem<T>>)
      requires Valid() && ApiInv(env, View())
      ensures items == if View().None? then [] else BucketModel.ItemsInRange(View().value, inRange, 0)
    {
      if bucket == null {
        return [];
      }
      items := bucket.ItemsInRange(inRange);
    }

    /** The gate of every write. */
    method GetWriteBucket(seed: nat)
      requires Valid() && ApiInv(env, View())
      modifies Repr
      ensures Valid() && fresh(Repr - old(Repr)) && Repr >= old(Repr)
      ensures bucket != null && bucket.state == WriteBucket(env, old(View()), seed)
      ensures Writable(env, bucket.state)
    {
      GateOpens(env, View(), seed);
      if bucket == null {
        bucket := new Live.Bucket<T>(env, seed, count);
      } else {
        bucket.HandleDelayedGrows();
      }
      Repr := Repr + bucket.Repr + {bucket};
    }

    method Insert(key: Pubkey, list: seq<T>, refCount: nat, choices: seq<Choice>, seed: nat) returns (end: InsertEnd)
      requires Valid() && ApiInv(env, View())
      modifies Repr
      ensures Valid() && fresh(Repr - old(Repr)) && Repr >= old(Repr)
      ensures (View(), Inserted(end)) == Step(env, old(View()), Event(seed, InsertOp(key, list, refCount, choices)))
      ensures ApiInv(env, View())
    {
      StepRefines(env, View(), Event(seed, InsertOp(key, list, refCount, choices)));
      GetWriteBucket(seed);
      end := bucket.Insert(key, list, refCount, choices);
      Repr := Repr + bucket.Repr;
    }

    method Update(key: Pubkey, f: Option<Value<T>> -> Option<Value<T>>, choices: seq<Choice>, seed: nat)
      returns (end: InsertEnd)
      requires Valid() && ApiInv(env, View())
      modifies Repr
      ensures Valid() && fresh(Repr - old(Repr)) && Repr >= old(Repr)
      ensures (View(), Inserted(end)) == Step(env, old(View()), Event(seed, UpdateOp(key, f, choices)))
      ensures ApiInv(env, View())
    {
      StepRefines(env, View(), Event(seed, UpdateOp(key, f, choices)));
      GetWriteBucket(seed);
      end := bucket.Update(key, f, choices);
      Repr := Repr + bucket.Repr;
    }

    method DeleteKey(key: Pubkey, seed: nat)
      requires Valid() && ApiInv(env, View())
      modifies Repr
      ensures Valid() && fresh(Repr - old(Repr)) && Repr >= old(Repr)
      ensures (View(), Done) == Step(env, old(View()), Event(seed, DeleteOp(key)))
      ensures ApiInv(env, View())
    {
      StepRefines(env, View(), Event(seed, DeleteOp(key)));
      GetWriteBucket(seed);
      bucket.DeleteKey(key);
    }

    method AddRef(key: Pubkey, seed: nat) returns (r: Option<nat>)
      requires Valid() && ApiInv(env, View())
      modifies Repr
      ensures Valid() && fresh(Repr - old(Repr)) && Repr >= old(Repr)
      ensures (View(), Counted(r)) == Step(env, old(View()), Event(seed, AddRefOp(key)))
      ensures ApiInv(env, View())
    {
      StepRefines(env, View(), Event(seed, AddRefOp(key)));
      GetWriteBucket(seed);
      r := bucket.AddRef(key);
    }

    method UnRef(key: Pubkey, seed: nat) returns (r: Option<nat>)
      requires Valid() && ApiInv(env, View())
      modifies Repr
      ensures Valid() && fresh(Repr - old(Repr)) && Repr >= old(Repr)
      ensures (View(), Counted(r)) == Step(env, old(View()), Event(seed, UnRefOp(key)))
      ensures ApiInv(env, View())
    {
      StepRefines(env, View(), Event(seed, UnRefOp(key)));
      GetWriteBucket(seed);
      r := bucket.UnRef(key);
    }

    method TryWrite(key: Pubkey, list: seq<T>, refCount: nat, pos: nat, seed: nat) returns (outcome: Outcome)
      requires Valid() && ApiInv(env, View())
      modifies Repr
      ensures Valid() && fresh(Repr - old(Repr)) && Repr >= old(Repr)
      ensures (View(), Written(outcome)) == Step(env, old(View()), Event(seed, TryWriteOp(key, list, refCount, pos)))
      ensures ApiInv(env, View())
    {
      StepRefines(env, View(), Event(seed, TryWriteOp(key, list, refCount, pos)));
      GetWriteBucket(seed);
      outcome := bucket.TryWrite(key, list, refCount, pos);
    }

    /** Runs under the read lock: of all the objects, only the pending slot is written. */
    method Grow(error: Error, seeds: seq<nat>)
      requires Valid() && ApiInv(env, View()) && Allowed(View(), GrowOp(error, seeds))
      modifies this`Repr, Held()`state, Held()`Repr, if bucket == null then {} else {bucket.reallocated}
      ensures Valid() && fresh(Repr - old(Repr)) && Repr >= old(Repr) && bucket == old(bucket)
      ensures (View(), Done) == Step(env, old(View()), Event(0, GrowOp(error, seeds)))
      ensures ApiInv(env, View())
    {
      StepRefines(env, View(), Event(0, GrowOp(error, seeds)));
      if bucket != null {
        bucket.Grow(error, seeds);
        Repr := Repr + bucket.Repr;
      }
    }

    /** Any operation. */
    method Perform(event: Event<T>) returns (answer: Answer)
      requires Valid() && ApiInv(env, View()) && Allowed(View(), event.op)
      modifies Repr
      ensures Valid() && fresh(Repr - old(Repr)) && Repr >= old(Repr)
      ensures (View(), answer) == Step(env, old(View()), event)
      ensures ApiInv(env, View())
    {
      match event.op {
        case InsertOp(key, list, refCount, choices) =>
          var end := Insert(key, list, refCount, choices, event.seed);
          answer := Inserted(end);
        case UpdateOp(key, f, choices) =>
          var end := Update(key, f, choices, event.seed);
          answer := Inserted(end);
        case DeleteOp(key) =>
          DeleteKey(key, event.seed);
          answer := Done;
        case AddRefOp(key) =>
          var count := AddRef(key, event.seed);
          answer := Counted(count);
        case UnRefOp(key) =>
          var count := UnRef(key, event.seed);
          answer := Counted(count);
        case TryWriteOp(key, list, refCount, pos) =>
          var outcome := TryWrite(key, list, refCount, pos, event.seed);
          answer := Written(outcome);
        case GrowOp(error, seeds) =>
          Grow(error, seeds);
          answer := Done;
      }
    }

    /** A whole run on the object is the run on values. */
    method PerformRun(events: seq<Event<T>>) returns (answers: seq<Answer>)
      requires Valid() && ApiInv(env, View()) && Admissible(env, View(), events)
      modifies Repr
      ensures Valid() && fresh(Repr - old(Repr)) && Repr >= old(Repr)
      ensures (View(), answers) == Run(env, old(View()), events)
      ensures ApiInv(env, View())
    {
      answers := [];
      ghost var whole := Run(env, View(), events);
      assert events[0..] == events;
      for i := 0 to |events|
        invariant Valid() && fresh(Repr - old(Repr)) && Repr >= old(Repr)
        invariant Continues(env, View(), events[i..], answers, whole)
      {
        ContinuesAfterStep(env, View(), events, i, answers, whole);
        var answer := Perform(events[i]);
        answers := answers + [answer];
      }
      assert events[|events|..] == [] && Run(env, View(), []).1 == [];
      assert answers + [] == answers;
    }
  }

  /**
   From a new object: after any admissible run, a read gives what the plain map holds, the length is the
   number of its keys, and all the answers were the plain map's.
   */
  method RunAndRead<T>(env: Env<T>, events: seq<Event<T>>, key: Pubkey)
    returns (answers: seq<Answer>, value: Option<Value<T>>, length: nat)
    requires Admissible(env, None, events)
    ensures |answers| == |events| && PlainAnswers(env.maxSearch, map[], events, answers)
    ensures value == Lookup(PlainRun(map[], events, answers), key)
    ensures length == |PlainRun(map[], events, answers)|
  {
    var api := new BucketApi<T>(env);
    answers := api.PerformRun(events);
    value := api.ReadValue(key);
    length := api.BucketLen();
    EveryRunRefinesThePlainMap(env, events, key);
  }
}
