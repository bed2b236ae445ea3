/**
 The map of buckets. A key belongs to the bucket named by the leading bits of its bytes, so the buckets
 together behave as one plain map.
 */
module BucketMap {
  import opened Arithmetic
  import opened BucketEnumeration
  import opened BucketModel
  import opened BucketRefinement
  import opened BucketRuns
  import opened DataCells
  import opened IndexEntry
  import opened Storage
  import opened Wrappers

  // ---------------------------------------------------------------------------------------------
  // Routing

  predicate IsPubkey(key: Pubkey) {
    |key.bytes| == 32 && forall i :: 0 <= i < 32 ==> key.bytes[i] < 256
  }

  lemma OneMoreByte(n: nat, byte: nat, k: nat)
    requires n < Pow2(8 * k) && byte < 256
    ensures n * 256 + byte < Pow2(8 * (k + 1))
  {
    Pow2Sum(8 * k, 8);
    assert Pow2(8) == 256;
    MulMonotone(n + 1, Pow2(8 * k), 256);
  }

  /** The number that a sequence of bytes denotes, most significant byte first. */
  function BigEndian(bytes: seq<nat>): (n: nat)
    requires forall i :: 0 <= i < |bytes| ==> bytes[i] < 256
    ensures n < Pow2(8 * |bytes|)
  {
    if bytes == [] then 0
    else
      var n := BigEndian(bytes[..|bytes| - 1]);
      OneMoreByte(n, bytes[|bytes| - 1], |bytes| - 1);
      n * 256 + bytes[|bytes| - 1]
  }

  function ReadBeU64(key: Pubkey): (n: nat)
    requires IsPubkey(key)
    ensures n < Pow2(64)
  {
    BigEndian(key.bytes[..8])
  }

  /** The leading `pow2` bits of a key, which always name an existing bucket. */
  function BucketIx(key: Pubkey, pow2: nat): (ix: nat)
    requires IsPubkey(key) && pow2 <= 64
    ensures ix < Pow2(pow2)
  {
    if pow2 > 0 then
      ImageInRange(pow2, 64, ReadBeU64(key));
      ReadBeU64(key) / Pow2(64 - pow2)
    else 0
  }

  /** Every bucket holds one interval of the keys' leading eight bytes, all of the same length. */
  lemma BucketHoldsInterval(key: Pubkey, pow2: nat)
    requires IsPubkey(key) && pow2 <= 64
    ensures var ix, step := BucketIx(key, pow2), Pow2(64 - pow2);
            ix * step <= ReadBeU64(key) < (ix + 1) * step
  {
    if pow2 > 0 {
      QuotientInterval(ReadBeU64(key), Pow2(64 - pow2));
    }
  }

  /** Byte order is number order: the first byte that differs decides. */
  lemma {:induction false} BigEndianOrder(a: seq<nat>, b: seq<nat>, i: nat)
    requires |a| == |b| && forall k :: 0 <= k < |a| ==> a[k] < 256 && b[k] < 256
    requires i < |a| && a[..i] == b[..i] && a[i] < b[i]
    ensures BigEndian(a) < BigEndian(b)
  {
    var n := |a| - 1;
    if i < n {
      assert a[..n][..i] == a[..i] && b[..n][..i] == b[..i];
      BigEndianOrder(a[..n], b[..n], i);
    } else {
      assert a[..n] == b[..n];
    }
  }

  lemma ShiftOneByte(n: nat, p: nat)
    requires p > 0
    ensures n / (256 * p) == (n / 256) / p
  {
    var q, r := (n / 256) / p, (n / 256) % p;
    assert n / 256 == q * p + r;
    assert n == 256 * (q * p + r) + n % 256;
    assert n == q * (256 * p) + (256 * r + n % 256);
    DivModUnique(n, 256 * p, q, 256 * r + n % 256);
  }

  /** Every byte can be read back from the number: shift it down, and take the lowest eight bits. */
  lemma {:induction false} ByteReadBack(bytes: seq<nat>, k: nat)
    requires (forall i :: 0 <= i < |bytes| ==> bytes[i] < 256) && k < |bytes|
    ensures (BigEndian(bytes) / Pow2(8 * (|bytes| - 1 - k))) % 256 == bytes[k]
    decreases |bytes|
  {
    var n := |bytes| - 1;
    var front := bytes[..n];
    DivModUnique(BigEndian(bytes), 256, BigEndian(front), bytes[n]);
    if k == n {
      assert BigEndian(bytes) / 1 == BigEndian(bytes);
    } else {
      ByteReadBack(front, k);
      Pow2Sum(8 * (n - 1 - k), 8);
      assert Pow2(8) == 256;
      ShiftOneByte(BigEndian(bytes), Pow2(8 * (n - 1 - k)));
    }
  }

  /** The number of a key is made of its first eight bytes, all of them, most significant first. */
  lemma LeadingBytesReadBack(key: Pubkey, k: nat)
    requires IsPubkey(key) && k < 8
    ensures (ReadBeU64(key) / Pow2(8 * (7 - k))) % 256 == key.bytes[k]
  {
    ByteReadBack(key.bytes[..8], k);
  }

  /** With the most buckets there can be, keys share a bucket exactly if their first eight bytes agree. */
  lemma FinestRouting(a: Pubkey, b: Pubkey)
    requires IsPubkey(a) && IsPubkey(b)
    ensures BucketIx(a, 64) == BucketIx(b, 64) <==> a.bytes[..8] == b.bytes[..8]
  {
    BucketHoldsInterval(a, 64);
    BucketHoldsInterval(b, 64);
    if BucketIx(a, 64) == BucketIx(b, 64) {
      forall k | 0 <= k < 8 ensures a.bytes[k] == b.bytes[k] {
        LeadingBytesReadBack(a, k);
        LeadingBytesReadBack(b, k);
      }
    }
  }

  /** One more bit splits every bucket into two halves, decided by that bit of the number. */
  lemma OneMoreBit(key: Pubkey, pow2: nat)
    requires IsPubkey(key) && pow2 < 64
    ensures var bit := (ReadBeU64(key) / Pow2(63 - pow2)) % 2;
            BucketIx(key, pow2 + 1) == 2 * BucketIx(key, pow2) + bit
  {
    var n, p := ReadBeU64(key), Pow2(63 - pow2);
    BucketHoldsInterval(key, pow2);
    BucketHoldsInterval(key, pow2 + 1);
    assert Pow2(64 - pow2) == 2 * p;
    QuotientInterval(n, p);
    HalfInterval(n, p, BucketIx(key, pow2), BucketIx(key, pow2 + 1));
    assert BucketIx(key, pow2 + 1) == n / p;
  }

  lemma HalfInterval(n: nat, p: nat, ix: nat, jx: nat)
    requires ix * (2 * p) <= n < (ix + 1) * (2 * p) && jx * p <= n < (jx + 1) * p
    ensures jx == 2 * ix + jx % 2
  {
    assert ix * (2 * p) == (2 * ix) * p && (ix + 1) * (2 * p) == (2 * ix + 2) * p;
    if jx < 2 * ix {
      MulMonotone(jx + 1, 2 * ix, p);
    } else if jx >= 2 * ix + 2 {
      MulMonotone(2 * ix + 2, jx, p);
    }
  }

  lemma IntervalsInOrder(m: nat, n: nat, ix: nat, jx: nat, step: nat)
    requires ix * step <= m < n < (jx + 1) * step
    ensures ix <= jx
  {
    if jx < ix {
      MulMonotone(jx + 1, ix, step);
    }
  }

  /** The buckets split the keys in key order: a smaller key never lies in a later bucket. */
  lemma RoutingFollowsKeyOrder(a: Pubkey, b: Pubkey, i: nat, pow2: nat)
    requires IsPubkey(a) && IsPubkey(b) && pow2 <= 64
    requires i < 32 && a.bytes[..i] == b.bytes[..i] && a.bytes[i] < b.bytes[i]
    ensures BucketIx(a, pow2) <= BucketIx(b, pow2)
  {
    if i < 8 {
      assert a.bytes[..8][..i] == a.bytes[..i] && b.bytes[..8][..i] == b.bytes[..i];
      BigEndianOrder(a.bytes[..8], b.bytes[..8], i);
      BucketHoldsInterval(a, pow2);
      BucketHoldsInterval(b, pow2);
      IntervalsInOrder(ReadBeU64(a), ReadBeU64(b), BucketIx(a, pow2), BucketIx(b, pow2), Pow2(64 - pow2));
    } else {
      assert a.bytes[..8] == a.bytes[..i][..8] == b.bytes[..i][..8] == b.bytes[..8];
    }
  }

  /** The number of significant bits, that is, the word size minus the leading zeros. */
  function BitLength(x: nat): nat {
    if x == 0 then 0 else 1 + BitLength(x / 2)
  }

  /** The logarithm used when the map is created is exact on powers of two. */
  lemma {:induction false} Log2OfPowerOfTwo(p: nat)
    ensures BitLength(Pow2(p)) == p + 1
  {
    if p > 0 {
      Log2OfPowerOfTwo(p - 1);
      assert Pow2(p) / 2 == Pow2(p - 1);
    }
  }

  // ---------------------------------------------------------------------------------------------
  // The map

  datatype Map<+T> = Map(pow2: nat, buckets: seq<Api<T>>)

  /** An operation on a key, or a growth of the bucket named by `bucket`. */
  datatype MapEvent<!T> = MapEvent(bucket: nat, event: Event<T>)

  function NewMap<T>(pow2: nat): Map<T> {
    Map(pow2, seq(Pow2(pow2), _ => None))
  }

  predicate WellFormed<T>(map_: Map<T>, e: MapEvent<T>) {
    if e.event.op.GrowOp? then e.bucket < |map_.buckets| else IsPubkey(e.event.op.key)
  }

  function Target<T>(map_: Map<T>, e: MapEvent<T>): (ix: nat)
    requires map_.pow2 <= 64 && |map_.buckets| == Pow2(map_.pow2) && WellFormed(map_, e)
    ensures ix < |map_.buckets|
  {
    if e.event.op.GrowOp? then e.bucket else BucketIx(e.event.op.key, map_.pow2)
  }

  ghost predicate MapInv<T>(env: Env<T>, map_: Map<T>) {
    && map_.pow2 <= 64 && |map_.buckets| == Pow2(map_.pow2)
    && (forall i :: 0 <= i < |map_.buckets| ==> Routed(env, map_.buckets[i], map_.pow2, i))
  }

  /** A valid bucket that holds only keys routed to it. */
  ghost predicate Routed<T>(env: Env<T>, api: Api<T>, pow2: nat, ix: nat)
    requires pow2 <= 64
  {
    && ApiInv(env, api)
    && forall k :: k in ApiMap(env, api) ==> IsPubkey(k) && BucketIx(k, pow2) == ix
  }

  function MapRead<T>(env: Env<T>, map_: Map<T>, key: Pubkey): Option<Value<T>>
    requires MapInv(env, map_) && IsPubkey(key)
  {
    ApiRead(env, map_.buckets[BucketIx(key, map_.pow2)], key)
  }

  /** The buckets hold the plain map `m`: each key in its own bucket, and nothing else. */
  ghost predicate Represents<T>(env: Env<T>, map_: Map<T>, m: map<Pubkey, Value<T>>)
    requires MapInv(env, map_)
  {
    && (forall k :: k in m ==> IsPubkey(k))
    && (forall k :: IsPubkey(k) ==> Lookup(ApiMap(env, map_.buckets[BucketIx(k, map_.pow2)]), k) == Lookup(m, k))
  }

  ghost predicate MapAllowed<T>(map_: Map<T>, e: MapEvent<T>) {
    && map_.pow2 <= 64 && |map_.buckets| == Pow2(map_.pow2)
    && WellFormed(map_, e) && Allowed(map_.buckets[Target(map_, e)], e.event.op)
  }

  function MapStep<T>(env: Env<T>, map_: Map<T>, e: MapEvent<T>): (r: (Map<T>, Answer))
    requires MapInv(env, map_) && MapAllowed(map_, e)
  {
    var ix := Target(map_, e);
    var r := Step(env, map_.buckets[ix], e.event);
    (map_.(buckets := map_.buckets[ix := r.0]), r.1)
  }

  // ---------------------------------------------------------------------------------------------
  // Refinement

  /** An operation touches no key but its own, and what it does there depends on nothing else. */
  lemma PlainStepIsLocal<T>(m: map<Pubkey, Value<T>>, m': map<Pubkey, Value<T>>, op: Op<T>, answer: Answer)
    requires !op.GrowOp? && Lookup(m, op.key) == Lookup(m', op.key)
    ensures Lookup(PlainStep(m, op, answer), op.key) == Lookup(PlainStep(m', op, answer), op.key)
    ensures forall k :: k != op.key ==> Lookup(PlainStep(m, op, answer), k) == Lookup(m, k)
    ensures forall maxSearch: nat :: Answers(maxSearch, m, op, answer) <==> Answers(maxSearch, m', op, answer)
  {
  }

  lemma StepKeepsRouted<T>(env: Env<T>, api: Api<T>, pow2: nat, ix: nat, event: Event<T>)
    requires pow2 <= 64 && Routed(env, api, pow2, ix) && Allowed(api, event.op)
    requires event.op.GrowOp? || (IsPubkey(event.op.key) && BucketIx(event.op.key, pow2) == ix)
    ensures Routed(env, Step(env, api, event).0, pow2, ix)
  {
    StepRefines(env, api, event);
    var r, m := Step(env, api, event), ApiMap(env, api);
    if !event.op.GrowOp? {
      PlainStepIsLocal(m, m, event.op, r.1);
      forall k | k in PlainStep(m, event.op, r.1) && k != event.op.key ensures k in m {
        assert Lookup(PlainStep(m, event.op, r.1), k) == Lookup(m, k);
      }
    }
  }

  lemma MapStepKeepsInv<T>(env: Env<T>, map_: Map<T>, e: MapEvent<T>)
    requires MapInv(env, map_) && MapAllowed(map_, e)
    ensures MapInv(env, MapStep(env, map_, e).0)
  {
    var ix := Target(map_, e);
    StepKeepsRouted(env, map_.buckets[ix], map_.pow2, ix, e.event);
  }

  lemma StepAtKey<T>(env: Env<T>, api: Api<T>, event: Event<T>, m: map<Pubkey, Value<T>>, k: Pubkey)
    requires ApiInv(env, api) && Allowed(api, event.op)
    requires Lookup(ApiMap(env, api), k) == Lookup(m, k)
    requires !event.op.GrowOp? ==> Lookup(ApiMap(env, api), event.op.key) == Lookup(m, event.op.key)
    ensures var r := Step(env, api, event);
            && ApiInv(env, r.0)
            && Lookup(ApiMap(env, r.0), k) == Lookup(PlainStep(m, event.op, r.1), k)
            && Answers(env.maxSearch, m, event.op, r.1)
  {
    StepRefines(env, api, event);
    if !event.op.GrowOp? {
      PlainStepIsLocal(m, ApiMap(env, api), event.op, Step(env, api, event).1);
      PlainStepIsLocal(ApiMap(env, api), m, event.op, Step(env, api, event).1);
    }
  }

  /** The bucket that an operation goes to agrees with the plain map on every key routed there. */
  lemma MapStepHere<T>(env: Env<T>, map_: Map<T>, e: MapEvent<T>, m: map<Pubkey, Value<T>>, k: Pubkey)
    requires MapInv(env, map_) && MapAllowed(map_, e) && Represents(env, map_, m)
    requires IsPubkey(k) && BucketIx(k, map_.pow2) == Target(map_, e)
    ensures var r := Step(env, map_.buckets[Target(map_, e)], e.event);
            ApiInv(env, r.0) && Lookup(ApiMap(env, r.0), k) == Lookup(PlainStep(m, e.event.op, r.1), k)
  {
    StepAtKey(env, map_.buckets[Target(map_, e)], e.event, m, k);
  }

  /** An operation changes nothing for a key of another bucket. */
  lemma MapStepElsewhere<T>(map_: Map<T>, e: MapEvent<T>, m: map<Pubkey, Value<T>>, k: Pubkey, answer: Answer)
    requires MapAllowed(map_, e) && IsPubkey(k) && BucketIx(k, map_.pow2) != Target(map_, e)
    ensures Lookup(PlainStep(m, e.event.op, answer), k) == Lookup(m, k)
  {
    if !e.event.op.GrowOp? {
      PlainStepIsLocal(m, m, e.event.op, answer);
    }
  }

  lemma MapStepAtKey<T>(env: Env<T>, map_: Map<T>, e: MapEvent<T>, m: map<Pubkey, Value<T>>, k: Pubkey)
    requires MapInv(env, map_) && MapAllowed(map_, e) && Represents(env, map_, m) && IsPubkey(k)
    ensures var r := MapStep(env, map_, e);
            && ApiInv(env, r.0.buckets[BucketIx(k, map_.pow2)])
            && Lookup(ApiMap(env, r.0.buckets[BucketIx(k, map_.pow2)]), k) == Lookup(PlainStep(m, e.event.op, r.1), k)
  {
    if BucketIx(k, map_.pow2) == Target(map_, e) {
      MapStepHere(env, map_, e, m, k);
    } else {
      MapStepElsewhere(map_, e, m, k, MapStep(env, map_, e).1);
    }
  }

  lemma MapStepAnswers<T>(env: Env<T>, map_: Map<T>, e: MapEvent<T>, m: map<Pubkey, Value<T>>)
    requires MapInv(env, map_) && MapAllowed(map_, e) && Represents(env, map_, m)
    ensures Answers(env.maxSearch, m, e.event.op, MapStep(env, map_, e).1)
  {
    if !e.event.op.GrowOp? {
      StepAtKey(env, map_.buckets[Target(map_, e)], e.event, m, e.event.op.key);
    }
  }

  lemma PlainStepKeepsPubkeys<T>(m: map<Pubkey, Value<T>>, op: Op<T>, answer: Answer)
    requires forall k :: k in m ==> IsPubkey(k)
    requires !op.GrowOp? ==> IsPubkey(op.key)
    ensures forall k :: k in PlainStep(m, op, answer) ==> IsPubkey(k)
  {
    if !op.GrowOp? {
      PlainStepIsLocal(m, m, op, answer);
      forall k | k in PlainStep(m, op, answer) ensures IsPubkey(k) {
        if k != op.key {
          assert Lookup(PlainStep(m, op, answer), k) == Lookup(m, k);
        }
      }
    }
  }

  lemma MapStepRefines<T>(env: Env<T>, map_: Map<T>, e: MapEvent<T>, m: map<Pubkey, Value<T>>)
    requires MapInv(env, map_) && MapAllowed(map_, e) && Represents(env, map_, m)
    ensures var r := MapStep(env, map_, e);
            && MapInv(env, r.0)
            && Represents(env, r.0, PlainStep(m, e.event.op, r.1))
            && Answers(env.maxSearch, m, e.event.op, r.1)
  {
    MapStepKeepsInv(env, map_, e);
    MapStepAnswers(env, map_, e, m);
    var r := MapStep(env, map_, e);
    PlainStepKeepsPubkeys(m, e.event.op, r.1);
    forall k | IsPubkey(k)
      ensures Lookup(ApiMap(env, r.0.buckets[BucketIx(k, map_.pow2)]), k) == Lookup(PlainStep(m, e.event.op, r.1), k)
    {
      MapStepAtKey(env, map_, e, m, k);
    }
  }

  // ---------------------------------------------------------------------------------------------
  // Runs

  ghost predicate MapAdmissible<T>(env: Env<T>, map_: Map<T>, events: seq<MapEvent<T>>)
    requires MapInv(env, map_)
    decreases |events|
  {
    events != [] ==>
      && MapAllowed(map_, events[0])
      && (MapStepKeepsInv(env, map_, events[0]); MapAdmissible(env, MapStep(env, map_, events[0]).0, events[1..]))
  }

  function MapRun<T>(env: Env<T>, map_: Map<T>, events: seq<MapEvent<T>>): (r: (Map<T>, seq<Answer>))
    requires MapInv(env, map_) && MapAdmissible(env, map_, events)
    ensures |r.1| == |events|
    decreases |events|
  {
    if events == [] then (map_, [])
    else
      var s := MapStep(env, map_, events[0]);
      MapStepKeepsInv(env, map_, events[0]);
      var r := MapRun(env, s.0, events[1..]);
      (r.0, [s.1] + r.1)
  }

  function EventsOf<T>(events: seq<MapEvent<T>>): (es: seq<Event<T>>)
    ensures |es| == |events|
  {
    if events == [] then [] else [events[0].event] + EventsOf(events[1..])
  }

  lemma {:induction false} MapRunRefines<T>(
    env: Env<T>, map_: Map<T>, events: seq<MapEvent<T>>, m: map<Pubkey, Value<T>>)
    requires MapInv(env, map_) && MapAdmissible(env, map_, events) && Represents(env, map_, m)
    ensures var r := MapRun(env, map_, events);
            && MapInv(env, r.0)
            && Represents(env, r.0, PlainRun(m, EventsOf(events), r.1))
            && PlainAnswers(env.maxSearch, m, EventsOf(events), r.1)
    decreases |events|
  {
    if events != [] {
      MapStepRefines(env, map_, events[0], m);
      var s := MapStep(env, map_, events[0]);
      MapRunRefines(env, s.0, events[1..], PlainStep(m, events[0].event.op, s.1));
      var r' := MapRun(env, s.0, events[1..]);
      assert ([s.1] + r'.1)[1..] == r'.1;
      assert EventsOf(events)[1..] == EventsOf(events[1..]);
    }
  }

  lemma NewMapIsEmpty<T>(env: Env<T>, pow2: nat)
    requires pow2 <= 64
    ensures MapInv(env, NewMap(pow2)) && Represents(env, NewMap(pow2), map[])
  {
  }

  /** Any admissible run over all the buckets reads, for every key, as the same run of one plain map. */
  lemma EveryMapRunRefinesThePlainMap<T>(env: Env<T>, pow2: nat, events: seq<MapEvent<T>>, key: Pubkey)
    requires pow2 <= 64 && IsPubkey(key)
    requires MapInv(env, NewMap(pow2)) && MapAdmissible(env, NewMap(pow2), events)
    ensures var r := MapRun(env, NewMap(pow2), events);
            var m := PlainRun(map[], EventsOf(events), r.1);
            && MapInv(env, r.0)
            && MapRead(env, r.0, key) == Lookup(m, key)
            && PlainAnswers(env.maxSearch, map[], EventsOf(events), r.1)
  {
    NewMapIsEmpty(env, pow2);
    MapRunRefines(env, NewMap(pow2), events, map[]);
    var r := MapRun(env, NewMap(pow2), events);
    var api := r.0.buckets[BucketIx(key, r.0.pow2)];
    if api.Some? {
      ReadValueIsLookup(env, api.value, key);
    }
  }

  // ---------------------------------------------------------------------------------------------
  // Enumeration

  function ApiItems<T>(env: Env<T>, api: Api<T>, inRange: Pubkey -> bool): seq<BucketItem<T>>
    requires ApiInv(env, api)
  {
    if api.None? then [] else ItemsInRange(api.value, inRange, 0)
  }

  /** The items of buckets `i`, `i + 1`, .., one bucket after the other. */
  function AllItems<T>(env: Env<T>, map_: Map<T>, inRange: Pubkey -> bool, i: nat): (items: seq<BucketItem<T>>)
    requires MapInv(env, map_) && i <= |map_.buckets|
    decreases |map_.buckets| - i
  {
    if i == |map_.buckets| then []
    else
      assert Routed(env, map_.buckets[i], map_.pow2, i);
      ApiItems(env, map_.buckets[i], inRange) + AllItems(env, map_, inRange, i + 1)
  }

  lemma RoutedItems<T>(env: Env<T>, api: Api<T>, pow2: nat, ix: nat, inRange: Pubkey -> bool)
    requires pow2 <= 64 && Routed(env, api, pow2, ix)
    ensures forall item :: item in ApiItems(env, api, inRange) <==> ItemIn(ApiMap(env, api), inRange, item)
    ensures DistinctKeys(ApiItems(env, api, inRange))
    ensures forall item :: item in ApiItems(env, api, inRange) ==> InBucket(item, pow2, ix)
  {
    if api.Some? {
      ItemsListTheMap(env, api.value, inRange);
    }
    forall item | item in ApiItems(env, api, inRange) ensures InBucket(item, pow2, ix) {
      assert ItemIn(ApiMap(env, api), inRange, item);
    }
  }

  /** What an item says is what its own bucket holds. */
  ghost predicate ListedBy<T>(env: Env<T>, map_: Map<T>, inRange: Pubkey -> bool, item: BucketItem<T>, from: nat)
    requires MapInv(env, map_)
  {
    && IsPubkey(item.pubkey) && BucketIx(item.pubkey, map_.pow2) >= from
    && ItemIn(ApiMap(env, map_.buckets[BucketIx(item.pubkey, map_.pow2)]), inRange, item)
  }

  lemma ListedHereOrLater<T>(env: Env<T>, map_: Map<T>, inRange: Pubkey -> bool, item: BucketItem<T>, i: nat)
    requires MapInv(env, map_) && i < |map_.buckets|
    ensures ApiInv(env, map_.buckets[i])
    ensures ListedBy(env, map_, inRange, item, i) <==>
              ItemIn(ApiMap(env, map_.buckets[i]), inRange, item) || ListedBy(env, map_, inRange, item, i + 1)
  {
    assert Routed(env, map_.buckets[i], map_.pow2, i);
  }

  lemma {:induction false} AllItemsFrom<T>(env: Env<T>, map_: Map<T>, inRange: Pubkey -> bool, i: nat)
    requires MapInv(env, map_) && i <= |map_.buckets|
    ensures forall item :: item in AllItems(env, map_, inRange, i) <==> ListedBy(env, map_, inRange, item, i)
    decreases |map_.buckets| - i
  {
    if i < |map_.buckets| {
      assert Routed(env, map_.buckets[i], map_.pow2, i);
      AllItemsFrom(env, map_, inRange, i + 1);
      RoutedItems(env, map_.buckets[i], map_.pow2, i, inRange);
      forall item: BucketItem<T>
        ensures item in AllItems(env, map_, inRange, i) <==> ListedBy(env, map_, inRange, item, i)
      {
        ListedHereOrLater(env, map_, inRange, item, i);
      }
    }
  }

  predicate InBucket<T>(item: BucketItem<T>, pow2: nat, ix: nat)
    requires pow2 <= 64
  {
    IsPubkey(item.pubkey) && BucketIx(item.pubkey, pow2) == ix
  }

  predicate Beyond<T>(item: BucketItem<T>, pow2: nat, ix: nat)
    requires pow2 <= 64
  {
    IsPubkey(item.pubkey) && BucketIx(item.pubkey, pow2) > ix
  }

  lemma DistinctConcat<T>(a: seq<BucketItem<T>>, b: seq<BucketItem<T>>, pow2: nat, ix: nat)
    requires pow2 <= 64 && DistinctKeys(a) && DistinctKeys(b)
    requires forall x :: x in a ==> InBucket(x, pow2, ix)
    requires forall x :: x in b ==> Beyond(x, pow2, ix)
    ensures DistinctKeys(a + b)
  {
    forall i, j | 0 <= i < |a| && 0 <= j < |b| ensures a[i].pubkey != b[j].pubkey {
      assert a[i] in a && b[j] in b;
    }
  }

  lemma RestBeyond<T>(env: Env<T>, map_: Map<T>, inRange: Pubkey -> bool, i: nat)
    requires MapInv(env, map_) && i < |map_.buckets|
    ensures forall x :: x in AllItems(env, map_, inRange, i + 1) ==> Beyond(x, map_.pow2, i)
  {
    AllItemsFrom(env, map_, inRange, i + 1);
    forall x | x in AllItems(env, map_, inRange, i + 1) ensures Beyond(x, map_.pow2, i) {
      assert ListedBy(env, map_, inRange, x, i + 1);
    }
  }

  lemma {:induction false} AllItemsDistinct<T>(env: Env<T>, map_: Map<T>, inRange: Pubkey -> bool, i: nat)
    requires MapInv(env, map_) && i <= |map_.buckets|
    ensures DistinctKeys(AllItems(env, map_, inRange, i))
    decreases |map_.buckets| - i
  {
    if i < |map_.buckets| {
      assert Routed(env, map_.buckets[i], map_.pow2, i);
      AllItemsDistinct(env, map_, inRange, i + 1);
      RoutedItems(env, map_.buckets[i], map_.pow2, i, inRange);
      RestBeyond(env, map_, inRange, i);
      DistinctConcat(ApiItems(env, map_.buckets[i], inRange), AllItems(env, map_, inRange, i + 1), map_.pow2, i);
    }
  }

  /** Listing all the buckets gives exactly the in-range part of the plain map, each key once. */
  lemma AllItemsListTheMap<T>(env: Env<T>, map_: Map<T>, inRange: Pubkey -> bool, m: map<Pubkey, Value<T>>)
    requires MapInv(env, map_) && Represents(env, map_, m)
    ensures forall item :: item in AllItems(env, map_, inRange, 0) <==> ItemIn(m, inRange, item)
    ensures DistinctKeys(AllItems(env, map_, inRange, 0))
  {
    AllItemsFrom(env, map_, inRange, 0);
    AllItemsDistinct(env, map_, inRange, 0);
    forall item: BucketItem<T>
      ensures item in AllItems(env, map_, inRange, 0) <==> ItemIn(m, inRange, item)
    {
      ListedIffInMap(env, map_, inRange, m, item);
    }
  }

  lemma ListedIffInMap<T>(env: Env<T>, map_: Map<T>, inRange: Pubkey -> bool, m: map<Pubkey, Value<T>>, item: BucketItem<T>)
    requires MapInv(env, map_) && Represents(env, map_, m)
    ensures ListedBy(env, map_, inRange, item, 0) <==> ItemIn(m, inRange, item)
  {
    if IsPubkey(item.pubkey) {
      var api := map_.buckets[BucketIx(item.pubkey, map_.pow2)];
      assert Routed(env, api, map_.pow2, BucketIx(item.pubkey, map_.pow2));
      assert Lookup(ApiMap(env, api), item.pubkey) == Lookup(m, item.pubkey);
    }
  }
}
