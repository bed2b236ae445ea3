/**
 Threads that add to and look into one lock-free Bloom filter. The only atomic steps are one
 `fetch_or` per hash key for an adder and one load per hash key for a checker; a schedule may
 interleave the steps of all the threads in any order.
 */
module ConcurrentBloom {
  import opened Bloom
  import opened BloomBits

  datatype Config<!K> = Config(hash: Hash<K>, keys: seq<nat>, numBits: nat)

  /** A call of `add` or `contains`: the item, the number of hash keys dealt with, and the answer so far. */
  datatype Thread<K> =
    | Adder(item: K, next: nat, added: bool)
    | Checker(item: K, next: nat, found: bool)

  datatype State<K> = State(words: seq<Word>, threads: seq<Thread<K>>)

  /** An executed `fetch_or`: by whom, where, and whether the bit was zero before. */
  datatype Event = Event(thread: nat, pos: nat, sawZero: bool)

  ghost predicate Sound<K>(c: Config<K>, s: State<K>) {
    && (c.keys != [] ==> c.numBits > 0)
    && |s.words| == WordCount(c.numBits)
    && (forall p :: p in WordOnes(s.words) ==> p < c.numBits)
    && (forall t :: 0 <= t < |s.threads| ==> s.threads[t].next <= |c.keys|)
  }

  /** A checker stops at the first bit that is not set. */
  predicate Finished<K>(c: Config<K>, thread: Thread<K>) {
    thread.next >= |c.keys| || (thread.Checker? && !thread.found)
  }

  function NextPos<K>(c: Config<K>, thread: Thread<K>): (p: nat)
    requires thread.next < |c.keys| && c.numBits > 0
    ensures p < c.numBits
  {
    Pos(c.hash, thread.item, c.keys[thread.next], c.numBits)
  }

  /** One atomic step of thread `t`; a finished thread does nothing. */
  function Step<K>(c: Config<K>, s: State<K>, t: nat): (s': State<K>)
    requires Sound(c, s) && t < |s.threads|
  {
    var thread := s.threads[t];
    if Finished(c, thread) then s
    else
      var p := NextPos(c, thread);
      match thread
      case Adder(item, next, added) =>
        State(FetchOr(s.words, p), s.threads[t := Adder(item, next + 1, added || !WordBit(s.words, p))])
      case Checker(item, next, found) =>
        s.(threads := s.threads[t := Checker(item, next + 1, WordBit(s.words, p))])
  }

  function StepEvents<K>(c: Config<K>, s: State<K>, t: nat): seq<Event>
    requires Sound(c, s) && t < |s.threads|
  {
    var thread := s.threads[t];
    if Finished(c, thread) || thread.Checker? then []
    else [Event(t, NextPos(c, thread), !WordBit(s.words, NextPos(c, thread)))]
  }

  ghost predicate ScheduleFor<K>(s: State<K>, schedule: seq<nat>) {
    forall i :: 0 <= i < |schedule| ==> schedule[i] < |s.threads|
  }

  function Run<K>(c: Config<K>, s: State<K>, schedule: seq<nat>): (s': State<K>)
    requires Sound(c, s) && ScheduleFor(s, schedule)
    decreases |schedule|
  {
    if schedule == [] then s
    else
      StepKeepsSound(c, s, schedule[0]);
      Run(c, Step(c, s, schedule[0]), schedule[1..])
  }

  function Trace<K>(c: Config<K>, s: State<K>, schedule: seq<nat>): (events: seq<Event>)
    requires Sound(c, s) && ScheduleFor(s, schedule)
    decreases |schedule|
  {
    if schedule == [] then []
    else
      StepKeepsSound(c, s, schedule[0]);
      StepEvents(c, s, schedule[0]) + Trace(c, Step(c, s, schedule[0]), schedule[1..])
  }

  lemma StepKeepsSound<K>(c: Config<K>, s: State<K>, t: nat)
    requires Sound(c, s) && t < |s.threads|
    ensures Sound(c, Step(c, s, t))
    ensures |Step(c, s, t).threads| == |s.threads|
    ensures WordOnes(s.words) <= WordOnes(Step(c, s, t).words)
    ensures forall u :: 0 <= u < |s.threads| ==>
              && Step(c, s, t).threads[u].Adder? == s.threads[u].Adder?
              && Step(c, s, t).threads[u].item == s.threads[u].item
  {
    if !Finished(c, s.threads[t]) && s.threads[t].Adder? {
      FetchOrSetsOneBit(s.words, NextPos(c, s.threads[t]));
    }
  }

  lemma {:induction false} RunKeepsSound<K>(c: Config<K>, s: State<K>, schedule: seq<nat>)
    requires Sound(c, s) && ScheduleFor(s, schedule)
    ensures Sound(c, Run(c, s, schedule))
    ensures |Run(c, s, schedule).threads| == |s.threads|
    ensures WordOnes(s.words) <= WordOnes(Run(c, s, schedule).words)
    ensures forall u :: 0 <= u < |s.threads| ==>
              && Run(c, s, schedule).threads[u].Adder? == s.threads[u].Adder?
              && Run(c, s, schedule).threads[u].item == s.threads[u].item
    decreases |schedule|
  {
    if schedule != [] {
      StepKeepsSound(c, s, schedule[0]);
      RunKeepsSound(c, Step(c, s, schedule[0]), schedule[1..]);
    }
  }

  // ---------------------------------------------------------------------------------------------
  // The final bits do not depend on the interleaving

  /** The positions that the adders have set so far. */
  ghost function SetBy<K>(c: Config<K>, threads: seq<Thread<K>>): set<nat>
    requires c.keys != [] ==> c.numBits > 0
  {
    set t: nat, k: nat | t < |threads| && threads[t].Adder? && k < threads[t].next && k < |c.keys| ::
      Pos(c.hash, threads[t].item, c.keys[k], c.numBits)
  }

  lemma StepSets<K>(c: Config<K>, s: State<K>, t: nat, base: set<nat>)
    requires Sound(c, s) && t < |s.threads|
    requires WordOnes(s.words) == base + SetBy(c, s.threads)
    ensures WordOnes(Step(c, s, t).words) == base + SetBy(c, Step(c, s, t).threads)
  {
    var thread, s' := s.threads[t], Step(c, s, t);
    if Finished(c, thread) {
    } else if thread.Checker? {
      CheckerSetsNothing(c, s.threads, t, s'.threads[t]);
    } else {
      var p := NextPos(c, thread);
      FetchOrSetsOneBit(s.words, p);
      AdvanceSets(c, s.threads, t, s'.threads[t]);
    }
  }

  lemma CheckerSetsNothing<K>(c: Config<K>, threads: seq<Thread<K>>, t: nat, thread': Thread<K>)
    requires t < |threads| && threads[t].Checker? && thread'.Checker? && (c.keys != [] ==> c.numBits > 0)
    ensures SetBy(c, threads[t := thread']) == SetBy(c, threads)
  {
    var threads' := threads[t := thread'];
    forall p | p in SetBy(c, threads') ensures p in SetBy(c, threads) {
      var u: nat, k: nat :| u < |threads'| && threads'[u].Adder? && k < threads'[u].next && k < |c.keys|
                            && p == Pos(c.hash, threads'[u].item, c.keys[k], c.numBits);
      assert threads[u] == threads'[u];
    }
    forall p | p in SetBy(c, threads) ensures p in SetBy(c, threads') {
      var u: nat, k: nat :| u < |threads| && threads[u].Adder? && k < threads[u].next && k < |c.keys|
                            && p == Pos(c.hash, threads[u].item, c.keys[k], c.numBits);
      assert threads[u] == threads'[u];
    }
  }

  lemma AdvanceSets<K>(c: Config<K>, threads: seq<Thread<K>>, t: nat, thread': Thread<K>)
    requires t < |threads| && threads[t].Adder? && threads[t].next < |c.keys| && c.numBits > 0
    requires thread'.Adder? && thread'.item == threads[t].item && thread'.next == threads[t].next + 1
    ensures SetBy(c, threads[t := thread']) == SetBy(c, threads) + {NextPos(c, threads[t])}
  {
    var threads' := threads[t := thread'];
    forall p | p in SetBy(c, threads') ensures p in SetBy(c, threads) + {NextPos(c, threads[t])} {
      var u: nat, k: nat :| u < |threads'| && threads'[u].Adder? && k < threads'[u].next && k < |c.keys|
                            && p == Pos(c.hash, threads'[u].item, c.keys[k], c.numBits);
      if u != t || k < threads[t].next {
        assert u < |threads| && threads[u].Adder? && k < threads[u].next;
      }
    }
    forall p | p in SetBy(c, threads) ensures p in SetBy(c, threads') {
      var u: nat, k: nat :| u < |threads| && threads[u].Adder? && k < threads[u].next && k < |c.keys|
                            && p == Pos(c.hash, threads[u].item, c.keys[k], c.numBits);
      assert u < |threads'| && threads'[u].Adder? && k < threads'[u].next;
    }
    assert threads'[t].Adder? && threads[t].next < threads'[t].next;
    assert NextPos(c, threads[t]) in SetBy(c, threads');
  }

  lemma {:induction false} RunSets<K>(c: Config<K>, s: State<K>, schedule: seq<nat>, base: set<nat>)
    requires Sound(c, s) && ScheduleFor(s, schedule)
    requires WordOnes(s.words) == base + SetBy(c, s.threads)
    ensures WordOnes(Run(c, s, schedule).words) == base + SetBy(c, Run(c, s, schedule).threads)
    decreases |schedule|
  {
    if schedule != [] {
      StepSets(c, s, schedule[0], base);
      StepKeepsSound(c, s, schedule[0]);
      RunSets(c, Step(c, s, schedule[0]), schedule[1..], base);
    }
  }

  /** Adding the items one after the other. */
  ghost function SequentialAdds<K>(c: Config<K>, ones: set<nat>, items: seq<K>): set<nat>
    requires c.keys != [] ==> c.numBits > 0
    decreases |items|
  {
    if items == [] then ones
    else SequentialAdds(c, ones + Positions(c.hash, c.keys, c.numBits, items[0]), items[1..])
  }

  lemma {:induction false} SequentialAddsAre<K>(c: Config<K>, ones: set<nat>, items: seq<K>)
    requires c.keys != [] ==> c.numBits > 0
    ensures forall p :: p in SequentialAdds(c, ones, items) <==>
              p in ones || exists i :: 0 <= i < |items| && p in Positions(c.hash, c.keys, c.numBits, items[i])
    decreases |items|
  {
    if items != [] {
      var ones' := ones + Positions(c.hash, c.keys, c.numBits, items[0]);
      SequentialAddsAre(c, ones', items[1..]);
      forall p
        ensures p in SequentialAdds(c, ones, items) <==>
                p in ones || exists i :: 0 <= i < |items| && p in Positions(c.hash, c.keys, c.numBits, items[i])
      {
        if i :| 0 <= i < |items| && p in Positions(c.hash, c.keys, c.numBits, items[i]) {
          if i > 0 {
            assert items[1..][i - 1] == items[i];
          }
        }
        if i :| 0 <= i < |items[1..]| && p in Positions(c.hash, c.keys, c.numBits, items[1..][i]) {
          assert items[i + 1] == items[1..][i];
        }
      }
    }
  }

  ghost predicate Fresh<K>(s: State<K>) {
    forall t :: 0 <= t < |s.threads| ==> s.threads[t].next == 0
  }

  ghost predicate AllAdded<K>(c: Config<K>, s: State<K>) {
    forall t :: 0 <= t < |s.threads| && s.threads[t].Adder? ==> s.threads[t].next == |c.keys|
  }

  /** The items that the adders add, in some order and with any repetitions. */
  ghost predicate ListsTheAdded<K>(s: State<K>, items: seq<K>) {
    && (forall i :: 0 <= i < |items| ==> exists t :: 0 <= t < |s.threads| && s.threads[t].Adder? && s.threads[t].item == items[i])
    && (forall t :: 0 <= t < |s.threads| && s.threads[t].Adder? ==> s.threads[t].item in items)
  }

  /**
   Under every schedule that lets all the adders finish, the final bits are those of adding the same
   items sequentially, in any order.
   */
  lemma EveryInterleavingIsSequential<K>(c: Config<K>, s: State<K>, schedule: seq<nat>, items: seq<K>)
    requires Sound(c, s) && Fresh(s) && ScheduleFor(s, schedule)
    requires AllAdded(c, Run(c, s, schedule)) && ListsTheAdded(s, items)
    ensures WordOnes(Run(c, s, schedule).words) == SequentialAdds(c, WordOnes(s.words), items)
  {
    var end, ones := Run(c, s, schedule), WordOnes(s.words);
    RunKeepsSound(c, s, schedule);
    assert SetBy(c, s.threads) == {};
    RunSets(c, s, schedule, ones);
    SequentialAddsAre(c, ones, items);
    forall p | p in SetBy(c, end.threads) ensures p in SequentialAdds(c, ones, items) {
      var i := SetBySome(c, s, end, items, p);
    }
    forall p | p in SequentialAdds(c, ones, items) && p !in ones ensures p in SetBy(c, end.threads) {
      var i :| 0 <= i < |items| && p in Positions(c.hash, c.keys, c.numBits, items[i]);
      SetInTheEnd(c, s, end, items, i, p);
    }
  }

  ghost predicate SameThreads<K>(s: State<K>, end: State<K>) {
    && |end.threads| == |s.threads|
    && forall u :: 0 <= u < |s.threads| ==>
         end.threads[u].Adder? == s.threads[u].Adder? && end.threads[u].item == s.threads[u].item
  }

  lemma SetBySome<K>(c: Config<K>, s: State<K>, end: State<K>, items: seq<K>, p: nat) returns (i: nat)
    requires (c.keys != [] ==> c.numBits > 0) && SameThreads(s, end) && ListsTheAdded(s, items)
    requires p in SetBy(c, end.threads)
    ensures i < |items| && p in Positions(c.hash, c.keys, c.numBits, items[i])
  {
    var t: nat, k: nat :| t < |end.threads| && end.threads[t].Adder? && k < end.threads[t].next && k < |c.keys|
                          && p == Pos(c.hash, end.threads[t].item, c.keys[k], c.numBits);
    i :| 0 <= i < |items| && items[i] == s.threads[t].item;
  }

  lemma SetInTheEnd<K>(c: Config<K>, s: State<K>, end: State<K>, items: seq<K>, i: nat, p: nat)
    requires (c.keys != [] ==> c.numBits > 0) && SameThreads(s, end) && ListsTheAdded(s, items) && AllAdded(c, end)
    requires i < |items| && p in Positions(c.hash, c.keys, c.numBits, items[i])
    ensures p in SetBy(c, end.threads)
  {
    var k :| 0 <= k < |c.keys| && p == Pos(c.hash, items[i], c.keys[k], c.numBits);
    var t :| 0 <= t < |s.threads| && s.threads[t].Adder? && s.threads[t].item == items[i];
    assert end.threads[t].Adder? && end.threads[t].item == items[i] && k < end.threads[t].next;
  }

  // ---------------------------------------------------------------------------------------------
  // Who sees a bit change

  /** How often a trace saw position `p` at zero. */
  function ZeroSightings(events: seq<Event>, p: nat): nat {
    if events == [] then 0
    else (if events[0].pos == p && events[0].sawZero then 1 else 0) + ZeroSightings(events[1..], p)
  }

  lemma ZeroSightingsAfter(first: seq<Event>, rest: seq<Event>, p: nat)
    requires |first| <= 1
    ensures ZeroSightings(first + rest, p) == ZeroSightings(first, p) + ZeroSightings(rest, p)
  {
    if first != [] {
      assert (first + rest)[1..] == rest && first[1..] == [];
    } else {
      assert first + rest == rest;
    }
  }

  /** Each bit that goes from zero to one is seen as zero by exactly one step, and no other bit ever is. */
  lemma {:induction false} EachBitIsSeenChangingOnce<K>(c: Config<K>, s: State<K>, schedule: seq<nat>, p: nat)
    requires Sound(c, s) && ScheduleFor(s, schedule)
    ensures ZeroSightings(Trace(c, s, schedule), p) ==
            if p in WordOnes(Run(c, s, schedule).words) && p !in WordOnes(s.words) then 1 else 0
    decreases |schedule|
  {
    if schedule != [] {
      var t := schedule[0];
      var s' := Step(c, s, t);
      StepKeepsSound(c, s, t);
      EachBitIsSeenChangingOnce(c, s', schedule[1..], p);
      RunKeepsSound(c, s', schedule[1..]);
      ZeroSightingsAfter(StepEvents(c, s, t), Trace(c, s', schedule[1..]), p);
      if !Finished(c, s.threads[t]) && s.threads[t].Adder? {
        FetchOrSetsOneBit(s.words, NextPos(c, s.threads[t]));
        assert StepEvents(c, s, t)[1..] == [];
      }
    }
  }

  ghost predicate SawZero(events: seq<Event>, t: nat) {
    exists i :: 0 <= i < |events| && events[i].thread == t && events[i].sawZero
  }

  /** An adder answers true exactly if one of its own steps saw a zero. */
  lemma {:induction false} AnswerIsWhatWasSeen<K>(c: Config<K>, s: State<K>, schedule: seq<nat>, t: nat)
    requires Sound(c, s) && ScheduleFor(s, schedule) && t < |s.threads| && s.threads[t].Adder?
    ensures |Run(c, s, schedule).threads| == |s.threads| && Run(c, s, schedule).threads[t].Adder?
    ensures Run(c, s, schedule).threads[t].added <==> s.threads[t].added || SawZero(Trace(c, s, schedule), t)
    decreases |schedule|
  {
    if schedule != [] {
      var s' := Step(c, s, schedule[0]);
      StepKeepsSound(c, s, schedule[0]);
      AnswerIsWhatWasSeen(c, s', schedule[1..], t);
      var first, rest := StepEvents(c, s, schedule[0]), Trace(c, s', schedule[1..]);
      assert SawZero(first + rest, t) <==> SawZero(first, t) || SawZero(rest, t) by {
        SawZeroConcat(first, rest, t);
      }
      assert s'.threads[t].added <==> s.threads[t].added || SawZero(first, t) by {
        StepAnswers(c, s, schedule[0], t);
      }
    }
  }

  lemma StepAnswers<K>(c: Config<K>, s: State<K>, u: nat, t: nat)
    requires Sound(c, s) && u < |s.threads| && t < |s.threads| && s.threads[t].Adder?
    ensures Step(c, s, u).threads[t].Adder?
    ensures Step(c, s, u).threads[t].added <==> s.threads[t].added || SawZero(StepEvents(c, s, u), t)
  {
    var first := StepEvents(c, s, u);
    if first != [] {
      assert first[0].thread == u;
    }
  }

  lemma SawZeroConcat(a: seq<Event>, b: seq<Event>, t: nat)
    ensures SawZero(a + b, t) <==> SawZero(a, t) || SawZero(b, t)
  {
    if i :| 0 <= i < |a| && a[i].thread == t && a[i].sawZero {
      assert (a + b)[i] == a[i];
    }
    if i :| 0 <= i < |b| && b[i].thread == t && b[i].sawZero {
      assert (a + b)[|a| + i] == b[i];
    }
  }

  // ---------------------------------------------------------------------------------------------
  // A finished add is seen

  /** A checker for an item whose bits are all set finds every one of them. */
  lemma {:induction false} CheckerFindsSetBits<K>(c: Config<K>, s: State<K>, schedule: seq<nat>, k: nat)
    requires Sound(c, s) && ScheduleFor(s, schedule) && k < |s.threads|
    requires s.threads[k].Checker? && s.threads[k].found
    requires Positions(c.hash, c.keys, c.numBits, s.threads[k].item) <= WordOnes(s.words)
    ensures |Run(c, s, schedule).threads| == |s.threads| && Run(c, s, schedule).threads[k].Checker?
    ensures Run(c, s, schedule).threads[k].found
    decreases |schedule|
  {
    if schedule != [] {
      var s' := Step(c, s, schedule[0]);
      StepKeepsSound(c, s, schedule[0]);
      if schedule[0] == k && !Finished(c, s.threads[k]) {
        assert NextPos(c, s.threads[k]) in Positions(c.hash, c.keys, c.numBits, s.threads[k].item);
      }
      CheckerFindsSetBits(c, s', schedule[1..], k);
    }
  }

  /**
   Once an add has finished, every `contains` for its item that starts later answers true, whatever
   all the threads do in between and meanwhile.
   */
  lemma FinishedAddIsSeen<K>(c: Config<K>, s: State<K>, before: seq<nat>, after: seq<nat>, t: nat, k: nat)
    requires Sound(c, s) && Fresh(s) && ScheduleFor(s, before) && ScheduleFor(s, after)
    requires t < |s.threads| && k < |s.threads| && s.threads[t].Adder?
    requires var middle := Run(c, s, before);
             && |middle.threads| == |s.threads|
             && middle.threads[t].next == |c.keys|
             && middle.threads[k] == Checker(s.threads[t].item, 0, true)
    ensures var middle := Run(c, s, before);
            && Sound(c, middle) && ScheduleFor(middle, after)
            && |Run(c, middle, after).threads| == |s.threads|
            && Run(c, middle, after).threads[k].Checker? && Run(c, middle, after).threads[k].found
  {
    var middle := Run(c, s, before);
    RunKeepsSound(c, s, before);
    assert SetBy(c, s.threads) == {};
    RunSets(c, s, before, WordOnes(s.words));
    forall p | p in Positions(c.hash, c.keys, c.numBits, s.threads[t].item) ensures p in SetBy(c, middle.threads) {
      var i :| 0 <= i < |c.keys| && p == Pos(c.hash, s.threads[t].item, c.keys[i], c.numBits);
      assert middle.threads[t].Adder? && i < middle.threads[t].next;
    }
    CheckerFindsSetBits(c, middle, after, k);
  }

  // ---------------------------------------------------------------------------------------------
  // What a checker's answer means

  /**
   A checker that has found every bit so far has seen bits that are set; one that has not has missed a
   position of its item that was clear when it started, with the positions `base` set.
   */
  ghost predicate Checked<K>(c: Config<K>, s: State<K>, k: nat, base: set<nat>) {
    && Sound(c, s) && k < |s.threads| && s.threads[k].Checker? && base <= WordOnes(s.words)
    && var thread := s.threads[k];
    && (thread.found ==> Positions(c.hash, c.keys[..thread.next], c.numBits, thread.item) <= WordOnes(s.words))
    && (!thread.found ==> !(Positions(c.hash, c.keys, c.numBits, thread.item) <= base))
  }

  lemma StepKeepsChecked<K>(c: Config<K>, s: State<K>, t: nat, k: nat, base: set<nat>)
    requires Checked(c, s, k, base) && t < |s.threads|
    ensures Checked(c, Step(c, s, t), k, base)
  {
    StepKeepsSound(c, s, t);
    var thread := s.threads[k];
    if t == k && !Finished(c, thread) {
      PositionsStep(c.hash, c.keys, c.numBits, thread.item, thread.next);
      assert NextPos(c, thread) in Positions(c.hash, c.keys, c.numBits, thread.item);
    }
  }

  lemma {:induction false} RunKeepsChecked<K>(c: Config<K>, s: State<K>, schedule: seq<nat>, k: nat, base: set<nat>)
    requires Checked(c, s, k, base) && ScheduleFor(s, schedule)
    ensures Checked(c, Run(c, s, schedule), k, base)
    decreases |schedule|
  {
    if schedule != [] {
      StepKeepsSound(c, s, schedule[0]);
      StepKeepsChecked(c, s, schedule[0], k, base);
      RunKeepsChecked(c, Step(c, s, schedule[0]), schedule[1..], k, base);
    }
  }

  /**
   Under every interleaving: a `contains` that ends with true has all the positions of its item set at the
   end, and one that answers false had a position that was clear when it started.
   */
  lemma CheckerAnswers<K>(c: Config<K>, s: State<K>, schedule: seq<nat>, k: nat)
    requires Sound(c, s) && ScheduleFor(s, schedule) && k < |s.threads|
    requires s.threads[k] == Checker(s.threads[k].item, 0, true)
    ensures var end := Run(c, s, schedule);
            var positions := Positions(c.hash, c.keys, c.numBits, s.threads[k].item);
            && |end.threads| == |s.threads| && end.threads[k].Checker?
            && (end.threads[k].found && end.threads[k].next == |c.keys| ==> positions <= WordOnes(end.words))
            && (!end.threads[k].found ==> !(positions <= WordOnes(s.words)))
  {
    assert c.keys[..0] == [] && c.keys[..|c.keys|] == c.keys;
    RunKeepsChecked(c, s, schedule, k, WordOnes(s.words));
    RunKeepsSound(c, s, schedule);
  }

  lemma {:induction false} AloneGoesOn<K>(c: Config<K>, s: State<K>, k: nat, n: nat)
    requires Sound(c, s) && k < |s.threads| && s.threads[k].Checker? && s.threads[k].next + n == |c.keys|
    requires s.threads[k].found
    ensures ScheduleFor(s, seq(n, _ => k))
    ensures var end := Run(c, s, seq(n, _ => k));
            && end.words == s.words && |end.threads| == |s.threads| && end.threads[k].Checker?
            && (end.threads[k].found ==> end.threads[k].next == |c.keys|)
    decreases n
  {
    if n > 0 {
      var schedule := seq(n, _ => k);
      var s' := Step(c, s, k);
      StepKeepsSound(c, s, k);
      assert schedule[1..] == seq(n - 1, _ => k);
      if s'.threads[k].found {
        AloneGoesOn(c, s', k, n - 1);
      } else {
        StopsThere(c, s', k, n - 1);
      }
    }
  }

  lemma {:induction false} StopsThere<K>(c: Config<K>, s: State<K>, k: nat, n: nat)
    requires Sound(c, s) && k < |s.threads| && Finished(c, s.threads[k])
    ensures ScheduleFor(s, seq(n, _ => k)) && Run(c, s, seq(n, _ => k)) == s
    decreases n
  {
    if n > 0 {
      assert seq(n, _ => k)[1..] == seq(n - 1, _ => k);
      StopsThere(c, s, k, n - 1);
    }
  }

  /** Left alone, a checker ends and answers exactly what `AtomicBloom.Contains` does. */
  lemma CheckerAlone<K>(c: Config<K>, s: State<K>, k: nat)
    requires Sound(c, s) && k < |s.threads| && s.threads[k] == Checker(s.threads[k].item, 0, true)
    ensures ScheduleFor(s, seq(|c.keys|, _ => k))
    ensures var end := Run(c, s, seq(|c.keys|, _ => k));
            && |end.threads| == |s.threads| && end.threads[k].Checker? && Finished(c, end.threads[k])
            && (end.threads[k].found <==>
                  Positions(c.hash, c.keys, c.numBits, s.threads[k].item) <= WordOnes(s.words))
  {
    AloneGoesOn(c, s, k, |c.keys|);
    CheckerAnswers(c, s, seq(|c.keys|, _ => k), k);
  }
}
