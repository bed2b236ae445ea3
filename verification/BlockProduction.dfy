/** Block production statistics: slots and confirmed blocks are walked together, and counted per leader. */
module BlockProduction {
  import opened Arithmetic

  datatype SlotStatus = SlotStatus(slot: nat, leader: string, skipped: bool)

  datatype Entry = Entry(leaderSlots: nat, blocksProduced: nat, skippedSlots: nat)

  // ---------------------------------------------------------------------------------------------
  // Leaders

  /** One leader's address and the slot indexes given to it. */
  datatype Duty = Duty(leader: string, slots: seq<nat>)

  /** The last leader in the schedule, as it is walked through, that has the slot; "?" if none has. */
  function LeaderOf(schedule: seq<Duty>, slotIndex: nat): string {
    if schedule == [] then "?"
    else
      var last := schedule[|schedule| - 1];
      if slotIndex in last.slots then last.leader else LeaderOf(schedule[..|schedule| - 1], slotIndex)
  }

  /** Through the schedule: the last duty with the slot decides, and without one it is a question mark. */
  lemma {:induction false} LeaderIsLastDuty(schedule: seq<Duty>, slotIndex: nat)
    ensures (forall d :: 0 <= d < |schedule| ==> slotIndex !in schedule[d].slots) ==> LeaderOf(schedule, slotIndex) == "?"
    ensures forall d :: 0 <= d < |schedule| && IsLastDuty(schedule, slotIndex, d) ==>
              LeaderOf(schedule, slotIndex) == schedule[d].leader
  {
    if schedule != [] {
      var n := |schedule| - 1;
      var front := schedule[..n];
      LeaderIsLastDuty(front, slotIndex);
      forall d | 0 <= d < |schedule| && IsLastDuty(schedule, slotIndex, d)
        ensures LeaderOf(schedule, slotIndex) == schedule[d].leader
      {
        if d < n {
          assert slotIndex !in schedule[n].slots;
          assert IsLastDuty(front, slotIndex, d);
        }
      }
    }
  }

  ghost predicate IsLastDuty(schedule: seq<Duty>, slotIndex: nat, d: nat) {
    && d < |schedule| && slotIndex in schedule[d].slots
    && forall e :: d < e < |schedule| ==> slotIndex !in schedule[e].slots
  }

  /** Writes the leaders of a range of slots into a vector that starts out with question marks. */
  method LeaderPerSlot(schedule: seq<Duty>, startIndex: nat, endIndex: nat) returns (leaders: array<string>)
    requires startIndex <= endIndex
    ensures fresh(leaders) && leaders.Length == endIndex - startIndex + 1
    ensures forall i :: 0 <= i < leaders.Length ==> leaders[i] == LeaderOf(schedule, startIndex + i)
  {
    leaders := new string[endIndex - startIndex + 1](_ => "?");
    assert schedule[..0] == [];
    for d := 0 to |schedule|
      invariant forall i :: 0 <= i < leaders.Length ==> leaders[i] == LeaderOf(schedule[..d], startIndex + i)
    {
      var duty := schedule[d];
      ghost var was := leaders[..];
      for k := 0 to |duty.slots|
        invariant forall i :: 0 <= i < leaders.Length ==>
                    leaders[i] == if startIndex + i in duty.slots[..k] then duty.leader else was[i]
      {
        var slotIndex := duty.slots[k];
        if startIndex <= slotIndex <= endIndex {
          leaders[slotIndex - startIndex] := duty.leader;
        }
        assert duty.slots[..k + 1] == duty.slots[..k] + [slotIndex];
      }
      assert duty.slots[..|duty.slots|] == duty.slots;
      assert schedule[..d + 1][..d] == schedule[..d];
    }
    assert schedule[..|schedule|] == schedule;
  }

  // ---------------------------------------------------------------------------------------------
  // Counting

  ghost predicate Ascending(slots: seq<nat>) {
    forall i, j :: 0 <= i < j < |slots| ==> slots[i] <= slots[j]
  }

  ghost predicate StrictlyAscending(slots: seq<nat>) {
    forall i, j :: 0 <= i < j < |slots| ==> slots[i] < slots[j]
  }

  /** How many of the first `n` slots the leader has. */
  function SlotsOf(leaders: seq<string>, leader: string, n: nat): nat
    requires n <= |leaders|
  {
    if n == 0 then 0 else SlotsOf(leaders, leader, n - 1) + if leaders[n - 1] == leader then 1 else 0
  }

  lemma {:induction false} LeadsSome(leaders: seq<string>, leader: string, n: nat)
    requires n <= |leaders|
    ensures SlotsOf(leaders, leader, n) > 0 <==> leader in leaders[..n]
    ensures n == |leaders| ==> leaders[..n] == leaders
  {
    if n > 0 {
      LeadsSome(leaders, leader, n - 1);
      assert leaders[..n] == leaders[..n - 1] + [leaders[n - 1]];
    }
  }

  /** How many of those are not confirmed. */
  function SkippedOf(leaders: seq<string>, start: nat, confirmed: seq<nat>, leader: string, n: nat): (k: nat)
    requires n <= |leaders|
    ensures k <= SlotsOf(leaders, leader, n)
  {
    if n == 0 then 0
    else
      SkippedOf(leaders, start, confirmed, leader, n - 1)
      + if leaders[n - 1] == leader && start + (n - 1) !in confirmed then 1 else 0
  }

  ghost function SlotsLedBy(leaders: seq<string>, leader: string, n: nat): set<nat>
    requires n <= |leaders|
  {
    set i: nat | i < n && leaders[i] == leader
  }

  ghost function SlotsMissedBy(leaders: seq<string>, start: nat, confirmed: seq<nat>, leader: string, n: nat): set<nat>
    requires n <= |leaders|
  {
    set i: nat | i < n && leaders[i] == leader && start + i !in confirmed
  }

  /** A leader's slots are counted one by one. */
  lemma {:induction false} SlotsAreCounted(leaders: seq<string>, leader: string, n: nat)
    requires n <= |leaders|
    ensures SlotsOf(leaders, leader, n) == |SlotsLedBy(leaders, leader, n)|
    decreases n
  {
    if n > 0 {
      SlotsAreCounted(leaders, leader, n - 1);
      assert SlotsLedBy(leaders, leader, n) ==
             SlotsLedBy(leaders, leader, n - 1) + if leaders[n - 1] == leader then {n - 1} else {};
    }
  }

  /** So are those of them that are not confirmed. */
  lemma {:induction false} SkipsAreCounted(leaders: seq<string>, start: nat, confirmed: seq<nat>, leader: string, n: nat)
    requires n <= |leaders|
    ensures SkippedOf(leaders, start, confirmed, leader, n) == |SlotsMissedBy(leaders, start, confirmed, leader, n)|
    decreases n
  {
    if n > 0 {
      SkipsAreCounted(leaders, start, confirmed, leader, n - 1);
      var missed := leaders[n - 1] == leader && start + (n - 1) !in confirmed;
      assert SlotsMissedBy(leaders, start, confirmed, leader, n) ==
             SlotsMissedBy(leaders, start, confirmed, leader, n - 1) + if missed then {n - 1} else {};
    }
  }

  /** The counter of a leader, created with zero on first use. */
  function Counter(counts: map<string, nat>, leader: string): nat {
    if leader in counts then counts[leader] else 0
  }

  /**
   The two-pointer walk. For confirmed slots in ascending order, there is one status per slot, in
   order, marked skipped exactly if the slot is not confirmed, and the counters of every leader are its
   slots and its skipped slots.
   */
  method CountSlots(leaders: seq<string>, start: nat, confirmed: seq<nat>)
    returns (slotCount: map<string, nat>, skippedCount: map<string, nat>, statuses: seq<SlotStatus>)
    requires Ascending(confirmed)
    ensures |statuses| == |leaders|
    ensures forall i :: 0 <= i < |leaders| ==>
              statuses[i] == SlotStatus(start + i, leaders[i], start + i !in confirmed)
    ensures forall l :: (l in slotCount <==> l in leaders) && (l in skippedCount <==> l in leaders)
    ensures forall l :: l in leaders ==> slotCount[l] == SlotsOf(leaders, l, |leaders|)
    ensures forall l :: l in leaders ==> skippedCount[l] == SkippedOf(leaders, start, confirmed, l, |leaders|)
  {
    slotCount, skippedCount, statuses := map[], map[], [];
    var next := 0;
    for slotIndex := 0 to |leaders|
      invariant 0 <= next <= |confirmed| && |statuses| == slotIndex
      invariant forall k :: 0 <= k < next ==> confirmed[k] < start + slotIndex
      invariant forall i :: 0 <= i < slotIndex ==>
                  statuses[i] == SlotStatus(start + i, leaders[i], start + i !in confirmed)
      invariant slotCount.Keys == skippedCount.Keys
      invariant forall l :: l in slotCount <==> SlotsOf(leaders, l, slotIndex) > 0
      invariant forall l :: Counter(slotCount, l) == SlotsOf(leaders, l, slotIndex)
      invariant forall l :: Counter(skippedCount, l) == SkippedOf(leaders, start, confirmed, l, slotIndex)
    {
      var leader, slot := leaders[slotIndex], start + slotIndex;
      slotCount := slotCount[leader := Counter(slotCount, leader) + 1];
      var skippedSlots := Counter(skippedCount, leader);
      next := SkipBefore(confirmed, next, slot);
      var skipped := !(next < |confirmed| && confirmed[next] == slot);
      skippedCount := skippedCount[leader := if skipped then skippedSlots + 1 else skippedSlots];
      statuses := statuses + [SlotStatus(slot, leader, skipped)];
    }
    forall l ensures SlotsOf(leaders, l, |leaders|) > 0 <==> l in leaders {
      LeadsSome(leaders, l, |leaders|);
    }
  }

  /** Advances over the confirmed slots before `slot`. */
  method SkipBefore(confirmed: seq<nat>, from: nat, slot: nat) returns (next: nat)
    requires Ascending(confirmed) && from <= |confirmed| && forall k :: 0 <= k < from ==> confirmed[k] < slot
    ensures from <= next <= |confirmed|
    ensures forall k :: 0 <= k < next ==> confirmed[k] < slot
    ensures slot in confirmed <==> next < |confirmed| && confirmed[next] == slot
  {
    next := from;
    while next < |confirmed| && confirmed[next] < slot
      invariant from <= next <= |confirmed| && forall k :: 0 <= k < next ==> confirmed[k] < slot
    {
      next := next + 1;
    }
  }

  // ---------------------------------------------------------------------------------------------
  // Sums over leaders

  ghost function SumBy(keys: set<string>, f: string -> nat): nat
    decreases |keys|
  {
    if keys == {} then 0
    else
      var k :| k in keys;
      f(k) + SumBy(keys - {k}, f)
  }

  lemma {:induction false} SumByExtract(keys: set<string>, f: string -> nat, x: string)
    requires x in keys
    ensures SumBy(keys, f) == f(x) + SumBy(keys - {x}, f)
    decreases |keys|
  {
    var k :| k in keys && SumBy(keys, f) == f(k) + SumBy(keys - {k}, f);
    if k != x {
      SumByExtract(keys - {k}, f, x);
      SumByExtract(keys - {x}, f, k);
      assert keys - {k} - {x} == keys - {x} - {k};
    }
  }

  lemma {:induction false} SumByEqual(keys: set<string>, f: string -> nat, g: string -> nat)
    requires forall k :: k in keys ==> f(k) == g(k)
    ensures SumBy(keys, f) == SumBy(keys, g)
    decreases |keys|
  {
    if keys != {} {
      var k :| k in keys;
      SumByExtract(keys, f, k);
      SumByExtract(keys, g, k);
      SumByEqual(keys - {k}, f, g);
    }
  }

  /** One counter is higher by `d`, the rest is the same. */
  lemma SumByBump(keys: set<string>, f: string -> nat, g: string -> nat, x: string, d: nat)
    requires x in keys && g(x) == f(x) + d && forall k :: k in keys && k != x ==> g(k) == f(k)
    ensures SumBy(keys, g) == SumBy(keys, f) + d
  {
    SumByExtract(keys, f, x);
    SumByExtract(keys, g, x);
    SumByEqual(keys - {x}, f, g);
  }

  lemma {:induction false} SumByZero(keys: set<string>, f: string -> nat)
    requires forall k :: k in keys ==> f(k) == 0
    ensures SumBy(keys, f) == 0
    decreases |keys|
  {
    if keys != {} {
      var k :| k in keys;
      SumByExtract(keys, f, k);
      SumByZero(keys - {k}, f);
    }
  }

  ghost function SlotCounter(leaders: seq<string>, n: nat): string -> nat
    requires n <= |leaders|
  {
    l => SlotsOf(leaders, l, n)
  }

  ghost function SkipCounter(leaders: seq<string>, start: nat, confirmed: seq<nat>, n: nat): string -> nat
    requires n <= |leaders|
  {
    l => SkippedOf(leaders, start, confirmed, l, n)
  }

  /** The slots of all the leaders are all the slots. */
  lemma {:induction false} SlotsSum(leaders: seq<string>, keys: set<string>, n: nat)
    requires n <= |leaders| && forall i :: 0 <= i < n ==> leaders[i] in keys
    ensures SumBy(keys, SlotCounter(leaders, n)) == n
    decreases n
  {
    if n == 0 {
      SumByZero(keys, SlotCounter(leaders, 0));
    } else {
      SlotsSum(leaders, keys, n - 1);
      SumByBump(keys, SlotCounter(leaders, n - 1), SlotCounter(leaders, n), leaders[n - 1], 1);
    }
  }

  predicate IsConfirmed(start: nat, confirmed: seq<nat>, i: nat) {
    start + i in confirmed
  }

  /** How many of the first `n` slots are not confirmed. */
  function SkippedCount(start: nat, confirmed: seq<nat>, n: nat): nat {
    if n == 0 then 0
    else SkippedCount(start, confirmed, n - 1) + if IsConfirmed(start, confirmed, n - 1) then 0 else 1
  }

  /** The skipped slots of all the leaders are all the slots that are not confirmed. */
  lemma {:induction false} SkippedSum(leaders: seq<string>, start: nat, confirmed: seq<nat>, keys: set<string>, n: nat)
    requires n <= |leaders| && forall i :: 0 <= i < n ==> leaders[i] in keys
    ensures SumBy(keys, SkipCounter(leaders, start, confirmed, n)) == SkippedCount(start, confirmed, n)
    decreases n
  {
    if n == 0 {
      SumByZero(keys, SkipCounter(leaders, start, confirmed, 0));
    } else {
      SkippedSum(leaders, start, confirmed, keys, n - 1);
      SumByBump(keys, SkipCounter(leaders, start, confirmed, n - 1), SkipCounter(leaders, start, confirmed, n),
                leaders[n - 1], if IsConfirmed(start, confirmed, n - 1) then 0 else 1);
    }
  }

  // ---------------------------------------------------------------------------------------------
  // Totals

  ghost predicate InRange(confirmed: seq<nat>, start: nat, n: nat) {
    forall k :: 0 <= k < |confirmed| ==> start <= confirmed[k] < start + n
  }

  ghost function ConfirmedSlots(start: nat, confirmed: seq<nat>, n: nat): set<nat> {
    set i: nat | i < n && IsConfirmed(start, confirmed, i)
  }

  lemma {:induction false} ConfirmedAndSkipped(start: nat, confirmed: seq<nat>, n: nat)
    ensures |ConfirmedSlots(start, confirmed, n)| + SkippedCount(start, confirmed, n) == n
  {
    if n == 0 {
      assert ConfirmedSlots(start, confirmed, n) == {};
    } else {
      ConfirmedAndSkipped(start, confirmed, n - 1);
      assert ConfirmedSlots(start, confirmed, n) ==
             ConfirmedSlots(start, confirmed, n - 1) + if IsConfirmed(start, confirmed, n - 1) then {n - 1} else {};
    }
  }

  /** The confirmed slots that lie in the range. */
  ghost function SlotsInRange(start: nat, confirmed: seq<nat>, n: nat): set<nat> {
    set s | s in confirmed && start <= s < start + n
  }

  lemma ConfirmedAreInRange(start: nat, confirmed: seq<nat>, n: nat)
    ensures |ConfirmedSlots(start, confirmed, n)| == |SlotsInRange(start, confirmed, n)|
  {
    var indexes, slots := ConfirmedSlots(start, confirmed, n), SlotsInRange(start, confirmed, n);
    var slotAt: nat -> nat := i => start + i;
    forall i | i in indexes ensures slotAt(i) in slots {
      assert IsConfirmed(start, confirmed, i);
    }
    forall s | s in slots ensures exists i :: i in indexes && slotAt(i) == s {
      assert IsConfirmed(start, confirmed, s - start);
      assert s - start in indexes && slotAt(s - start) == s;
    }
    InjectiveImageSize(indexes, slotAt, slots);
  }

  /**
   The number of skipped slots that is shown agrees with what the walk counts exactly if the confirmed
   slots are strictly ascending and all in the range.
   */
  lemma TotalsAgreeIff(start: nat, confirmed: seq<nat>, n: nat)
    requires Ascending(confirmed)
    ensures SkippedCount(start, confirmed, n) + |confirmed| == n <==>
            StrictlyAscending(confirmed) && InRange(confirmed, start, n)
  {
    var all, slots := (set s | s in confirmed), SlotsInRange(start, confirmed, n);
    ConfirmedAndSkipped(start, confirmed, n);
    ConfirmedAreInRange(start, confirmed, n);
    DistinctIffFullSize(confirmed);
    SubsetSize(slots, all);
    assert StrictlyAscending(confirmed) <==> NoDuplicates(confirmed);
    if InRange(confirmed, start, n) {
      assert slots == all;
    } else {
      var k :| 0 <= k < |confirmed| && !(start <= confirmed[k] < start + n);
      assert confirmed[k] in all && confirmed[k] !in slots;
      SubsetSize(slots, all - {confirmed[k]});
    }
  }

  /** The slots of a range that a slot history has found. */
  method ConfirmedBlocks(start: nat, end: nat, found: nat -> bool) returns (confirmed: seq<nat>)
    requires start <= end
    ensures StrictlyAscending(confirmed) && InRange(confirmed, start, end - start + 1)
    ensures forall s :: s in confirmed <==> start <= s <= end && found(s)
  {
    confirmed := [];
    for slot := start to end + 1
      invariant StrictlyAscending(confirmed)
      invariant forall k :: 0 <= k < |confirmed| ==> start <= confirmed[k] < slot
      invariant forall s :: s in confirmed <==> start <= s < slot && found(s)
    {
      if found(slot) {
        confirmed := confirmed + [slot];
      }
    }
  }

  /** The table that is shown: one entry per leader. */
  function Entries(slotCount: map<string, nat>, skippedCount: map<string, nat>): map<string, Entry>
    requires slotCount.Keys == skippedCount.Keys
    requires forall l :: l in slotCount ==> skippedCount[l] <= slotCount[l]
  {
    map l | l in slotCount :: Entry(slotCount[l], slotCount[l] - skippedCount[l], skippedCount[l])
  }

  datatype Column = Slots | Skipped | Blocks

  function Field(e: Entry, column: Column): nat {
    match column
    case Slots => e.leaderSlots
    case Skipped => e.skippedSlots
    case Blocks => e.blocksProduced
  }

  ghost function FieldOf(entries: map<string, Entry>, column: Column): string -> nat {
    l => if l in entries then Field(entries[l], column) else 0
  }

  /** The sum of a column over all the leaders. */
  ghost function Total(entries: map<string, Entry>, column: Column): nat {
    SumBy(entries.Keys, FieldOf(entries, column))
  }

  /**
   No subtraction underflows, and the slots of the leaders add up to all the slots. The skipped slots and
   the blocks of the leaders add up to the other two totals exactly if the confirmed slots are distinct
   and lie in the range.
   */
  method ShowBlockProduction(leaders: seq<string>, start: nat, confirmed: seq<nat>)
    returns (entries: map<string, Entry>, statuses: seq<SlotStatus>, totalSlots: nat, totalBlocks: nat, totalSkipped: nat)
    requires Ascending(confirmed) && |confirmed| <= |leaders|
    ensures totalSlots == |leaders| && totalBlocks == |confirmed| && totalBlocks + totalSkipped == totalSlots
    ensures |statuses| == totalSlots
    ensures forall i :: 0 <= i < |leaders| ==>
              statuses[i] == SlotStatus(start + i, leaders[i], start + i !in confirmed)
    ensures forall l :: l in entries <==> l in leaders
    ensures forall l :: l in entries ==>
              entries[l].leaderSlots == SlotsOf(leaders, l, |leaders|)
              && entries[l].skippedSlots == SkippedOf(leaders, start, confirmed, l, |leaders|)
              && entries[l].blocksProduced + entries[l].skippedSlots == entries[l].leaderSlots
    ensures Total(entries, Slots) == totalSlots
    ensures Total(entries, Skipped) == totalSkipped <==>
              StrictlyAscending(confirmed) && InRange(confirmed, start, |leaders|)
    ensures Total(entries, Blocks) == totalBlocks <==>
              StrictlyAscending(confirmed) && InRange(confirmed, start, |leaders|)
  {
    totalSlots, totalBlocks := |leaders|, |confirmed|;
    totalSkipped := totalSlots - totalBlocks;
    var slotCount, skippedCount;
    slotCount, skippedCount, statuses := CountSlots(leaders, start, confirmed);
    assert slotCount.Keys == skippedCount.Keys;
    entries := Entries(slotCount, skippedCount);
    TotalsAddUp(leaders, start, confirmed, entries);
    TotalsAgreeIff(start, confirmed, |leaders|);
  }

  /**
   The report for slots that the slot history covers: the confirmed slots come from the history and the
   leaders from the schedule of the epoch. All three totals agree with their columns, always.
   */
  method ReportFromHistory(schedule: seq<Duty>, firstInEpoch: nat, start: nat, end: nat, found: nat -> bool)
    returns (entries: map<string, Entry>, statuses: seq<SlotStatus>, totalSlots: nat, totalBlocks: nat, totalSkipped: nat)
    requires firstInEpoch <= start <= end
    ensures |statuses| == totalSlots == end - start + 1
    ensures forall i :: 0 <= i < totalSlots ==>
              statuses[i] == SlotStatus(start + i, LeaderOf(schedule, start - firstInEpoch + i), !found(start + i))
    ensures forall l :: l in entries <==> exists i :: 0 <= i < totalSlots && statuses[i].leader == l
    ensures totalBlocks + totalSkipped == totalSlots
    ensures Total(entries, Slots) == totalSlots
    ensures Total(entries, Skipped) == totalSkipped
    ensures Total(entries, Blocks) == totalBlocks
  {
    var confirmed := ConfirmedBlocks(start, end, found);
    var leaders := LeaderPerSlot(schedule, start - firstInEpoch, end - firstInEpoch);
    TotalsAgreeIff(start, confirmed, leaders.Length);
    entries, statuses, totalSlots, totalBlocks, totalSkipped := ShowBlockProduction(leaders[..], start, confirmed);
  }

  lemma TotalsAddUp(leaders: seq<string>, start: nat, confirmed: seq<nat>, entries: map<string, Entry>)
    requires forall l :: l in entries <==> l in leaders
    requires forall l :: l in entries ==>
               entries[l].leaderSlots == SlotsOf(leaders, l, |leaders|)
               && entries[l].skippedSlots == SkippedOf(leaders, start, confirmed, l, |leaders|)
               && entries[l].blocksProduced + entries[l].skippedSlots == entries[l].leaderSlots
    ensures Total(entries, Slots) == |leaders|
    ensures Total(entries, Skipped) == SkippedCount(start, confirmed, |leaders|)
    ensures Total(entries, Blocks) + Total(entries, Skipped) == |leaders|
  {
    var n, keys := |leaders|, entries.Keys;
    SumByEqual(keys, FieldOf(entries, Slots), SlotCounter(leaders, n));
    SumByEqual(keys, FieldOf(entries, Skipped), SkipCounter(leaders, start, confirmed, n));
    SlotsSum(leaders, keys, n);
    SkippedSum(leaders, start, confirmed, keys, n);
    SumBySplit(keys, FieldOf(entries, Blocks), FieldOf(entries, Skipped), FieldOf(entries, Slots));
  }

  lemma {:induction false} SumBySplit(keys: set<string>, f: string -> nat, g: string -> nat, h: string -> nat)
    requires forall k :: k in keys ==> f(k) + g(k) == h(k)
    ensures SumBy(keys, f) + SumBy(keys, g) == SumBy(keys, h)
    decreases |keys|
  {
    if keys != {} {
      var k :| k in keys;
      SumByExtract(keys, f, k);
      SumByExtract(keys, g, k);
      SumByExtract(keys, h, k);
      SumBySplit(keys - {k}, f, g, h);
    }
  }
}
