/**
 The insert counter of the key-value cache as a capacity gate: when it keeps the cache within its maximum, how far
 it can fail, and when it makes an eviction meet an empty list.
 */
module KaiCacheCapacity {
  import opened Common
  import opened KaiCacheModel
  import opened Keys

  // ----- the insert counter as a capacity gate

  /** The number of entries when the statistics were last reset: what the counter does not know of. */
  function Uncounted(max: nat, ops: seq<Op>): nat {
    if ops == [] then 0
    else if ops[|ops| - 1].ResetStats? then |Run(max, ops).recs|
    else Uncounted(max, ops[..|ops| - 1])
  }

  lemma {:induction false} CountInvariant(max: nat, ops: seq<Op>)
    requires max > 0
    ensures |Run(max, ops).recs| <= Uncounted(max, ops) + Run(max, ops).stats.inserts
    ensures |Run(max, ops).recs| <= Uncounted(max, ops) + max
  {
    if ops != [] {
      var before := ops[..|ops| - 1];
      CountInvariant(max, before);
      var op := ops[|ops| - 1];
      if op.FlushExpired? {
        UnexpiredLength(Run(max, before).recs, op.now);
      }
    }
  }

  lemma {:induction false} UncountedBound(max: nat, ops: seq<Op>)
    requires max > 0
    ensures Uncounted(max, ops) <= max * Resets(ops)
  {
    if ops != [] {
      var before := ops[..|ops| - 1];
      UncountedBound(max, before);
      CountInvariant(max, before);
      assert max * (Resets(before) + 1) == max * Resets(before) + max;
    }
  }

  /**
   The entries number at most max times one more than the resets of the statistics. So without a
   reset they never exceed the maximum, nor the insert counter.
   */
  lemma CapacityBound(max: nat, ops: seq<Op>)
    requires max > 0
    ensures |Run(max, ops).recs| <= max * (Resets(ops) + 1)
    ensures Resets(ops) == 0 ==> |Run(max, ops).recs| <= max
    ensures Resets(ops) == 0 ==> |Run(max, ops).recs| <= Run(max, ops).stats.inserts
  {
    CountInvariant(max, ops);
    UncountedBound(max, ops);
  }

  /** The smallest instance: one reset lets a cache of maximum 1 hold two entries. */
  lemma ResetOverfills()
    ensures var ops := [Put("a", [1], 0, 0, true, true), ResetStats, Put("b", [2], 0, 0, true, true)];
            |Run(1, ops).recs| == 2
  {
    var p1, p2 := Put("a", [1], 0, 0, true, true), Put("b", [2], 0, 0, true, true);
    assert [p1, ResetStats, p2][..2] == [p1, ResetStats];
    assert [p1, ResetStats][..1] == [p1];
    assert [p1][..0] == [];
    var ra := Record("a", [1], 0, 0, 0, true, 0);
    assert Run(1, [p1]).recs == [ra];
    assert Run(1, [p1, ResetStats]) == State([ra], NO_STATS);
  }

  // ----- runs from any state

  function RunFrom(s: State, max: nat, ops: seq<Op>): State {
    if ops == [] then s else Step(RunFrom(s, max, ops[..|ops| - 1]), max, ops[|ops| - 1]).0
  }

  lemma {:induction false} RunIsFromEmpty(max: nat, ops: seq<Op>)
    ensures Run(max, ops) == RunFrom(EMPTY, max, ops)
  {
    if ops != [] {
      RunIsFromEmpty(max, ops[..|ops| - 1]);
    }
  }

  lemma {:induction false} RunFromAppend(s: State, max: nat, a: seq<Op>, b: seq<Op>)
    ensures RunFrom(s, max, a + b) == RunFrom(RunFrom(s, max, a), max, b)
  {
    if b == [] {
      assert a + b == a;
    } else {
      assert (a + b)[..|a + b| - 1] == a + b[..|b| - 1];
      RunFromAppend(s, max, a, b[..|b| - 1]);
    }
  }

  /** Operations without a reset of the statistics, on keys that the program stores in full. */
  predicate Ordinary(ops: seq<Op>) {
    StoredInFull(ops) && forall i :: 0 <= i < |ops| ==> !ops[i].ResetStats?
  }

  lemma {:induction false} ResetsAppend(a: seq<Op>, b: seq<Op>)
    ensures Resets(a + b) == Resets(a) + Resets(b)
    ensures Ordinary(b) ==> Resets(b) == 0
  {
    if b == [] {
      assert a + b == a;
    } else {
      assert (a + b)[..|a + b| - 1] == a + b[..|b| - 1];
      ResetsAppend(a, b[..|b| - 1]);
    }
  }

  // ----- runs to any number of entries

  /** Of the first |recs| + 1 keys one is not cached. */
  lemma {:induction false} FreshKey(recs: seq<Record>, most: nat) returns (n: nat)
    requires |recs| <= most < KEYS
    ensures n <= most && !HasKey(recs, Key(n))
    decreases most
  {
    n := most;
    if HasKey(recs, Key(most)) {
      var k: nat :| k < |recs| && recs[k].key == Key(most);
      var rest := RemoveAt(recs, k);
      n := FreshKey(rest, most - 1);
      KeysDiffer(n, most);
      forall i | 0 <= i < |recs|
        ensures recs[i].key != Key(n)
      {
        if i != k {
          assert rest[if i < k then i else i - 1] == recs[i];
        }
      }
    }
  }

  function FreshPut(key: string): Op {
    Put(key, [1], 0, 0, true, true)
  }

  /** Putting a new key: one eviction if the gate is closed, then one entry and one count more. */
  lemma PutFresh(s: State, max: nat) returns (op: Op)
    requires |s.recs| < KEYS
    ensures Ordinary([op])
    ensures var s' := Step(s, max, op).0;
            && s'.stats.inserts == s.stats.inserts + 1
            && |s'.recs| == if GateClosed(s.stats.inserts, max) && s.recs != [] then |s.recs| else |s.recs| + 1
  {
    var n := FreshKey(s.recs, |s.recs|);
    op := FreshPut(Key(n));
    assert Find(s.recs, Key(n)) == -1;
  }

  lemma RunFromOne(s: State, max: nat, op: Op, ops: seq<Op>)
    ensures RunFrom(s, max, [op] + ops) == RunFrom(Step(s, max, op).0, max, ops)
  {
    RunFromAppend(s, max, [op], ops);
    assert [op][..0] == [];
    assert RunFrom(s, max, [op]) == Step(s, max, op).0;
  }

  /** New keys fill the cache until the counter reaches the maximum, however many entries there were. */
  lemma {:induction false} Fill(s: State, max: nat) returns (ops: seq<Op>)
    requires 0 <= s.stats.inserts <= max && |s.recs| + (max - s.stats.inserts) <= KEYS
    ensures Ordinary(ops)
    ensures |RunFrom(s, max, ops).recs| == |s.recs| + (max - s.stats.inserts)
    ensures RunFrom(s, max, ops).stats.inserts == max
    decreases max - s.stats.inserts
  {
    ops := [];
    if s.stats.inserts < max {
      var op := PutFresh(s, max);
      var rest := Fill(Step(s, max, op).0, max);
      RunFromOne(s, max, op, rest);
      ops := [op] + rest;
    }
  }

  // ----- main results

  lemma {:induction false} StaysWithin(s: State, max: nat, ops: seq<Op>)
    requires max > 0 && |s.recs| <= max && |s.recs| <= s.stats.inserts && Ordinary(ops)
    ensures |RunFrom(s, max, ops).recs| <= max && |RunFrom(s, max, ops).recs| <= RunFrom(s, max, ops).stats.inserts
  {
    if ops != [] {
      var before, op := ops[..|ops| - 1], ops[|ops| - 1];
      StaysWithin(s, max, before);
      if op.FlushExpired? {
        UnexpiredLength(RunFrom(s, max, before).recs, op.now);
      }
    }
  }

  /** With fewer counted inserts than entries, new keys alone overfill the cache. */
  lemma {:induction false} Overfills(s: State, max: nat) returns (ops: seq<Op>)
    requires 0 < max < 0x1_0000_0000 && s.stats.inserts < |s.recs| <= max
    ensures Ordinary(ops) && |RunFrom(s, max, ops).recs| > max
    decreases max - s.stats.inserts
  {
    if s.stats.inserts < 0 {
      var op := PutFresh(s, max);
      var rest := Overfills(Step(s, max, op).0, max);
      RunFromOne(s, max, op, rest);
      ops := [op] + rest;
    } else {
      ops := Fill(s, max);
    }
  }

  ghost predicate NeverOverfills(s: State, max: nat) {
    forall ops :: Ordinary(ops) ==> |RunFrom(s, max, ops).recs| <= max
  }

  /**
   From any state within the maximum, no run without a reset of the statistics ever exceeds it if and only if the
   counter is at least the number of entries. The maximum is a 32-bit number.
   */
  lemma CapacityExactly(s: State, max: nat)
    requires 0 < max < 0x1_0000_0000 && |s.recs| <= max
    ensures NeverOverfills(s, max) <==> |s.recs| <= s.stats.inserts
  {
    if |s.recs| <= s.stats.inserts {
      forall ops | Ordinary(ops)
        ensures |RunFrom(s, max, ops).recs| <= max
      {
        StaysWithin(s, max, ops);
      }
    } else {
      var ops := Overfills(s, max);
    }
  }

  /** So a reset of the statistics lets the cache overfill if and only if it was not empty. */
  lemma ResetOverfillsExactly(s: State, max: nat)
    requires 0 < max < 0x1_0000_0000 && |s.recs| <= max
    ensures NeverOverfills(Step(s, max, ResetStats).0, max) <==> s.recs == []
  {
    CapacityExactly(Step(s, max, ResetStats).0, max);
  }

  /** A run that leaves a counter of 0 goes on to as many entries more as the maximum. */
  lemma FillAfter(max: nat, before: seq<Op>) returns (ops: seq<Op>)
    requires Run(max, before).stats.inserts == 0 && |Run(max, before).recs| + max <= KEYS
    ensures Resets(ops) == Resets(before) && |Run(max, ops).recs| == |Run(max, before).recs| + max
  {
    var more := Fill(Run(max, before), max);
    ops := before + more;
    RunIsFromEmpty(max, before);
    RunIsFromEmpty(max, ops);
    RunFromAppend(EMPTY, max, before, more);
    ResetsAppend(before, more);
  }

  lemma ResetLast(max: nat, ops: seq<Op>)
    ensures Resets(ops + [ResetStats]) == Resets(ops) + 1
    ensures Run(max, ops + [ResetStats]) == State(Run(max, ops).recs, NO_STATS)
  {
    assert (ops + [ResetStats])[..|ops|] == ops;
  }

  /** The bound of CapacityBound is attained for every maximum and every number of resets. */
  lemma {:induction false} BoundAttained(max: nat, resets: nat) returns (ops: seq<Op>)
    requires max > 0 && max * (resets + 1) <= KEYS
    ensures Resets(ops) == resets && |Run(max, ops).recs| == max * (resets + 1)
    decreases resets
  {
    if resets == 0 {
      ops := FillAfter(max, []);
    } else {
      assert max * (resets + 1) == max * resets + max;
      var filled := BoundAttained(max, resets - 1);
      ResetLast(max, filled);
      ops := FillAfter(max, filled + [ResetStats]);
    }
  }

  // ----- evictions that meet an empty list

  /** A put gets as far as taking the tail of the list. */
  predicate Evicts(s: State, max: nat, op: Op) {
    op.Put? && op.data != [] && op.dataOk && Find(s.recs, op.key) == -1 && GateClosed(s.stats.inserts, max)
  }

  ghost predicate NeverMeetsEmptyList(s: State, max: nat) {
    forall ops, op :: Ordinary(ops) && Evicts(RunFrom(s, max, ops), max, op) ==> RunFrom(s, max, ops).recs != []
  }

  lemma {:induction false} Repeated(s: State, max: nat, put: Op, n: nat) returns (ops: seq<Op>)
    requires put == FreshPut(Key(0)) && Find(s.recs, put.key) == 0 && |s.recs| == 1
    ensures Ordinary(ops)
    ensures var s' := RunFrom(s, max, ops);
            Find(s'.recs, put.key) == 0 && |s'.recs| == 1 && s'.stats.inserts == s.stats.inserts + n
    decreases n
  {
    ops := [];
    if n > 0 {
      var s1 := Step(s, max, put).0;
      assert s1.recs[0].key == put.key;
      var rest := Repeated(s1, max, put, n - 1);
      RunFromOne(s, max, put, rest);
      ops := [put] + rest;
    }
  }

  /** One entry, put over and over and then removed, leaves what has been counted. */
  lemma RepeatedAndRemoved(s: State, max: nat, put: Op, n: nat) returns (ops: seq<Op>)
    requires put == FreshPut(Key(0)) && Find(s.recs, put.key) == 0 && |s.recs| == 1
    ensures Ordinary(ops)
    ensures RunFrom(s, max, ops).recs == [] && RunFrom(s, max, ops).stats.inserts == s.stats.inserts + n - 1
  {
    var more := Repeated(s, max, put, n);
    ops := more + [Remove(put.key)];
    assert ops[..|more|] == more;
  }

  /**
   A put of a new key meets an empty list exactly if there is no entry and the counter, as an unsigned number, is at
   least the maximum; it then adds its entry and counts no eviction, if the program's test is read as one for this.
   */
  lemma EvictionMeetsEmptyList(s: State, max: nat, op: Op)
    requires op.Put? && op.data != [] && op.dataOk && s.recs == []
    ensures Evicts(s, max, op) <==> s.stats.inserts < 0 || s.stats.inserts >= max
    ensures Step(s, max, op).0.stats.evictions == s.stats.evictions
    ensures |Step(s, max, op).0.recs| == if op.entryOk then 1 else 0
  {
  }

  /**
   Any cache, whatever its maximum and its state, can be brought to where a put evicts from an empty list: flush it,
   put one key once more often than the maximum, and remove it. EvictionMeetsEmptyList says when this happens.
   */
  lemma EveryCacheMeetsEmptyList(s: State, max: nat)
    ensures !NeverMeetsEmptyList(s, max)
  {
    var put := FreshPut(Key(0));
    var flushed := Step(s, max, Flush).0;
    var one := Step(flushed, max, put).0;
    assert one.recs[0].key == put.key;
    var more := RepeatedAndRemoved(one, max, put, max);
    RunFromOne(flushed, max, put, more);
    RunFromOne(s, max, Flush, [put] + more);
    assert Evicts(RunFrom(s, max, [Flush] + ([put] + more)), max, put);
  }

  // ----- evictions with room left

  /** A put only evicts an entry when the cache is full. */
  ghost predicate EvictsOnlyWhenFull(s: State, max: nat) {
    forall ops, op ::
      Ordinary(ops) && Evicts(RunFrom(s, max, ops), max, op) && RunFrom(s, max, ops).recs != [] ==>
        |RunFrom(s, max, ops).recs| >= max
  }

  /** A run to one entry, with the gate closed: flush, and put one key as often as the maximum. */
  lemma OneEntryGateClosed(s: State, max: nat) returns (ops: seq<Op>)
    requires max > 0
    ensures Ordinary(ops)
    ensures |RunFrom(s, max, ops).recs| == 1 && RunFrom(s, max, ops).recs[0].key == Key(0)
    ensures RunFrom(s, max, ops).stats.inserts == max
  {
    var put := FreshPut(Key(0));
    var flushed := Step(s, max, Flush).0;
    var one := Step(flushed, max, put).0;
    assert one.recs[0].key == put.key;
    var more := Repeated(one, max, put, max - 1);
    ops := [Flush] + ([put] + more);
    RunFromOne(flushed, max, put, more);
    RunFromOne(s, max, Flush, [put] + more);
  }

  /**
   Since updates are counted as inserts, a cache evicts with room left, from whatever state it starts: for every
   maximum but 1, where an entry that is there fills the cache.
   */
  lemma EvictsEarlyExactly(s: State, max: nat)
    ensures EvictsOnlyWhenFull(s, max) <==> max <= 1
  {
    if max > 1 {
      var ops := OneEntryGateClosed(s, max);
      var put := FreshPut(Key(1));
      KeysDiffer(0, 1);
      assert Find(RunFrom(s, max, ops).recs, put.key) == -1;
      assert Evicts(RunFrom(s, max, ops), max, put);
    }
  }

  /** The smallest instance: after an update a half-empty cache evicts its only entry for a new key. */
  lemma UpdateEvictsEarly()
    ensures var put := Put("a", [1], 0, 0, true, true);
            var ops := [put, put, Put("b", [2], 0, 0, true, true)];
            && |Run(2, ops).recs| == 1 && Run(2, ops).stats.evictions == 1
  {
    var p1, p2 := Put("a", [1], 0, 0, true, true), Put("b", [2], 0, 0, true, true);
    assert [p1, p1, p2][..2] == [p1, p1];
    assert [p1, p1][..1] == [p1];
    assert [p1][..0] == [];
    var ra := Record("a", [1], 0, 0, 0, true, 0);
    assert Run(2, [p1]).recs == [ra];
    assert Run(2, [p1, p1]).recs == [ra];
  }
}
