/**
 What the key-value cache tells its callers: the replies and the statistics of every run, read off the operations, and
 the counters of each entry.
 */
module KaiCacheReplies {
  import opened Common
  import opened KaiCacheModel

  // ----- replies

  lemma PutReplyExactly(max: nat, ops: seq<Op>, put: Op)
    requires StoredInFull(ops) && put.Put?
    ensures LastReply(max, ops + [put])
            == Done(if put.data == [] then InvalidArgument
                    else if !put.dataOk || (!put.entryOk && !PutAndKept(max, ops, put.key)) then NoMemory
                    else Ok)
  {
    CachedExactly(max, ops, put.key);
    assert (ops + [put])[..|ops|] == ops;
  }

  lemma RemoveReplyExactly(max: nat, ops: seq<Op>, key: string)
    requires StoredInFull(ops)
    ensures LastReply(max, ops + [Remove(key)]) == Done(if PutAndKept(max, ops, key) then Ok else NotFound)
  {
    CachedExactly(max, ops, key);
    assert (ops + [Remove(key)])[..|ops|] == ops;
  }

  /** As many keys as entries. */
  lemma {:induction false} KeySet(recs: seq<Record>, keys: set<string>)
    requires KeysDistinct(recs) && forall k :: k in keys <==> HasKey(recs, k)
    ensures |keys| == |recs|
  {
    if recs == [] {
      assert keys == {};
    } else {
      var last := |recs| - 1;
      forall k | k in keys - {recs[last].key}
        ensures HasKey(recs[..last], k)
      {
        var i :| 0 <= i < |recs| && recs[i].key == k;
        assert recs[..last][i].key == k;
      }
      assert recs[last].key in keys;
      KeySet(recs[..last], keys - {recs[last].key});
    }
  }

  /** The keys that are cached after a run. */
  ghost predicate AreCached(max: nat, ops: seq<Op>, keys: set<string>) {
    forall k :: k in keys <==> PutAndKept(max, ops, k)
  }

  lemma CachedCount(max: nat, ops: seq<Op>, keys: set<string>)
    requires StoredInFull(ops) && AreCached(max, ops, keys)
    ensures |keys| == |Run(max, ops).recs|
  {
    RunKeysDistinct(max, ops);
    forall k
      ensures k in keys <==> HasKey(Run(max, ops).recs, k)
    {
      CachedExactly(max, ops, k);
    }
    KeySet(Run(max, ops).recs, keys);
  }

  /** A flush reports how many keys it dropped, and that is all of them. */
  lemma FlushReplyExactly(max: nat, ops: seq<Op>, keys: set<string>)
    requires StoredInFull(ops) && AreCached(max, ops, keys)
    ensures LastReply(max, ops + [Flush]) == Removed(|keys|) && AreCached(max, ops + [Flush], {})
  {
    CachedCount(max, ops, keys);
    assert (ops + [Flush])[..|ops|] == ops;
    forall k
      ensures !PutAndKept(max, ops + [Flush], k)
    {
      CachedExactly(max, ops + [Flush], k);
    }
  }

  /** A sweep reports how many keys it dropped. */
  lemma SweepReplyExactly(max: nat, ops: seq<Op>, now: nat, keys: set<string>, left: set<string>)
    requires StoredInFull(ops) && AreCached(max, ops, keys) && AreCached(max, ops + [FlushExpired(now)], left)
    ensures left <= keys && LastReply(max, ops + [FlushExpired(now)]) == Removed(|keys - left|)
  {
    var after := ops + [FlushExpired(now)];
    assert after[..|ops|] == ops;
    forall k | k in left
      ensures k in keys
    {
      assert PutAndKept(max, after, k);
    }
    CachedCount(max, ops, keys);
    CachedCount(max, after, left);
    assert keys == left + (keys - left);
  }

  // ----- gets, whatever the clock does

  /** A get found the key expired after it was last put. */
  ghost predicate FoundExpired(max: nat, ops: seq<Op>, key: string) {
    ops != [] &&
    var before, op, reply := ops[..|ops| - 1], ops[|ops| - 1], LastReply(max, ops);
    if IsPutOf(op, reply, key) then false
    else
      || FoundExpired(max, before, key)
      || (op.Get? && op.key == key && reply == KaiCacheModel.Found(Miss) && PutAndKept(max, before, key))
  }

  lemma {:induction false} EntryIsMarked(max: nat, ops: seq<Op>, i: nat)
    requires StoredInFull(ops) && i < |Run(max, ops).recs|
    ensures Run(max, ops).recs[i].valid <==> !FoundExpired(max, ops, Run(max, ops).recs[i].key)
  {
    if ops != [] {
      var before := ops[..|ops| - 1];
      var s, op, key := Run(max, before), ops[|ops| - 1], Run(max, ops).recs[i].key;
      RunKeysDistinct(max, before);
      CachedExactly(max, before, key);
      var k := Origin(s, max, op, i);
      if !IsPutOf(op, LastReply(max, ops), key) {
        EntryIsMarked(max, before, k);
        FindUnique(s.recs, key, k);
      }
    }
  }

  /**
   A get hits exactly if the key is cached, no get has found it expired since it was put, the clock has not gone back
   behind its last touch, and that is no more than its time to live ago.
   */
  lemma GetExactly(max: nat, ops: seq<Op>, key: string, now: nat, later: nat, capacity: Option<nat>)
    requires StoredInFull(ops)
    ensures var cached := PutAndKept(max, ops, key);
            && (cached ==> LatestPut(max, ops, key).Some? && LastTouch(max, ops, key).Some?)
            && (GetStep(Run(max, ops), key, now, later, capacity).1.Hit? <==>
                  && cached && !FoundExpired(max, ops, key) && now >= LastTouch(max, ops, key).value
                  && (now - LastTouch(max, ops, key).value) / 1_000_000 <= LatestPut(max, ops, key).value.1)
  {
    CachedExactly(max, ops, key);
    var k := Find(Run(max, ops).recs, key);
    if k >= 0 {
      EntriesAreLatest(max, ops, k);
      EntryIsMarked(max, ops, k);
    }
  }

  // ----- statistics

  /** The last operation dropped a key. */
  ghost predicate DropsOne(max: nat, ops: seq<Op>)
    requires ops != []
  {
    exists key :: PutAndKept(max, ops[..|ops| - 1], key) && !PutAndKept(max, ops, key)
  }

  /**
   What was counted since the last reset of the statistics: hits; gets of keys not cached; keys dropped by puts; gets of
   keys that had expired, and keys swept; puts less removals; the bytes of keys put anew. A flush clears the last two.
   */
  ghost function Tally(max: nat, ops: seq<Op>): Stats {
    if ops == [] then Stats(0, 0, 0, 0, 0, 0)
    else
      var before, op, reply := ops[..|ops| - 1], ops[|ops| - 1], LastReply(max, ops);
      var t := Tally(max, before);
      match op
      case Put(key, data, _, _, _, _) =>
        var dropped := t.(evictions := t.evictions + Bit(DropsOne(max, ops)));
        if reply != Done(Ok) then dropped
        else dropped.(inserts := t.inserts + 1,
                      totalSize := t.totalSize + if PutAndKept(max, before, key) then 0 else |data|)
      case Get(key, _, _, _) =>
        if reply.Found? && reply.lookup.Hit? then t.(hits := t.hits + 1)
        else if PutAndKept(max, before, key) then t.(expirations := t.expirations + 1)
        else t.(misses := t.misses + 1)
      case Remove(_) => if reply == Done(Ok) then t.(inserts := t.inserts - 1) else t
      case Flush => t.(inserts := 0, totalSize := 0)
      case FlushExpired(_) => if reply.Removed? then t.(expirations := t.expirations + reply.count) else t
      case ResetStats => Stats(0, 0, 0, 0, 0, 0)
  }

  /** A put evicts exactly if it drops a key. */
  lemma PutDropsOne(max: nat, ops: seq<Op>)
    requires ops != [] && ops[|ops| - 1].Put? && StoredInFull(ops)
    ensures var s, op := Run(max, ops[..|ops| - 1]), ops[|ops| - 1];
            DropsOne(max, ops) <==> && op.data != [] && op.dataOk && Find(s.recs, op.key) == -1
                                    && GateClosed(s.stats.inserts, max) && s.recs != []
  {
    var before, op := ops[..|ops| - 1], ops[|ops| - 1];
    var s := Run(max, before);
    RunKeysDistinct(max, before);
    if DropsOne(max, ops) {
      var key :| PutAndKept(max, before, key) && !PutAndKept(max, ops, key);
      CachedExactly(max, before, key);
      CachedExactly(max, ops, key);
      var i: nat :| i < |s.recs| && s.recs[i].key == key;
      StepDropsExactly(s, max, op, i);
    }
    if op.data != [] && op.dataOk && Find(s.recs, op.key) == -1 && GateClosed(s.stats.inserts, max) && s.recs != [] {
      var key := s.recs[|s.recs| - 1].key;
      CachedExactly(max, before, key);
      CachedExactly(max, ops, key);
      StepDropsExactly(s, max, op, |s.recs| - 1);
    }
  }

  lemma {:induction false} StatsAgree(max: nat, ops: seq<Op>)
    requires StoredInFull(ops)
    ensures Run(max, ops).stats == Tally(max, ops)
  {
    if ops != [] {
      var before, op := ops[..|ops| - 1], ops[|ops| - 1];
      StatsAgree(max, before);
      if op.Put? {
        PutDropsOne(max, ops);
        CachedExactly(max, before, op.key);
      } else if op.Get? {
        CachedExactly(max, before, op.key);
      }
    }
  }

  // ----- the counters of an entry

  /** When a key came into the cache, and how often it was hit since. */
  ghost function Age(max: nat, ops: seq<Op>, key: string): (nat, nat) {
    if ops == [] then (0, 0)
    else
      var before, op, reply := ops[..|ops| - 1], ops[|ops| - 1], LastReply(max, ops);
      var (created, hits) := Age(max, before, key);
      if IsPutOf(op, reply, key) && !PutAndKept(max, before, key) then (op.now, 0)
      else if IsHitOf(op, reply, key) then (created, hits + 1)
      else (created, hits)
  }

  /** What a step leaves of the age and the hits of an entry. */
  lemma StepAges(s: State, max: nat, op: Op, i: nat) returns (k: nat)
    requires KeysDistinct(s.recs) && i < |Step(s, max, op).0.recs|
    ensures var (s', reply) := Step(s, max, op);
            var r := s'.recs[i];
            if IsPutOf(op, reply, r.key) && Find(s.recs, r.key) == -1 then r.created == op.now && r.hitCount == 0
            else
              && k < |s.recs| && s.recs[k].key == r.key && r.created == s.recs[k].created
              && r.hitCount == s.recs[k].hitCount + Bit(IsHitOf(op, reply, r.key))
  {
    k := Origin(s, max, op, i);
    var (s', reply) := Step(s, max, op);
    if IsPutOf(op, reply, s'.recs[i].key) && Find(s.recs, op.key) != -1 {
      k := Find(s.recs, op.key);
    }
  }

  lemma {:induction false} EntryAges(max: nat, ops: seq<Op>, i: nat)
    requires StoredInFull(ops) && i < |Run(max, ops).recs|
    ensures var r := Run(max, ops).recs[i]; (r.created, r.hitCount) == Age(max, ops, r.key)
  {
    if ops != [] {
      var before := ops[..|ops| - 1];
      var s, op, key := Run(max, before), ops[|ops| - 1], Run(max, ops).recs[i].key;
      RunKeysDistinct(max, before);
      CachedExactly(max, before, key);
      var k := StepAges(s, max, op, i);
      if !(IsPutOf(op, LastReply(max, ops), key) && Find(s.recs, key) == -1) {
        EntryAges(max, before, k);
      }
    }
  }
}
