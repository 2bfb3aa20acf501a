/**
 The key-value cache as a state machine over values: the entries in LRU order and the counters.
 All results about runs are proved here; the class in KaiCache.dfy refines these steps.
 */
module KaiCacheModel {
  import opened Common

  const NS_PER_MS := 1_000_000

  /** One entry. Of the program's flags only VALID is ever read. */
  datatype Record = Record(key: string, data: seq<byte>, created: nat, lastAccess: nat,
                           hitCount: nat, valid: bool, ttlMs: nat)

  /** `inserts` is a 64-bit counter: a negative value stands for one that wrapped below zero. */
  datatype Stats = Stats(hits: nat, misses: nat, evictions: nat, expirations: nat, inserts: int, totalSize: nat)

  datatype State = State(recs: seq<Record>, stats: Stats)

  datatype Status = Ok | InvalidArgument | NoMemory | NotFound

  /** `out` is what was copied to the caller's buffer and the size reported, if a buffer was given. */
  datatype Lookup = Miss | Hit(out: Option<(seq<byte>, nat)>)

  datatype Op =
    | Put(key: string, data: seq<byte>, ttlMs: nat, now: nat, dataOk: bool, entryOk: bool)
    | Get(key: string, now: nat, later: nat, capacity: Option<nat>)
    | Remove(key: string)
    | Flush
    | FlushExpired(now: nat)
    | ResetStats

  datatype Reply = Done(status: Status) | Found(lookup: Lookup) | Removed(count: nat)

  /** Longer keys are cut off when they are stored. */
  predicate StoredInFull(ops: seq<Op>) {
    forall i :: 0 <= i < |ops| && ops[i].Put? ==> |ops[i].key| < 64
  }

  const NO_STATS := Stats(0, 0, 0, 0, 0, 0)
  const EMPTY := State([], NO_STATS)

  /** A last access in the future wraps the unsigned age around and reads as expired. */
  predicate Expired(r: Record, now: nat) {
    !r.valid || now < r.lastAccess || (now - r.lastAccess) / NS_PER_MS > r.ttlMs
  }

  ghost predicate KeysDistinct(recs: seq<Record>) {
    forall i, j :: 0 <= i < j < |recs| ==> recs[i].key != recs[j].key
  }

  ghost predicate RecentFirst(recs: seq<Record>) {
    forall i, j :: 0 <= i < j < |recs| ==> recs[i].lastAccess >= recs[j].lastAccess
  }

  ghost predicate NoneAfter(recs: seq<Record>, t: nat) {
    forall i :: 0 <= i < |recs| ==> recs[i].lastAccess <= t
  }

  /** Linear search. */
  function Find(recs: seq<Record>, key: string): (k: int)
    ensures -1 <= k < |recs|
    ensures k == -1 ==> forall j :: 0 <= j < |recs| ==> recs[j].key != key
    ensures k >= 0 ==> recs[k].key == key
  {
    FindKey(recs, (r: Record) => r.key, key, 0)
  }

  lemma FindUnique(recs: seq<Record>, key: string, k: nat)
    requires KeysDistinct(recs) && k < |recs| && recs[k].key == key
    ensures Find(recs, key) == k
  {
    assert Find(recs, key) >= 0;
  }

  function Unexpired(recs: seq<Record>, now: nat): seq<Record> {
    if recs == [] then []
    else (if Expired(recs[0], now) then [] else [recs[0]]) + Unexpired(recs[1..], now)
  }

  lemma UnexpiredLength(recs: seq<Record>, now: nat)
    ensures |Unexpired(recs, now)| <= |recs|
  {
  }

  /** The capacity gate compares the insert counter, as an unsigned number, with the maximum. */
  predicate GateClosed(inserts: int, max: nat) {
    inserts < 0 || inserts >= max
  }

  function Evict(s: State, max: nat): State {
    if GateClosed(s.stats.inserts, max) && s.recs != [] then
      State(RemoveAt(s.recs, |s.recs| - 1), s.stats.(evictions := s.stats.evictions + 1))
    else s
  }

  function Updated(s: State, k: nat, data: seq<byte>, ttlMs: nat, now: nat): State
    requires k < |s.recs|
  {
    State([s.recs[k].(data := data, lastAccess := now, ttlMs := ttlMs, valid := true)] + RemoveAt(s.recs, k),
          s.stats.(inserts := s.stats.inserts + 1))
  }

  function Added(s: State, key: string, data: seq<byte>, ttlMs: nat, now: nat): State {
    State([Record(key, data, now, now, 0, true, ttlMs)] + s.recs,
          s.stats.(inserts := s.stats.inserts + 1, totalSize := s.stats.totalSize + |data|))
  }

  function Invalidated(s: State, k: nat): State
    requires k < |s.recs|
  {
    State(s.recs[k := s.recs[k].(valid := false)], s.stats.(expirations := s.stats.expirations + 1))
  }

  function Touched(s: State, k: nat, later: nat): State
    requires k < |s.recs|
  {
    State([s.recs[k].(hitCount := s.recs[k].hitCount + 1, lastAccess := later)] + RemoveAt(s.recs, k),
          s.stats.(hits := s.stats.hits + 1))
  }

  function Dropped(s: State, k: nat): State
    requires k < |s.recs|
  {
    State(RemoveAt(s.recs, k), s.stats.(inserts := s.stats.inserts - 1))
  }

  function PutStep(s: State, max: nat, key: string, data: seq<byte>, ttlMs: nat, now: nat,
                   dataOk: bool, entryOk: bool): (State, Status)
  {
    if data == [] then (s, InvalidArgument)
    else if !dataOk then (s, NoMemory)
    else
      var k := Find(s.recs, key);
      if k >= 0 then (Updated(s, k, data, ttlMs, now), Ok)
      else if !entryOk then (Evict(s, max), NoMemory)
      else (Added(Evict(s, max), key, data, ttlMs, now), Ok)
  }

  function CopyOut(data: seq<byte>, capacity: Option<nat>): Option<(seq<byte>, nat)> {
    match capacity
    case None => None
    case Some(n) => Some((data[..Min(n, |data|)], |data|))
  }

  function GetStep(s: State, key: string, now: nat, later: nat, capacity: Option<nat>): (State, Lookup) {
    var k := Find(s.recs, key);
    if k == -1 then (s.(stats := s.stats.(misses := s.stats.misses + 1)), Miss)
    else if Expired(s.recs[k], now) then (Invalidated(s, k), Miss)
    else (Touched(s, k, later), Hit(CopyOut(s.recs[k].data, capacity)))
  }

  function RemoveStep(s: State, key: string): (State, Status) {
    var k := Find(s.recs, key);
    if k == -1 then (s, NotFound)
    else (Dropped(s, k), Ok)
  }

  function FlushStep(s: State): (State, nat) {
    (State([], s.stats.(inserts := 0, totalSize := 0)), |s.recs|)
  }

  function FlushExpiredStep(s: State, now: nat): (r: (State, int)) {
    var kept := Unexpired(s.recs, now);
    var gone := |s.recs| - |kept|;
    UnexpiredLength(s.recs, now);
    (State(kept, s.stats.(expirations := s.stats.expirations + gone)), gone)
  }

  function Step(s: State, max: nat, op: Op): (State, Reply) {
    match op
    case Put(key, data, ttlMs, now, dataOk, entryOk) =>
      var (s', r) := PutStep(s, max, key, data, ttlMs, now, dataOk, entryOk);
      (s', Done(r))
    case Get(key, now, later, capacity) =>
      var (s', r) := GetStep(s, key, now, later, capacity);
      (s', Found(r))
    case Remove(key) =>
      var (s', r) := RemoveStep(s, key);
      (s', Done(r))
    case Flush =>
      var (s', n) := FlushStep(s);
      (s', Removed(n))
    case FlushExpired(now) =>
      UnexpiredLength(s.recs, now);
      var (s', n) := FlushExpiredStep(s, now);
      (s', Removed(n))
    case ResetStats => (s.(stats := NO_STATS), Done(Ok))
  }

  // ----- runs, read off the sequence of operations alone

  function Run(max: nat, ops: seq<Op>): State {
    if ops == [] then EMPTY else Step(Run(max, ops[..|ops| - 1]), max, ops[|ops| - 1]).0
  }

  function LastReply(max: nat, ops: seq<Op>): Reply
    requires ops != []
  {
    Step(Run(max, ops[..|ops| - 1]), max, ops[|ops| - 1]).1
  }

  predicate IsPutOf(op: Op, reply: Reply, key: string) {
    op.Put? && op.key == key && reply == Done(Ok)
  }

  predicate IsHitOf(op: Op, reply: Reply, key: string) {
    op.Get? && op.key == key && reply.Found? && reply.lookup.Hit?
  }

  /** The latest successful put of a key: its bytes and its time to live. */
  function LatestPut(max: nat, ops: seq<Op>, key: string): Option<(seq<byte>, nat)> {
    if ops == [] then None
    else
      var op := ops[|ops| - 1];
      if IsPutOf(op, LastReply(max, ops), key) then Some((op.data, op.ttlMs))
      else LatestPut(max, ops[..|ops| - 1], key)
  }

  /** When a key was last put successfully or hit. */
  function LastTouch(max: nat, ops: seq<Op>, key: string): Option<nat> {
    if ops == [] then None
    else
      var op := ops[|ops| - 1];
      if IsPutOf(op, LastReply(max, ops), key) then Some(op.now)
      else if IsHitOf(op, LastReply(max, ops), key) then Some(op.later)
      else LastTouch(max, ops[..|ops| - 1], key)
  }

  /** The clock after an operation, if it was t before; Remove, Flush and ResetStats read no clock. */
  function ClockAfter(op: Op, t: nat): nat {
    match op
    case Put(_, _, _, now, _, _) => now
    case Get(_, _, later, _) => later
    case FlushExpired(now) => now
    case _ => t
  }

  predicate NotBefore(op: Op, t: nat) {
    match op
    case Put(_, _, _, now, _, _) => now >= t
    case Get(_, now, later, _) => later >= now >= t
    case FlushExpired(now) => now >= t
    case _ => true
  }

  function Latest(ops: seq<Op>): nat {
    if ops == [] then 0 else ClockAfter(ops[|ops| - 1], Latest(ops[..|ops| - 1]))
  }

  /** The clock readings of the operations never decrease. */
  predicate Timely(ops: seq<Op>) {
    ops == [] || (Timely(ops[..|ops| - 1]) && NotBefore(ops[|ops| - 1], Latest(ops[..|ops| - 1])))
  }

  function Resets(ops: seq<Op>): nat {
    if ops == [] then 0
    else Resets(ops[..|ops| - 1]) + if ops[|ops| - 1].ResetStats? then 1 else 0
  }

  // ----- one step rearranges the entries in one of five ways

  lemma {:induction false} UnexpiredFrom(recs: seq<Record>, now: nat, i: nat) returns (k: nat)
    requires i < |Unexpired(recs, now)|
    ensures i <= k < |recs| && Unexpired(recs, now)[i] == recs[k]
    ensures !Expired(recs[k], now)
  {
    if !Expired(recs[0], now) && i == 0 {
      return 0;
    } else if !Expired(recs[0], now) {
      k := UnexpiredFrom(recs[1..], now, i - 1);
      return k + 1;
    } else {
      k := UnexpiredFrom(recs[1..], now, i);
      return k + 1;
    }
  }

  lemma {:induction false} UnexpiredFromPair(recs: seq<Record>, now: nat, i: nat, j: nat) returns (k: nat, l: nat)
    requires i < j < |Unexpired(recs, now)|
    ensures k < l < |recs| && Unexpired(recs, now)[i] == recs[k] && Unexpired(recs, now)[j] == recs[l]
  {
    if !Expired(recs[0], now) && i == 0 {
      l := UnexpiredFrom(recs[1..], now, j - 1);
      return 0, l + 1;
    } else if !Expired(recs[0], now) {
      k, l := UnexpiredFromPair(recs[1..], now, i - 1, j - 1);
      return k + 1, l + 1;
    } else {
      k, l := UnexpiredFromPair(recs[1..], now, i, j);
      return k + 1, l + 1;
    }
  }

  lemma ToFrontKeepsKeys(recs: seq<Record>, k: nat, r: Record)
    requires KeysDistinct(recs) && k < |recs| && r.key == recs[k].key
    ensures KeysDistinct([r] + RemoveAt(recs, k))
  {
  }

  lemma ToFrontOfPrefix(recs: seq<Record>, n: nat, r: Record, t: nat)
    requires n <= |recs|
    ensures KeysDistinct(recs) && (forall i :: 0 <= i < |recs| ==> recs[i].key != r.key)
            ==> KeysDistinct([r] + recs[..n])
    ensures RecentFirst(recs) && NoneAfter(recs, t) && r.lastAccess >= t
            ==> RecentFirst([r] + recs[..n]) && NoneAfter([r] + recs[..n], r.lastAccess)
  {
  }

  lemma EvictIsPrefix(s: State, max: nat) returns (n: nat)
    ensures n <= |s.recs| && Evict(s, max).recs == s.recs[..n]
  {
    n := |Evict(s, max).recs|;
  }

  lemma PutKeepsKeys(s: State, max: nat, op: Op)
    requires op.Put? && KeysDistinct(s.recs)
    ensures KeysDistinct(PutStep(s, max, op.key, op.data, op.ttlMs, op.now, op.dataOk, op.entryOk).0.recs)
  {
    var k := Find(s.recs, op.key);
    if k >= 0 {
      ToFrontKeepsKeys(s.recs, k, Updated(s, k, op.data, op.ttlMs, op.now).recs[0]);
    } else {
      var n := EvictIsPrefix(s, max);
      ToFrontOfPrefix(s.recs, n, Record(op.key, op.data, op.now, op.now, 0, true, op.ttlMs), op.now);
    }
  }

  lemma UnexpiredKeepsKeys(recs: seq<Record>, now: nat)
    requires KeysDistinct(recs)
    ensures KeysDistinct(Unexpired(recs, now))
  {
    forall i, j | 0 <= i < j < |Unexpired(recs, now)|
      ensures Unexpired(recs, now)[i].key != Unexpired(recs, now)[j].key
    {
      var k, l := UnexpiredFromPair(recs, now, i, j);
    }
  }

  lemma StepKeepsKeysDistinct(s: State, max: nat, op: Op)
    requires KeysDistinct(s.recs)
    ensures KeysDistinct(Step(s, max, op).0.recs)
  {
    if op.Put? {
      PutKeepsKeys(s, max, op);
    } else if op.Get? {
      var k := Find(s.recs, op.key);
      if k >= 0 {
        ToFrontKeepsKeys(s.recs, k, Touched(s, k, op.later).recs[0]);
      }
    } else if op.FlushExpired? {
      UnexpiredKeepsKeys(s.recs, op.now);
    }
  }

  lemma {:induction false} RunKeysDistinct(max: nat, ops: seq<Op>)
    ensures KeysDistinct(Run(max, ops).recs)
  {
    if ops != [] {
      RunKeysDistinct(max, ops[..|ops| - 1]);
      StepKeepsKeysDistinct(Run(max, ops[..|ops| - 1]), max, ops[|ops| - 1]);
    }
  }

  /** r' is r with its last access at t, some hits more, and its flag as given. */
  predicate SameEntry(r: Record, r': Record, t: nat, hits: nat, valid: bool) {
    && r'.key == r.key && r'.data == r.data && r'.ttlMs == r.ttlMs && r'.lastAccess == t
    && r'.created == r.created && r'.hitCount == r.hitCount + hits && r'.valid == valid
  }

  /** What a successful put leaves: the new data, and the age and the hits of an entry that was there. */
  ghost predicate PutLeaves(s: State, op: Op, r: Record)
    requires op.Put?
  {
    && r.data == op.data && r.ttlMs == op.ttlMs && r.lastAccess == op.now && r.valid
    && var f := Find(s.recs, op.key);
       if f == -1 then r.created == op.now && r.hitCount == 0
       else r.created == s.recs[f].created && r.hitCount == s.recs[f].hitCount
  }

  /**
   Where an entry after a step comes from: it is the target of a successful put, or it was there
   before (at index k) with the same key and data, and only a hit changed its last access.
   */
  ghost predicate ComesFrom(s: State, max: nat, op: Op, i: nat, k: nat)
    requires i < |Step(s, max, op).0.recs|
  {
    var (s', reply) := Step(s, max, op);
    var r := s'.recs[i];
    if IsPutOf(op, reply, r.key) then PutLeaves(s, op, r)
    else if IsHitOf(op, reply, r.key) then k < |s.recs| && SameEntry(s.recs[k], r, op.later, 1, true)
    else
      && k < |s.recs|
      && SameEntry(s.recs[k], r, s.recs[k].lastAccess, 0, s.recs[k].valid && !(op.Get? && op.key == r.key))
  }

  lemma ToFrontOrigin(recs: seq<Record>, k: nat, r: Record, i: nat) returns (j: nat)
    requires k < |recs| && i < |recs| && KeysDistinct(recs)
    ensures i > 0 ==> j < |recs| && j != k && ([r] + RemoveAt(recs, k))[i] == recs[j] && recs[j].key != recs[k].key
  {
    j := if 0 < i <= k then i - 1 else i;
  }

  /** After a put, the entry of the put key is new if the put succeeded, and all others are old. */
  lemma PutEntry(s: State, max: nat, op: Op, i: nat) returns (k: nat)
    requires op.Put? && KeysDistinct(s.recs)
    requires i < |PutStep(s, max, op.key, op.data, op.ttlMs, op.now, op.dataOk, op.entryOk).0.recs|
    ensures var (s', status) := PutStep(s, max, op.key, op.data, op.ttlMs, op.now, op.dataOk, op.entryOk);
            var r := s'.recs[i];
            if status == Ok && r.key == op.key then PutLeaves(s, op, r)
            else k < |s.recs| && r == s.recs[k]
  {
    var f := Find(s.recs, op.key);
    if op.data == [] || !op.dataOk {
      k := i;
    } else if f >= 0 {
      var r := s.recs[f].(data := op.data, lastAccess := op.now, ttlMs := op.ttlMs, valid := true);
      k := ToFrontOrigin(s.recs, f, r, i);
    } else {
      k := if op.entryOk && i > 0 then i - 1 else i;
    }
  }

  lemma PutOrigin(s: State, max: nat, op: Op, i: nat) returns (k: nat)
    requires op.Put? && KeysDistinct(s.recs) && i < |Step(s, max, op).0.recs|
    ensures ComesFrom(s, max, op, i, k)
  {
    k := PutEntry(s, max, op, i);
  }

  lemma GetOrigin(s: State, max: nat, op: Op, i: nat) returns (k: nat)
    requires op.Get? && KeysDistinct(s.recs) && i < |Step(s, max, op).0.recs|
    ensures ComesFrom(s, max, op, i, k)
  {
    var s' := GetStep(s, op.key, op.now, op.later, op.capacity).0;
    assert Step(s, max, op).0 == s';
    var f := Find(s.recs, op.key);
    if f == -1 || Expired(s.recs[f], op.now) {
      return i;
    }
    var r := s.recs[f].(hitCount := s.recs[f].hitCount + 1, lastAccess := op.later);
    assert s'.recs == [r] + RemoveAt(s.recs, f);
    k := ToFrontOrigin(s.recs, f, r, i);
    if i == 0 {
      k := f;
    }
  }

  lemma Origin(s: State, max: nat, op: Op, i: nat) returns (k: nat)
    requires KeysDistinct(s.recs) && i < |Step(s, max, op).0.recs|
    ensures ComesFrom(s, max, op, i, k)
  {
    match op {
      case Put(_, _, _, _, _, _) => k := PutOrigin(s, max, op, i);
      case Get(_, _, _, _) => k := GetOrigin(s, max, op, i);
      case FlushExpired(now) => k := UnexpiredFrom(s.recs, now, i);
      case Remove(key) =>
        var f := Find(s.recs, key);
        k := if f == -1 || i < f then i else i + 1;
      case _ => k := i;
    }
  }

  // ----- main results

  /** Every entry holds the bytes of the latest successful put of its key, and the time of its last touch. */
  lemma {:induction false} EntriesAreLatest(max: nat, ops: seq<Op>, i: nat)
    requires i < |Run(max, ops).recs|
    ensures var r := Run(max, ops).recs[i];
            LatestPut(max, ops, r.key) == Some((r.data, r.ttlMs)) && LastTouch(max, ops, r.key) == Some(r.lastAccess)
  {
    if ops != [] {
      var before := ops[..|ops| - 1];
      var s, op := Run(max, before), ops[|ops| - 1];
      RunKeysDistinct(max, before);
      var k := Origin(s, max, op, i);
      if !IsPutOf(op, LastReply(max, ops), Run(max, ops).recs[i].key) {
        EntriesAreLatest(max, before, k);
      }
    }
  }

  /** Unexpired drops entries and keeps the order of the rest. */
  lemma UnexpiredKeepsOrder(recs: seq<Record>, now: nat, t: nat)
    requires RecentFirst(recs) && NoneAfter(recs, t)
    ensures RecentFirst(Unexpired(recs, now)) && NoneAfter(Unexpired(recs, now), t)
  {
    var u := Unexpired(recs, now);
    forall i | 0 <= i < |u|
      ensures u[i].lastAccess <= t
    {
      var k := UnexpiredFrom(recs, now, i);
    }
    forall i, j | 0 <= i < j < |u|
      ensures u[i].lastAccess >= u[j].lastAccess
    {
      var k, l := UnexpiredFromPair(recs, now, i, j);
    }
  }

  lemma ToFrontKeepsOrder(recs: seq<Record>, k: nat, r: Record, t: nat)
    requires RecentFirst(recs) && NoneAfter(recs, t) && k < |recs| && r.lastAccess >= t
    ensures RecentFirst([r] + RemoveAt(recs, k)) && NoneAfter([r] + RemoveAt(recs, k), r.lastAccess)
  {
  }

  lemma PutKeepsOrder(s: State, max: nat, op: Op, t: nat)
    requires op.Put? && RecentFirst(s.recs) && NoneAfter(s.recs, t) && op.now >= t
    ensures var recs := PutStep(s, max, op.key, op.data, op.ttlMs, op.now, op.dataOk, op.entryOk).0.recs;
            RecentFirst(recs) && NoneAfter(recs, op.now)
  {
    var k := Find(s.recs, op.key);
    if k >= 0 {
      ToFrontKeepsOrder(s.recs, k, Updated(s, k, op.data, op.ttlMs, op.now).recs[0], t);
    } else {
      var n := EvictIsPrefix(s, max);
      ToFrontOfPrefix(s.recs, n, Record(op.key, op.data, op.now, op.now, 0, true, op.ttlMs), t);
    }
  }

  lemma GetKeepsOrder(s: State, op: Op, t: nat)
    requires op.Get? && RecentFirst(s.recs) && NoneAfter(s.recs, t) && op.later >= op.now >= t
    ensures var recs := GetStep(s, op.key, op.now, op.later, op.capacity).0.recs;
            RecentFirst(recs) && NoneAfter(recs, op.later)
  {
    var k := Find(s.recs, op.key);
    if k >= 0 {
      ToFrontKeepsOrder(s.recs, k, Touched(s, k, op.later).recs[0], t);
    }
  }

  lemma StepKeepsOrder(s: State, max: nat, op: Op, t: nat)
    requires RecentFirst(s.recs) && NoneAfter(s.recs, t) && NotBefore(op, t)
    ensures RecentFirst(Step(s, max, op).0.recs)
    ensures NoneAfter(Step(s, max, op).0.recs, ClockAfter(op, t))
  {
    if op.Put? {
      PutKeepsOrder(s, max, op, t);
    } else if op.Get? {
      GetKeepsOrder(s, op, t);
    } else if op.FlushExpired? {
      UnexpiredKeepsOrder(s.recs, op.now, t);
    }
  }

  lemma {:induction false} RunRecentFirst(max: nat, ops: seq<Op>)
    requires Timely(ops)
    ensures RecentFirst(Run(max, ops).recs) && NoneAfter(Run(max, ops).recs, Latest(ops))
  {
    if ops != [] {
      var before := ops[..|ops| - 1];
      RunRecentFirst(max, before);
      StepKeepsOrder(Run(max, before), max, ops[|ops| - 1], Latest(before));
    }
  }

  lemma LaterIsOlder(last: nat, t: nat, t': nat)
    requires last <= t <= t'
    ensures (t - last) / NS_PER_MS <= (t' - last) / NS_PER_MS
  {
  }

  lemma PutFlagOrigin(s: State, max: nat, op: Op, i: nat) returns (k: nat)
    requires op.Put? && i < |Step(s, max, op).0.recs| && !Step(s, max, op).0.recs[i].valid
    ensures k < |s.recs| && Step(s, max, op).0.recs[i] == s.recs[k]
  {
    var f := Find(s.recs, op.key);
    if op.data == [] || !op.dataOk {
      k := i;
    } else if f >= 0 {
      k := if i <= f then i - 1 else i;
    } else {
      k := if op.entryOk then i - 1 else i;
    }
  }

  /** An entry without the flag lost it in this step, to an expired get, or lacked it before. */
  lemma FlagOrigin(s: State, max: nat, op: Op, i: nat) returns (k: nat)
    requires i < |Step(s, max, op).0.recs| && !Step(s, max, op).0.recs[i].valid
    ensures k < |s.recs|
    ensures var r := Step(s, max, op).0.recs[i];
            && r == s.recs[k].(valid := false)
            && (s.recs[k].valid ==> op.Get? && Expired(s.recs[k], op.now))
  {
    k := i;
    if op.Put? {
      k := PutFlagOrigin(s, max, op, i);
    } else if op.Get? {
      var f := Find(s.recs, op.key);
      if f >= 0 && !Expired(s.recs[f], op.now) {
        k := if i <= f then i - 1 else i;
      }
    } else if op.FlushExpired? {
      k := UnexpiredFrom(s.recs, op.now, i);
    } else if op.Remove? {
      var f := Find(s.recs, op.key);
      k := if f == -1 || i < f then i else i + 1;
    }
  }

  /** Under a monotone clock the VALID flag adds nothing: it is cleared only when the age already tells. */
  lemma {:induction false} FlagIsRedundant(max: nat, ops: seq<Op>, i: nat)
    requires Timely(ops) && i < |Run(max, ops).recs| && !Run(max, ops).recs[i].valid
    ensures var r := Run(max, ops).recs[i];
            (Latest(ops) - r.lastAccess) / NS_PER_MS > r.ttlMs
  {
    var before := ops[..|ops| - 1];
    var s, op := Run(max, before), ops[|ops| - 1];
    RunRecentFirst(max, before);
    var k := FlagOrigin(s, max, op, i);
    if !s.recs[k].valid {
      FlagIsRedundant(max, before, k);
    }
    var r := Run(max, ops).recs[i];
    assert r.lastAccess <= Latest(before) <= Latest(ops);
    LaterIsOlder(r.lastAccess, Latest(before), Latest(ops));
    if op.Get? {
      LaterIsOlder(r.lastAccess, op.now, op.later);
    }
  }

  // ----- what leaves the cache, and why

  /** The reasons for which the entry at index i is dropped by an operation. */
  predicate Drops(s: State, max: nat, op: Op, i: nat)
    requires i < |s.recs|
  {
    match op
    case Put(key, data, _, _, dataOk, _) =>
      && data != [] && dataOk && Find(s.recs, key) == -1
      && (s.stats.inserts < 0 || s.stats.inserts >= max) && i == |s.recs| - 1
    case Remove(key) => s.recs[i].key == key
    case Flush => true
    case FlushExpired(now) => Expired(s.recs[i], now)
    case _ => false
  }

  ghost predicate HasKey(recs: seq<Record>, key: string) {
    exists i :: 0 <= i < |recs| && recs[i].key == key
  }

  lemma {:induction false} UnexpiredHolds(recs: seq<Record>, now: nat, i: nat)
    requires i < |recs|
    ensures !Expired(recs[i], now) ==> recs[i] in Unexpired(recs, now)
  {
    if i > 0 {
      UnexpiredHolds(recs[1..], now, i - 1);
    }
  }

  lemma {:induction false} UnexpiredKeeps(recs: seq<Record>, now: nat, i: nat)
    requires KeysDistinct(recs) && i < |recs|
    ensures HasKey(Unexpired(recs, now), recs[i].key) <==> !Expired(recs[i], now)
  {
    var u := Unexpired(recs, now);
    if HasKey(u, recs[i].key) {
      var j :| 0 <= j < |u| && u[j].key == recs[i].key;
      var k := UnexpiredFrom(recs, now, j);
    } else {
      UnexpiredHolds(recs, now, i);
    }
  }

  lemma PutDrops(s: State, max: nat, op: Op, i: nat)
    requires op.Put? && KeysDistinct(s.recs) && i < |s.recs|
    ensures HasKey(Step(s, max, op).0.recs, s.recs[i].key) <==> !Drops(s, max, op, i)
  {
    var after := Step(s, max, op).0.recs;
    var f := Find(s.recs, op.key);
    if op.data == [] || !op.dataOk {
    } else if f >= 0 {
      assert after[if i == f then 0 else if i < f then i + 1 else i].key == s.recs[i].key;
    } else if i == |s.recs| - 1 && GateClosed(s.stats.inserts, max) {
    } else {
      assert after[if op.entryOk then i + 1 else i] == s.recs[i];
    }
  }

  /** An operation drops an entry for one of the listed reasons and never otherwise. */
  lemma StepDropsExactly(s: State, max: nat, op: Op, i: nat)
    requires KeysDistinct(s.recs) && i < |s.recs|
    ensures HasKey(Step(s, max, op).0.recs, s.recs[i].key) <==> !Drops(s, max, op, i)
  {
    var after := Step(s, max, op).0.recs;
    if op.Put? {
      PutDrops(s, max, op, i);
    } else if op.Get? {
      var f := Find(s.recs, op.key);
      assert after[if f == -1 || Expired(s.recs[f], op.now) || i > f then i
                   else if i == f then 0 else i + 1].key == s.recs[i].key;
    } else if op.FlushExpired? {
      UnexpiredKeeps(s.recs, op.now, i);
    } else if op.Remove? {
      var f := Find(s.recs, op.key);
      if f != i {
        assert after[if f == -1 || i < f then i else i - 1] == s.recs[i];
      }
    }
  }

  ghost predicate DropsKey(s: State, max: nat, op: Op, key: string) {
    exists i: nat :: i < |s.recs| && s.recs[i].key == key && Drops(s, max, op, i)
  }

  /** The key was put successfully, and no operation after its last successful put dropped it. */
  ghost predicate PutAndKept(max: nat, ops: seq<Op>, key: string) {
    ops != [] &&
    var before, op := ops[..|ops| - 1], ops[|ops| - 1];
    IsPutOf(op, LastReply(max, ops), key) || (PutAndKept(max, before, key) && !DropsKey(Run(max, before), max, op, key))
  }

  /** A successful put leaves its key cached. */
  lemma PutCaches(s: State, max: nat, op: Op)
    requires op.Put? && Step(s, max, op).1 == Done(Ok)
    ensures HasKey(Step(s, max, op).0.recs, op.key)
  {
    assert Step(s, max, op).0.recs[0].key == op.key;
  }

  /** A key that a step did not put was cached before if it is after. */
  lemma WasCached(s: State, max: nat, op: Op, key: string)
    requires KeysDistinct(s.recs) && HasKey(Step(s, max, op).0.recs, key) && !IsPutOf(op, Step(s, max, op).1, key)
    ensures HasKey(s.recs, key)
  {
    var recs := Step(s, max, op).0.recs;
    var i: nat :| i < |recs| && recs[i].key == key;
    var k := Origin(s, max, op, i);
    assert s.recs[k].key == key;
  }

  lemma StepCachesExactly(s: State, max: nat, op: Op, key: string)
    requires KeysDistinct(s.recs)
    ensures var (s', reply) := Step(s, max, op);
            HasKey(s'.recs, key) <==> IsPutOf(op, reply, key) || (HasKey(s.recs, key) && !DropsKey(s, max, op, key))
  {
    var (s', reply) := Step(s, max, op);
    if IsPutOf(op, reply, key) {
      PutCaches(s, max, op);
    } else {
      if HasKey(s'.recs, key) {
        WasCached(s, max, op, key);
      }
      if i: nat :| i < |s.recs| && s.recs[i].key == key {
        StepDropsExactly(s, max, op, i);
        assert forall j: nat :: j < |s.recs| && s.recs[j].key == key ==> j == i;
      }
    }
  }

  /** After every run exactly those keys are cached that were put and not dropped since. */
  lemma {:induction false} CachedExactly(max: nat, ops: seq<Op>, key: string)
    requires StoredInFull(ops)
    ensures HasKey(Run(max, ops).recs, key) <==> PutAndKept(max, ops, key)
  {
    if ops != [] {
      var before, op := ops[..|ops| - 1], ops[|ops| - 1];
      CachedExactly(max, before, key);
      RunKeysDistinct(max, before);
      StepCachesExactly(Run(max, before), max, op, key);
    }
  }

  /** out is what a caller gets of data: at most the capacity, from the front, and the full size; or nothing. */
  ghost predicate IsCopy(out: Option<(seq<byte>, nat)>, data: seq<byte>, capacity: Option<nat>) {
    match capacity
    case None => out.None?
    case Some(n) =>
      && out.Some? && out.value.1 == |data| && |out.value.0| == (if n < |data| then n else |data|)
      && forall i :: 0 <= i < |out.value.0| ==> out.value.0[i] == data[i]
  }

  /**
   A get hits exactly when the key was put, not dropped since, and touched no longer ago than the time to live
   of its latest put. It then copies to a buffer of n bytes the first n bytes of that put, or all if they are fewer,
   and reports their full number; without a buffer it copies nothing.
   */
  lemma HitExactly(max: nat, ops: seq<Op>, key: string, now: nat, later: nat, capacity: Option<nat>)
    requires StoredInFull(ops) && Timely(ops) && now >= Latest(ops)
    ensures var cached := PutAndKept(max, ops, key);
            && (cached ==> LatestPut(max, ops, key).Some? && LastTouch(max, ops, key).Some?)
            && (cached ==> now >= LastTouch(max, ops, key).value)
            && var reply := GetStep(Run(max, ops), key, now, later, capacity).1;
            && (reply.Hit? <==> cached && (now - LastTouch(max, ops, key).value) / 1_000_000
                                          <= LatestPut(max, ops, key).value.1)
            && (reply.Hit? ==> IsCopy(reply.out, LatestPut(max, ops, key).value.0, capacity))
  {
    CachedExactly(max, ops, key);
    var k := Find(Run(max, ops).recs, key);
    if k >= 0 {
      var r := Run(max, ops).recs[k];
      EntriesAreLatest(max, ops, k);
      RunRecentFirst(max, ops);
      if !r.valid {
        FlagIsRedundant(max, ops, k);
        LaterIsOlder(r.lastAccess, Latest(ops), now);
      }
    }
  }

  predicate NoLater(a: Option<nat>, b: Option<nat>) {
    a.Some? && b.Some? && a.value <= b.value
  }

  lemma EntryTouched(max: nat, ops: seq<Op>, r: Record)
    requires r in Run(max, ops).recs
    ensures LastTouch(max, ops, r.key) == Some(r.lastAccess)
  {
    var i: nat :| i < |Run(max, ops).recs| && Run(max, ops).recs[i] == r;
    EntriesAreLatest(max, ops, i);
  }

  lemma LastIsLeastRecent(max: nat, ops: seq<Op>, r: Record)
    requires Timely(ops) && r in Run(max, ops).recs
    ensures Run(max, ops).recs[|Run(max, ops).recs| - 1].lastAccess <= r.lastAccess
  {
    RunRecentFirst(max, ops);
  }

  /** Under a monotone clock the entry an eviction drops was touched no later than any other entry. */
  lemma EvictionDropsLeastRecentlyTouched(max: nat, ops: seq<Op>, victim: Record, other: Record)
    requires Timely(ops) && Run(max, ops).recs != []
    requires victim == Run(max, ops).recs[|Run(max, ops).recs| - 1] && other in Run(max, ops).recs
    ensures NoLater(LastTouch(max, ops, victim.key), LastTouch(max, ops, other.key))
  {
    EntryTouched(max, ops, victim);
    EntryTouched(max, ops, other);
    LastIsLeastRecent(max, ops, other);
  }

  // ----- the walk of flush_expired, entry by entry

  /** What is left of the list when the walk stands at index i. */
  function Sweep(recs: seq<Record>, i: nat, now: nat): seq<Record>
    requires i <= |recs|
    decreases |recs| - i
  {
    if i == |recs| then recs
    else if Expired(recs[i], now) then Sweep(RemoveAt(recs, i), i, now)
    else Sweep(recs, i + 1, now)
  }

  lemma {:induction false} SweepIsUnexpired(recs: seq<Record>, i: nat, now: nat)
    requires i <= |recs|
    ensures Sweep(recs, i, now) == recs[..i] + Unexpired(recs[i..], now)
    decreases |recs| - i
  {
    if i < |recs| {
      assert recs[i..][1..] == recs[i + 1..];
      if Expired(recs[i], now) {
        SweepIsUnexpired(RemoveAt(recs, i), i, now);
        assert RemoveAt(recs, i)[..i] == recs[..i] && RemoveAt(recs, i)[i..] == recs[i + 1..];
      } else {
        SweepIsUnexpired(recs, i + 1, now);
        assert recs[..i + 1] == recs[..i] + [recs[i]];
      }
    }
  }

  lemma SweepAll(recs: seq<Record>, now: nat)
    ensures Sweep(recs, 0, now) == Unexpired(recs, now)
  {
    SweepIsUnexpired(recs, 0, now);
    assert recs[..0] + Unexpired(recs[0..], now) == Unexpired(recs, now) by {
      assert recs[0..] == recs;
    }
  }
}
