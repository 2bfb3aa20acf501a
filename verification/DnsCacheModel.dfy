/**
 The DNS cache as a state machine over values: the entries in LRU order and the counter beside them. All
 results about runs are proved here; the class in DnsCache.dfy refines these steps.
 */
module DnsCacheModel {
  import opened Common
  import opened Keys

  const CACHE_SIZE := 1024
  const TTL_NS := 300_000 * 1_000_000

  datatype Record = Record(host: string, ipv4: nat, expiresNs: nat)

  datatype State = State(recs: seq<Record>, count: nat)

  datatype Reply = Found(ipv4: nat) | NoEntry | Ok | NoMemory

  datatype Op =
    | Lookup(host: string, now: nat)
    | Insert(host: string, ipv4: nat, now: nat, memory: bool)
    | Flush

  const EMPTY := State([], 0)

  /** Longer names are cut off when they are stored. */
  predicate StoredInFull(ops: seq<Op>) {
    forall i :: 0 <= i < |ops| && ops[i].Insert? ==> |ops[i].host| < 256
  }

  function Find(recs: seq<Record>, host: string): (k: int)
    ensures k == -1 ==> forall j :: 0 <= j < |recs| ==> recs[j].host != host
    ensures k != -1 ==> 0 <= k < |recs| && recs[k].host == host
  {
    FindKey(recs, (r: Record) => r.host, host, 0)
  }

  // ----- the steps, for a cache of any size above 0

  function LookupStep(s: State, host: string, now: nat): (State, Reply) {
    var k := Find(s.recs, host);
    if k == -1 || s.recs[k].expiresNs <= now then (s, NoEntry)
    else (s.(recs := MoveToFront(s.recs, k)), Found(s.recs[k].ipv4))
  }

  /** The program takes the tail of the list without looking whether there is one. */
  function Evict(s: State, size: nat): State
    requires s.count >= size ==> s.recs != [] && s.count > 0
  {
    if s.count >= size then State(RemoveAt(s.recs, |s.recs| - 1), s.count - 1) else s
  }

  /** A known host keeps its place in the list. */
  function InsertStep(s: State, size: nat, host: string, ipv4: nat, now: nat, memory: bool): (State, Reply)
    requires s.count >= size ==> s.recs != [] && s.count > 0
  {
    var k := Find(s.recs, host);
    if k != -1 then (s.(recs := s.recs[k := Record(host, ipv4, now + TTL_NS)]), Ok)
    else if !memory then (Evict(s, size), NoMemory)
    else
      var t := Evict(s, size);
      (State([Record(host, ipv4, now + TTL_NS)] + t.recs, t.count + 1), Ok)
  }

  function Step(s: State, size: nat, op: Op): (State, Reply)
    requires s.count >= size ==> s.recs != [] && s.count > 0
  {
    match op
    case Lookup(host, now) => LookupStep(s, host, now)
    case Insert(host, ipv4, now, memory) => InsertStep(s, size, host, ipv4, now, memory)
    case Flush => (EMPTY, Ok)
  }

  // ----- the invariant: the list never is empty when an entry must be evicted

  ghost predicate HostsDistinct(recs: seq<Record>) {
    forall i, j :: 0 <= i < j < |recs| ==> recs[i].host != recs[j].host
  }

  ghost predicate Good(s: State, size: nat) {
    HostsDistinct(s.recs) && s.count == |s.recs| <= size
  }

  lemma LookupKeepsGood(s: State, size: nat, host: string, now: nat)
    requires Good(s, size)
    ensures Good(LookupStep(s, host, now).0, size)
  {
  }

  lemma InsertKeepsGood(s: State, size: nat, host: string, ipv4: nat, now: nat, memory: bool)
    requires size > 0 && Good(s, size)
    ensures Good(InsertStep(s, size, host, ipv4, now, memory).0, size)
  {
  }

  /** Every step is defined and leaves distinct hosts, counted exactly and no more than the size. */
  lemma StepKeepsGood(s: State, size: nat, op: Op)
    requires size > 0 && Good(s, size)
    ensures Good(Step(s, size, op).0, size)
  {
    if op.Lookup? {
      LookupKeepsGood(s, size, op.host, op.now);
    } else if op.Insert? {
      InsertKeepsGood(s, size, op.host, op.ipv4, op.now, op.memory);
    }
  }

  // ----- runs

  ghost function Run(size: nat, ops: seq<Op>): (s: State)
    requires size > 0
    ensures Good(s, size)
  {
    if ops == [] then EMPTY
    else
      var s := Run(size, ops[..|ops| - 1]);
      StepKeepsGood(s, size, ops[|ops| - 1]);
      Step(s, size, ops[|ops| - 1]).0
  }

  ghost function LastReply(size: nat, ops: seq<Op>): Reply
    requires size > 0 && ops != []
  {
    Step(Run(size, ops[..|ops| - 1]), size, ops[|ops| - 1]).1
  }

  /** The latest successful insert of a host. */
  ghost function LatestInsert(size: nat, ops: seq<Op>, host: string): Option<Op>
    requires size > 0
    ensures LatestInsert(size, ops, host).Some? ==> LatestInsert(size, ops, host).value.Insert?
  {
    if ops == [] then None
    else
      var op := ops[|ops| - 1];
      if op.Insert? && op.host == host && LastReply(size, ops).Ok? then Some(op)
      else LatestInsert(size, ops[..|ops| - 1], host)
  }

  // ----- recency: what the cache ought to hold, read off the operations and their replies

  function Hosts(recs: seq<Record>): (r: seq<string>)
    ensures |r| == |recs| && forall i :: 0 <= i < |recs| ==> r[i] == recs[i].host
  {
    seq(|recs|, i requires 0 <= i < |recs| => recs[i].host)
  }

  function Renewed(hosts: seq<string>, host: string): seq<string> {
    [host] + if host in hosts then Without(hosts, host) else hosts
  }

  /**
   What a cache ought to remember: all hosts added or found since the last flush, the latest first and without a bound,
   and how many of them are cached.
   */
  datatype Memory = Memory(recency: seq<string>, cached: nat)

  function CachedHosts(m: Memory): seq<string> {
    m.recency[..Min(m.cached, |m.recency|)]
  }

  /** How many are left when one more is to be added. */
  function Room(cached: nat, size: nat): nat {
    if cached >= size && cached > 0 then cached - 1 else cached
  }

  /** Inserting a host that is already cached does not count; making room does, also for one that is not added then. */
  function Remember(m: Memory, size: nat, op: Op, reply: Reply): Memory {
    if op.Flush? then Memory([], 0)
    else if reply.Found? then m.(recency := Renewed(m.recency, op.host))
    else if reply.Ok? && op.host !in CachedHosts(m) then Memory(Renewed(m.recency, op.host), Room(m.cached, size) + 1)
    else if reply.NoMemory? then m.(cached := Room(m.cached, size))
    else m
  }

  /** Read off the operations and their replies. */
  ghost function Remembered(size: nat, ops: seq<Op>): Memory
    requires size > 0
  {
    if ops == [] then Memory([], 0)
    else Remember(Remembered(size, ops[..|ops| - 1]), size, ops[|ops| - 1], LastReply(size, ops))
  }

  /** The cache is the front of the recency list, cut off no earlier than one short of the size. */
  ghost predicate IsFront(cached: seq<string>, recency: seq<string>, size: nat) {
    && |cached| <= |recency| && cached == recency[..|cached|]
    && NoDuplicates(recency) && |cached| >= Min(|recency|, size - 1)
  }

  lemma RenewedDistinct(hosts: seq<string>, host: string)
    requires NoDuplicates(hosts)
    ensures NoDuplicates(Renewed(hosts, host))
  {
    if host in hosts {
      WithoutElements(hosts, host);
    }
  }

  lemma FoundKeepsFront(cached: seq<string>, recency: seq<string>, size: nat, k: nat)
    requires IsFront(cached, recency, size) && k < |cached|
    ensures IsFront(MoveToFront(cached, k), Renewed(recency, cached[k]), size)
  {
    var host := cached[k];
    assert recency[k] == host;
    RenewedDistinct(recency, host);
    assert IndexOf(recency, host) == k;
    assert Renewed(recency, host) == [host] + RemoveAt(recency, k);
  }

  lemma FirstIsBehind(cached: seq<string>, recency: seq<string>, host: string)
    requires cached <= recency && host !in cached && host in recency
    ensures |cached| <= IndexOf(recency, host)
  {
    assert forall j :: 0 <= j < |cached| ==> recency[j] == cached[j];
  }

  lemma RenewedKeepsPrefix(cached: seq<string>, recency: seq<string>, host: string)
    requires cached <= recency && host !in cached
    ensures [host] + cached <= Renewed(recency, host)
  {
    if host in recency {
      FirstIsBehind(cached, recency, host);
      assert cached <= Without(recency, host);
    }
  }

  lemma AddedKeepsFront(cached: seq<string>, recency: seq<string>, size: nat, host: string, n: nat)
    requires IsFront(cached, recency, size) && host !in cached && n <= |cached|
    requires n == |cached| || n == size - 1
    ensures IsFront([host] + cached[..n], Renewed(recency, host), size)
  {
    RenewedDistinct(recency, host);
    RenewedKeepsPrefix(cached, recency, host);
    assert [host] + cached[..n] <= [host] + cached;
  }

  /** The state holds what it ought to remember. */
  ghost predicate Recalls(s: State, size: nat, m: Memory) {
    s.count == m.cached == |s.recs| && IsFront(Hosts(s.recs), m.recency, size)
  }

  lemma AddRecalls(s: State, size: nat, op: Op, m: Memory)
    requires size > 0 && Good(s, size) && Recalls(s, size, m)
    requires op.Insert? && op.memory && Find(s.recs, op.host) == -1
    ensures var (s', reply) := Step(s, size, op); Recalls(s', size, Remember(m, size, op, reply))
  {
    var cached, n := Hosts(s.recs), |Evict(s, size).recs|;
    assert cached == CachedHosts(m);
    assert op.host !in cached;
    assert Hosts(Step(s, size, op).0.recs) == [op.host] + cached[..n];
    AddedKeepsFront(cached, m.recency, size, op.host, n);
  }

  lemma StepRecalls(s: State, size: nat, op: Op, m: Memory)
    requires size > 0 && Good(s, size) && Recalls(s, size, m) && !op.Flush?
    ensures var (s', reply) := Step(s, size, op); Recalls(s', size, Remember(m, size, op, reply))
  {
    var (s', reply) := Step(s, size, op);
    var cached, k := Hosts(s.recs), Find(s.recs, op.host);
    assert cached == CachedHosts(m);
    assert k == -1 ==> op.host !in cached;
    assert k != -1 ==> cached[k] == op.host;
    if reply.Found? {
      assert Hosts(s'.recs) == MoveToFront(cached, k);
      FoundKeepsFront(cached, m.recency, size, k);
    } else if reply.Ok? && k == -1 {
      AddRecalls(s, size, op, m);
    } else if reply.NoMemory? {
      assert Hosts(s'.recs) == cached[..|s'.recs|];
    } else {
      assert Hosts(s'.recs) == cached;
    }
  }

  lemma {:induction false} RunRecalls(size: nat, ops: seq<Op>)
    requires size > 0
    ensures Recalls(Run(size, ops), size, Remembered(size, ops))
  {
    if ops != [] && !ops[|ops| - 1].Flush? {
      RunRecalls(size, ops[..|ops| - 1]);
      StepRecalls(Run(size, ops[..|ops| - 1]), size, ops[|ops| - 1], Remembered(size, ops[..|ops| - 1]));
    }
  }

  /**
   The cached hosts are always the most recently added or found ones, in that order: as many as the operations and
   replies tell, at least size - 1 of them if there are so many, and at most the size.
   */
  lemma {:induction false} HoldsMostRecent(size: nat, ops: seq<Op>)
    requires size > 0 && StoredInFull(ops)
    ensures var m := Remembered(size, ops);
            && Hosts(Run(size, ops).recs) == CachedHosts(m) && Run(size, ops).count == m.cached
            && NoDuplicates(m.recency) && Min(|m.recency|, size - 1) <= m.cached <= Min(|m.recency|, size)
  {
    RunRecalls(size, ops);
  }

  // ----- what a cached entry says

  /** An entry after a step is the one inserted by it, or it was there before. */
  lemma Origin(s: State, size: nat, op: Op, i: nat) returns (k: nat)
    requires size > 0 && Good(s, size) && i < |Step(s, size, op).0.recs|
    ensures var r := Step(s, size, op).0.recs[i];
            if op.Insert? && op.host == r.host && Step(s, size, op).1.Ok?
            then r == Record(op.host, op.ipv4, op.now + TTL_NS)
            else k < |s.recs| && s.recs[k] == r
  {
    k := i;
    if op.Lookup? {
      var f := Find(s.recs, op.host);
      if f != -1 && op.now < s.recs[f].expiresNs {
        k := if i == 0 then f else if i <= f then i - 1 else i;
      }
    } else if op.Insert? && Find(s.recs, op.host) == -1 && op.memory && i > 0 {
      k := i - 1;
    }
  }

  lemma {:induction false} EntriesAreLatest(size: nat, ops: seq<Op>, i: nat)
    requires size > 0 && i < |Run(size, ops).recs|
    ensures var r := Run(size, ops).recs[i];
            var latest := LatestInsert(size, ops, r.host);
            latest.Some? && r.ipv4 == latest.value.ipv4 && r.expiresNs == latest.value.now + 300_000_000_000
  {
    if ops != [] {
      var before, op := ops[..|ops| - 1], ops[|ops| - 1];
      var r := Run(size, ops).recs[i];
      var k := Origin(Run(size, before), size, op, i);
      if !(op.Insert? && op.host == r.host && LastReply(size, ops).Ok?) {
        EntriesAreLatest(size, before, k);
      }
    }
  }

  /**
   A lookup succeeds exactly for a remembered host whose latest insert is under five minutes old, and returns the
   address of that insert.
   */
  lemma LookupExactly(size: nat, ops: seq<Op>, host: string, now: nat)
    requires size > 0 && StoredInFull(ops)
    ensures var latest := LatestInsert(size, ops, host);
            LookupStep(Run(size, ops), host, now).1
            == if host in CachedHosts(Remembered(size, ops)) && latest.Some?
                  && now < latest.value.now + 300_000_000_000
               then Found(latest.value.ipv4) else NoEntry
  {
    var s := Run(size, ops);
    RunRecalls(size, ops);
    var k := Find(s.recs, host);
    if k != -1 {
      EntriesAreLatest(size, ops, k);
      assert Hosts(s.recs)[k] == host;
    }
  }

  /** An insert fails only without memory for a host that is not remembered; a refresh needs none. */
  lemma InsertReplyExactly(size: nat, ops: seq<Op>, add: Op)
    requires size > 0 && StoredInFull(ops) && add.Insert?
    ensures LastReply(size, ops + [add])
            == if add.memory || add.host in CachedHosts(Remembered(size, ops)) then Ok else NoMemory
  {
    RunRecalls(size, ops);
    assert (ops + [add])[..|ops|] == ops;
    var k := Find(Run(size, ops).recs, add.host);
    if k != -1 {
      assert Hosts(Run(size, ops).recs)[k] == add.host;
    }
  }

  /** While fewer hosts than the size were added or found since the last flush, all of them are cached. */
  lemma NothingForgottenBelowSize(size: nat, ops: seq<Op>)
    requires size > 0 && |Remembered(size, ops).recency| < size
    ensures Hosts(Run(size, ops).recs) == Remembered(size, ops).recency
  {
    RunRecalls(size, ops);
  }

  // ----- a refresh is no use

  /** In a full cache of any size from 2 on, refreshing the tail and adding a host drops the refreshed one only. */
  lemma RefreshedIsEvicted(s: State, size: nat, refresh: Op, add: Op)
    requires Good(s, size) && s.count == size >= 2 && refresh.Insert? && add.Insert? && add.memory
    requires refresh.host == s.recs[size - 1].host && Find(s.recs, add.host) == -1
    ensures var refreshed := Step(s, size, refresh).0;
            && Step(s, size, refresh).1 == Ok && refreshed.recs[size - 1].expiresNs == refresh.now + TTL_NS
            && Hosts(Step(refreshed, size, add).0.recs) == [add.host] + Hosts(s.recs)[..size - 1]
            && refresh.host !in Hosts(Step(refreshed, size, add).0.recs)
  {
    var k := Find(s.recs, refresh.host);
    assert k == size - 1;
    var refreshed := Step(s, size, refresh).0;
    assert Hosts(refreshed.recs) == Hosts(s.recs);
    assert Find(refreshed.recs, add.host) == -1;
    assert Hosts(Step(refreshed, size, add).0.recs) == [add.host] + Hosts(s.recs)[..size - 1];
  }

  /** Keys n - 1 down to 0. */
  function KeysDown(n: nat): (r: seq<string>)
    ensures |r| == n && forall i :: 0 <= i < n ==> r[i] == Key(n - 1 - i)
  {
    seq(n, i requires 0 <= i < n => Key(n - 1 - i))
  }

  lemma NextKeyIsNew(recs: seq<Record>, n: nat)
    requires Hosts(recs) == KeysDown(n) && n < KEYS
    ensures Find(recs, Key(n)) == -1
  {
    forall i | 0 <= i < n
      ensures recs[i].host != Key(n)
    {
      assert Hosts(recs)[i] == Key(n - 1 - i);
      KeysDiffer(n - 1 - i, n);
    }
  }

  lemma AddedInFront(s: State, size: nat, op: Op)
    requires op.Insert? && op.memory && s.count < size && Find(s.recs, op.host) == -1
    ensures Hosts(Step(s, size, op).0.recs) == [op.host] + Hosts(s.recs)
  {
  }

  lemma NextKeyAdded(size: nat, before: seq<Op>, n: nat, op: Op)
    requires 0 < size < KEYS && n < size && Hosts(Run(size, before).recs) == KeysDown(n)
    requires op == Insert(Key(n), 0, 0, true)
    ensures Hosts(Run(size, before + [op]).recs) == KeysDown(n + 1)
  {
    assert (before + [op])[..|before|] == before;
    NextKeyIsNew(Run(size, before).recs, n);
    AddedInFront(Run(size, before), size, op);
    assert KeysDown(n + 1) == [Key(n)] + KeysDown(n);
  }

  lemma {:induction false} Filled(size: nat, n: nat) returns (ops: seq<Op>)
    requires 0 < size < KEYS && n <= size
    ensures StoredInFull(ops) && Hosts(Run(size, ops).recs) == KeysDown(n)
  {
    ops := [];
    if n > 0 {
      var before := Filled(size, n - 1);
      var op := Insert(Key(n - 1), 0, 0, true);
      ops := before + [op];
      NextKeyAdded(size, before, n - 1, op);
    }
  }

  /**
   Such a run, for every size: fill the cache, refresh the host added first, add one more. The refreshed host is gone,
   and all hosts added after it, never touched since, are still there.
   */
  lemma RefreshDoesNotProtect(size: nat, ipv4: nat, now: nat) returns (ops: seq<Op>)
    requires 2 <= size < KEYS
    ensures StoredInFull(ops)
    ensures var refresh, add := Insert(Key(0), ipv4, now, true), Insert(Key(size), ipv4, now, true);
            && Hosts(Run(size, ops).recs) == KeysDown(size) && LastReply(size, ops + [refresh]) == Ok
            && Hosts(Run(size, ops + [refresh] + [add]).recs) == [Key(size)] + KeysDown(size)[..size - 1]
            && Key(0) !in Hosts(Run(size, ops + [refresh] + [add]).recs)
  {
    ops := Filled(size, size);
    var s, refresh, add := Run(size, ops), Insert(Key(0), ipv4, now, true), Insert(Key(size), ipv4, now, true);
    assert (ops + [refresh])[..|ops|] == ops;
    assert (ops + [refresh] + [add])[..|ops| + 1] == ops + [refresh];
    assert Hosts(s.recs)[size - 1] == Key(0);
    NextKeyIsNew(s.recs, size);
    RefreshedIsEvicted(s, size, refresh, add);
  }
}
