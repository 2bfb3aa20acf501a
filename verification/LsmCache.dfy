/**
 The decision cache of the security hooks: inserts go to the head of a hash chain, duplicates are kept
 and nothing is ever freed.
 */
module LsmCache {
  import opened Common

  const TTL_NS := 60 * 1_000_000_000

  datatype Entry = Entry(inodeHash: nat, decision: nat, expiresNs: nat)

  predicate Live(e: Entry, inodeHash: nat, now: nat) {
    e.inodeHash == inodeHash && now < e.expiresNs
  }

  /** The first live entry of the hash in a chain, from index i on. */
  function FirstLive(chain: seq<Entry>, inodeHash: nat, now: nat, i: nat): Option<Entry>
    requires i <= |chain|
    decreases |chain| - i
  {
    if i == |chain| then None
    else if Live(chain[i], inodeHash, now) then Some(chain[i])
    else FirstLive(chain, inodeHash, now, i + 1)
  }

  // ----- the cache as the log of all inserts, oldest first

  /** Chain b: the inserts of its bucket, newest first. */
  ghost function Chain(log: seq<Entry>, bucketOf: nat -> nat, b: nat): seq<Entry> {
    if log == [] then []
    else
      var last := log[|log| - 1];
      (if bucketOf(last.inodeHash) == b then [last] else []) + Chain(log[..|log| - 1], bucketOf, b)
  }

  /** The newest insert of a hash that is still live. */
  function NewestLive(log: seq<Entry>, inodeHash: nat, now: nat): Option<Entry> {
    if log == [] then None
    else if Live(log[|log| - 1], inodeHash, now) then Some(log[|log| - 1])
    else NewestLive(log[..|log| - 1], inodeHash, now)
  }

  /** The newest insert of a hash. */
  function Newest(log: seq<Entry>, inodeHash: nat): Option<Entry> {
    if log == [] then None
    else if log[|log| - 1].inodeHash == inodeHash then Some(log[|log| - 1])
    else Newest(log[..|log| - 1], inodeHash)
  }

  lemma {:induction false} FirstLiveShift(e: Entry, chain: seq<Entry>, inodeHash: nat, now: nat, i: nat)
    requires i <= |chain|
    ensures FirstLive([e] + chain, inodeHash, now, i + 1) == FirstLive(chain, inodeHash, now, i)
    decreases |chain| - i
  {
    if i < |chain| {
      FirstLiveShift(e, chain, inodeHash, now, i + 1);
    }
  }

  /** Searching the one chain of a hash finds the newest live insert among all inserts. */
  lemma {:induction false} ChainFindsNewestLive(log: seq<Entry>, bucketOf: nat -> nat, inodeHash: nat, now: nat)
    ensures FirstLive(Chain(log, bucketOf, bucketOf(inodeHash)), inodeHash, now, 0) == NewestLive(log, inodeHash, now)
  {
    if log != [] {
      var before, last := log[..|log| - 1], log[|log| - 1];
      var b := bucketOf(inodeHash);
      ChainFindsNewestLive(before, bucketOf, inodeHash, now);
      if bucketOf(last.inodeHash) == b {
        FirstLiveShift(last, Chain(before, bucketOf, b), inodeHash, now, 0);
      } else {
        assert [] + Chain(before, bucketOf, b) == Chain(before, bucketOf, b);
      }
    }
  }

  /** What the map of last inserts says: the newest insert of the hash, while it is less than 60 seconds old. */
  function LastWrite(log: seq<Entry>, inodeHash: nat, now: nat): Option<Entry> {
    var newest := Newest(log, inodeHash);
    if newest.Some? && now < newest.value.expiresNs then newest else None
  }

  /** No insert of the hash expires after the newest one. */
  ghost predicate NewestOutlives(log: seq<Entry>, inodeHash: nat) {
    Newest(log, inodeHash).Some? ==>
      forall e :: e in log && e.inodeHash == inodeHash ==> e.expiresNs <= Newest(log, inodeHash).value.expiresNs
  }

  lemma {:induction false} NewestLiveExactly(log: seq<Entry>, inodeHash: nat, now: nat)
    ensures var r := NewestLive(log, inodeHash, now);
            && (r.Some? <==> exists e :: e in log && Live(e, inodeHash, now))
            && (r.Some? ==> Live(r.value, inodeHash, now) && r.value in log)
            && (LastWrite(log, inodeHash, now).Some? ==> r == LastWrite(log, inodeHash, now))
  {
    if log != [] {
      var before, last := log[..|log| - 1], log[|log| - 1];
      assert log == before + [last];
      NewestLiveExactly(before, inodeHash, now);
    }
  }

  lemma {:induction false} NewestExists(log: seq<Entry>, inodeHash: nat)
    ensures Newest(log, inodeHash).Some? <==> exists e :: e in log && e.inodeHash == inodeHash
    ensures Newest(log, inodeHash).Some? ==> Newest(log, inodeHash).value in log
  {
    if log != [] {
      var before, last := log[..|log| - 1], log[|log| - 1];
      assert log == before + [last];
      NewestExists(before, inodeHash);
    }
  }

  /** A lookup answers with the last insert at every time exactly if no insert of the hash outlives the newest one. */
  lemma LastWriteExactly(log: seq<Entry>, bucketOf: nat -> nat, inodeHash: nat)
    ensures (forall now: nat :: FirstLive(Chain(log, bucketOf, bucketOf(inodeHash)), inodeHash, now, 0)
                                == LastWrite(log, inodeHash, now))
            <==> NewestOutlives(log, inodeHash)
  {
    var chain := Chain(log, bucketOf, bucketOf(inodeHash));
    forall now: nat
      ensures FirstLive(chain, inodeHash, now, 0) == NewestLive(log, inodeHash, now)
    {
      ChainFindsNewestLive(log, bucketOf, inodeHash, now);
    }
    if NewestOutlives(log, inodeHash) {
      forall now: nat
        ensures NewestLive(log, inodeHash, now) == LastWrite(log, inodeHash, now)
      {
        NewestLiveExactly(log, inodeHash, now);
        NewestExists(log, inodeHash);
      }
    } else {
      var now := Newest(log, inodeHash).value.expiresNs;
      var e :| e in log && e.inodeHash == inodeHash && now < e.expiresNs;
      NewestLiveExactly(log, inodeHash, now);
      assert Live(e, inodeHash, now);
      assert NewestLive(log, inodeHash, now) != LastWrite(log, inodeHash, now);
    }
  }

  /** The entries were linked in the order in which the clock was read for them. */
  ghost predicate Ordered(log: seq<Entry>) {
    forall i, j :: 0 <= i < j < |log| ==> log[i].expiresNs <= log[j].expiresNs
  }

  lemma {:induction false} NewestIsLast(log: seq<Entry>, inodeHash: nat)
    requires Ordered(log)
    ensures NewestOutlives(log, inodeHash)
  {
    if log != [] && log[|log| - 1].inodeHash != inodeHash {
      var before := log[..|log| - 1];
      assert log == before + [log[|log| - 1]];
      NewestIsLast(before, inodeHash);
    }
  }

  /**
   The cache refines the map of last inserts if the entries were linked in the order of their clock readings: a lookup
   succeeds exactly when the newest insert for the hash is less than 60 seconds old, and returns its decision.
   */
  lemma LookupIsLastWrite(log: seq<Entry>, bucketOf: nat -> nat, inodeHash: nat, now: nat)
    requires Ordered(log)
    ensures FirstLive(Chain(log, bucketOf, bucketOf(inodeHash)), inodeHash, now, 0) == LastWrite(log, inodeHash, now)
  {
    NewestIsLast(log, inodeHash);
    LastWriteExactly(log, bucketOf, inodeHash);
  }

  // ----- concurrent inserts: the clock is read before the lock is taken

  /** An insert makes its entry with the time it reads, and links it in a later step of its own. */
  datatype Op = Make(thread: nat, inodeHash: nat, decision: nat, now: nat) | Link(thread: nat)

  datatype World = World(clock: nat, made: map<nat, Entry>, log: seq<Entry>)

  predicate Enabled(w: World, op: Op) {
    match op
    case Make(t, _, _, now) => t !in w.made && now >= w.clock
    case Link(t) => t in w.made
  }

  function Next(w: World, op: Op): World
    requires Enabled(w, op)
  {
    match op
    case Make(t, h, d, now) => World(now, w.made[t := Entry(h, d, now + TTL_NS)], w.log)
    case Link(t) => World(w.clock, w.made - {t}, w.log + [w.made[t]])
  }

  function Run(ops: seq<Op>): Option<World> {
    if ops == [] then Some(World(0, map[], []))
    else
      var before := Run(ops[..|ops| - 1]);
      if before.None? || !Enabled(before.value, ops[|ops| - 1]) then None else Some(Next(before.value, ops[|ops| - 1]))
  }

  /** Every insert is linked before the next reads the clock. */
  predicate OneByOne(ops: seq<Op>) {
    ops == [] ||
    var last := |ops| - 1;
    OneByOne(ops[..last]) && if last % 2 == 0 then ops[last].Make? else ops[last] == Link(ops[last - 1].thread)
  }

  /** Inserts that do not overlap are linked in order, and so the last one answers. */
  lemma {:induction false} OneByOneIsOrdered(ops: seq<Op>)
    requires Run(ops).Some? && OneByOne(ops)
    ensures Ordered(Run(ops).value.log)
    ensures forall e :: e in Run(ops).value.log ==> e.expiresNs <= Run(ops).value.clock + 60_000_000_000
    ensures |ops| % 2 == 1 ==>
              var t := ops[|ops| - 1].thread;
              t in Run(ops).value.made && Run(ops).value.made[t].expiresNs == Run(ops).value.clock + 60_000_000_000
    decreases |ops|
  {
    if ops != [] {
      var before, op := ops[..|ops| - 1], ops[|ops| - 1];
      OneByOneIsOrdered(before);
    }
  }

  /**
   The clock of a run never goes back, and still two inserts that overlap can be linked in the other order. Once the
   one linked last has expired, the other still answers, however far apart the two clock readings were.
   */
  lemma OverlapAnswersOld(first: nat, last: nat, inodeHash: nat, t1: nat, t2: nat, now: nat)
    requires t1 < t2 && t1 + 60_000_000_000 <= now < t2 + 60_000_000_000
    ensures var run := Run([Make(1, inodeHash, last, t1), Make(2, inodeHash, first, t2), Link(2), Link(1)]);
            && run.Some?
            && Newest(run.value.log, inodeHash) == Some(Entry(inodeHash, last, t1 + 60_000_000_000))
            && LastWrite(run.value.log, inodeHash, now) == None
            && NewestLive(run.value.log, inodeHash, now) == Some(Entry(inodeHash, first, t2 + 60_000_000_000))
  {
    var o1, o2, o3, o4 := Make(1, inodeHash, last, t1), Make(2, inodeHash, first, t2), Link(2), Link(1);
    var e1, e2 := Entry(inodeHash, last, t1 + TTL_NS), Entry(inodeHash, first, t2 + TTL_NS);
    assert [o1, o2, o3, o4][..3] == [o1, o2, o3] && [o1, o2, o3][..2] == [o1, o2] && [o1, o2][..1] == [o1];
    assert [o1][..0] == [];
    assert Run([o1]) == Some(World(t1, map[1 := e1], []));
    assert Run([o1, o2]) == Some(World(t2, map[1 := e1, 2 := e2], []));
    assert [] + [e2] == [e2] && map[1 := e1, 2 := e2] - {2} == map[1 := e1];
    assert Run([o1, o2, o3]) == Some(World(t2, map[1 := e1], [e2]));
    assert Run([o1, o2, o3, o4]).value.log == [e2, e1];
    assert [e2, e1][..1] == [e2];
  }

  // ----- the program's table

  class Cache {
    const bucketOf: nat -> nat
    var chains: seq<seq<Entry>>
    var count: nat
    ghost var log: seq<Entry>

    ghost predicate Valid()
      reads this
    {
      && (forall h :: bucketOf(h) < |chains|)
      && (forall b :: 0 <= b < |chains| ==> chains[b] == Chain(log, bucketOf, b))
      && count == |log|
    }

    constructor ()
      ensures Valid() && log == [] && |chains| == 4096
    {
      bucketOf := h => h % 4096;
      chains, count, log := seq(4096, _ => []), 0, [];
    }

    /** Done without the lock; None when no memory is left. */
    method MakeEntry(inodeHash: nat, decision: nat, now: nat, memory: bool) returns (r: Option<Entry>)
      ensures r == if memory then Some(Entry(inodeHash, decision, now + TTL_NS)) else None
    {
      return if memory then Some(Entry(inodeHash, decision, now + TTL_NS)) else None;
    }

    /** Done with the lock held. */
    method LinkEntry(e: Entry)
      requires Valid()
      modifies this
      ensures Valid() && log == old(log) + [e]
    {
      var b := bucketOf(e.inodeHash);
      chains := chains[b := [e] + chains[b]];
      count := count + 1;
      log := log + [e];
      assert log[..|log| - 1] == old(log);
      forall c | 0 <= c < |chains|
        ensures chains[c] == Chain(log, bucketOf, c)
      {
        assert [] + old(chains[c]) == old(chains[c]);
      }
    }

    /** The whole insert when no other one comes between; now may be any reading of the clock. */
    method Insert(inodeHash: nat, decision: nat, now: nat, memory: bool) returns (ok: bool)
      requires Valid()
      modifies this
      ensures Valid() && ok == memory
      ensures log == old(log) + if ok then [Entry(inodeHash, decision, now + TTL_NS)] else []
    {
      var e := MakeEntry(inodeHash, decision, now, memory);
      if e.None? {
        return false;
      }
      LinkEntry(e.value);
      return true;
    }

    method Lookup(inodeHash: nat, now: nat) returns (r: Option<nat>)
      requires Valid()
      ensures match NewestLive(log, inodeHash, now)
              case None => r == None
              case Some(e) => r == Some(e.decision)
    {
      ChainFindsNewestLive(log, bucketOf, inodeHash, now);
      var chain := chains[bucketOf(inodeHash)];
      for i := 0 to |chain|
        invariant FirstLive(chain, inodeHash, now, i) == FirstLive(chain, inodeHash, now, 0)
      {
        if Live(chain[i], inodeHash, now) {
          return Some(chain[i].decision);
        }
      }
      return None;
    }
  }
}
