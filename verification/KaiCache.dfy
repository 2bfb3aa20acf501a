/**
 The key-value cache as the program keeps it: entry objects that sit both in a hash chain and in one
 LRU list, changed in place. Every method refines the step of the same name in KaiCacheModel.
 */
module KaiCache {
  import opened Common
  import opened Djb2
  import opened KaiCacheModel
  import opened LinkedTable

  /** The value of a character: on some machines characters above 127 are negative. */
  function CharValue(c: char, signedChars: bool): int {
    if signedChars && c as int >= 128 then c as int - 256 else c as int
  }

  function Values(key: string, signedChars: bool): (v: seq<int>)
    ensures |v| == |key| && forall i :: 0 <= i < |key| ==> v[i] == CharValue(key[i], signedChars)
  {
    seq(|key|, i requires 0 <= i < |key| => CharValue(key[i], signedChars))
  }

  function KeyHash(key: string, signedChars: bool): nat {
    HashFrom(SEED, Values(key, signedChars), 0x1_0000_0000)
  }

  method ComputeKeyHash(key: string, signedChars: bool) returns (h: nat)
    ensures h == KeyHash(key, signedChars)
  {
    h := SEED;
    ghost var values := Values(key, signedChars);
    for i := 0 to |key|
      invariant HashFrom(h, values[i..], 0x1_0000_0000) == KeyHash(key, signedChars)
    {
      assert values[i..][1..] == values[i + 1..];
      h := (h * 33 + CharValue(key[i], signedChars)) % 0x1_0000_0000;
    }
  }

  /** The characters as a polynomial in 33, those from 128 on less 256 where char is signed, reduced to 32 bits. */
  lemma KeyHashIsPolynomial(key: string, signedChars: bool, values: seq<int>)
    requires |values| == |key|
    requires forall i :: 0 <= i < |key| ==>
                           values[i] == key[i] as int - if signedChars && key[i] as int > 127 then 256 else 0
    ensures KeyHash(key, signedChars) == Polynomial(values) % 0x1_0000_0000
  {
    assert values == Values(key, signedChars);
    HashIsPolynomial(values, 0x1_0000_0000);
  }

  class Entry {
    const key: string
    var data: seq<byte>
    var created: nat
    var lastAccess: nat
    var hitCount: nat
    var valid: bool
    var ttlMs: nat

    constructor (key: string, data: seq<byte>, now: nat, ttlMs: nat)
      ensures this.key == key && View() == Record(key, data, now, now, 0, true, ttlMs)
    {
      this.key, this.data, this.ttlMs := key, data, ttlMs;
      created, lastAccess, hitCount, valid := now, now, 0, true;
    }

    function View(): Record
      reads this
    {
      Record(key, data, created, lastAccess, hitCount, valid, ttlMs)
    }

    method Overwrite(data: seq<byte>, ttlMs: nat, now: nat)
      modifies this
      ensures View() == old(View()).(data := data, lastAccess := now, ttlMs := ttlMs, valid := true)
    {
      this.data, this.ttlMs, lastAccess, valid := data, ttlMs, now, true;
    }

    method RecordHit(later: nat)
      modifies this
      ensures View() == old(View()).(hitCount := old(hitCount) + 1, lastAccess := later)
    {
      hitCount, lastAccess := hitCount + 1, later;
    }

    method Invalidate()
      modifies this
      ensures View() == old(View()).(valid := false)
    {
      valid := false;
    }
  }

  /** The records are what the entries hold. */
  ghost predicate Shows(es: seq<Entry>, recs: seq<Record>)
    reads es
  {
    |es| == |recs| && forall i :: 0 <= i < |es| ==> es[i].View() == recs[i]
  }

  lemma MovedShows(es: seq<Entry>, k: nat, recs: seq<Record>, r: Record)
    requires k < |es| == |recs| && es[k].View() == r
    requires forall i :: 0 <= i < |es| && i != k ==> es[i].View() == recs[i]
    ensures Shows(MoveToFront(es, k), [r] + RemoveAt(recs, k))
  {
  }

  lemma AddedShows(es: seq<Entry>, recs: seq<Record>, e: Entry)
    requires Shows(es, recs) && Find(recs, e.key) == -1
    ensures Shows([e] + es, [e.View()] + recs) && e !in es
  {
  }

  lemma AddedKeysDistinct(recs: seq<Record>, r: Record)
    requires KeysDistinct(recs) && Find(recs, r.key) == -1
    ensures KeysDistinct([r] + recs)
  {
  }

  // ----- the cache

  function Log2(n: nat): (k: nat)
    requires n > 0
  {
    if n == 1 then 0 else 1 + Log2(n / 2)
  }

  const MAX_ENTRIES := 4096

  /** Of a maximum of 0 the kernel's ilog2 yields -1. */
  function HashBits(maxEntries: nat): nat {
    if maxEntries == 0 then 0 else Log2(maxEntries) + 1
  }

  /** The table has more buckets than the maximum, and at most twice as many. */
  lemma {:induction false} TableSize(maxEntries: nat)
    requires maxEntries > 0
    ensures maxEntries < Pow2(HashBits(maxEntries)) <= 2 * maxEntries
  {
    if maxEntries > 1 {
      TableSize(maxEntries / 2);
    }
  }

  lemma ShowsWithout(es: seq<Entry>, recs: seq<Record>, k: nat)
    requires Shows(es, recs) && KeysDistinct(recs) && k < |recs|
    ensures Shows(RemoveAt(es, k), RemoveAt(recs, k)) && KeysDistinct(RemoveAt(recs, k))
  {
  }

  class Cache {
    const maxEntries: nat
    const signedChars: bool
    const size: nat
    var table: seq<seq<Entry>>
    var lru: seq<Entry>
    var hits: nat
    var misses: nat
    var evictions: nat
    var expirations: nat
    var inserts: int
    var totalSize: nat
    ghost var buckets: seq<nat>
    ghost var state: State

    function Bucket(key: string): nat
      requires size > 0
    {
      KeyHash(key, signedChars) % size
    }

    /** The chains and the LRU list hold the same entries, each in the bucket of its key. */
    ghost predicate LinksValid()
      reads this`table, this`lru, this`buckets
    {
      && |table| == size > 0 && Linked(lru, buckets, table)
      && forall i :: 0 <= i < |lru| ==> buckets[i] == Bucket(lru[i].key)
    }

    ghost function CurrentStats(): Stats
      reads this
    {
      Stats(hits, misses, evictions, expirations, inserts, totalSize)
    }

    /** The ghost state is what the objects and counters hold; there is one entry per key. */
    ghost predicate Valid()
      reads this, lru
    {
      LinksValid() && Shows(lru, state.recs) && state.stats == CurrentStats() && KeysDistinct(state.recs)
    }

    /** A maximum of 0 asks for the default, but the table is sized before that. */
    constructor (maxEntries: nat, signedChars: bool)
      ensures Valid() && state == EMPTY && this.signedChars == signedChars
      ensures this.maxEntries == if maxEntries == 0 then MAX_ENTRIES else maxEntries
      ensures |table| == Pow2(HashBits(maxEntries))
    {
      this.maxEntries := if maxEntries == 0 then MAX_ENTRIES else maxEntries;
      this.signedChars, this.size := signedChars, Pow2(HashBits(maxEntries));
      table := seq(Pow2(HashBits(maxEntries)), _ => []);
      lru, inserts, buckets := [], 0, [];
      hits, misses, evictions, expirations, totalSize := 0, 0, 0, 0, 0;
      state := EMPTY;
    }

    /** A bucket search finds exactly what a linear search of all entries would. */
    method FindEntry(key: string) returns (found: Option<Entry>)
      requires Valid()
      ensures found.None? <==> Find(state.recs, key) == -1
      ensures found.Some? ==> Find(state.recs, key) >= 0 && found.value == lru[Find(state.recs, key)]
    {
      var chain := table[Bucket(key)];
      ghost var f := Find(state.recs, key);
      if f >= 0 {
        InChain(lru, buckets, table, f);
      }
      for i := 0 to |chain|
        invariant forall j :: 0 <= j < i ==> chain[j].key != key
      {
        if chain[i].key == key {
          ghost var k := InList(lru, buckets, table, Bucket(key), i);
          FindUnique(state.recs, key, k);
          return Some(chain[i]);
        }
      }
      return None;
    }

    /** hash_del and list_del. */
    method Unlink(e: Entry, ghost k: nat)
      requires LinksValid() && k < |lru| && lru[k] == e
      modifies this`lru, this`table, this`buckets
      ensures LinksValid() && lru == RemoveAt(old(lru), k)
      ensures Elements(lru) <= old(Elements(lru))
    {
      UnlinkKeepsLinked(lru, buckets, table, k);
      RemoveAtElements(lru, k);
      assert IndexOf(lru, e) == k;
      var b := Bucket(e.key);
      table := table[b := Without(table[b], e)];
      lru := Without(lru, e);
      buckets := RemoveAt(buckets, k);
    }

    /** hash_add and list_add: both at the head. */
    method Link(e: Entry)
      requires LinksValid() && e !in lru
      modifies this`lru, this`table, this`buckets
      ensures LinksValid() && lru == [e] + old(lru)
    {
      var b := Bucket(e.key);
      LinkKeepsLinked(lru, buckets, table, e, b);
      table := table[b := [e] + table[b]];
      lru := [e] + lru;
      buckets := [b] + buckets;
    }

    /** list_move to the head. */
    method Touch(e: Entry, ghost k: nat)
      requires LinksValid() && k < |lru| && lru[k] == e
      modifies this`lru, this`buckets
      ensures LinksValid() && lru == MoveToFront(old(lru), k) && Elements(lru) == old(Elements(lru))
    {
      TouchKeepsLinked(lru, buckets, table, k);
      assert IndexOf(lru, e) == k;
      lru := [e] + Without(lru, e);
      buckets := MoveToFront(buckets, k);
    }

    lemma OthersUnchanged(e: Entry, k: nat)
      requires LinksValid() && k < |lru| && lru[k] == e
      ensures forall i :: 0 <= i < |lru| && i != k ==> lru[i] != e
    {
    }

    /** The test for a victim is read as one for an empty list. */
    method EvictOldest()
      requires Valid()
      modifies this
      ensures Valid() && state == Evict(old(state), maxEntries)
      ensures Elements(lru) <= old(Elements(lru))
    {
      if (inserts < 0 || inserts >= maxEntries) && lru != [] {
        Unlink(lru[|lru| - 1], |lru| - 1);
        evictions := evictions + 1;
        state := Evict(state, maxEntries);
      }
    }

    /** Moves an entry that just changed, and brings the ghost state up to date. */
    method PlaceInFront(e: Entry, ghost k: nat)
      requires LinksValid() && k < |lru| == |state.recs| && lru[k] == e && e.key == state.recs[k].key
      requires KeysDistinct(state.recs) && forall i :: 0 <= i < |lru| && i != k ==> lru[i].View() == state.recs[i]
      modifies this`lru, this`buckets, this`state
      ensures Valid() && Elements(lru) == old(Elements(lru))
      ensures state == State([e.View()] + RemoveAt(old(state).recs, k), CurrentStats())
    {
      ghost var recs := [e.View()] + RemoveAt(state.recs, k);
      MovedShows(lru, k, state.recs, e.View());
      ToFrontKeepsKeys(state.recs, k, e.View());
      state := State(recs, CurrentStats());
      Touch(e, k);
    }

    method UpdateEntry(e: Entry, ghost k: nat, data: seq<byte>, ttlMs: nat, now: nat)
      requires Valid() && k < |lru| && lru[k] == e
      modifies this, lru
      ensures Valid() && Elements(lru) == old(Elements(lru))
      ensures state == Updated(old(state), k, data, ttlMs, now)
    {
      OthersUnchanged(e, k);
      e.Overwrite(data, ttlMs, now);
      inserts := inserts + 1;
      PlaceInFront(e, k);
    }

    method InsertEntry(e: Entry)
      requires Valid() && Find(state.recs, e.key) == -1
      modifies this
      ensures Valid() && lru == [e] + old(lru)
      ensures state.recs == [e.View()] + old(state).recs
      ensures state.stats == old(state).stats.(inserts := old(state).stats.inserts + 1,
                                               totalSize := old(state).stats.totalSize + |e.data|)
    {
      AddedShows(lru, state.recs, e);
      AddedKeysDistinct(state.recs, e.View());
      inserts, totalSize := inserts + 1, totalSize + |e.data|;
      state := State([e.View()] + state.recs, CurrentStats());
      Link(e);
    }

    lemma EvictedIsAbsent(s: State, key: string)
      requires Find(s.recs, key) == -1
      ensures Find(Evict(s, maxEntries).recs, key) == -1
    {
    }

    method PutNew(key: string, data: seq<byte>, ttlMs: nat, now: nat)
      requires Valid() && Find(state.recs, key) == -1
      modifies this
      ensures Valid() && fresh(Elements(lru) - old(Elements(lru)))
      ensures state == Added(old(state), key, data, ttlMs, now)
    {
      var e := new Entry(key, data, now, ttlMs);
      InsertEntry(e);
    }

    method PutEx(key: string, data: seq<byte>, ttlMs: nat, now: nat, dataOk: bool, entryOk: bool) returns (r: Status)
      requires Valid() && |key| < 64
      modifies this, lru
      ensures Valid() && fresh(Elements(lru) - old(Elements(lru)))
      ensures (state, r) == PutStep(old(state), maxEntries, key, data, ttlMs, now, dataOk, entryOk)
    {
      if data == [] {
        return InvalidArgument;
      }
      if !dataOk {
        return NoMemory;
      }
      var found := FindEntry(key);
      if found.Some? {
        UpdateEntry(found.value, Find(state.recs, key), data, ttlMs, now);
        return Ok;
      }
      EvictOldest();
      if !entryOk {
        return NoMemory;
      }
      EvictedIsAbsent(old(state), key);
      PutNew(key, data, ttlMs, now);
      return Ok;
    }

    method Get(key: string, now: nat, later: nat, capacity: Option<nat>) returns (r: Lookup)
      requires Valid()
      modifies this, lru
      ensures Valid() && Elements(lru) == old(Elements(lru))
      ensures (state, r) == GetStep(old(state), key, now, later, capacity)
    {
      var found := FindEntry(key);
      if found.None? {
        CountMiss();
        return Miss;
      }
      ghost var k := Find(state.recs, key);
      if Expired(found.value.View(), now) {
        ExpireEntry(found.value, k);
        return Miss;
      }
      r := Hit(CopyOut(found.value.data, capacity));
      HitEntry(found.value, k, later);
    }

    method CountMiss()
      requires Valid()
      modifies this`misses, this`state
      ensures Valid() && state == old(state).(stats := old(state).stats.(misses := old(state).stats.misses + 1))
    {
      misses := misses + 1;
      state := state.(stats := state.stats.(misses := state.stats.misses + 1));
    }

    method ExpireEntry(e: Entry, ghost k: nat)
      requires Valid() && k < |lru| && lru[k] == e
      modifies this`expirations, this`state, e
      ensures Valid() && state == Invalidated(old(state), k)
    {
      OthersUnchanged(e, k);
      e.Invalidate();
      expirations := expirations + 1;
      state := Invalidated(state, k);
    }

    method HitEntry(e: Entry, ghost k: nat, later: nat)
      requires Valid() && k < |lru| && lru[k] == e
      modifies this, e
      ensures Valid() && Elements(lru) == old(Elements(lru))
      ensures state == Touched(old(state), k, later)
    {
      OthersUnchanged(e, k);
      ghost var r := state.recs[k];
      assert e.View() == r;
      e.RecordHit(later);
      assert e.View() == r.(hitCount := r.hitCount + 1, lastAccess := later);
      hits := hits + 1;
      PlaceInFront(e, k);
    }

    method Remove(key: string) returns (r: Status)
      requires Valid()
      modifies this
      ensures Valid() && Elements(lru) <= old(Elements(lru))
      ensures (state, r) == RemoveStep(old(state), key)
    {
      var found := FindEntry(key);
      if found.None? {
        return NotFound;
      }
      RemoveEntry(found.value, Find(state.recs, key));
      return Ok;
    }

    method RemoveEntry(e: Entry, ghost k: nat)
      requires Valid() && k < |lru| && lru[k] == e
      modifies this
      ensures Valid() && Elements(lru) <= old(Elements(lru))
      ensures state == Dropped(old(state), k)
    {
      ShowsWithout(lru, state.recs, k);
      Unlink(e, k);
      inserts := inserts - 1;
      state := Dropped(state, k);
    }

    method Flush() returns (count: nat)
      requires Valid()
      modifies this
      ensures Valid() && lru == []
      ensures (state, count) == FlushStep(old(state))
    {
      count := 0;
      while lru != []
        invariant LinksValid() && count + |lru| == |old(lru)| && CurrentStats() == old(CurrentStats())
        invariant state == old(state)
        decreases |lru|
      {
        Unlink(lru[0], 0);
        count := count + 1;
      }
      inserts, totalSize := 0, 0;
      state := FlushStep(state).0;
    }

    /** Walks the list and unlinks the expired entries; i entries at the front were kept so far. */
    method FlushExpired(now: nat) returns (count: nat)
      requires Valid()
      modifies this`lru, this`table, this`buckets, this`expirations, this`state
      ensures Valid()
      ensures (state, count) == FlushExpiredStep(old(state), now)
    {
      count := 0;
      var i := 0;
      ghost var was := state;
      while i < |lru|
        invariant 0 <= i <= |lru| && Valid() && |state.recs| + count == |was.recs|
        invariant Sweep(state.recs, i, now) == Sweep(was.recs, 0, now)
        invariant state.stats == was.stats.(expirations := was.stats.expirations + count)
        decreases |lru| - i
      {
        var dropped := SweepNext(i, now);
        if dropped {
          count := count + 1;
        } else {
          i := i + 1;
        }
      }
      SweepAll(was.recs, now);
    }

    /** One turn of that loop. */
    method SweepNext(i: nat, now: nat) returns (dropped: bool)
      requires Valid() && i < |lru|
      modifies this`lru, this`table, this`buckets, this`expirations, this`state
      ensures Valid() && |lru| == |old(lru)| - if dropped then 1 else 0
      ensures Sweep(state.recs, if dropped then i else i + 1, now) == Sweep(old(state).recs, i, now)
      ensures state.stats
              == old(state).stats.(expirations := old(state).stats.expirations + if dropped then 1 else 0)
    {
      dropped := Expired(lru[i].View(), now);
      if dropped {
        DropExpired(i);
      }
    }

    method DropExpired(i: nat)
      requires Valid() && i < |lru|
      modifies this`lru, this`table, this`buckets, this`expirations, this`state
      ensures Valid() && |lru| == |old(lru)| - 1 && state.recs == RemoveAt(old(state).recs, i)
      ensures state.stats == old(state).stats.(expirations := old(state).stats.expirations + 1)
    {
      Unlink(lru[i], i);
      expirations := expirations + 1;
      state := State(RemoveAt(state.recs, i), state.stats.(expirations := state.stats.expirations + 1));
    }

    method ResetStats()
      requires Valid()
      modifies this
      ensures Valid() && state == old(state).(stats := NO_STATS) && lru == old(lru)
    {
      hits, misses, evictions, expirations, inserts, totalSize := 0, 0, 0, 0, 0, 0;
      state := state.(stats := NO_STATS);
    }
  }
}
