/**
 The DNS cache as the program keeps it: entry objects that sit both in a hash chain and in one LRU list,
 changed in place. Every method refines the step of the same name in DnsCacheModel.
 */
module DnsCache {
  import opened Common
  import opened DnsCacheModel
  import opened LinkedTable

  const BUCKETS := 1024

  class Entry {
    const host: string
    var ipv4: nat
    var expiresNs: nat

    constructor (host: string, ipv4: nat, expiresNs: nat)
      ensures View() == Record(host, ipv4, expiresNs) && this.host == host
    {
      this.host, this.ipv4, this.expiresNs := host, ipv4, expiresNs;
    }

    function View(): Record
      reads this
    {
      Record(host, ipv4, expiresNs)
    }

    method Refresh(ipv4: nat, expiresNs: nat)
      modifies this
      ensures View() == Record(host, ipv4, expiresNs)
    {
      this.ipv4, this.expiresNs := ipv4, expiresNs;
    }
  }

  /** The records are what the entries hold. */
  ghost predicate Shows(es: seq<Entry>, recs: seq<Record>)
    reads es
  {
    |es| == |recs| && forall i :: 0 <= i < |es| ==> es[i].View() == recs[i]
  }

  lemma MovedShows(es: seq<Entry>, recs: seq<Record>, k: nat)
    requires Shows(es, recs) && k < |es|
    ensures Shows(MoveToFront(es, k), MoveToFront(recs, k))
  {
  }

  lemma MovedHostsDistinct(recs: seq<Record>, k: nat)
    requires HostsDistinct(recs) && k < |recs|
    ensures HostsDistinct(MoveToFront(recs, k))
  {
  }

  lemma AddedShows(es: seq<Entry>, recs: seq<Record>, e: Entry)
    requires Shows(es, recs) && Find(recs, e.host) == -1
    ensures Shows([e] + es, [e.View()] + recs) && e !in es
  {
  }

  class Cache {
    const hash: string -> nat
    var table: seq<seq<Entry>>
    var lru: seq<Entry>
    var count: nat
    ghost var buckets: seq<nat>
    ghost var state: State

    function Bucket(host: string): nat {
      hash(host) % BUCKETS
    }

    /** The chains and the LRU list hold the same entries, each in the bucket of its host. */
    ghost predicate LinksValid()
      reads this`table, this`lru, this`buckets
    {
      && |table| == BUCKETS && Linked(lru, buckets, table)
      && forall i :: 0 <= i < |lru| ==> buckets[i] == Bucket(lru[i].host)
    }

    /** The ghost state is what the objects and the counter hold. */
    ghost predicate Valid()
      reads this, lru
    {
      LinksValid() && Shows(lru, state.recs) && state.count == count && Good(state, CACHE_SIZE)
    }

    /** The hash function is a parameter. */
    constructor (hash: string -> nat)
      ensures Valid() && state == EMPTY && this.hash == hash
    {
      this.hash := hash;
      table := seq(BUCKETS, _ => []);
      lru, count, buckets, state := [], 0, [], EMPTY;
    }

    /** A bucket search finds exactly what a linear search of all entries would. */
    method FindEntry(host: string) returns (found: Option<Entry>)
      requires Valid()
      ensures found.None? <==> Find(state.recs, host) == -1
      ensures found.Some? ==> Find(state.recs, host) >= 0 && found.value == lru[Find(state.recs, host)]
    {
      var chain := table[Bucket(host)];
      ghost var f := Find(state.recs, host);
      if f >= 0 {
        InChain(lru, buckets, table, f);
      }
      for i := 0 to |chain|
        invariant forall j :: 0 <= j < i ==> chain[j].host != host
      {
        if chain[i].host == host {
          ghost var k := InList(lru, buckets, table, Bucket(host), i);
          assert state.recs[k].host == host;
          return Some(chain[i]);
        }
      }
      return None;
    }

    /** hash_del and list_del. */
    method Unlink(e: Entry, ghost k: nat)
      requires LinksValid() && k < |lru| && lru[k] == e
      modifies this`lru, this`table, this`buckets
      ensures LinksValid() && lru == RemoveAt(old(lru), k) && Elements(lru) <= old(Elements(lru))
      ensures |table[Bucket(e.host)]| == |old(table)[Bucket(e.host)]| - 1
      ensures forall c :: 0 <= c < BUCKETS && c != Bucket(e.host) ==> table[c] == old(table)[c]
    {
      UnlinkKeepsLinked(lru, buckets, table, k);
      RemoveAtElements(lru, k);
      assert IndexOf(lru, e) == k;
      var b := Bucket(e.host);
      table := table[b := Without(table[b], e)];
      lru := Without(lru, e);
      buckets := RemoveAt(buckets, k);
    }

    /** hash_add and list_add: both at the head. */
    method Link(e: Entry)
      requires LinksValid() && e !in lru
      modifies this`lru, this`table, this`buckets
      ensures LinksValid() && lru == [e] + old(lru)
    {
      var b := Bucket(e.host);
      LinkKeepsLinked(lru, buckets, table, e, b);
      table := table[b := [e] + table[b]];
      lru := [e] + lru;
      buckets := [b] + buckets;
    }

    /** list_move to the head. */
    method Touch(e: Entry, ghost k: nat)
      requires LinksValid() && k < |lru| && lru[k] == e
      modifies this`lru, this`buckets
      ensures LinksValid() && lru == MoveToFront(old(lru), k)
    {
      TouchKeepsLinked(lru, buckets, table, k);
      assert IndexOf(lru, e) == k;
      lru := [e] + Without(lru, e);
      buckets := MoveToFront(buckets, k);
    }

    method Lookup(host: string, now: nat) returns (r: Reply)
      requires Valid()
      modifies this`lru, this`buckets, this`state
      ensures Valid()
      ensures (state, r) == LookupStep(old(state), host, now)
    {
      var found := FindEntry(host);
      if found.Some? && now < found.value.expiresNs {
        r := Found(found.value.ipv4);
        MoveFound(found.value, Find(state.recs, host));
      } else {
        r := NoEntry;
      }
    }

    method MoveFound(e: Entry, ghost k: nat)
      requires Valid() && k < |lru| && lru[k] == e
      modifies this`lru, this`buckets, this`state
      ensures Valid() && state == old(state).(recs := MoveToFront(old(state).recs, k))
    {
      MovedShows(lru, state.recs, k);
      MovedHostsDistinct(state.recs, k);
      state := state.(recs := MoveToFront(state.recs, k));
      Touch(e, k);
    }

    method EvictOldest()
      requires Valid()
      modifies this
      ensures Valid() && count < CACHE_SIZE && Elements(lru) <= old(Elements(lru))
      ensures state == Evict(old(state), CACHE_SIZE)
    {
      if count >= CACHE_SIZE {
        state := Evict(state, CACHE_SIZE);
        Unlink(lru[|lru| - 1], |lru| - 1);
        count := count - 1;
      }
    }

    method InsertAbsent(host: string, ipv4: nat, now: nat, memory: bool) returns (r: Reply)
      requires Valid() && |host| < 256 && Find(state.recs, host) == -1
      modifies this, lru
      ensures Valid() && fresh(Elements(lru) - old(Elements(lru)))
      ensures (state, r) == InsertStep(old(state), CACHE_SIZE, host, ipv4, now, memory)
    {
      EvictOldest();
      if !memory {
        return NoMemory;
      }
      assert Find(state.recs, host) == -1;
      var e := new Entry(host, ipv4, now + TTL_NS);
      AddEntry(e);
      return Ok;
    }

    method Insert(host: string, ipv4: nat, now: nat, memory: bool) returns (r: Reply)
      requires Valid() && |host| < 256
      modifies this, lru
      ensures Valid() && fresh(Elements(lru) - old(Elements(lru)))
      ensures (state, r) == InsertStep(old(state), CACHE_SIZE, host, ipv4, now, memory)
    {
      var found := FindEntry(host);
      if found.Some? {
        RefreshEntry(found.value, Find(state.recs, host), ipv4, now + TTL_NS);
        return Ok;
      }
      r := InsertAbsent(host, ipv4, now, memory);
    }

    method RefreshEntry(e: Entry, ghost k: nat, ipv4: nat, expiresNs: nat)
      requires Valid() && k < |lru| && lru[k] == e
      modifies this`state, e
      ensures Valid() && state == old(state).(recs := old(state).recs[k := Record(e.host, ipv4, expiresNs)])
    {
      assert forall i :: 0 <= i < |lru| && i != k ==> lru[i] != e;
      assert state.recs[k].host == e.host;
      e.Refresh(ipv4, expiresNs);
      state := state.(recs := state.recs[k := Record(e.host, ipv4, expiresNs)]);
    }

    method AddEntry(e: Entry)
      requires Valid() && count < CACHE_SIZE && Find(state.recs, e.host) == -1
      modifies this
      ensures Valid() && lru == [e] + old(lru)
      ensures state == State([e.View()] + old(state).recs, old(state).count + 1)
    {
      AddedShows(lru, state.recs, e);
      state := State([e.View()] + state.recs, state.count + 1);
      count := count + 1;
      Link(e);
    }

    /** Empties one chain from its head. */
    method FlushChain(b: nat)
      requires LinksValid() && b < BUCKETS && count == |lru|
      modifies this`lru, this`table, this`buckets, this`count
      ensures LinksValid() && table[b] == [] && count == |lru|
      ensures forall c :: 0 <= c < BUCKETS && c != b ==> table[c] == old(table)[c]
    {
      while table[b] != []
        invariant LinksValid() && count == |lru|
        invariant forall c :: 0 <= c < BUCKETS && c != b ==> table[c] == old(table)[c]
        decreases |table[b]|
      {
        ghost var k := InList(lru, buckets, table, b, 0);
        Unlink(table[b][0], k);
        count := count - 1;
      }
    }

    /** Walking all buckets empties the list as well, and brings the counter to zero. */
    method Flush()
      requires Valid()
      modifies this
      ensures Valid() && lru == [] && state == EMPTY
    {
      for b := 0 to BUCKETS
        invariant LinksValid() && count == |lru| && forall c :: 0 <= c < b ==> table[c] == []
      {
        FlushChain(b);
      }
      if lru != [] {
        SomeChainHolds(lru, buckets, table);
        assert false;
      }
      state := EMPTY;
    }
  }
}
