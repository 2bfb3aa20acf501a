/**
 The decision cache of the gateway: a ring of 4096 entries with a five-second life, filled by
 do_inference only after a miss. Modelled for one worker thread.
 */
module GatewayCache {
  import opened Common
  import opened Djb2

  const SIZE := 4096
  const TTL_MS := 5000

  datatype CacheEntry = CacheEntry(key: nat, decision: int, confidence: int, domain: int, expiresMs: int)

  datatype Stats = Stats(hits: nat, misses: nat, apiCalls: nat, apiSuccess: nat, apiErrors: nat)

  /** None is an entry that was never used. */
  datatype State = State(ring: seq<Option<CacheEntry>>, index: nat, stats: Stats)

  /** A request, the clock at its lookup and at its insertion, and what the API would answer. */
  datatype Request = Request(key: nat, domain: int, layer1Decision: int, layer1Confidence: int,
                             now: int, later: int, api: Option<(int, int)>)

  datatype Answer = Answer(ok: bool, decision: int, confidence: int)

  // ----- the key: the first 128 bytes, hashed in 64-bit arithmetic

  const WORD := 0x1_0000_0000_0000_0000

  function Values(data: string): (v: seq<int>)
    ensures |v| == |data| && forall i :: 0 <= i < |data| ==> v[i] == data[i] as int
  {
    seq(|data|, i requires 0 <= i < |data| => data[i] as int)
  }

  function MakeKey(data: string): nat {
    HashFrom(SEED, Values(data[..Min(|data|, 128)]), WORD)
  }

  method ComputeKey(data: string) returns (h: nat)
    ensures h == MakeKey(data)
  {
    h := SEED;
    var n := Min(|data|, 128);
    ghost var values := Values(data[..n]);
    for i := 0 to n
      invariant HashFrom(h, values[i..], WORD) == MakeKey(data)
    {
      assert values[i..][1..] == values[i + 1..];
      h := (h * 33 + data[i] as int) % WORD;
    }
  }

  /** The first 128 bytes as a polynomial in 33, reduced to 64 bits. */
  lemma KeyIsPolynomial(data: string)
    ensures MakeKey(data) == Polynomial(Values(if |data| < 128 then data else data[..128])) % 0x1_0000_0000_0000_0000
  {
    HashIsPolynomial(Values(data[..Min(|data|, 128)]), WORD);
    assert |data| < 128 ==> data[..|data|] == data;
  }

  /** Features of one length that differ in one of those bytes only never share a key. */
  lemma OneByteDiffers(x: string, y: string, i: nat)
    requires |x| == |y| && i < |x| && i < 128 && x[i] != y[i]
    requires forall j :: 0 <= j < |x| && j < 128 && j != i ==> x[j] == y[j]
    ensures MakeKey(x) != MakeKey(y)
  {
    var n := Min(|x|, 128);
    OneDiffers(SEED, Values(x[..n]), Values(y[..n]), i, WORD, (1 + 2 * WORD) / 33, -2);
  }

  // ----- one request

  predicate Live(e: Option<CacheEntry>, key: nat, now: int) {
    e.Some? && e.value.key == key && e.value.expiresMs > now
  }

  /** The first live entry of a key, in slot order from slot i on. */
  function FirstHit(ring: seq<Option<CacheEntry>>, key: nat, now: int, i: nat): (r: Option<CacheEntry>)
    requires i <= |ring|
    ensures r.Some? ==> exists k :: i <= k < |ring| && ring[k] == r && Live(ring[k], key, now)
    ensures r.None? ==> forall k :: i <= k < |ring| ==> !Live(ring[k], key, now)
    decreases |ring| - i
  {
    if i == |ring| then None
    else if Live(ring[i], key, now) then ring[i]
    else FirstHit(ring, key, now, i + 1)
  }

  function Insert(s: State, e: CacheEntry): State
    requires |s.ring| == SIZE
  {
    s.(ring := s.ring[s.index % SIZE := Some(e)], index := s.index + 1)
  }

  function Entry(r: Request): CacheEntry
    requires r.api.Some?
  {
    CacheEntry(r.key, r.api.value.0, r.api.value.1, r.domain, r.later + TTL_MS)
  }

  function Miss(s: State, r: Request): (State, Answer)
    requires |s.ring| == SIZE
  {
    var t := s.stats;
    if r.api.Some? then
      (Insert(s, Entry(r)).(stats := t.(misses := t.misses + 1, apiCalls := t.apiCalls + 1,
                                        apiSuccess := t.apiSuccess + 1)),
       Answer(true, r.api.value.0, r.api.value.1))
    else
      (s.(stats := t.(misses := t.misses + 1, apiCalls := t.apiCalls + 1, apiErrors := t.apiErrors + 1)),
       Answer(false, r.layer1Decision, r.layer1Confidence))
  }

  function Step(s: State, r: Request): (State, Answer)
    requires |s.ring| == SIZE
  {
    match FirstHit(s.ring, r.key, r.now, 0)
    case Some(e) => (s.(stats := s.stats.(hits := s.stats.hits + 1)), Answer(true, e.decision, e.confidence))
    case None => Miss(s, r)
  }

  function NoEntries(n: nat): (r: seq<Option<CacheEntry>>)
    ensures |r| == n && forall i :: 0 <= i < n ==> r[i] == None
  {
    seq(n, _ => None)
  }

  const INITIAL := State(NoEntries(SIZE), 0, Stats(0, 0, 0, 0, 0))

  function Run(reqs: seq<Request>): (s: State)
    ensures |s.ring| == SIZE
  {
    if reqs == [] then INITIAL else Step(Run(reqs[..|reqs| - 1]), reqs[|reqs| - 1]).0
  }

  // ----- runs: the decisions the API gave and the cache was told, oldest first

  predicate IsMiss(s: State, r: Request)
    requires |s.ring| == SIZE
  {
    FirstHit(s.ring, r.key, r.now, 0).None?
  }

  function Puts(reqs: seq<Request>): seq<CacheEntry> {
    if reqs == [] then []
    else
      var before, r := reqs[..|reqs| - 1], reqs[|reqs| - 1];
      Puts(before) + if IsMiss(Run(before), r) && r.api.Some? then [Entry(r)] else []
  }

  function Clock(reqs: seq<Request>): int {
    if reqs == [] then 0 else reqs[|reqs| - 1].later
  }

  predicate Timely(reqs: seq<Request>) {
    reqs == [] ||
    var before, r := reqs[..|reqs| - 1], reqs[|reqs| - 1];
    Timely(before) && Clock(before) <= r.now <= r.later
  }

  /** The ring holds the last 4096 puts, each in the slot of its number. */
  ghost predicate RingHolds(s: State, puts: seq<CacheEntry>) {
    && |s.ring| == SIZE && s.index == |puts|
    && (forall j :: 0 <= j < |puts| && |puts| - SIZE <= j ==> s.ring[j % SIZE] == Some(puts[j]))
    && (forall i :: |puts| <= i < SIZE ==> s.ring[i] == None)
  }

  lemma SlotsDistinct(i: nat, j: nat)
    requires i < j < i + SIZE
    ensures i % SIZE != j % SIZE
  {
  }

  lemma InsertKeepsRing(s: State, puts: seq<CacheEntry>, e: CacheEntry)
    requires RingHolds(s, puts)
    ensures RingHolds(Insert(s, e), puts + [e])
  {
    var n := |puts|;
    forall j | 0 <= j < n + 1 && n + 1 - SIZE <= j
      ensures Insert(s, e).ring[j % SIZE] == Some((puts + [e])[j])
    {
      if j < n {
        SlotsDistinct(j, n);
      }
    }
  }

  lemma {:induction false} RunHoldsPuts(reqs: seq<Request>)
    ensures RingHolds(Run(reqs), Puts(reqs))
  {
    if reqs != [] {
      var before, r := reqs[..|reqs| - 1], reqs[|reqs| - 1];
      RunHoldsPuts(before);
      if IsMiss(Run(before), r) && r.api.Some? {
        InsertKeepsRing(Run(before), Puts(before), Entry(r));
      }
    }
  }

  /** Every occupied slot holds one of the last 4096 puts. */
  lemma SlotIsPut(s: State, puts: seq<CacheEntry>, k: nat) returns (j: nat)
    requires RingHolds(s, puts) && k < SIZE && s.ring[k].Some?
    ensures j < |puts| && |puts| - SIZE <= j && j % SIZE == k && s.ring[k] == Some(puts[j])
  {
    var n := |puts|;
    if n <= SIZE {
      j := k;
    } else {
      var first := n - SIZE;
      var d := (k - first % SIZE + SIZE) % SIZE;
      j := first + d;
    }
  }

  /** Of two puts of one key that are in the ring together, the older had expired when the newer was made. */
  ghost predicate NoLiveDuplicates(puts: seq<CacheEntry>, clock: int) {
    && (forall j :: 0 <= j < |puts| ==> puts[j].expiresMs <= clock + TTL_MS)
    && (forall i, j :: 0 <= i < j < |puts| && j - i < SIZE && puts[i].key == puts[j].key ==>
                         puts[i].expiresMs + TTL_MS <= puts[j].expiresMs)
  }

  lemma {:induction false} RunHasNoLiveDuplicates(reqs: seq<Request>)
    requires Timely(reqs)
    ensures NoLiveDuplicates(Puts(reqs), Clock(reqs))
  {
    if reqs != [] {
      var before, r := reqs[..|reqs| - 1], reqs[|reqs| - 1];
      RunHasNoLiveDuplicates(before);
      RunHoldsPuts(before);
      var s, puts := Run(before), Puts(before);
      if IsMiss(s, r) && r.api.Some? {
        forall i | 0 <= i < |puts| && |puts| - i < SIZE && puts[i].key == r.key
          ensures puts[i].expiresMs <= r.now
        {
          assert s.ring[i % SIZE] == Some(puts[i]);
          assert !Live(s.ring[i % SIZE], r.key, r.now);
        }
      }
    }
  }

  // ----- main results

  /** The number of the latest put of a key. */
  function LatestPut(puts: seq<CacheEntry>, key: nat): (j: int)
    ensures -1 <= j < |puts|
    ensures j >= 0 ==> puts[j].key == key
    ensures forall i :: j < i < |puts| ==> puts[i].key != key
  {
    if puts == [] then -1
    else if puts[|puts| - 1].key == key then |puts| - 1
    else LatestPut(puts[..|puts| - 1], key)
  }

  /** What a lookup should find: the latest put of the key, while it is in the ring and not expired. */
  function Expected(puts: seq<CacheEntry>, key: nat, now: int): Option<CacheEntry> {
    var j := LatestPut(puts, key);
    if j >= 0 && |puts| - j <= SIZE && puts[j].expiresMs > now then Some(puts[j]) else None
  }

  lemma HitIsExpected(s: State, puts: seq<CacheEntry>, clock: int, key: nat, now: int, k: nat)
    requires RingHolds(s, puts) && NoLiveDuplicates(puts, clock) && now >= clock
    requires k < SIZE && Live(s.ring[k], key, now)
    ensures s.ring[k] == Expected(puts, key, now)
  {
    var i := SlotIsPut(s, puts, k);
    var j := LatestPut(puts, key);
    assert i <= j;
  }

  lemma ExpectedIsHit(s: State, puts: seq<CacheEntry>, key: nat, now: int)
    requires RingHolds(s, puts) && Expected(puts, key, now).Some?
    ensures FirstHit(s.ring, key, now, 0).Some?
  {
    var j := LatestPut(puts, key);
    assert s.ring[j % SIZE] == Some(puts[j]);
    assert Live(s.ring[j % SIZE], key, now);
  }

  /**
   Under a monotone clock a lookup finds exactly the latest successful decision for the key, if fewer
   than 4096 decisions were cached after it and it has not expired.
   */
  lemma LookupExactly(reqs: seq<Request>, key: nat, now: int)
    requires Timely(reqs) && now >= Clock(reqs)
    ensures FirstHit(Run(reqs).ring, key, now, 0) == Expected(Puts(reqs), key, now)
  {
    var s, puts := Run(reqs), Puts(reqs);
    RunHoldsPuts(reqs);
    RunHasNoLiveDuplicates(reqs);
    var hit := FirstHit(s.ring, key, now, 0);
    if hit.Some? {
      var k: nat :| k < |s.ring| && s.ring[k] == hit && Live(s.ring[k], key, now);
      HitIsExpected(s, puts, Clock(reqs), key, now, k);
    } else if Expected(puts, key, now).Some? {
      ExpectedIsHit(s, puts, key, now);
    }
  }

  /** A request is answered from the latest cached decision for its key, whatever domain that was for, or by the API. */
  lemma AnswerExactly(reqs: seq<Request>, r: Request)
    requires Timely(reqs) && r.now >= Clock(reqs)
    ensures var e := Expected(Puts(reqs), r.key, r.now);
            Step(Run(reqs), r).1
            == if e.Some? then Answer(true, e.value.decision, e.value.confidence)
               else if r.api.Some? then Answer(true, r.api.value.0, r.api.value.1)
               else Answer(false, r.layer1Decision, r.layer1Confidence)
  {
    LookupExactly(reqs, r.key, r.now);
  }

  /** No two live entries of the ring share a key, at any later time. */
  lemma LiveEntriesUnique(reqs: seq<Request>, key: nat, now: int, k: nat, l: nat)
    requires Timely(reqs) && now >= Clock(reqs) && k < SIZE && l < SIZE
    requires Live(Run(reqs).ring[k], key, now) && Live(Run(reqs).ring[l], key, now)
    ensures k == l
  {
    RunHoldsPuts(reqs);
    RunHasNoLiveDuplicates(reqs);
    var i := SlotIsPut(Run(reqs), Puts(reqs), k);
    var j := SlotIsPut(Run(reqs), Puts(reqs), l);
  }

  /** Every request is a hit or a miss, every miss one API call, and every successful call one put. */
  lemma {:induction false} CountsBalance(reqs: seq<Request>)
    ensures var t := Run(reqs).stats;
            && t.hits + t.misses == |reqs| && t.misses == t.apiCalls == t.apiSuccess + t.apiErrors
            && t.apiSuccess == |Puts(reqs)|
  {
    if reqs != [] {
      CountsBalance(reqs[..|reqs| - 1]);
    }
  }

  /** The requests of a run that found a decision, and those that found none and were refused by the API. */
  function Found(reqs: seq<Request>): nat {
    if reqs == [] then 0
    else
      var before, r := reqs[..|reqs| - 1], reqs[|reqs| - 1];
      Found(before) + Bit(Expected(Puts(before), r.key, r.now).Some?)
  }

  function RefusedByApi(reqs: seq<Request>): nat {
    if reqs == [] then 0
    else
      var before, r := reqs[..|reqs| - 1], reqs[|reqs| - 1];
      RefusedByApi(before) + Bit(Expected(Puts(before), r.key, r.now).None? && r.api.None?)
  }

  lemma {:induction false} CountsExactly(reqs: seq<Request>)
    requires Timely(reqs)
    ensures var t := Run(reqs).stats;
            && t.hits == Found(reqs) && t.misses == |reqs| - Found(reqs) == t.apiCalls
            && t.apiErrors == RefusedByApi(reqs) && t.apiSuccess == |Puts(reqs)|
  {
    CountsBalance(reqs);
    if reqs != [] {
      var before, r := reqs[..|reqs| - 1], reqs[|reqs| - 1];
      CountsExactly(before);
      LookupExactly(before, r.key, r.now);
    }
  }

  /** What a request is answered without a cache. */
  function OwnAnswer(r: Request): Answer {
    if r.api.Some? then Answer(true, r.api.value.0, r.api.value.1)
    else Answer(false, r.layer1Decision, r.layer1Confidence)
  }

  lemma {:induction false} PutComesFrom(reqs: seq<Request>, j: nat) returns (q: Request)
    requires j < |Puts(reqs)|
    ensures q in reqs && q.api.Some?
    ensures Puts(reqs)[j] == CacheEntry(q.key, q.api.value.0, q.api.value.1, q.domain, q.later + 5000)
  {
    var before := reqs[..|reqs| - 1];
    q := reqs[|reqs| - 1];
    if j < |Puts(before)| {
      q := PutComesFrom(before, j);
    }
  }

  /**
   Every answer is the own answer of some request q with the same key, r itself or an earlier one. It was made for the
   domain that r asks for exactly unless the expected entry is there and is of another domain.
   */
  lemma DomainExactly(reqs: seq<Request>, r: Request) returns (q: Request)
    requires Timely(reqs) && r.now >= Clock(reqs)
    ensures Step(Run(reqs), r).1 == OwnAnswer(q) && q.key == r.key
    ensures var e := Expected(Puts(reqs), r.key, r.now);
            && (if e.Some? then q in reqs else q == r)
            && (q.domain == r.domain <==> e.None? || e.value.domain == r.domain)
    ensures (forall p :: p in reqs && p.key == r.key ==> p.domain == r.domain) ==> q.domain == r.domain
  {
    AnswerExactly(reqs, r);
    q := r;
    if Expected(Puts(reqs), r.key, r.now).Some? {
      q := PutComesFrom(reqs, LatestPut(Puts(reqs), r.key));
    }
  }

  lemma LatestAppended(puts: seq<CacheEntry>, e: CacheEntry, now: int)
    requires now < e.expiresMs
    ensures Expected(puts + [e], e.key, now) == Some(e)
  {
  }

  lemma MissIsPut(reqs: seq<Request>, r: Request)
    requires Timely(reqs) && Clock(reqs) <= r.now <= r.later
    requires r.api.Some? && Expected(Puts(reqs), r.key, r.now).None?
    ensures Timely(reqs + [r]) && Clock(reqs + [r]) == r.later && Puts(reqs + [r]) == Puts(reqs) + [Entry(r)]
  {
    assert (reqs + [r])[..|reqs|] == reqs;
    LookupExactly(reqs, r.key, r.now);
  }

  /**
   The key is made of the features alone. So after any run, whatever the features, domains and decisions: the decision
   that the API gave for one request answers the next with the same features, for whatever domain, while it lives.
   */
  lemma DomainIsIgnored(reqs: seq<Request>, features: string, first: Request, second: Request)
    requires Timely(reqs) && first.key == second.key == MakeKey(features)
    requires Clock(reqs) <= first.now <= first.later <= second.now < first.later + 5000
    requires first.api.Some? && Expected(Puts(reqs), first.key, first.now).None?
    ensures Step(Run(reqs + [first]), second).1 == Answer(true, first.api.value.0, first.api.value.1)
  {
    MissIsPut(reqs, first);
    LatestAppended(Puts(reqs), Entry(first), second.now);
    AnswerExactly(reqs + [first], second);
  }

  // ----- the program's ring and counters

  class Gateway {
    const ring: array<Option<CacheEntry>>
    var index: nat
    var hits: nat
    var misses: nat
    var apiCalls: nat
    var apiSuccess: nat
    var apiErrors: nat

    ghost predicate Valid()
      reads this
    {
      ring.Length == SIZE
    }

    ghost function Contents(): (s: State)
      reads this, ring
      requires Valid()
      ensures |s.ring| == SIZE
    {
      State(ring[..], index, Stats(hits, misses, apiCalls, apiSuccess, apiErrors))
    }

    constructor ()
      ensures Valid() && Contents() == INITIAL && fresh(ring)
    {
      ring := new Option<CacheEntry>[SIZE](_ => None);
      index, hits, misses, apiCalls, apiSuccess, apiErrors := 0, 0, 0, 0, 0, 0;
    }

    method CacheGet(key: nat, now: int) returns (r: Option<CacheEntry>)
      requires Valid()
      ensures r == FirstHit(ring[..], key, now, 0)
    {
      for i := 0 to SIZE
        invariant FirstHit(ring[..], key, now, i) == FirstHit(ring[..], key, now, 0)
      {
        if Live(ring[i], key, now) {
          return ring[i];
        }
      }
      return None;
    }

    method CachePut(key: nat, decision: int, confidence: int, domain: int, now: int)
      requires Valid()
      modifies this`index, ring
      ensures Contents() == Insert(old(Contents()), CacheEntry(key, decision, confidence, domain, now + TTL_MS))
    {
      ring[index % SIZE] := Some(CacheEntry(key, decision, confidence, domain, now + TTL_MS));
      index := index + 1;
    }

    method DoInference(feat: string, r: Request) returns (a: Answer)
      requires Valid() && r.key == MakeKey(feat)
      modifies this, ring
      ensures (Contents(), a) == Step(old(Contents()), r)
    {
      var key := ComputeKey(feat);
      var hit := CacheGet(key, r.now);
      if hit.Some? {
        hits := hits + 1;
        return Answer(true, hit.value.decision, hit.value.confidence);
      }
      misses := misses + 1;
      if r.api.Some? {
        CachePut(key, r.api.value.0, r.api.value.1, r.domain, r.later);
        apiSuccess := apiSuccess + 1;
        a := Answer(true, r.api.value.0, r.api.value.1);
      } else {
        apiErrors := apiErrors + 1;
        a := Answer(false, r.layer1Decision, r.layer1Confidence);
      }
      apiCalls := apiCalls + 1;
    }
  }
}
