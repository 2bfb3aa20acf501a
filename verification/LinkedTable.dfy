/**
 Entries that sit both in the chains of a hash table and in one LRU list, as the kernel caches keep them.
 The list stands for the C list in order, the chains for the buckets; buckets[i] is the bucket of lru[i].
 */
module LinkedTable {
  import opened Common

  /** The entries of the list that belong in bucket b. */
  ghost function Share<E>(lru: seq<E>, buckets: seq<nat>, b: nat): set<E>
    requires |lru| == |buckets|
  {
    set i | 0 <= i < |lru| && buckets[i] == b :: lru[i]
  }

  /** Each chain holds, once each, exactly the entries of the list that belong in its bucket. */
  ghost predicate Linked<E>(lru: seq<E>, buckets: seq<nat>, chains: seq<seq<E>>) {
    && NoDuplicates(lru) && |lru| == |buckets|
    && (forall i :: 0 <= i < |buckets| ==> buckets[i] < |chains|)
    && (forall b :: 0 <= b < |chains| ==> NoDuplicates(chains[b]) && Elements(chains[b]) == Share(lru, buckets, b))
  }

  /** An entry of the list is in the chain of its bucket. */
  lemma InChain<E>(lru: seq<E>, buckets: seq<nat>, chains: seq<seq<E>>, k: nat)
    requires Linked(lru, buckets, chains) && k < |lru|
    ensures lru[k] in chains[buckets[k]]
  {
    assert lru[k] in Share(lru, buckets, buckets[k]);
    assert lru[k] in Elements(chains[buckets[k]]);
  }

  /** An entry of a chain is in the list, and the chain is that of its bucket. */
  lemma InList<E>(lru: seq<E>, buckets: seq<nat>, chains: seq<seq<E>>, b: nat, i: nat) returns (k: nat)
    requires Linked(lru, buckets, chains) && b < |chains| && i < |chains[b]|
    ensures k < |lru| && lru[k] == chains[b][i] && buckets[k] == b
  {
    assert chains[b][i] in Elements(chains[b]);
    assert chains[b][i] in Share(lru, buckets, b);
    k :| k < |lru| && lru[k] == chains[b][i] && buckets[k] == b;
  }

  lemma ShareWithout<E>(lru: seq<E>, buckets: seq<nat>, k: nat, b: nat)
    requires NoDuplicates(lru) && k < |lru| == |buckets|
    ensures Share(RemoveAt(lru, k), RemoveAt(buckets, k), b) == Share(lru, buckets, b) - {lru[k]}
    ensures lru[k] in Share(lru, buckets, b) <==> buckets[k] == b
  {
    var lru', buckets' := RemoveAt(lru, k), RemoveAt(buckets, k);
    forall x | x in Share(lru, buckets, b) - {lru[k]}
      ensures x in Share(lru', buckets', b)
    {
      var i :| 0 <= i < |lru| && buckets[i] == b && lru[i] == x;
      var j := if i < k then i else i - 1;
      assert lru'[j] == x && buckets'[j] == b;
    }
  }

  lemma UnlinkKeepsLinked<E>(lru: seq<E>, buckets: seq<nat>, chains: seq<seq<E>>, k: nat)
    requires Linked(lru, buckets, chains) && k < |lru|
    ensures var b := buckets[k];
            && lru[k] in chains[b]
            && Linked(RemoveAt(lru, k), RemoveAt(buckets, k), chains[b := Without(chains[b], lru[k])])
  {
    var e, b := lru[k], buckets[k];
    InChain(lru, buckets, chains, k);
    WithoutElements(chains[b], e);
    RemoveAtElements(lru, k);
    var chains' := chains[b := Without(chains[b], e)];
    forall c | 0 <= c < |chains'|
      ensures NoDuplicates(chains'[c]) && Elements(chains'[c]) == Share(RemoveAt(lru, k), RemoveAt(buckets, k), c)
    {
      ShareWithout(lru, buckets, k, c);
      assert Elements(chains[c]) == Share(lru, buckets, c);
      assert Elements(chains'[c]) == Elements(chains[c]) - {e};
    }
  }

  lemma ShareWith<E>(lru: seq<E>, buckets: seq<nat>, e: E, bucket: nat, b: nat)
    requires |lru| == |buckets|
    ensures Share([e] + lru, [bucket] + buckets, b) == Share(lru, buckets, b) + if bucket == b then {e} else {}
  {
    var lru', buckets' := [e] + lru, [bucket] + buckets;
    assert lru'[0] == e && buckets'[0] == bucket;
    forall x | x in Share(lru, buckets, b)
      ensures x in Share(lru', buckets', b)
    {
      var i :| 0 <= i < |lru| && buckets[i] == b && lru[i] == x;
      assert lru'[i + 1] == x && buckets'[i + 1] == b;
    }
  }

  lemma LinkKeepsLinked<E>(lru: seq<E>, buckets: seq<nat>, chains: seq<seq<E>>, e: E, b: nat)
    requires Linked(lru, buckets, chains) && b < |chains| && e !in lru
    ensures Linked([e] + lru, [b] + buckets, chains[b := [e] + chains[b]])
  {
    var chains' := chains[b := [e] + chains[b]];
    forall c | 0 <= c < |chains'|
      ensures NoDuplicates(chains'[c]) && Elements(chains'[c]) == Share([e] + lru, [b] + buckets, c)
    {
      ShareWith(lru, buckets, e, b, c);
      assert Elements(chains[c]) == Share(lru, buckets, c);
      assert e !in Elements(chains[c]);
      assert Elements(chains'[c]) == Elements(chains[c]) + if c == b then {e} else {};
    }
  }

  lemma TouchKeepsLinked<E>(lru: seq<E>, buckets: seq<nat>, chains: seq<seq<E>>, k: nat)
    requires Linked(lru, buckets, chains) && k < |lru|
    ensures Linked(MoveToFront(lru, k), MoveToFront(buckets, k), chains)
    ensures Elements(MoveToFront(lru, k)) == Elements(lru)
  {
    RemoveAtElements(lru, k);
    assert forall x :: x in MoveToFront(lru, k) <==> x in lru;
    forall c | 0 <= c < |chains|
      ensures NoDuplicates(chains[c])
      ensures Elements(chains[c]) == Share(MoveToFront(lru, k), MoveToFront(buckets, k), c)
    {
      ShareWithout(lru, buckets, k, c);
      ShareWith(RemoveAt(lru, k), RemoveAt(buckets, k), lru[k], buckets[k], c);
      assert Elements(chains[c]) == Share(lru, buckets, c);
    }
  }

  /** A list that is not empty has an entry in some chain. */
  lemma SomeChainHolds<E>(lru: seq<E>, buckets: seq<nat>, chains: seq<seq<E>>)
    requires Linked(lru, buckets, chains) && lru != []
    ensures exists b :: 0 <= b < |chains| && chains[b] != []
  {
    InChain(lru, buckets, chains, 0);
  }
}
