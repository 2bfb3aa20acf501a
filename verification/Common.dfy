/** Small datatypes and sequence facts shared by the component models. */
module Common {

  datatype Option<+T> = None | Some(value: T)

  datatype Result<+T, +E> = Success(value: T) | Failure(error: E)

  type byte = b: int | 0 <= b < 256

  function Min(a: int, b: int): int {
    if a <= b then a else b
  }

  function Bit(b: bool): nat {
    if b then 1 else 0
  }

  function Pow2(k: nat): (r: nat)
    ensures r > 0
  {
    if k == 0 then 1 else 2 * Pow2(k - 1)
  }

  ghost predicate NoDuplicates<T>(s: seq<T>) {
    forall i, j :: 0 <= i < j < |s| ==> s[i] != s[j]
  }

  ghost function Elements<T>(s: seq<T>): set<T> {
    set x | x in s
  }

  /** The sequence without its element at index k. */
  function RemoveAt<T>(s: seq<T>, k: nat): (r: seq<T>)
    requires k < |s|
  {
    seq(|s| - 1, i requires 0 <= i < |s| - 1 => if i < k then s[i] else s[i + 1])
  }

  /** list_move to the head of a list. */
  function MoveToFront<T>(s: seq<T>, k: nat): (r: seq<T>)
    requires k < |s|
  {
    [s[k]] + RemoveAt(s, k)
  }

  /** Removing one element of a duplicate-free sequence removes exactly that element. */
  lemma RemoveAtElements<T>(s: seq<T>, k: nat)
    requires k < |s| && NoDuplicates(s)
    ensures NoDuplicates(RemoveAt(s, k))
    ensures forall x :: x in RemoveAt(s, k) <==> x in s && x != s[k]
  {
    var r := RemoveAt(s, k);
    forall x | x in s && x != s[k]
      ensures x in r
    {
      var i :| 0 <= i < |s| && s[i] == x;
      assert if i < k then r[i] == x else r[i - 1] == x;
    }
  }

  lemma RemoveOne<T>(s: seq<T>, k: nat)
    requires k < |s|
    ensures multiset(s) == multiset(RemoveAt(s, k)) + multiset{s[k]}
  {
    assert s == s[..k] + [s[k]] + s[k + 1..];
    assert RemoveAt(s, k) == s[..k] + s[k + 1..];
  }

  /** Linear search by key, from index i on; -1 when there is no such element. */
  function FindKey<T, K(==)>(s: seq<T>, keyOf: T -> K, key: K, i: nat): (k: int)
    requires i <= |s|
    ensures k == -1 ==> forall j :: i <= j < |s| ==> keyOf(s[j]) != key
    ensures k != -1 ==> i <= k < |s| && keyOf(s[k]) == key
    decreases |s| - i
  {
    if i == |s| then -1
    else if keyOf(s[i]) == key then i
    else FindKey(s, keyOf, key, i + 1)
  }

  function IndexOf<T(==)>(s: seq<T>, x: T): (k: nat)
    requires x in s
    ensures k < |s| && s[k] == x
  {
    if s[0] == x then 0 else 1 + IndexOf(s[1..], x)
  }

  /** The sequence without the first occurrence of x: unlinking a node from a list. */
  function Without<T(==)>(s: seq<T>, x: T): (r: seq<T>)
    requires x in s
    ensures |r| == |s| - 1
  {
    RemoveAt(s, IndexOf(s, x))
  }

  lemma WithoutElements<T>(s: seq<T>, x: T)
    requires x in s && NoDuplicates(s)
    ensures NoDuplicates(Without(s, x))
    ensures forall y :: y in Without(s, x) <==> y in s && y != x
  {
    RemoveAtElements(s, IndexOf(s, x));
  }
}
