/*
 * Dicts: Python dicts, which keep their keys in insertion order, as lists
 * of (key, value) pairs with distinct keys. Assigning to a present key
 * keeps its place, a new key goes to the end, and `del` closes the gap.
 */
module Dicts {
  import opened Text

  type Dict<K, V> = seq<(K, V)>

  predicate DistinctKeys<K(==), V>(d: Dict<K, V>) {
    forall i, j :: 0 <= i < j < |d| ==> d[i].0 != d[j].0
  }

  /** d.keys() as a set. */
  function Keys<K, V>(d: Dict<K, V>): set<K> {
    set i | 0 <= i < |d| :: d[i].0
  }

  /** Where key sits in d, if it is there. */
  function IndexOf<K(==), V>(d: Dict<K, V>, key: K): (r: Option<nat>)
    ensures r.Some? ==> r.value < |d| && d[r.value].0 == key
    ensures r.Some? ==> forall j :: 0 <= j < r.value ==> d[j].0 != key
    ensures r.None? ==> forall j :: 0 <= j < |d| ==> d[j].0 != key
    ensures r.Some? <==> key in Keys(d)
  {
    if d == [] then None
    else if d[0].0 == key then Some(0)
    else
      var r := IndexOf(d[1..], key);
      assert key in Keys(d) ==> key in Keys(d[1..]) by {
        if key in Keys(d) {
          var i :| 0 <= i < |d| && d[i].0 == key;
          assert d[1..][i - 1].0 == key;
        }
      }
      match r
      case None => None
      case Some(i) => Some(i + 1)
  }

  /** The first index holding a key is the one IndexOf finds. */
  lemma IndexOfAt<K, V>(d: Dict<K, V>, key: K, j: nat)
    requires j < |d| && d[j].0 == key
    requires forall i :: 0 <= i < j ==> d[i].0 != key
    ensures IndexOf(d, key) == Some(j)
  {
  }

  /** d.get(key). */
  function Get<K(==), V>(d: Dict<K, V>, key: K): (r: Option<V>)
    ensures r.Some? <==> key in Keys(d)
  {
    match IndexOf(d, key)
    case None => None
    case Some(i) => Some(d[i].1)
  }

  /** d[key] = value. */
  function Put<K(==), V>(d: Dict<K, V>, key: K, value: V): (r: Dict<K, V>)
    ensures |r| == if key in Keys(d) then |d| else |d| + 1
  {
    match IndexOf(d, key)
    case None => d + [(key, value)]
    case Some(i) => d[i := (key, value)]
  }

  /** After an assignment the key holds the new value and every other key
      its old one; the keys gain the new key and stay distinct. */
  lemma PutProperties<K, V>(d: Dict<K, V>, key: K, value: V)
    requires DistinctKeys(d)
    ensures var r := Put(d, key, value);
      && DistinctKeys(r)
      && Keys(r) == Keys(d) + {key}
      && Get(r, key) == Some(value)
      && (forall k :: k != key ==> Get(r, k) == Get(d, k))
      && (key in Keys(d) ==> forall i :: 0 <= i < |d| ==> r[i].0 == d[i].0)
      && (key !in Keys(d) ==> r[..|d|] == d)
  {
    PutKeys(d, key, value);
    PutDistinct(d, key, value);
    forall k
      ensures Get(Put(d, key, value), k) == if k == key then Some(value) else Get(d, k)
    {
      PutGet(d, key, value, k);
    }
  }

  /** What an assignment does to the lookup of one key. */
  lemma PutGet<K, V>(d: Dict<K, V>, key: K, value: V, k: K)
    ensures Get(Put(d, key, value), k) == if k == key then Some(value) else Get(d, k)
  {
    var r := Put(d, key, value);
    match IndexOf(d, key)
    case None =>
      if k == key {
        IndexOfAt(r, key, |d|);
      } else {
        match IndexOf(d, k)
        case None =>
          assert IndexOf(r, k).None?;
        case Some(j) =>
          IndexOfAt(r, k, j);
      }
    case Some(i) =>
      if k == key {
        IndexOfAt(r, key, i);
      } else {
        match IndexOf(d, k)
        case None =>
          assert IndexOf(r, k).None?;
        case Some(j) =>
          IndexOfAt(r, k, j);
      }
  }

  /** The keys after an assignment, and where the old ones sit. */
  lemma PutKeys<K, V>(d: Dict<K, V>, key: K, value: V)
    ensures var r := Put(d, key, value);
      && Keys(r) == Keys(d) + {key}
      && (key in Keys(d) ==> forall i :: 0 <= i < |d| ==> r[i].0 == d[i].0)
      && (key !in Keys(d) ==> r[..|d|] == d)
  {
    var r := Put(d, key, value);
    match IndexOf(d, key)
    case None =>
      forall x | x in Keys(r) ensures x in Keys(d) + {key} {
        var i :| 0 <= i < |r| && r[i].0 == x;
        if i < |d| { assert d[i].0 == x; }
      }
      forall x | x in Keys(d) ensures x in Keys(r) {
        var i :| 0 <= i < |d| && d[i].0 == x;
        assert r[i].0 == x;
      }
      assert r[|d|].0 == key;
    case Some(i) =>
      forall x | x in Keys(r) ensures x in Keys(d) {
        var j :| 0 <= j < |r| && r[j].0 == x;
        assert d[j].0 == x;
      }
      forall x | x in Keys(d) ensures x in Keys(r) {
        var j :| 0 <= j < |d| && d[j].0 == x;
        assert r[j].0 == x;
      }
  }

  lemma PutDistinct<K, V>(d: Dict<K, V>, key: K, value: V)
    requires DistinctKeys(d)
    ensures DistinctKeys(Put(d, key, value))
  {
  }

  /** `del d[key]` for a present key; nothing for an absent one. */
  function Remove<K(==), V>(d: Dict<K, V>, key: K): (r: Dict<K, V>)
    ensures |r| == if key in Keys(d) then |d| - 1 else |d|
  {
    match IndexOf(d, key)
    case None => d
    case Some(i) => d[..i] + d[i + 1..]
  }

  /** The pairs left after removing the one at index i. */
  lemma DropAt<K, V>(d: Dict<K, V>, i: nat, r: Dict<K, V>)
    requires i < |d| && r == d[..i] + d[i + 1..]
    ensures |r| == |d| - 1
    ensures forall j :: 0 <= j < i ==> r[j] == d[j]
    ensures forall j :: i <= j < |r| ==> r[j] == d[j + 1]
  {
  }

  lemma RemoveGet<K, V>(d: Dict<K, V>, key: K, k: K)
    requires DistinctKeys(d) && k != key
    ensures Get(Remove(d, key), k) == Get(d, k)
  {
    var r := Remove(d, key);
    match IndexOf(d, key)
    case None =>
    case Some(i) =>
      DropAt(d, i, r);
      match IndexOf(d, k)
      case None =>
        assert IndexOf(r, k).None?;
      case Some(j) =>
        if j < i {
          IndexOfAt(r, k, j);
        } else {
          IndexOfAt(r, k, j - 1);
        }
  }

  lemma RemoveKeys<K, V>(d: Dict<K, V>, key: K)
    requires DistinctKeys(d)
    ensures DistinctKeys(Remove(d, key)) && Keys(Remove(d, key)) == Keys(d) - {key}
  {
    var r := Remove(d, key);
    match IndexOf(d, key)
    case None =>
    case Some(i) =>
      DropAt(d, i, r);
      forall x | x in Keys(r) ensures x in Keys(d) - {key} {
        var j :| 0 <= j < |r| && r[j].0 == x;
        if j < i { assert d[j].0 == x; } else { assert d[j + 1].0 == x; }
      }
      forall x | x in Keys(d) - {key} ensures x in Keys(r) {
        var j :| 0 <= j < |d| && d[j].0 == x;
        if j < i { assert r[j].0 == x; } else { assert r[j - 1].0 == x; }
      }
  }

  /** Deleting a key removes it and nothing else, and keeps the order of
      the other keys. */
  lemma RemoveProperties<K, V>(d: Dict<K, V>, key: K)
    requires DistinctKeys(d)
    ensures var r := Remove(d, key);
      && DistinctKeys(r)
      && Keys(r) == Keys(d) - {key}
      && Get(r, key) == None
      && forall k :: k != key ==> Get(r, k) == Get(d, k)
  {
    RemoveKeys(d, key);
    forall k | k != key ensures Get(Remove(d, key), k) == Get(d, k) {
      RemoveGet(d, key, k);
    }
  }
}
