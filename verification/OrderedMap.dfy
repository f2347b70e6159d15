/**
 Finite maps that remember insertion order, as association lists with distinct keys.  This is the
 meaning of the compact hash map, independent of hashes, slots and tombstones.
 */
module OrderedMap {
  import opened Wrappers

  function Find<K(==), V>(items: seq<(K, V)>, key: K): Option<V> {
    if items == [] then None
    else if items[0].0 == key then Some(items[0].1)
    else Find(items[1..], key)
  }

  /** Replaces the value where the key is, or appends a new pair. */
  function Put<K(==), V>(items: seq<(K, V)>, key: K, value: V): seq<(K, V)> {
    if items == [] then [(key, value)]
    else if items[0].0 == key then [(key, value)] + items[1..]
    else [items[0]] + Put(items[1..], key, value)
  }

  function Remove<K(==), V>(items: seq<(K, V)>, key: K): seq<(K, V)> {
    if items == [] then []
    else if items[0].0 == key then items[1..]
    else [items[0]] + Remove(items[1..], key)
  }

  function Keys<K, V>(items: seq<(K, V)>): (keys: seq<K>)
    ensures |keys| == |items| && forall i :: 0 <= i < |items| ==> keys[i] == items[i].0
  {
    seq(|items|, i requires 0 <= i < |items| => items[i].0)
  }

  lemma {:induction false} FindAppend<K, V>(a: seq<(K, V)>, b: seq<(K, V)>, key: K)
    ensures Find(a + b, key) == if Find(a, key).Some? then Find(a, key) else Find(b, key)
  {
    if a == [] {
      assert a + b == b;
    } else {
      assert (a + b)[1..] == a[1..] + b;
      FindAppend(a[1..], b, key);
    }
  }

  lemma {:induction false} FindIffKey<K, V>(items: seq<(K, V)>, key: K)
    ensures Find(items, key).Some? <==> key in Keys(items)
  {
    if items != [] {
      assert Keys(items) == [items[0].0] + Keys(items[1..]);
      FindIffKey(items[1..], key);
    }
  }

  /** A lookup after an insertion sees the new value there and the old value elsewhere. */
  lemma {:induction false} FindPut<K, V>(items: seq<(K, V)>, key: K, value: V, other: K)
    ensures Find(Put(items, key, value), other) == if other == key then Some(value) else Find(items, other)
  {
    if items != [] && items[0].0 != key {
      var put := Put(items[1..], key, value);
      assert Put(items, key, value)[1..] == put;
      FindPut(items[1..], key, value, other);
    } else if items != [] {
      assert Put(items, key, value)[1..] == items[1..];
    }
  }

  /** A lookup after a removal: the key is gone, every other key keeps its value. */
  lemma {:induction false} FindRemove<K, V>(items: seq<(K, V)>, key: K, other: K)
    requires forall i, j :: 0 <= i < j < |items| ==> items[i].0 != items[j].0
    ensures Find(Remove(items, key), other) == if other == key then None else Find(items, other)
  {
    if items != [] {
      if items[0].0 == key {
        FindIffKey(items[1..], key);
      } else {
        assert Remove(items, key)[1..] == Remove(items[1..], key);
        FindRemove(items[1..], key, other);
      }
    }
  }

  /** An update keeps the order of the keys; a new key goes last. */
  lemma {:induction false} PutKeys<K, V>(items: seq<(K, V)>, key: K, value: V)
    ensures Keys(Put(items, key, value)) ==
              if Find(items, key).Some? then Keys(items) else Keys(items) + [key]
  {
    if items != [] && items[0].0 != key {
      PutKeys(items[1..], key, value);
      assert Keys(items) == [items[0].0] + Keys(items[1..]);
      assert Keys(Put(items, key, value)) == [items[0].0] + Keys(Put(items[1..], key, value));
    }
  }

  /** Inserting a new key and removing it again restores the map, order included. */
  lemma {:induction false} RemovePut<K, V>(items: seq<(K, V)>, key: K, value: V)
    requires Find(items, key) == None
    ensures Remove(Put(items, key, value), key) == items
  {
    if items != [] {
      RemovePut(items[1..], key, value);
      assert Put(items, key, value)[1..] == Put(items[1..], key, value);
      assert items == [items[0]] + items[1..];
    }
  }
}
