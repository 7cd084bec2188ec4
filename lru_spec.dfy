/** The abstract behaviour of the LRU cache: the recency order of the keys
    (most recently used first) and the key/value contents, with the effect of
    Put and Get on them. The heap-based cache in module Lru is proved to
    follow these functions step for step. */
module LruSpec {
  import opened Maybe

  /** No element occurs twice. */
  predicate Distinct<T(==)>(s: seq<T>) {
    forall i, j :: 0 <= i < j < |s| ==> s[i] != s[j]
  }

  /** `s` with every occurrence of `x` taken out, the rest in their order. */
  function Remove<T(==)>(s: seq<T>, x: T): (r: seq<T>)
    ensures forall y :: y in r ==> y in s && y != x
    ensures forall y :: y in s && y != x ==> y in r
    ensures |r| <= |s|
    ensures x !in s ==> r == s
  {
    if s == [] then []
    else if s[0] == x then Remove(s[1..], x)
    else [s[0]] + Remove(s[1..], x)
  }

  lemma {:induction false} RemoveKeepsDistinct<T>(s: seq<T>, x: T)
    requires Distinct(s)
    ensures Distinct(Remove(s, x))
    ensures x in s ==> |Remove(s, x)| == |s| - 1
  {
    if s != [] {
      RemoveKeepsDistinct(s[1..], x);
      if s[0] != x {
        var rest := Remove(s[1..], x);
        assert s[0] !in rest;
        assert Distinct([s[0]] + rest) by {
          forall i, j | 0 <= i < j < |[s[0]] + rest|
            ensures ([s[0]] + rest)[i] != ([s[0]] + rest)[j]
          {
            if i > 0 {
              assert ([s[0]] + rest)[i] == rest[i - 1];
            }
          }
        }
      } else {
        assert x !in s[1..];
      }
    }
  }

  /** In a sequence without duplicates, removing the element at position `i`
      is cutting that position out. */
  lemma {:induction false} RemoveAt<T>(s: seq<T>, i: nat)
    requires Distinct(s) && i < |s|
    ensures Remove(s, s[i]) == s[..i] + s[i + 1..]
  {
    if i == 0 {
      assert s[0] !in s[1..];
    } else {
      var t := s[1..];
      assert s[0] != s[i];
      assert t[i - 1] == s[i];
      RemoveAt(t, i - 1);
      calc {
        Remove(s, s[i]);
        [s[0]] + Remove(t, s[i]);
        [s[0]] + (t[..i - 1] + t[i..]);
        { assert [s[0]] + t[..i - 1] == s[..i]; assert t[i..] == s[i + 1..]; }
        s[..i] + s[i + 1..];
      }
    }
  }

  /** `key` becomes the most recently used; every other key keeps its place
      relative to the others. */
  function Promote<K(==)>(order: seq<K>, key: K): seq<K> {
    [key] + Remove(order, key)
  }

  /** The observable state of a cache: keys from most to least recently
      used, and the value stored under each key. */
  datatype Snapshot<K, V> = Snapshot(order: seq<K>, contents: map<K, V>)

  /** The representation-independent invariant: every key once, the index and
      the order hold the same keys, and the load is within capacity. */
  predicate Inv<K(==), V>(s: Snapshot<K, V>, capacity: int) {
    && Distinct(s.order)
    && (forall k :: k in s.contents ==> k in s.order)
    && (forall k :: k in s.order ==> k in s.contents)
    && |s.order| <= capacity
  }

  function Empty<K, V>(): Snapshot<K, V> {
    Snapshot([], map[])
  }

  /** Put(key, value): overwrite and promote an existing key; otherwise insert
      at the front, first evicting the least recently used key when the cache
      is full. The second component is the pair handed to the eviction hook. */
  function Put<K(==), V>(s: Snapshot<K, V>, key: K, value: V, capacity: int): (Snapshot<K, V>, Option<(K, V)>)
    requires 1 <= capacity && (s.order != [] ==> s.order[|s.order| - 1] in s.contents)
  {
    if key in s.contents then
      (Snapshot(Promote(s.order, key), s.contents[key := value]), None)
    else if |s.order| < capacity then
      (Snapshot([key] + s.order, s.contents[key := value]), None)
    else
      var victim := s.order[|s.order| - 1];
      (Snapshot([key] + s.order[..|s.order| - 1], (s.contents - {victim})[key := value]),
       Some((victim, s.contents[victim])))
  }

  /** Get(key): a hit promotes the key and returns its value; a miss changes nothing. */
  function Get<K(==), V>(s: Snapshot<K, V>, key: K): (Snapshot<K, V>, Option<V>) {
    if key in s.contents then
      (Snapshot(Promote(s.order, key), s.contents), Some(s.contents[key]))
    else
      (s, None)
  }

  /** Promoting the key that is already in front changes nothing. */
  lemma PromoteFront<K>(order: seq<K>, key: K)
    requires Distinct(order) && order != [] && order[0] == key
    ensures Promote(order, key) == order
  {
    RemoveAt(order, 0);
  }

  lemma PromoteKeepsDistinct<K>(order: seq<K>, key: K)
    requires Distinct(order)
    ensures Distinct(Promote(order, key))
    ensures key in order ==> |Promote(order, key)| == |order|
  {
    RemoveKeepsDistinct(order, key);
    var rest := Remove(order, key);
    assert key !in rest;
    forall i, j | 0 <= i < j < |[key] + rest|
      ensures ([key] + rest)[i] != ([key] + rest)[j]
    {
      if i > 0 {
        assert ([key] + rest)[i] == rest[i - 1];
      }
    }
  }

  /** Every Put keeps the invariant (index and order agree, load <= capacity). */
  lemma PutKeepsInv<K, V>(s: Snapshot<K, V>, key: K, value: V, capacity: int)
    requires 1 <= capacity && Inv(s, capacity)
    ensures Inv(Put(s, key, value, capacity).0, capacity)
  {
    if key in s.contents || |s.order| < capacity {
      PromoteKeepsDistinct(s.order, key);
    } else {
      EvictKeepsInv(s, key, value, capacity);
    }
  }

  /** The eviction case of Put keeps the invariant: the rear key leaves both
      the order and the contents, and the new key enters both. */
  lemma EvictKeepsInv<K, V>(s: Snapshot<K, V>, key: K, value: V, capacity: int)
    requires 1 <= capacity && Inv(s, capacity) && key !in s.contents && |s.order| == capacity
    ensures Inv(Put(s, key, value, capacity).0, capacity)
  {
    var n := |s.order|;
    var victim := s.order[n - 1];
    var kept := s.order[..n - 1];
    assert s.order == kept + [victim];
    assert victim !in kept;
    assert Distinct(kept);
    assert Promote(kept, key) == [key] + kept;
    PromoteKeepsDistinct(kept, key);
    forall k | k in s.order
      ensures k in kept || k == victim
    {
    }
  }

  /** Every Get keeps the invariant. */
  lemma GetKeepsInv<K, V>(s: Snapshot<K, V>, key: K, capacity: int)
    requires Inv(s, capacity)
    ensures Inv(Get(s, key).0, capacity)
  {
    PromoteKeepsDistinct(s.order, key);
  }

  /** The key just put is the most recently used one, and getting it returns
      the value just put without changing anything further. */
  lemma PutThenGet<K, V>(s: Snapshot<K, V>, key: K, value: V, capacity: int)
    requires 1 <= capacity && Inv(s, capacity)
    ensures var t := Put(s, key, value, capacity).0;
      && t.order != [] && t.order[0] == key
      && Get(t, key) == (t, Some(value))
  {
    var t := Put(s, key, value, capacity).0;
    PutKeepsInv(s, key, value, capacity);
    PromoteFront(t.order, key);
  }

  /** Put touches no entry but its own key and the evicted one: every other
      key keeps its value, and stays unless it was evicted. This follows from
      the definition of Put alone, so the proof is empty. */
  lemma PutKeepsOthers<K, V>(s: Snapshot<K, V>, key: K, value: V, capacity: int, k: K)
    requires 1 <= capacity && Inv(s, capacity) && k != key
    ensures var (t, evicted) := Put(s, key, value, capacity);
      && (k in t.contents ==> k in s.contents && t.contents[k] == s.contents[k])
      && (k in s.contents && (evicted.None? || evicted.value.0 != k) ==> k in t.contents)
  {
  }

  /** Put evicts exactly when the key is new and the cache is full, and then
      it evicts the least recently used key with its value, which is gone
      afterwards. */
  lemma PutEvictsLru<K, V>(s: Snapshot<K, V>, key: K, value: V, capacity: int)
    requires 1 <= capacity && Inv(s, capacity)
    ensures var (t, evicted) := Put(s, key, value, capacity);
      && (evicted.Some? <==> key !in s.contents && |s.order| == capacity)
      && (evicted.Some? ==>
            && evicted.value.0 == s.order[|s.order| - 1]
            && evicted.value.1 == s.contents[evicted.value.0]
            && evicted.value.0 !in t.contents
            && evicted.value.0 !in t.order)
  {
    var n := |s.order|;
    if key !in s.contents && n == capacity {
      var victim := s.order[n - 1];
      assert victim !in s.order[..n - 1];
    }
  }

  /** The number of entries after Put: unchanged for an existing key, one more
      for a new key while there is room, and the capacity once full. */
  lemma PutSize<K, V>(s: Snapshot<K, V>, key: K, value: V, capacity: int)
    requires 1 <= capacity && Inv(s, capacity)
    ensures var t := Put(s, key, value, capacity).0;
      |t.order| == if key in s.contents then |s.order|
                   else if |s.order| < capacity then |s.order| + 1
                   else capacity
  {
    RemoveKeepsDistinct(s.order, key);
  }

  /** A hit moves the key to the front; a second Get of the same key then
      changes nothing and returns the same value. */
  lemma GetTwice<K, V>(s: Snapshot<K, V>, key: K, capacity: int)
    requires Inv(s, capacity)
    ensures var (t, r) := Get(s, key);
      && (r.Some? ==> t.order[0] == key)
      && Get(t, key) == (t, r)
  {
    var t := Get(s, key).0;
    if key in s.contents {
      GetKeepsInv(s, key, capacity);
      PromoteFront(t.order, key);
    }
  }
}
