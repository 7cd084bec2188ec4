/** What an LRU cache holds after any sequence of Put and Get calls, stated
    without reference to how Put and Get rearrange it: the `capacity` most
    recently used distinct keys, most recent first, each with the value last
    put under it. A Put uses its key; a Get uses its key only when it hits. */
module LruHistory {
  import opened Maybe
  import opened LruSpec

  /** One call on the cache. */
  datatype Op<K, V> = PutOp(key: K, value: V) | GetOp(key: K)

  /** The effect of one call on the observable state. */
  function Step<K(==), V>(s: Snapshot<K, V>, op: Op<K, V>, capacity: int): (t: Snapshot<K, V>)
    requires 1 <= capacity && Inv(s, capacity)
    ensures Inv(t, capacity)
  {
    match op
    case PutOp(key, value) =>
      assert s.order != [] ==> s.order[|s.order| - 1] in s.order;
      PutKeepsInv(s, key, value, capacity);
      Put(s, key, value, capacity).0
    case GetOp(key) =>
      GetKeepsInv(s, key, capacity);
      Get(s, key).0
  }

  /** The state after the calls `ops`, oldest first, on a new cache. */
  function Run<K(==), V>(ops: seq<Op<K, V>>, capacity: int): (s: Snapshot<K, V>)
    requires 1 <= capacity
    ensures Inv(s, capacity)
  {
    if ops == [] then Empty()
    else Step(Run(ops[..|ops| - 1], capacity), ops[|ops| - 1], capacity)
  }

  /** The first `n` elements of `s`, or all of them when there are fewer. */
  function Take<T>(s: seq<T>, n: nat): seq<T> {
    if |s| <= n then s else s[..n]
  }

  /** The distinct elements of `s`, each at its first occurrence. */
  function Dedup<T(==)>(s: seq<T>): seq<T> {
    if s == [] then [] else [s[0]] + Remove(Dedup(s[1..]), s[0])
  }

  /** The keys a history of uses keeps: the `capacity` most recent distinct ones. */
  function Recent<K(==)>(uses: seq<K>, capacity: nat): seq<K> {
    Take(Dedup(uses), capacity)
  }

  /** The uses after one more call: a Put uses its key, and so does a Get
      whose key is among the recent keys; a Get that misses uses nothing. */
  function Use<K(==), V>(uses: seq<K>, op: Op<K, V>, capacity: nat): seq<K> {
    match op
    case PutOp(key, _) => [key] + uses
    case GetOp(key) => if key in Recent(uses, capacity) then [key] + uses else uses
  }

  /** The keys used by the calls `ops`, most recent first. */
  function Uses<K(==), V>(ops: seq<Op<K, V>>, capacity: nat): seq<K> {
    if ops == [] then [] else Use(Uses(ops[..|ops| - 1], capacity), ops[|ops| - 1], capacity)
  }

  /** The value of the last Put of `key` among `ops`, if there is one. */
  function LastPut<K(==), V>(ops: seq<Op<K, V>>, key: K): Option<V> {
    if ops == [] then None
    else
      match ops[|ops| - 1]
      case PutOp(k, v) => if k == key then Some(v) else LastPut(ops[..|ops| - 1], key)
      case GetOp(_) => LastPut(ops[..|ops| - 1], key)
  }

  /** Dedup keeps every element once and nothing else. */
  lemma {:induction false} DedupDistinct<T>(s: seq<T>)
    ensures Distinct(Dedup(s))
    ensures forall x :: x in Dedup(s) <==> x in s
  {
    if s != [] {
      DedupDistinct(s[1..]);
      var rest := Remove(Dedup(s[1..]), s[0]);
      RemoveKeepsDistinct(Dedup(s[1..]), s[0]);
      assert s[0] !in rest;
      forall i, j | 0 <= i < j < |[s[0]] + rest|
        ensures ([s[0]] + rest)[i] != ([s[0]] + rest)[j]
      {
        if i > 0 {
          assert ([s[0]] + rest)[i] == rest[i - 1];
        }
      }
      forall x
        ensures x in Dedup(s) <==> x in s
      {
        if x in s && x != s[0] {
          var i :| 0 <= i < |s| && s[i] == x;
          assert s[1..][i - 1] == x;
        }
      }
    }
  }

  /** Taking from a sequence with an element in front. */
  lemma TakeCons<T>(d: T, r: seq<T>, n: nat)
    requires 1 <= n
    ensures Take([d] + r, n) == [d] + Take(r, n - 1)
  {
    if |r| > n - 1 {
      assert ([d] + r)[..n] == [d] + r[..n - 1];
    }
  }

  /** Taking the prefix up to an element that is not there commutes with
      removing that element. */
  lemma {:induction false} TakeRemoveOut<T>(s: seq<T>, x: T, n: nat)
    requires x !in Take(s, n)
    ensures Take(Remove(s, x), n) == Take(s, n)
  {
    if s != [] && n != 0 {
      var r := s[1..];
      assert s == [s[0]] + r;
      TakeCons(s[0], r, n);
      assert s[0] != x;
      TakeRemoveOut(r, x, n - 1);
      TakeCons(s[0], Remove(r, x), n);
    } else if s != [] {
      assert Take(Remove(s, x), 0) == [];
    }
  }

  /** The tail of a sequence without duplicates has none either, and does
      not hold the head. */
  lemma DistinctTail<T>(s: seq<T>)
    requires Distinct(s) && s != []
    ensures Distinct(s[1..]) && s[0] !in s[1..]
  {
    forall i, j | 0 <= i < j < |s[1..]|
      ensures s[1..][i] != s[1..][j]
    {
      assert s[1..][i] == s[i + 1] && s[1..][j] == s[j + 1];
    }
  }

  /** Removing from a sequence with an element in front. */
  lemma RemoveCons<T>(d: T, r: seq<T>, x: T)
    ensures Remove([d] + r, x) == if d == x then Remove(r, x) else [d] + Remove(r, x)
  {
    assert ([d] + r)[1..] == r;
  }

  /** In a sequence without duplicates, removing an element of the prefix of
      length `n` from that prefix is taking one fewer after removing it. */
  lemma {:induction false} TakeRemoveIn<T>(s: seq<T>, x: T, n: nat)
    requires Distinct(s) && x in Take(s, n)
    ensures Remove(Take(s, n), x) == Take(Remove(s, x), n - 1)
  {
    assert s != [] && n >= 1;
    var r := s[1..];
    assert s == [s[0]] + r;
    DistinctTail(s);
    TakeCons(s[0], r, n);
    var front := Take(r, n - 1);
    assert Take(s, n) == [s[0]] + front;
    RemoveCons(s[0], front, x);
    RemoveCons(s[0], r, x);
    if s[0] == x {
      assert x !in front by {
        if |r| > n - 1 {
          assert forall y :: y in r[..n - 1] ==> y in r;
        }
      }
      calc {
        Remove(Take(s, n), x);
        Remove([s[0]] + front, x);
        Remove(front, x);
        front;
        Take(Remove(r, x), n - 1);
        Take(Remove([s[0]] + r, x), n - 1);
        Take(Remove(s, x), n - 1);
      }
    } else {
      assert x in front by {
        assert x in [s[0]] + front;
      }
      assert n >= 2;
      TakeRemoveIn(r, x, n - 1);
      TakeCons(s[0], Remove(r, x), n - 1);
      calc {
        Remove(Take(s, n), x);
        Remove([s[0]] + front, x);
        [s[0]] + Remove(front, x);
        [s[0]] + Take(Remove(r, x), n - 2);
        Take([s[0]] + Remove(r, x), n - 1);
        Take(Remove([s[0]] + r, x), n - 1);
        Take(Remove(s, x), n - 1);
      }
    }
  }

  /** A use of `key` when its key is already recent: it moves to the front. */
  lemma UseRecent<K>(uses: seq<K>, key: K, capacity: int)
    requires 1 <= capacity && key in Recent(uses, capacity)
    ensures Recent([key] + uses, capacity) == Promote(Recent(uses, capacity), key)
  {
    var d := Dedup(uses);
    DedupDistinct(uses);
    assert ([key] + uses)[1..] == uses;
    TakeCons(key, Remove(d, key), capacity);
    TakeRemoveIn(d, key, capacity);
  }

  /** A use of a key that is not recent: it enters at the front, and the
      least recent key drops out when there were already `capacity` of them. */
  lemma UseNew<K>(uses: seq<K>, key: K, capacity: int)
    requires 1 <= capacity && key !in Recent(uses, capacity)
    ensures var r := Recent(uses, capacity);
      Recent([key] + uses, capacity) ==
        if |r| < capacity then [key] + r else [key] + r[..capacity - 1]
  {
    var d := Dedup(uses);
    var r := Recent(uses, capacity);
    assert ([key] + uses)[1..] == uses;
    TakeCons(key, Remove(d, key), capacity);
    assert key !in Take(d, capacity - 1) by {
      assert Take(d, capacity - 1) == if |d| <= capacity - 1 then r else r[..capacity - 1];
    }
    TakeRemoveOut(d, key, capacity - 1);
    if |r| == capacity {
      assert Take(d, capacity - 1) == r[..capacity - 1];
    }
  }

  /** One call keeps the order equal to the recent keys of the uses. */
  lemma StepOrder<K, V>(s: Snapshot<K, V>, uses: seq<K>, op: Op<K, V>, capacity: int)
    requires 1 <= capacity && Inv(s, capacity) && s.order == Recent(uses, capacity)
    ensures Step(s, op, capacity).order == Recent(Use(uses, op, capacity), capacity)
  {
    var key := op.key;
    if key in s.contents {
      UseRecent(uses, key, capacity);
    } else if op.PutOp? {
      UseNew(uses, key, capacity);
    }
  }

  /** The order after any run is the `capacity` most recently used distinct
      keys, most recent first. */
  lemma {:induction false} RunOrder<K, V>(ops: seq<Op<K, V>>, capacity: int)
    requires 1 <= capacity
    ensures Run(ops, capacity).order == Recent(Uses(ops, capacity), capacity)
  {
    if ops != [] {
      var prefix := ops[..|ops| - 1];
      RunOrder(prefix, capacity);
      StepOrder(Run(prefix, capacity), Uses(prefix, capacity), ops[|ops| - 1], capacity);
    }
  }

  /** After any run, each stored value is the one last put under its key. */
  lemma {:induction false} RunContents<K, V>(ops: seq<Op<K, V>>, capacity: int, key: K)
    requires 1 <= capacity && key in Run(ops, capacity).contents
    ensures LastPut(ops, key) == Some(Run(ops, capacity).contents[key])
  {
    var prefix := ops[..|ops| - 1];
    var before := Run(prefix, capacity);
    match ops[|ops| - 1]
    case PutOp(k, v) =>
      if k != key {
        RunContents(prefix, capacity, key);
      }
    case GetOp(k) =>
      RunContents(prefix, capacity, key);
  }

  /** What a client sees: after any run, Get returns the value last put under
      the key when the key is among the `capacity` most recently used keys,
      and nothing otherwise. */
  lemma GetAfterRun<K, V>(ops: seq<Op<K, V>>, capacity: int, key: K)
    requires 1 <= capacity
    ensures Get(Run(ops, capacity), key).1 ==
      if key in Recent(Uses(ops, capacity), capacity) then LastPut(ops, key) else None
  {
    RunOrder(ops, capacity);
    if key in Run(ops, capacity).contents {
      RunContents(ops, capacity, key);
    }
  }
}
