/** The LRU cache as the source builds it: a map from key to list node and a
    doubly linked recency list from `front` (most recently used) to `rear`
    (least recently used), with a load counter and a fixed capacity. */
module Lru {
  import opened Maybe
  import LruSpec

  /** One entry: its key, its value and its links in the recency list. */
  class LruNode<K, V> {
    var prev: LruNode?<K, V>
    var next: LruNode?<K, V>
    var value: V
    // fixed for the node's lifetime; eviction deletes the index entry under it
    const key: K

    constructor (key: K, value: V)
      ensures this.key == key && this.value == value
      ensures prev == null && next == null
    {
      this.key := key;
      this.value := value;
      prev := null;
      next := null;
    }
  }

  /** No element occurs twice, stated one element at a time from the front.
      It means the same as `LruSpec.Distinct` (see `NoRepeatsDistinct`); the
      list lemmas below keep this recursive form because it unfolds along the
      same `[n] + ns` shape as `KeysOf` and `IndexOf`, which keeps their
      proofs small, while the abstract state is stated with `Distinct`. */
  ghost predicate NoRepeats<T>(s: seq<T>) {
    s == [] || (s[0] !in s[1..] && NoRepeats(s[1..]))
  }

  /** NoRepeats and the pairwise statement of distinctness agree. */
  lemma {:induction false} NoRepeatsDistinct<T>(s: seq<T>)
    ensures NoRepeats(s) <==> LruSpec.Distinct(s)
  {
    if s != [] {
      NoRepeatsDistinct(s[1..]);
      if LruSpec.Distinct(s) {
        assert LruSpec.Distinct(s[1..]) by {
          forall i, j | 0 <= i < j < |s[1..]|
            ensures s[1..][i] != s[1..][j]
          {
            assert s[i + 1] != s[j + 1];
          }
        }
      }
      if NoRepeats(s) {
        forall i, j | 0 <= i < j < |s|
          ensures s[i] != s[j]
        {
          if i == 0 {
            assert s[j] == s[1..][j - 1];
          } else {
            assert s[i] == s[1..][i - 1] && s[j] == s[1..][j - 1];
          }
        }
      }
    }
  }

  /** The keys of a run of nodes, in list order. */
  ghost function KeysOf<K, V>(ns: seq<LruNode<K, V>>): seq<K> {
    seq(|ns|, i requires 0 <= i < |ns| => ns[i].key)
  }

  /** The keys of a non-empty list: its first node's, then the rest's. */
  lemma KeysOfTail<K, V>(ns: seq<LruNode<K, V>>)
    requires ns != []
    ensures KeysOf(ns) == [ns[0].key] + KeysOf(ns[1..])
  {
  }

  /** The index a list of nodes gives: each key maps to the first node that
      carries it. */
  ghost function IndexOf<K, V>(ns: seq<LruNode<K, V>>): map<K, LruNode<K, V>>
  {
    if ns == [] then map[] else IndexOf(ns[1..])[ns[0].key := ns[0]]
  }

  /** The index of a list with a node in front of it. */
  lemma IndexOfCons<K, V>(n: LruNode<K, V>, ns: seq<LruNode<K, V>>)
    ensures IndexOf([n] + ns) == IndexOf(ns)[n.key := n]
  {
    assert ([n] + ns)[1..] == ns;
  }

  /** The index holds exactly the keys of the list. */
  lemma {:induction false} IndexOfKeys<K, V>(ns: seq<LruNode<K, V>>)
    ensures forall k :: k in IndexOf(ns) <==> k in KeysOf(ns)
  {
    if ns != [] {
      KeysOfTail(ns);
      IndexOfKeys(ns[1..]);
    }
  }

  /** An indexed key leads to a node of the list that carries it. */
  lemma {:induction false} IndexOfLookup<K, V>(ns: seq<LruNode<K, V>>, k: K) returns (at: nat)
    requires k in IndexOf(ns)
    ensures at < |ns| && ns[at] == IndexOf(ns)[k] && ns[at].key == k
  {
    if ns[0].key == k {
      at := 0;
    } else {
      var j := IndexOfLookup(ns[1..], k);
      at := j + 1;
    }
  }

  /** When the keys are all different, each node is what the index gives for its key. */
  lemma {:induction false} IndexOfAt<K, V>(ns: seq<LruNode<K, V>>, i: nat)
    requires NoRepeats(KeysOf(ns)) && i < |ns|
    ensures ns[i].key in IndexOf(ns) && IndexOf(ns)[ns[i].key] == ns[i]
  {
    if i > 0 {
      KeysOfTail(ns);
      assert KeysOf(ns)[1..] == KeysOf(ns[1..]);
      IndexOfAt(ns[1..], i - 1);
      assert ns[i].key == KeysOf(ns[1..])[i - 1];
    }
  }

  /** When the keys are all different, the index has one entry per node. */
  lemma {:induction false} IndexOfSize<K, V>(ns: seq<LruNode<K, V>>)
    requires NoRepeats(KeysOf(ns))
    ensures |IndexOf(ns)| == |ns|
  {
    if ns != [] {
      KeysOfTail(ns);
      assert KeysOf(ns)[1..] == KeysOf(ns[1..]);
      IndexOfSize(ns[1..]);
      IndexOfKeys(ns[1..]);
    }
  }

  /** When the keys are all different, cutting a node out of the list takes
      its key out of the index. */
  lemma {:induction false} IndexOfRemoveAt<K, V>(ns: seq<LruNode<K, V>>, at: nat)
    requires NoRepeats(KeysOf(ns)) && at < |ns|
    ensures IndexOf(ns[..at] + ns[at + 1..]) == IndexOf(ns) - {ns[at].key}
  {
    var t := ns[1..];
    KeysOfTail(ns);
    assert KeysOf(ns)[1..] == KeysOf(t);
    if at == 0 {
      assert ns[..0] + ns[1..] == t;
      IndexOfKeys(t);
      assert IndexOf(t) == IndexOf(ns) - {ns[0].key};
    } else {
      var cut := t[..at - 1] + t[at..];
      assert ns[..at] + ns[at + 1..] == [ns[0]] + cut;
      assert ns[at].key == KeysOf(t)[at - 1];
      IndexOfRemoveAt(t, at - 1);
      IndexOfCons(ns[0], cut);
      UpdateRemove(IndexOf(t), ns[0].key, ns[0], ns[at].key);
    }
  }

  /** Adding one key and deleting another commute. */
  lemma UpdateRemove<K, W>(m: map<K, W>, a: K, w: W, b: K)
    requires a != b
    ensures m[a := w] - {b} == (m - {b})[a := w]
  {
  }

  /** Taking a key out and putting it back with its own value gives the map back. */
  lemma RemoveRestore<K, W>(m: map<K, W>, a: K)
    requires a in m
    ensures (m - {a})[a := m[a]] == m
  {
  }

  /** Moving a node to the front moves its key to the front of the keys. */
  lemma KeysOfMove<K, V>(ns: seq<LruNode<K, V>>, at: nat)
    requires at < |ns|
    ensures KeysOf([ns[at]] + ns[..at] + ns[at + 1..])
      == [KeysOf(ns)[at]] + KeysOf(ns)[..at] + KeysOf(ns)[at + 1..]
  {
    var ks := KeysOf(ns);
    var moved := [ns[at]] + ns[..at] + ns[at + 1..];
    var target := [ks[at]] + ks[..at] + ks[at + 1..];
    forall i | 0 <= i < |moved|
      ensures KeysOf(moved)[i] == target[i]
    {
      if i == 0 {
        assert moved[0] == ns[at];
      } else if i <= at {
        assert moved[i] == ns[i - 1] && target[i] == ks[i - 1];
      } else {
        assert moved[i] == ns[i] && target[i] == ks[i];
      }
    }
  }

  /** The keys of the list with the node at `at` moved to the front. */
  lemma KeysOfMoved<K, V>(ns: seq<LruNode<K, V>>, at: nat)
    requires LruSpec.Distinct(KeysOf(ns)) && at < |ns|
    ensures KeysOf([ns[at]] + ns[..at] + ns[at + 1..]) == LruSpec.Promote(KeysOf(ns), ns[at].key)
  {
    KeysOfMove(ns, at);
    LruSpec.RemoveAt(KeysOf(ns), at);
  }

  /** Moving the node at `at` to the front leaves the index as it is. */
  lemma IndexOfPromote<K, V>(ns: seq<LruNode<K, V>>, at: nat)
    requires NoRepeats(KeysOf(ns)) && at < |ns|
    ensures IndexOf([ns[at]] + ns[..at] + ns[at + 1..]) == IndexOf(ns)
  {
    var rest := ns[..at] + ns[at + 1..];
    assert [ns[at]] + ns[..at] + ns[at + 1..] == [ns[at]] + rest;
    IndexOfCons(ns[at], rest);
    IndexOfRemoveAt(ns, at);
    IndexOfAt(ns, at);
    RemoveRestore(IndexOf(ns), ns[at].key);
  }

  /** Moving the node at `at` to the front promotes its key and keeps the
      keys distinct. */
  lemma KeysOfPromote<K, V>(ns: seq<LruNode<K, V>>, at: nat)
    requires NoRepeats(KeysOf(ns)) && at < |ns|
    ensures KeysOf([ns[at]] + ns[..at] + ns[at + 1..]) == LruSpec.Promote(KeysOf(ns), ns[at].key)
    ensures NoRepeats(KeysOf([ns[at]] + ns[..at] + ns[at + 1..]))
  {
    NoRepeatsDistinct(KeysOf(ns));
    KeysOfMoved(ns, at);
    LruSpec.PromoteKeepsDistinct(KeysOf(ns), ns[at].key);
    NoRepeatsDistinct(KeysOf([ns[at]] + ns[..at] + ns[at + 1..]));
  }

  /** A node with a new key put in front of the list: its key joins the index. */
  lemma InsertIndex<K, V>(ns: seq<LruNode<K, V>>, n: LruNode<K, V>)
    requires NoRepeats(KeysOf(ns)) && n.key !in IndexOf(ns)
    ensures n !in ns
    ensures IndexOf([n] + ns) == IndexOf(ns)[n.key := n]
    ensures KeysOf([n] + ns) == [n.key] + KeysOf(ns)
    ensures NoRepeats(KeysOf([n] + ns))
  {
    IndexOfKeys(ns);
    IndexOfCons(n, ns);
    assert ([n] + ns)[1..] == ns;
    KeysOfTail([n] + ns);
    assert KeysOf([n] + ns)[1..] == KeysOf(ns);
    forall i | 0 <= i < |ns|
      ensures ns[i] != n
    {
      assert KeysOf(ns)[i] == ns[i].key;
    }
  }

  /** When the keys are all different, dropping the rear node takes its key
      out of the index. */
  lemma IndexOfDropRear<K, V>(ns: seq<LruNode<K, V>>)
    requires NoRepeats(KeysOf(ns)) && ns != []
    ensures IndexOf(ns[..|ns| - 1]) == IndexOf(ns) - {ns[|ns| - 1].key}
  {
    var last := |ns| - 1;
    assert ns[..last] + ns[last + 1..] == ns[..last];
    IndexOfRemoveAt(ns, last);
  }

  /** Dropping the rear node leaves the other keys distinct and in order. */
  lemma KeysOfDropRear<K, V>(ns: seq<LruNode<K, V>>)
    requires NoRepeats(KeysOf(ns)) && ns != []
    ensures KeysOf(ns[..|ns| - 1]) == KeysOf(ns)[..|ns| - 1]
    ensures NoRepeats(KeysOf(ns[..|ns| - 1]))
  {
    var last := |ns| - 1;
    assert KeysOf(ns[..last]) == KeysOf(ns)[..last];
    NoRepeatsDistinct(KeysOf(ns));
    NoRepeatsDistinct(KeysOf(ns[..last]));
  }

  /** The eviction step of Put as the index sees it: the new node's key
      enters and the rear's key leaves. */
  lemma EvictIndex<K, V>(ns: seq<LruNode<K, V>>, n: LruNode<K, V>)
    requires NoRepeats(KeysOf(ns)) && ns != [] && n.key !in IndexOf(ns)
    ensures IndexOf([n] + ns[..|ns| - 1]) == IndexOf(ns)[n.key := n] - {ns[|ns| - 1].key}
  {
    var last := |ns| - 1;
    IndexOfDropRear(ns);
    IndexOfCons(n, ns[..last]);
    IndexOfAt(ns, last);
    UpdateRemove(IndexOf(ns), n.key, n, ns[last].key);
  }

  /** The eviction step of Put as the list sees it: the new node is not yet
      listed, the rear's key leaves, the new key enters in front, and the
      keys stay distinct. */
  lemma EvictKeys<K, V>(ns: seq<LruNode<K, V>>, n: LruNode<K, V>)
    requires NoRepeats(KeysOf(ns)) && ns != [] && n.key !in IndexOf(ns)
    ensures n !in ns
    ensures KeysOf([n] + ns[..|ns| - 1]) == [n.key] + KeysOf(ns)[..|ns| - 1]
    ensures NoRepeats(KeysOf([n] + ns[..|ns| - 1]))
  {
    var last := |ns| - 1;
    InsertIndex(ns, n);
    KeysOfDropRear(ns);
    IndexOfDropRear(ns);
    InsertIndex(ns[..last], n);
  }

  /** Why NewCache refuses to build a cache. */
  datatype CacheError = CapacityNotPositive

  /** A capacity the constructor accepts: at least one entry. */
  type Capacity = c: int | 1 <= c witness 1

  class Cache<K(==), V> {
    const capacity: Capacity
    var load: int
    var keyMap: map<K, LruNode<K, V>>
    // the two ends of the recency list: front was used last, rear is the next victim
    var front: LruNode?<K, V>
    var rear: LruNode?<K, V>

    // the nodes of the recency list, front to rear
    ghost var nodes: seq<LruNode<K, V>>

    /** The list shape: `nodes` are linked front to rear through prev/next,
        each once, with null at both ends, and front/rear point at the ends. */
    ghost predicate Linked()
      reads this`front, this`rear, this`nodes, nodes`prev, nodes`next
    {
      && NoRepeats(nodes)
      && (forall i {:trigger nodes[i].prev} :: 0 < i < |nodes| ==> nodes[i].prev == nodes[i - 1])
      && (forall i {:trigger nodes[i].next} :: 0 <= i < |nodes| - 1 ==> nodes[i].next == nodes[i + 1])
      && (nodes != [] ==> nodes[0].prev == null && nodes[|nodes| - 1].next == null)
      && front == (if nodes == [] then null else nodes[0])
      && rear == (if nodes == [] then null else nodes[|nodes| - 1])
    }

    /** The keys of the list, front to rear. */
    ghost function Order(): seq<K>
      reads this`nodes
    {
      KeysOf(nodes)
    }

    /** The value stored under each key of the index. */
    ghost function Contents(): map<K, V>
      reads this`keyMap, keyMap.Values`value
    {
      map k | k in keyMap :: keyMap[k].value
    }

    /** The object invariant: a well-formed list whose keys are all
        different, an index that maps each of them to its node and holds no
        other key, and a load that counts the nodes within capacity. */
    ghost predicate Valid()
      reads this, nodes`prev, nodes`next
    {
      && Linked()
      && load == |nodes| <= capacity
      && NoRepeats(Order())
      && keyMap == IndexOf(nodes)
    }

    /** The cache as a value: keys in recency order and the stored values. */
    ghost function Abstract(): (s: LruSpec.Snapshot<K, V>)
      reads this, nodes`prev, nodes`next, keyMap.Values`value
      requires Valid()
      ensures s.order != [] ==> s.order[|s.order| - 1] in s.contents
    {
      RearIndexed();
      LruSpec.Snapshot(Order(), Contents())
    }

    /** The least recently used key is in the index. */
    lemma RearIndexed()
      requires Valid()
      ensures nodes != [] ==> Order()[|nodes| - 1] in keyMap
    {
      if nodes != [] {
        IndexOfAt(nodes, |nodes| - 1);
      }
    }

    /** A valid cache is, as a value, a valid snapshot: keys once each, the
        same keys in the order and in the contents, no more than capacity. */
    lemma AbstractInv()
      requires Valid()
      ensures LruSpec.Inv(Abstract(), capacity)
    {
      NoRepeatsDistinct(Order());
      IndexOfKeys(nodes);
    }

    constructor (capacity: Capacity)
      ensures Valid()
      ensures this.capacity == capacity && Abstract() == LruSpec.Empty()
      ensures load == 0 && front == null && rear == null && nodes == []
    {
      this.capacity := capacity;
      load := 0;
      keyMap := map[];
      front := null;
      rear := null;
      nodes := [];
      new;
      assert Order() == [];
    }

    /** Construction fails exactly when the capacity is below one; otherwise
        the new cache is empty. */
    static method NewCache(capacity: int) returns (r: Result<Cache<K, V>, CacheError>)
      ensures r.Err? <==> capacity < 1
      ensures r.Ok? ==> r.value.Valid() && fresh(r.value)
      ensures r.Ok? ==> r.value.capacity == capacity && r.value.Abstract() == LruSpec.Empty()
      ensures r.Ok? ==> r.value.load == 0 && r.value.front == null && r.value.rear == null
      ensures r.Ok? ==> r.value.nodes == []
    {
      if capacity < 1 {
        return Err(CapacityNotPositive);
      }
      var c := new Cache(capacity);
      return Ok(c);
    }

    /** The number of entries. */
    function Len(): (n: int)
      reads this, nodes`prev, nodes`next
      requires Valid()
      ensures n == |Order()| == load && 0 <= n <= capacity
      ensures n == 0 <==> front == null && rear == null
    {
      IndexOfSize(nodes);
      |keyMap|
    }

    /** Links a node that is not yet in the list in front of the current front. */
    method InsertInFront(node: LruNode<K, V>)
      requires Linked() && nodes != []
      requires node !in nodes && node.prev == null
      modifies this`front, this`nodes, front`prev, node`next
      ensures Linked() && nodes == [node] + old(nodes)
    {
      front.prev := node;
      node.next := front;
      front := node;
      nodes := [node] + nodes;
      forall i | 1 <= i < |nodes| - 1
        ensures nodes[i].next == nodes[i + 1]
      {
        assert nodes[i] == old(nodes)[i - 1] && nodes[i + 1] == old(nodes)[i];
      }
      assert nodes[|nodes| - 1] == old(nodes)[|old(nodes)| - 1];
    }

    /** Takes a node other than the front out of the list, joining its
        neighbours; when it was the rear, its predecessor becomes the rear.
        This is the first half of bringNodeToFront. */
    method Unlink(node: LruNode<K, V>, ghost at: nat)
      requires Linked() && 0 < at < |nodes| && nodes[at] == node
      modifies this`rear, this`nodes, nodes`prev, nodes`next
      ensures Linked() && nodes == old(nodes)[..at] + old(nodes)[at + 1..] && node !in nodes
    {
      var n := |nodes|;
      ghost var rest := nodes[..at] + nodes[at + 1..];
      NoRepeatsDistinct(nodes);
      assert LruSpec.Distinct(rest) && node !in rest by {
        LruSpec.RemoveAt(nodes, at);
        LruSpec.RemoveKeepsDistinct(nodes, node);
      }
      assert node.prev == nodes[at - 1];
      assert at < n - 1 ==> node.next == nodes[at + 1];
      if node.next == null {
        rear := node.prev;
      } else {
        node.next.prev := node.prev;
      }
      node.prev.next := node.next;
      nodes := rest;
      forall j | 0 < j < n - 1
        ensures nodes[j].prev == nodes[j - 1]
      {
        if j < at {
          assert nodes[j] == old(nodes)[j] && nodes[j - 1] == old(nodes)[j - 1];
        } else if j == at {
          assert nodes[j] == old(nodes)[at + 1] && nodes[j - 1] == old(nodes)[at - 1];
        } else {
          assert nodes[j] == old(nodes)[j + 1] && nodes[j - 1] == old(nodes)[j];
        }
      }
      forall j | 0 <= j < n - 2
        ensures nodes[j].next == nodes[j + 1]
      {
        if j < at - 1 {
          assert nodes[j] == old(nodes)[j] && nodes[j + 1] == old(nodes)[j + 1];
        } else if j == at - 1 {
          assert nodes[j] == old(nodes)[at - 1] && nodes[j + 1] == old(nodes)[at + 1];
        } else {
          assert nodes[j] == old(nodes)[j + 1] && nodes[j + 1] == old(nodes)[j + 2];
        }
      }
      assert nodes[0] == old(nodes)[0];
      assert nodes[n - 2] == if at == n - 1 then old(nodes)[n - 2] else old(nodes)[n - 1];
      NoRepeatsDistinct(nodes);
    }

    /** Moves a node of the list to the front; the other nodes keep their
        relative order. `at` is the node's position in the list. The source's
        four relinking assignments after the unlink have the effect of
        clearing the node's prev link and inserting it in front. */
    method BringNodeToFront(node: LruNode<K, V>, ghost at: nat)
      requires Linked() && at < |nodes| && nodes[at] == node
      modifies this`front, this`rear, this`nodes, nodes`prev, nodes`next
      ensures Linked() && nodes == [node] + old(nodes)[..at] + old(nodes)[at + 1..]
    {
      if node == front {
        NoRepeatsDistinct(nodes);
        assert nodes[0] == nodes[at];
        return;
      }
      Unlink(node, at);
      node.prev := null;
      InsertInFront(node);
    }

    /** Moves an indexed node to the front of the list: its key is promoted,
        the other keys keep their order, and the cache stays valid. */
    method Touch(node: LruNode<K, V>)
      requires Valid() && node.key in keyMap && keyMap[node.key] == node
      modifies this`front, this`rear, this`nodes, nodes`prev, nodes`next
      ensures Valid()
      ensures Order() == LruSpec.Promote(old(Order()), node.key)
      ensures forall n :: n in nodes ==> n in old(nodes)
    {
      ghost var at := IndexOfLookup(nodes, node.key);
      IndexOfPromote(nodes, at);
      KeysOfPromote(nodes, at);
      BringNodeToFront(node, at);
    }

    /** Makes the predecessor of the rear the new rear: the list loses its
        last node. */
    method DetachRear()
      requires Linked() && |nodes| >= 2
      modifies this`rear, this`nodes, nodes`next
      ensures Linked() && nodes == old(nodes)[..|old(nodes)| - 1]
    {
      ghost var last := |nodes| - 1;
      assert rear.prev == nodes[last - 1];
      rear := rear.prev;
      rear.next := null;
      NoRepeatsDistinct(nodes);
      nodes := nodes[..last];
      NoRepeatsDistinct(nodes);
    }

    /** Links a new node in as the front: it becomes the whole list when the
        list is empty, and is inserted in front otherwise. */
    method LinkFront(node: LruNode<K, V>)
      requires Linked() && node !in nodes && node.prev == null && node.next == null
      modifies this`front, this`rear, this`nodes, nodes`prev, node`next
      ensures Linked() && nodes == [node] + old(nodes)
    {
      if front == null && rear == null {
        assert nodes == [];
        front := node;
        rear := node;
        nodes := [node];
      } else {
        InsertInFront(node);
      }
    }

    /** The rear node leaves the list and a new node takes the front. When the
        rear was the only node, the new node simply replaces it. */
    method ReplaceRear(node: LruNode<K, V>)
      requires Linked() && nodes != [] && node !in nodes && node.prev == null && node.next == null
      modifies this`front, this`rear, this`nodes, nodes`prev, nodes`next, node`next
      ensures Linked() && nodes == [node] + old(nodes)[..|old(nodes)| - 1]
    {
      assert |nodes| > 1 ==> rear.prev == nodes[|nodes| - 2];
      // the rear was the only node: the new node becomes the whole list
      if rear.next == null && rear.prev == null {
        front := node;
        rear := node;
        nodes := [node];
      } else {
        DetachRear();
        InsertInFront(node);
      }
    }

    /** Put(key, value): overwrites and promotes an existing key, or inserts a
        new key at the front, evicting the rear first when the cache is full.
        The evicted pair, if any, is what the eviction hook receives. */
    method Put(key: K, value: V) returns (evicted: Option<(K, V)>)
      requires Valid()
      modifies this, nodes
      ensures Valid()
      ensures (Abstract(), evicted) == LruSpec.Put(old(Abstract()), key, value, capacity)
      ensures forall i :: 0 <= i < |nodes| ==> nodes[i] in old(nodes) || fresh(nodes[i])
    {
      if key in keyMap {
        Overwrite(key, value);
        return None;
      }

      // room left: the new key joins without evicting anything
      if load < capacity {
        AddInFront(key, value);
        return None;
      }

      // full: the rear entry makes way for the new key
      evicted := EvictAndAdd(key, value);
    }

    /** The existing-key path of Put: the value is replaced and the node
        brought to the front. */
    method Overwrite(key: K, value: V)
      requires Valid() && key in keyMap
      modifies this`front, this`rear, this`nodes, nodes`prev, nodes`next, nodes`value
      ensures Valid()
      ensures Order() == LruSpec.Promote(old(Order()), key)
      ensures Contents() == old(Contents())[key := value]
      ensures forall n :: n in nodes ==> n in old(nodes)
    {
      ghost var contents := Contents();
      ghost var at := IndexOfLookup(nodes, key);
      var existing := keyMap[key];
      existing.value := value;
      Touch(existing);
      assert Contents() == contents[key := value] by {
        forall k | k in keyMap
          ensures Contents()[k] == contents[key := value][k]
        {
          var i := IndexOfLookup(nodes, k);
        }
      }
    }

    /** The not-full path of Put for a new key: a new node is indexed and
        becomes the front (or the whole list when the cache is empty), and the
        load grows by one. */
    method AddInFront(key: K, value: V)
      requires Valid() && key !in keyMap && load < capacity
      modifies this`keyMap, this`load, this`front, this`rear, this`nodes, nodes`prev
      ensures Valid()
      ensures Order() == [key] + old(Order())
      ensures Contents() == old(Contents())[key := value]
      ensures forall n :: n in nodes ==> n in old(nodes) || fresh(n)
    {
      ghost var contents := Contents();
      var node := new LruNode(key, value);
      InsertIndex(nodes, node);
      keyMap := keyMap[key := node];
      LinkFront(node);
      load := load + 1;
      assert Contents() == contents[key := value] by {
        forall k | k in keyMap
          ensures Contents()[k] == contents[key := value][k]
        {
        }
      }
    }

    /** The full path of Put for a new key: the rear entry leaves the index
        and the list, and a new node takes the front. Returns the evicted
        pair, as the eviction hook receives it. */
    method EvictAndAdd(key: K, value: V) returns (evicted: Option<(K, V)>)
      requires Valid() && key !in keyMap && load == capacity
      modifies this`keyMap, this`front, this`rear, this`nodes, nodes`prev, nodes`next
      ensures Valid()
      ensures Order() == [key] + old(Order())[..|old(Order())| - 1]
      ensures var victim := old(Order())[|old(Order())| - 1];
        && victim in old(Contents())
        && Contents() == (old(Contents()) - {victim})[key := value]
        && evicted == Some((victim, old(Contents())[victim]))
      ensures forall n :: n in nodes ==> n in old(nodes) || fresh(n)
    {
      ghost var contents := Contents();
      ghost var victim := rear.key;
      IndexOfAt(nodes, |nodes| - 1);
      evicted := Some((rear.key, rear.value));
      var node := new LruNode(key, value);
      EvictIndex(nodes, node);
      EvictKeys(nodes, node);
      keyMap := keyMap[key := node] - {rear.key};
      ReplaceRear(node);
      assert Contents() == (contents - {victim})[key := value] by {
        forall k | k in keyMap
          ensures Contents()[k] == (contents - {victim})[key := value][k]
        {
        }
      }
    }

    /** Get(key): on a hit, the value and a promotion of the key to the
        front; on a miss, None and no change. */
    method Get(key: K) returns (value: Option<V>)
      requires Valid()
      modifies this`front, this`rear, this`nodes, nodes`prev, nodes`next
      ensures Valid()
      ensures (Abstract(), value) == LruSpec.Get(old(Abstract()), key)
      ensures old(key !in keyMap || keyMap[key] == front) ==> unchanged(this) && unchanged(nodes)
      ensures forall i :: 0 <= i < |nodes| ==> nodes[i] in old(nodes)
    {
      if key !in keyMap {
        return None;
      }
      var node := keyMap[key];

      // already most recently used: nothing to move
      if front == node || (node.prev == null && node.next == null) {
        ghost var at := IndexOfLookup(nodes, key);
        NoRepeatsDistinct(nodes);
        if at != 0 {
          assert false;
        }
        NoRepeatsDistinct(Order());
        LruSpec.PromoteFront(Order(), key);
        return Some(node.value);
      }

      ghost var contents := Contents();
      ghost var at := IndexOfLookup(nodes, key);
      Touch(node);
      assert Contents() == contents by {
        forall k | k in keyMap
          ensures Contents()[k] == contents[k]
        {
        }
      }
      return Some(node.value);
    }

    /** Purge: every entry is evicted, in no particular order, and the cache
        is left empty. Each key is reported once, together with its node (the
        source hands the hook the node, not the stored value). */
    method Purge() returns (evicted: seq<(K, LruNode<K, V>)>)
      modifies this
      ensures Valid() && Abstract() == LruSpec.Empty() && Len() == 0
      ensures load == 0 && front == null && rear == null && keyMap == map[] && nodes == []
      ensures forall k :: k in old(keyMap) ==> (k, old(keyMap)[k]) in evicted
      ensures forall p :: p in evicted ==> p.0 in old(keyMap) && p.1 == old(keyMap)[p.0]
      ensures forall i, j :: 0 <= i < j < |evicted| ==> evicted[i].0 != evicted[j].0
    {
      evicted := [];
      while keyMap != map[]
        invariant keyMap.Keys <= old(keyMap).Keys
        invariant forall k :: k in keyMap ==> keyMap[k] == old(keyMap)[k]
        invariant forall k :: k in old(keyMap) && k !in keyMap ==> (k, old(keyMap)[k]) in evicted
        invariant forall p :: p in evicted ==> p.0 in old(keyMap) && p.0 !in keyMap && p.1 == old(keyMap)[p.0]
        invariant forall i, j :: 0 <= i < j < |evicted| ==> evicted[i].0 != evicted[j].0
        decreases keyMap.Keys
      {
        var k :| k in keyMap;
        evicted := evicted + [(k, keyMap[k])];
        ghost var before := keyMap;
        keyMap := keyMap - {k};
        assert keyMap.Keys == before.Keys - {k};
      }

      // the index is empty now; the list and the load follow it
      front := null;
      rear := null;
      nodes := [];
      load := 0;
      ClearedIsEmpty();
    }

    /** A cache with no index entries, no list and no load is valid and empty. */
    lemma ClearedIsEmpty()
      requires keyMap == map[] && nodes == [] && load == 0 && front == null && rear == null
      ensures Valid() && Abstract() == LruSpec.Empty() && Len() == 0
    {
      assert Order() == [];
    }
  }
}
