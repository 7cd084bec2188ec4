/** The call sequences of the repository's test file, replayed on the
    abstract cache: what the Get calls return. */
module LruScenarios {
  import opened Maybe
  import opened LruSpec
  import Lru

  /** Capacity 2: puts 1 and 2, reads 1, then 3 evicts 2 and 4 evicts 1. */
  method TwoEvictions() returns (gets: seq<Option<int>>)
    ensures gets == [Some(1), None, None, Some(3), Some(4)]
  {
    var s0: Snapshot<int, int> := Empty();
    var (s1, _) := Put(s0, 1, 1, 2);
    assert s1 == Snapshot([1], map[1 := 1]);
    var (s2, _) := Put(s1, 2, 2, 2);
    assert s2 == Snapshot([2, 1], map[1 := 1, 2 := 2]);
    var (s3, g1) := Get(s2, 1);
    assert Remove([2, 1], 1) == [2];
    assert s3 == Snapshot([1, 2], map[1 := 1, 2 := 2]);
    var (s4, _) := Put(s3, 3, 3, 2);
    assert s4 == Snapshot([3, 1], map[1 := 1, 3 := 3]);
    var (s5, g2) := Get(s4, 2);
    var (s6, _) := Put(s5, 4, 4, 2);
    assert s6 == Snapshot([4, 3], map[3 := 3, 4 := 4]);
    var (s7, g3) := Get(s6, 1);
    var (s8, g4) := Get(s7, 3);
    assert Remove([4, 3], 3) == [4];
    assert s8 == Snapshot([3, 4], map[3 := 3, 4 := 4]);
    var (s9, g5) := Get(s8, 4);
    gets := [g1, g2, g3, g4, g5];
  }

  /** Capacity 2: overwriting key 2 makes it the most recent, so putting 4
      evicts 1 and key 2 keeps its new value. */
  method OverwriteRefreshes() returns (gets: seq<Option<int>>)
    ensures gets == [None, Some(3)]
  {
    var s0: Snapshot<int, int> := Empty();
    var (s1, _) := Put(s0, 2, 1, 2);
    assert s1 == Snapshot([2], map[2 := 1]);
    var (s2, _) := Put(s1, 1, 1, 2);
    assert s2 == Snapshot([1, 2], map[2 := 1, 1 := 1]);
    var (s3, _) := Put(s2, 2, 3, 2);
    assert Remove([1, 2], 2) == [1];
    assert s3 == Snapshot([2, 1], map[2 := 3, 1 := 1]);
    var (s4, _) := Put(s3, 4, 1, 2);
    assert s4 == Snapshot([4, 2], map[2 := 3, 4 := 1]);
    var (s5, g1) := Get(s4, 1);
    var (s6, g2) := Get(s5, 2);
    gets := [g1, g2];
  }

  /** Capacity 2: misses on an empty cache, then putting key 1 twice
      overwrites it and evicts nothing, so key 2 is still there. */
  method OverwriteEvictsNothing() returns (gets: seq<Option<int>>)
    ensures gets == [None, None, Some(2), Some(6)]
  {
    var s0: Snapshot<int, int> := Empty();
    var (s1, g1) := Get(s0, 2);
    var (s2, _) := Put(s1, 2, 6, 2);
    assert s2 == Snapshot([2], map[2 := 6]);
    var (s3, g2) := Get(s2, 1);
    var (s4, _) := Put(s3, 1, 5, 2);
    assert s4 == Snapshot([1, 2], map[2 := 6, 1 := 5]);
    var (s5, e) := Put(s4, 1, 2, 2);
    assert Remove([1, 2], 1) == [2];
    assert s5 == Snapshot([1, 2], map[2 := 6, 1 := 2]) && e == None;
    var (s6, g3) := Get(s5, 1);
    assert s6 == s5;
    var (s7, g4) := Get(s6, 2);
    gets := [g1, g2, g3, g4];
  }

  /** Capacity 1: the one entry is read back, then replaced by the next put. */
  method SingleSlot() returns (gets: seq<Option<int>>)
    ensures gets == [Some(1), None, Some(2)]
  {
    var s0: Snapshot<int, int> := Empty();
    var (s1, _) := Put(s0, 2, 1, 1);
    assert s1 == Snapshot([2], map[2 := 1]);
    var (s2, g1) := Get(s1, 2);
    assert Remove([2], 2) == [];
    assert s2 == s1;
    var (s3, _) := Put(s2, 3, 2, 1);
    assert s3 == Snapshot([3], map[3 := 2]);
    var (s4, g2) := Get(s3, 2);
    var (s5, g3) := Get(s4, 3);
    gets := [g1, g2, g3];
  }

  /** Capacity 2: key 2 is put twice and read, then puts of 1 and 4 evict it. */
  method OverwriteThenEvict() returns (gets: seq<Option<int>>)
    ensures gets == [Some(2), None]
  {
    var s0: Snapshot<int, int> := Empty();
    var (s1, _) := Put(s0, 2, 1, 2);
    assert s1 == Snapshot([2], map[2 := 1]);
    var (s2, _) := Put(s1, 2, 2, 2);
    assert Remove([2], 2) == [];
    assert s2 == Snapshot([2], map[2 := 2]);
    var (s3, g1) := Get(s2, 2);
    assert s3 == s2;
    var (s4, _) := Put(s3, 1, 1, 2);
    assert s4 == Snapshot([1, 2], map[2 := 2, 1 := 1]);
    var (s5, _) := Put(s4, 4, 1, 2);
    assert s5 == Snapshot([4, 1], map[1 := 1, 4 := 1]);
    var (s6, g2) := Get(s5, 2);
    gets := [g1, g2];
  }

  /** Capacity 3: the fourth put evicts 1; reading 4, 3 and 2 makes 4 the
      least recently used, so the fifth put evicts 4. */
  method ReadsReorder() returns (gets: seq<Option<int>>)
    ensures gets == [Some(4), Some(3), Some(2), None, None, Some(2), Some(3), None, Some(5)]
  {
    var s1 := Fill();
    var s2, g1, g2 := ReadNewest(s1);
    var s3, g3, g4 := ReadOldest(s2);
    var rest := EvictAndRead(s3);
    gets := [g1, g2, g3, g4] + rest;
  }

  /** The start of ReadsReorder: three puts fill the cache and the fourth
      evicts 1, the least recently used key. */
  method Fill() returns (s: Snapshot<int, int>)
    ensures s == Snapshot([4, 3, 2], map[2 := 2, 3 := 3, 4 := 4])
  {
    var s0: Snapshot<int, int> := Empty();
    var (s1, _) := Put(s0, 1, 1, 3);
    assert s1 == Snapshot([1], map[1 := 1]);
    var (s2, _) := Put(s1, 2, 2, 3);
    assert s2 == Snapshot([2, 1], map[1 := 1, 2 := 2]);
    var (s3, _) := Put(s2, 3, 3, 3);
    assert s3 == Snapshot([3, 2, 1], map[1 := 1, 2 := 2, 3 := 3]);
    var (s4, _) := Put(s3, 4, 4, 3);
    s := s4;
  }

  /** Reads of 4 and 3 hit; 3 becomes the most recently used. */
  method ReadNewest(s: Snapshot<int, int>) returns (t: Snapshot<int, int>, g1: Option<int>, g2: Option<int>)
    requires s == Snapshot([4, 3, 2], map[2 := 2, 3 := 3, 4 := 4])
    ensures t == Snapshot([3, 4, 2], map[2 := 2, 3 := 3, 4 := 4])
    ensures g1 == Some(4) && g2 == Some(3)
  {
    var (s1, r1) := Get(s, 4);
    assert Remove([4, 3, 2], 4) == [3, 2];
    assert s1 == s;
    var (s2, r2) := Get(s1, 3);
    assert Remove([4, 3, 2], 3) == [4, 2];
    t, g1, g2 := s2, r1, r2;
  }

  /** A read of 2 hits, so 4 becomes the least recently used; a read of the
      evicted 1 misses. */
  method ReadOldest(s: Snapshot<int, int>) returns (t: Snapshot<int, int>, g1: Option<int>, g2: Option<int>)
    requires s == Snapshot([3, 4, 2], map[2 := 2, 3 := 3, 4 := 4])
    ensures t == Snapshot([2, 3, 4], map[2 := 2, 3 := 3, 4 := 4])
    ensures g1 == Some(2) && g2 == None
  {
    var (s1, r1) := Get(s, 2);
    assert Remove([3, 4, 2], 2) == [3, 4];
    assert s1 == Snapshot([2, 3, 4], map[2 := 2, 3 := 3, 4 := 4]);
    var (s2, r2) := Get(s1, 1);
    t, g1, g2 := s2, r1, r2;
  }

  /** The end of ReadsReorder: 4 is now the least recently used, so
      putting 5 evicts it while 2 and 3 stay. */
  method EvictAndRead(s: Snapshot<int, int>) returns (gets: seq<Option<int>>)
    requires s == Snapshot([2, 3, 4], map[2 := 2, 3 := 3, 4 := 4])
    ensures gets == [None, Some(2), Some(3), None, Some(5)]
  {
    var (s1, _) := Put(s, 5, 5, 3);
    assert s1 == Snapshot([5, 2, 3], map[2 := 2, 3 := 3, 5 := 5]);
    var (s2, g1) := Get(s1, 1);
    assert s2 == s1;
    var (s3, g2) := Get(s2, 2);
    assert Remove([5, 2, 3], 2) == [5, 3];
    assert s3 == Snapshot([2, 5, 3], map[2 := 2, 3 := 3, 5 := 5]);
    var (s4, g3) := Get(s3, 3);
    assert Remove([2, 5, 3], 3) == [2, 5];
    assert s4 == Snapshot([3, 2, 5], map[2 := 2, 3 := 3, 5 := 5]);
    var (s5, g4) := Get(s4, 4);
    assert s5 == s4;
    var (s6, g5) := Get(s5, 5);
    gets := [g1, g2, g3, g4, g5];
  }

  /** TwoEvictions again, this time on the linked cache itself. Each part
      below runs two or three of the calls on the cache the previous part left. */
  method CacheTwoEvictions() returns (gets: seq<Option<int>>)
    ensures gets == [Some(1), None, None, Some(3), Some(4)]
  {
    var c := new Lru.Cache<int, int>(2);
    CacheFill(c);
    var g1 := CacheReadEvict(c);
    var g2 := CacheMissEvict(c);
    var g3, g4, g5 := CacheReadBack(c);
    gets := [g1, g2, g3, g4, g5];
  }

  /** Puts 1 and 2 into an empty cache of capacity 2. */
  method CacheFill(c: Lru.Cache<int, int>)
    requires c.Valid() && c.capacity == 2 && c.Abstract() == Empty()
    modifies c, c.nodes
    ensures c.Valid() && c.Abstract() == Snapshot([2, 1], map[1 := 1, 2 := 2])
    ensures forall i :: 0 <= i < |c.nodes| ==> c.nodes[i] in old(c.nodes) || fresh(c.nodes[i])
  {
    var e1 := c.Put(1, 1);
    assert c.Abstract() == Snapshot([1], map[1 := 1]);
    var e2 := c.Put(2, 2);
  }

  /** Reading 1 makes 2 the least recently used, so putting 3 evicts 2. */
  method CacheReadEvict(c: Lru.Cache<int, int>) returns (g: Option<int>)
    requires c.Valid() && c.capacity == 2 && c.Abstract() == Snapshot([2, 1], map[1 := 1, 2 := 2])
    modifies c, c.nodes
    ensures c.Valid() && c.Abstract() == Snapshot([3, 1], map[1 := 1, 3 := 3])
    ensures forall i :: 0 <= i < |c.nodes| ==> c.nodes[i] in old(c.nodes) || fresh(c.nodes[i])
    ensures g == Some(1)
  {
    g := c.Get(1);
    assert Remove([2, 1], 1) == [2];
    assert c.Abstract() == Snapshot([1, 2], map[1 := 1, 2 := 2]);
    var e3 := c.Put(3, 3);
  }

  /** Reading the evicted 2 misses; putting 4 then evicts 1. */
  method CacheMissEvict(c: Lru.Cache<int, int>) returns (g: Option<int>)
    requires c.Valid() && c.capacity == 2 && c.Abstract() == Snapshot([3, 1], map[1 := 1, 3 := 3])
    modifies c, c.nodes
    ensures c.Valid() && c.Abstract() == Snapshot([4, 3], map[3 := 3, 4 := 4])
    ensures forall i :: 0 <= i < |c.nodes| ==> c.nodes[i] in old(c.nodes) || fresh(c.nodes[i])
    ensures g == None
  {
    g := c.Get(2);
    var e4 := c.Put(4, 4);
  }

  /** Reading 1 misses; 3 and 4 hit with their values. */
  method CacheReadBack(c: Lru.Cache<int, int>) returns (g1: Option<int>, g2: Option<int>, g3: Option<int>)
    requires c.Valid() && c.Abstract() == Snapshot([4, 3], map[3 := 3, 4 := 4])
    modifies c, c.nodes
    ensures g1 == None && g2 == Some(3) && g3 == Some(4)
  {
    g1 := c.Get(1);
    g2 := c.Get(3);
    assert Remove([4, 3], 3) == [4];
    assert c.Abstract() == Snapshot([3, 4], map[3 := 3, 4 := 4]);
    g3 := c.Get(4);
  }
}
