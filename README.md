# LRU cache model

This project models the `lru` package's `Cache`: a least-recently-used cache with a fixed
capacity. It is built from a map from keys to list nodes plus a doubly linked list of those
nodes. The list runs from `front` (most recently used) to `rear` (least recently used).
`Put` inserts or overwrites a key and moves it to the front. When the cache is full and the key
is new, `Put` first evicts the rear node and hands the evicted pair to the eviction hook; an
overwrite never evicts. On a hit, `Get` returns the value and moves its node to the front; on a
miss it returns nothing and changes nothing. `Purge` empties the cache and hands every key, with its node, to the hook. `Len`
counts the entries.

The model has four modules.

- `LruSpec` (lru_spec.dfy) is the observable state as a value. `Snapshot(order, contents)` holds
  the keys from most to least recently used and the value under each key. It has `Put` and `Get`
  as functions, the invariant `Inv`, and lemmas about single calls.
- `Lru` (lru_cache.dfy) is the cache as the source builds it: a `Cache` class with `capacity`,
  `load`, `keyMap`, `front` and `rear`, over `LruNode` objects whose `prev`, `next` and `value`
  change in place.
  - A ghost sequence `nodes` records the list from front to rear. `Valid()` ties it to the links,
    to the map (`keyMap == IndexOf(nodes)`) and to `load`.
  - Every public method is proved to move the abstract state `Abstract()` exactly as the
    `LruSpec` function says.
- `LruHistory` (lru_history.dfy) describes the state after any sequence of calls without
  reference to how `Put` and `Get` rearrange the list. It holds the `capacity` most recently used
  distinct keys, most recent first, each with the value last put under it.
- `LruScenarios` (lru_scenarios.dfy) replays the call sequences of lru_cache_test.go on the
  abstract cache and states what each `Get` returns. The first test also runs on a new linked
  `Cache`, which shows that calls on one cache chain: each `Put` and `Get` leaves only listed
  nodes that were listed before or are new.

## Model

| member | source | states |
|---|---|---|
| Lru.LruNode.constructor | lru_cache.go:26-32 | a new node carries the key and value and is linked to nothing |
| Lru.Cache.constructor | lru_cache.go:42-47 | a new cache is valid and empty, with no front, no rear, no listed nodes and the given capacity |
| Lru.Cache.NewCache | lru_cache.go:37-48 | fails exactly when the capacity is below 1; otherwise returns a fresh, valid, empty cache with that capacity |
| Lru.Cache.Len | lru_cache.go:154-156 | the size of the key map equals the load and the number of listed keys, lies between 0 and the capacity, and is 0 exactly when the list has no front and no rear |
| Lru.Cache.Abstract | lru_cache.go:18-21 | in a valid cache the rear key (the eviction victim) is always a stored key |
| Lru.Cache.RearIndexed | lru_cache.go:83 | the rear node's key is in the key map, so the eviction's map lookup always finds it |
| Lru.Cache.AbstractInv | lru_cache.go:11-22 | a valid cache's observable state has distinct keys, the same keys in the list and the map, and at most `capacity` of them |
| Lru.Cache.InsertInFront | lru_cache.go:124-128 | the list becomes the new node followed by the old list, still well linked |
| Lru.Cache.Unlink | lru_cache.go:165-174 | removing a non-front node leaves the list without it, repairing `rear` when the node was last |
| Lru.Cache.BringNodeToFront | lru_cache.go:160-179 | the node moves to the front and the other nodes keep their relative order; at the front already, nothing changes |
| Lru.Cache.Touch | lru_cache.go:59 | bringing an indexed node to the front promotes its key in the order and keeps the cache valid |
| Lru.Cache.DetachRear | lru_cache.go:97-98 | the list loses its last node and `rear` moves back one |
| Lru.Cache.LinkFront | lru_cache.go:70-76 | a new node becomes the whole list when the list is empty, otherwise its new front |
| Lru.Cache.ReplaceRear | lru_cache.go:90-99 | the rear node leaves and the new node enters at the front, including when the rear was the only node |
| Lru.Cache.Put | lru_cache.go:52-100 | keeps the cache valid and moves the observable state and the evicted pair exactly as `LruSpec.Put`; every listed node afterwards was listed before or is new |
| Lru.Cache.Overwrite | lru_cache.go:56-61 | an existing key gets the new value and moves to the front; nothing else changes |
| Lru.Cache.AddInFront | lru_cache.go:63-80 | with room left, the new key enters at the front with its value and the load grows by one |
| Lru.Cache.EvictAndAdd | lru_cache.go:82-99 | when full, the least recently used key leaves the order and the map, its pair is reported, and the new key enters at the front |
| Lru.Cache.Get | lru_cache.go:104-120 | keeps the cache valid and moves the state and the result exactly as `LruSpec.Get`; a miss or a hit on the front node changes nothing; no node joins the list |
| Lru.Cache.Purge | lru_cache.go:132-151 | afterwards the cache is valid and empty; every old key is handed to the hook once, with its node rather than its value |
| Lru.Cache.ClearedIsEmpty | lru_cache.go:145-150 | an empty map, an empty list and a zero load make a valid cache whose observable state is empty |
| Lru.NoRepeatsDistinct | lru_cache.go:14 | a sequence without repeats has distinct elements |
| Lru.IndexOfKeys | lru_cache.go:14 | the index built from the list has exactly the list's keys |
| Lru.IndexOfLookup | lru_cache.go:56 | every key in the index is the key of some list node, and the index maps it to that node |
| Lru.IndexOfAt | lru_cache.go:30-31 | when the list has no repeated keys, the index maps each node's key back to that node |
| Lru.IndexOfSize | lru_cache.go:155 | the index has as many entries as the list has nodes |
| Lru.IndexOfRemoveAt | lru_cache.go:83 | dropping a node from the list drops its key from the index |
| Lru.IndexOfPromote | lru_cache.go:59 | moving a node to the front leaves the index unchanged |
| Lru.KeysOfPromote | lru_cache.go:59 | moving a node to the front promotes its key and keeps the keys distinct |
| Lru.KeysOfMove | lru_cache.go:175-178 | the keys of the list with one node moved to the front are that node's key followed by the other keys in their old order |
| Lru.KeysOfMoved | lru_cache.go:160-179 | with distinct keys, the keys of the list with one node moved to the front are the old keys with that key promoted |
| Lru.IndexOfDropRear | lru_cache.go:83 | dropping the rear node drops exactly its key from the index |
| Lru.KeysOfDropRear | lru_cache.go:97-98 | dropping the rear node drops the last key and keeps the keys distinct |
| Lru.InsertIndex | lru_cache.go:63-67 | a node whose key is new is not in the list; adding it in front adds exactly its key to the index and keeps the keys distinct |
| Lru.EvictIndex | lru_cache.go:82-99 | replacing the rear by a node with a new key adds that key to the index and removes the rear's key |
| Lru.EvictKeys | lru_cache.go:82-99 | the new node is not yet listed; replacing the rear by it drops the last key, puts the new key in front and keeps the keys distinct |
| LruSpec.Remove | lru_cache.go:165-174 | removing a key keeps exactly the other elements and never lengthens the sequence |
| LruSpec.RemoveKeepsDistinct | lru_cache.go:165-174 | removal keeps a sequence free of duplicates and shortens it by one when the key was there |
| LruSpec.PromoteFront | lru_cache.go:161-163 | promoting the key already in front changes nothing |
| LruSpec.PromoteKeepsDistinct | lru_cache.go:160-179 | promoting a key keeps the order free of duplicates |
| LruSpec.PutKeepsInv | lru_cache.go:52-100 | every Put keeps the cache invariant |
| LruSpec.EvictKeepsInv | lru_cache.go:82-99 | a Put into a full cache with a new key keeps the invariant |
| LruSpec.GetKeepsInv | lru_cache.go:104-120 | every Get keeps the cache invariant |
| LruSpec.PutThenGet | lru_cache.go:52-120 | right after a Put, the key is in front and Get returns the value just put, without moving anything |
| LruSpec.PutKeepsOthers | lru_cache.go:52-100 | a Put leaves every other key's value alone; another key can only disappear by eviction |
| LruSpec.PutEvictsLru | lru_cache.go:82-99 | a Put evicts exactly when the key is new and the cache is full; the victim is the least recently used key, with its value, and it is gone afterwards |
| LruSpec.PutSize | lru_cache.go:70-80 | the number of entries stays the same after an overwrite, grows by one while there is room, and stays at capacity when full |
| LruSpec.GetTwice | lru_cache.go:113-116 | after a hit the key is in front, so a second Get returns the same value and changes nothing |
| LruHistory.Step | lru_cache.go:52-120 | any single call keeps the invariant |
| LruHistory.Run | lru_cache.go:37-120 | the state after any sequence of calls on a new cache satisfies the invariant |
| LruHistory.DedupDistinct | lru_cache.go:18-21 | the distinct used keys are distinct and are exactly the keys used |
| LruHistory.TakeCons | lru_cache.go:70-80 | taking from a list with a new head keeps that head and takes one fewer from the rest |
| LruHistory.TakeRemoveOut | lru_cache.go:82-99 | taking before removing a key that is not among the taken ones is the same as taking alone |
| LruHistory.DistinctTail | lru_cache.go:18-21 | the tail of a list without duplicates has none and does not hold the head |
| LruHistory.TakeRemoveIn | lru_cache.go:160-179 | removing a key that was taken equals taking one fewer after removing it |
| LruHistory.UseRecent | lru_cache.go:56-61 | using a recent key moves it to the front of the recent keys |
| LruHistory.UseNew | lru_cache.go:63-99 | using a new key puts it in front and drops the least recent key when `capacity` keys were already recent |
| LruHistory.StepOrder | lru_cache.go:52-120 | each call keeps the order equal to the `capacity` most recently used distinct keys |
| LruHistory.RunOrder | lru_cache.go:18-21 | after any calls, the order is the `capacity` most recently used distinct keys, most recent first |
| LruHistory.RunContents | lru_cache.go:58 | after any calls, each stored value is the one last put under its key |
| LruHistory.GetAfterRun | lru_cache.go:102-120 | after any calls, Get returns the last value put under the key when the key is among the `capacity` most recently used, and nothing otherwise |
| LruScenarios.TwoEvictions | lru_cache_test.go:8-19 | the first test's reads return 1, miss, miss, 3, 4 |
| LruScenarios.SingleSlot | lru_cache_test.go:21-35 | with capacity 1, the entry is read back and then replaced by the next put |
| LruScenarios.OverwriteRefreshes | lru_cache_test.go:44-52 | an overwrite makes the key most recent, so the next eviction takes the other key |
| LruScenarios.OverwriteThenEvict | lru_cache_test.go:54-62 | an overwritten key reads its new value and is evicted once two newer keys arrive |
| LruScenarios.OverwriteEvictsNothing | lru_cache_test.go:64-73 | an overwrite in a full cache evicts nothing: both keys stay readable |
| LruScenarios.ReadsReorder | lru_cache_test.go:75-91 | with capacity 3, reads reorder the keys so the fifth put evicts 4 rather than 2 or 3 |
| LruScenarios.Fill | lru_cache_test.go:76-80 | four puts into capacity 3 keep keys 4, 3 and 2 |
| LruScenarios.ReadNewest | lru_cache_test.go:81-82 | reads of 4 and 3 hit with their values and put 3 in front of 4 |
| LruScenarios.ReadOldest | lru_cache_test.go:83-84 | a read of 2 hits and makes 4 the least recently used; the read of the evicted 1 misses |
| LruScenarios.CacheTwoEvictions | lru_cache_test.go:8-19 | the first test's calls on a new linked cache: its reads return 1, miss, miss, 3, 4 |
| LruScenarios.CacheFill | lru_cache_test.go:9-11 | two puts into an empty linked cache of capacity 2 keep 2 then 1 |
| LruScenarios.CacheReadEvict | lru_cache_test.go:12-13 | reading 1 returns 1 and makes 2 least recently used, so putting 3 evicts 2 |
| LruScenarios.CacheMissEvict | lru_cache_test.go:14-15 | reading the evicted 2 misses, and putting 4 evicts 1 |
| LruScenarios.CacheReadBack | lru_cache_test.go:16-18 | reading 1 misses; 3 and 4 return their values |
| LruScenarios.EvictAndRead | lru_cache_test.go:85-90 | putting 5 evicts 4; 2, 3 and 5 stay readable |

## Left out

- The read/write mutex (lru_cache.go:15, 45, 53-54, 105-106, 133-134), and `Len` reading the key map without taking it (lru_cache.go:154-156): the model is sequential.
- The eviction hook: `Put` returns the evicted pair and `Purge` returns the pairs it hands over, instead of calling `onEvicted`. The hook's `nil` check only decides whether that call happens, so it is not modelled.
- Lru.Cache.Purge: Go's map iteration order is unspecified. The model visits the keys in an order it chooses, and the contract fixes only which pairs are handed over, each key once, and never their order.
- Key and value types: the source uses `interface{}` for both and declares `Get` with an `int` key. The model uses one key type `K` with equality, and one value type `V`.
- `Get` returns `Option<V>` where the source returns `(value, bool)`; `None` stands for `nil, false`.
- The error message text of `NewCache` is not modelled; `CacheError.CapacityNotPositive` stands for it.
- `NewCache` checks the capacity; the constructor takes a `Capacity` value, a type of integers of at least 1.
- Lru.Cache.Put: the new node is created inside `AddInFront` and `EvictAndAdd`, after the membership test, not before the branch. The map is written once, with the new key added and the victim's key removed together. The evicted pair is read before the new node is allocated. None of this is observable.
- Integer width: `load` and `capacity` are unbounded integers. The source's `int` cannot overflow here, because the load never exceeds the capacity.
- Garbage collection, and the stale `prev`/`next` links that removed nodes keep, are not modelled. `Purge` leaves the old nodes' links as they are, as the source does.
- LruScenarios: the test file calls an older API (`NewCache` with one argument, `Get` returning `-1` on a miss). Its sequences are replayed on the abstract cache `LruSpec`, with `None` for `-1`. Only the first test is also replayed on the linked `Cache` (`CacheTwoEvictions`); the others are not. The tests at lru_cache_test.go:21-25 and 37-42 are prefixes of the tests at 27-35 and 54-62, and are covered by those.
- LruScenarios.OverwriteEvictsNothing: the comment at lru_cache_test.go:70 says the overwrite evicts key 2, but the test's own assertions, the source and this model all keep key 2.
