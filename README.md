# LRU memoisation cache (`lru_cache_using_std`) in Dafny

This project models `lru_cache_using_std`, a single-threaded, fixed-capacity
memoisation cache of a function `V f(K)` with least-recently-used eviction,
and proves properties of the model. The cache keeps two structures in step:

- the key access history, with the least recently used key at the front and
  the most recently used key at the back;
- a key-to-value map.

The list iterator that the source stores beside each value is not modelled.
It only makes the move-to-back step O(1).

Modules:

- `Sequences` (`sequences.dfy`): sequence vocabulary. It defines duplicate
  freedom `NoDup`, removal of a key `Erase`, `Reversed`, `Suffix` and
  `LastDistinct`. `LastDistinct(h)` lists the distinct keys of an access
  history `h` in the order they were last accessed. It also defines the
  linear search `Find`, which models `std::find`.
- `LruModel` (`lru_model.dfy`): the abstract state `Store` (capacity,
  history, map) and its invariant `Inv`. `Inv` says the capacity is not
  zero, the history has no duplicates, the history's keys equal the map's
  keys, and the size is at most the capacity. Each operation is a pure
  function on `Store` that keeps `Inv`. Lemmas give the exact effect of
  each operation on both structures.
- `LruProperties` (`lru_properties.dfy`): properties of whole runs. Any run
  of public operations keeps the capacity bound and the bijection between
  history and map. A run made only of `operator()` calls keeps exactly the
  `capacity` most recently accessed distinct keys, ordered by last access.
  Every call returns `f(k)`.
- `LruCacheUsingStd` (`lru_cache_using_std.dfy`): the class itself.
  `LruCache` has the fields `fn`, `capacity`, `tracker: seq<K>` and
  `values: map<K, V>`. Its imperative methods are proved against the
  `LruModel` functions.

The source's `assert`s become preconditions:

- the constructor needs a non-zero capacity;
- `Insert` needs an absent key;
- `EvictLru` needs a non-empty cache.

The assertion inside `evict(key)`, that a key found in the map is also in
the list, is proved from the invariant.

## Model

| member | source | states |
|---|---|---|
| `LruModel.Empty` | lru_cache_using_std.h:59-67 | a newly constructed cache has the given non-zero capacity, an empty history and an empty map, and satisfies the invariant |
| `LruCacheUsingStd.LruCache.constructor` | lru_cache_using_std.h:59-67 | construction needs `c != 0`; it stores `f` and `c` and starts empty and valid |
| `LruModel.InvSize` | lru_cache_using_std.h:232-236 | under the invariant, the map and the history have the same size, and that size is at most the capacity |
| `LruModel.IsFull` | lru_cache_using_std.h:178-180 | `is_full()`: at least `capacity` entries are mapped; under the invariant that means exactly `capacity` keys are tracked, so a full cache has a front key to evict |
| `LruModel.EvictLru` | lru_cache_using_std.h:211-224 | private `evict()` needs a non-empty cache; it pops the front key; that key leaves the map; every other entry keeps its value; the invariant is kept |
| `LruCacheUsingStd.LruCache.EvictLru` | lru_cache_using_std.h:211-224 | the method's new state is `LruModel.EvictLru` of the old state, and it stays valid |
| `LruModel.Insert` | lru_cache_using_std.h:185-208 | private `insert` needs an absent key; afterwards the key maps to `v`, is the last key tracked, and the invariant still holds |
| `LruModel.InsertEffect` | lru_cache_using_std.h:185-208 | exact effect of `insert` by what leaves and what enters: if the cache was full, exactly the former front key leaves the map, otherwise no key leaves; exactly `k` enters, with value `v`; every other entry keeps its value; apart from `k`, now last, the history is the old one less the evicted key |
| `LruModel.InsertEntries` | lru_cache_using_std.h:190-205 | the keys `insert` removes from the map are the front key when full and none otherwise; the only key it adds is `k` |
| `LruModel.InsertHistory` | lru_cache_using_std.h:190-196 | apart from the new last key `k`, the history after `insert` is the old one less the front key when full, and the old one otherwise |
| `LruCacheUsingStd.LruCache.Insert` | lru_cache_using_std.h:185-208 | the method's new state is `LruModel.Insert` of the old state, and it stays valid |
| `LruModel.Lookup` | lru_cache_using_std.h:70-118 | `operator()` keeps the invariant; `k` ends up cached and last in the history; a hit returns the stored value and a miss returns `f(k)`; if every cached value is `f` of its key, this still holds afterwards and the result is `f(k)` |
| `LruModel.LookupHit` | lru_cache_using_std.h:103-117 | a hit on the key at position `i` returns the stored value and leaves the map unchanged; it moves exactly that key to the back and keeps the order of all other keys |
| `LruModel.LookupMiss` | lru_cache_using_std.h:76-101 | a miss returns `f(k)`; exactly the former front key leaves if the cache was full and no key leaves otherwise; exactly `k ↦ f(k)` enters, now most recently used; everything else is kept |
| `LruCacheUsingStd.LruCache.Call` | lru_cache_using_std.h:70-118 | the method's new state and result are those of `LruModel.Lookup`; it returns the stored value on a hit and `fn(k)` on a miss |
| `LruModel.Set` | lru_cache_using_std.h:141-159 | `set` keeps the invariant; `k` is cached afterwards, with value `v` if it was absent |
| `LruModel.SetEffect` | lru_cache_using_std.h:141-159 | `set` on an absent key makes exactly the former front key leave when full and no key otherwise, and adds exactly `k ↦ v` as most recently used; on a present key nothing changes, neither the value nor the recency order |
| `LruCacheUsingStd.LruCache.Set` | lru_cache_using_std.h:141-159 | the method's new state is `LruModel.Set` of the old state, and it stays valid |
| `LruModel.Evict` | lru_cache_using_std.h:163-176 | `evict(key)` keeps the invariant; `key` is no longer cached; every other entry stays, with its value unchanged |
| `LruModel.EvictEffect` | lru_cache_using_std.h:163-176 | `evict(key)` on an absent key changes nothing; on the key at position `i` it removes exactly that position from the history and that entry from the map, and keeps the order of the others |
| `LruCacheUsingStd.LruCache.Evict` | lru_cache_using_std.h:163-176 | the method's new state is `LruModel.Evict` of the old state, and it stays valid |
| `Sequences.Find` | lru_cache_using_std.h:172-173 | returns the first position that holds the key, or the length when the key is absent |
| `Sequences.EraseAt` | lru_cache_using_std.h:172-174 | erasing the element at position `i` of a duplicate-free list removes exactly that position and keeps the order of the rest |
| `LruCacheUsingStd.LruCache.Has` | lru_cache_using_std.h:136-138 | `has(k)` is true exactly when `k` is in the map, which under the invariant means `k` is tracked; it changes nothing |
| `LruCacheUsingStd.LruCache.IsFull` | lru_cache_using_std.h:178-180 | the method's result is `LruModel.IsFull` of the state: true exactly when size ≥ capacity, which under the invariant means exactly `capacity` keys are tracked; it changes nothing |
| `LruModel.Keys` | lru_cache_using_std.h:120-129 | `get_keys` lists the history back to front, most recently used first; under the invariant it lists each cached key exactly once and no other |
| `LruCacheUsingStd.LruCache.GetKeys` | lru_cache_using_std.h:123-129 | the copying loop yields the history reversed, which is `LruModel.Keys` of the state |
| `LruProperties.Step` | lru_cache_using_std.h:70-176 | each public mutator (`operator()`, `set`, `evict(key)`) keeps the invariant and the capacity |
| `LruProperties.Run` | lru_cache_using_std.h:70-176 | any sequence of public mutators keeps the invariant |
| `LruProperties.CapacityBound` | lru_cache_using_std.h:185-208 | after any run from a new cache, the map and the history have the same size, at most the capacity, hold the same keys, and no key is tracked twice |
| `LruProperties.Accesses` | lru_cache_using_std.h:70-118 | a run of `operator()` calls keeps the invariant; if every cached value was `f` of its key, that still holds |
| `LruProperties.AccessesAreRun` | lru_cache_using_std.h:70-118 | a run of accesses equals the general run of the matching `operator()` calls, so `CapacityBound` and `AccessesAreLru` speak of the same runs |
| `LruProperties.AccessesMemoise` | lru_cache_using_std.h:70-118 | on a cache used only through `operator()`, every call returns `f(k)`, hit or miss |
| `LruProperties.Touched` | lru_cache_using_std.h:76-117 | the history after accessing `k`: moved to the back if tracked, otherwise appended after dropping the front when full; `k` always ends last |
| `LruProperties.LookupTouched` | lru_cache_using_std.h:70-118 | under the invariant, the history after `operator()` is exactly `Touched` of the history before |
| `LruProperties.SuffixStep` | lru_cache_using_std.h:103-113 | one more access changes the `c` most recent distinct keys in the same way `operator()` changes a history holding them |
| `LruProperties.AccessesAreLru` | lru_cache_using_std.h:43-44 | after `operator()` calls on the keys of `h`, starting from an empty cache of capacity `c`, the history is the last `c` distinct keys of `h`, ordered by last access |
| `LruProperties.RecencyExample` | lru_cache_using_std.h:70-118 | accessing `a, b, a, c` with capacity 2 leaves exactly `a, c` tracked, in that order, and cached: `b` is evicted |

## Left out

- `shared_lru_cache_using_std.h` is not part of this model. Its purpose is concurrency: mutexes, per-key locks and sets of waiting threads. Its guarantees are about interleavings, which a sequential model cannot state.
- `test/shared_lru_cache_test.cpp` is not part of this model. It is a multithreaded stress test, and its fibonacci workload is only a client of the cache.
- The debug-only evaluation counters (`_eval_counters`, compiled only without `NDEBUG`) are not modelled. They are diagnostic bookkeeping that no operation reads.
- The choice of `std::map` or `std::unordered_map` is abstracted to a Dafny `map`.
- Key equality is one notion throughout. The source uses two: the map's key equivalence (a comparator, or a hash plus `==`) and `operator==` in `std::find` (lru_cache_using_std.h:172). The model assumes they agree, which is what the assertion at lru_cache_using_std.h:173 relies on.
- The list iterators stored in the map and the O(1) `splice` are not modelled. The model finds a key's position in the history by linear search (`Find`), so complexity is not modelled.
- `std::function` becomes a total Dafny function `K -> V`. A compute function that throws, and so inserts nothing, is not modelled.
- The compute function is assumed not to act on the cache itself. In the source, `_fn(k)` runs between the miss test (lru_cache_using_std.h:73-76) and `insert(k, v)` (lru_cache_using_std.h:82). A function that calls back into the same cache would change the state `insert` sees. The model applies `Insert` to the state as it was before the call.
- The output iterator of `get_keys` becomes a returned sequence.
- `size_t` becomes `nat`. The number of entries never exceeds the capacity, so no wrap-around can occur.
- C++ `private` has no Dafny counterpart. `Insert` and `EvictLru` are ordinary methods; their preconditions are the source's assertions.
- The equality check in `set` is commented out in the source (lru_cache_using_std.h:151), so nothing is modelled for it. `set` on a present key is a no-op.
- LruProperties.AccessesAreLru: gives the closed form of the recency order only for runs made entirely of `operator()` calls. Runs that mix in `set` and `evict(key)` are covered one step at a time (`SetEffect`, `EvictEffect`) and by `CapacityBound`, but not by a closed form.
