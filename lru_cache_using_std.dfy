/** The class `lru_cache_using_std`: a fixed-capacity least-recently-used
    memoisation cache of a function `fn`. It keeps the key-access history
    `tracker` (least recently used key first) and the key-to-value map
    `values` in step; every method is proved against the matching function of
    `LruModel` on the pair, which gives the precise effect on both
    structures. The methods `Insert` and `EvictLru` are private in the
    source. */
module LruCacheUsingStd {
  import opened Sequences
  import LruModel

  class LruCache<K(==), V> {
    /** The function whose results are cached. */
    const fn: K -> V
    /** The maximum number of key-value pairs retained. */
    const capacity: nat
    /** Key access history, least recently used at the front, most recently
        used at the back. */
    var tracker: seq<K>
    /** Key-to-value lookup. */
    var values: map<K, V>

    /** The abstract state the two structures represent. */
    ghost function Model(): LruModel.Store<K, V>
      reads this
    {
      LruModel.Store(capacity, tracker, values)
    }

    ghost predicate Valid()
      reads this
    {
      LruModel.Inv(Model())
    }

    /** A cache of `f` holding at most `c` records; the source asserts that
        `c` is not zero. */
    constructor (f: K -> V, c: nat)
      requires c != 0
      ensures Valid()
      ensures fn == f && Model() == LruModel.Empty(c)
    {
      fn := f;
      capacity := c;
      tracker := [];
      values := map[];
    }

    /** `operator()`: the value of `fn` for `k`, computed on a miss and
        refreshed in the history on a hit. */
    method Call(k: K) returns (v: V)
      requires Valid()
      modifies this
      ensures Valid()
      ensures (Model(), v) == LruModel.Lookup(old(Model()), fn, k)
      ensures v == if k in old(values) then old(values)[k] else fn(k)
    {
      if k !in values {
        v := fn(k);
        Insert(k, v);
      } else {
        // The source splices the node its stored iterator points at to the
        // back of the list; here the node's position is recovered by search.
        var i := Find(tracker, k);
        assert i < |tracker| by {
          assert k in Elems(tracker);
        }
        EraseAt(tracker, i);
        tracker := tracker[..i] + tracker[i + 1..] + [k];
        v := values[k];
        assert (Model(), v) == LruModel.Lookup(old(Model()), fn, k);
      }
    }

    /** `get_keys`: the tracked keys, most recently used first. */
    method GetKeys() returns (keys: seq<K>)
      ensures keys == Reversed(tracker)
      ensures keys == LruModel.Keys(Model())
    {
      keys := [];
      var src := |tracker|;
      while src > 0
        invariant 0 <= src <= |tracker|
        invariant |keys| == |tracker| - src
        invariant forall j | 0 <= j < |keys| :: keys[j] == tracker[|tracker| - 1 - j]
      {
        src := src - 1;
        keys := keys + [tracker[src]];
      }
    }

    /** `has`: is `k` cached? Changes nothing, not even the recency order. */
    method Has(k: K) returns (b: bool)
      ensures b <==> k in values
      ensures Valid() ==> (b <==> k in tracker)
    {
      b := k in values;
      assert k in tracker <==> k in Elems(tracker);
    }

    /** `set`: record `k ↦ v` unless `k` is already cached. */
    method Set(k: K, v: V)
      requires Valid()
      modifies this
      ensures Valid()
      ensures Model() == LruModel.Set(old(Model()), k, v)
    {
      if k !in values {
        Insert(k, v);
      }
    }

    /** `evict(key)`: drop `key` from both structures if it is cached. */
    method Evict(key: K)
      requires Valid()
      modifies this
      ensures Valid()
      ensures Model() == LruModel.Evict(old(Model()), key)
    {
      if key in values {
        values := values - {key};
        var i := Find(tracker, key);
        assert i < |tracker| by {
          assert key in Elems(tracker);
        }
        EraseAt(tracker, i);
        tracker := tracker[..i] + tracker[i + 1..];
        assert Model() == LruModel.Evict(old(Model()), key);
      }
    }

    /** `is_full`: are `capacity` records cached? */
    method IsFull() returns (full: bool)
      ensures full == LruModel.IsFull(Model())
      ensures full <==> |values| >= capacity
      ensures Valid() ==> (full <==> |tracker| == capacity)
    {
      full := |values| >= capacity;
      assert full == LruModel.IsFull(Model());
    }

    /** Private `insert`: record a fresh key, evicting the least recently
        used one first if the cache is full. Only called on a miss. */
    method Insert(k: K, v: V)
      requires Valid() && k !in values
      modifies this
      ensures Valid()
      ensures Model() == LruModel.Insert(old(Model()), k, v)
    {
      var full := IsFull();
      if full {
        EvictLru();
      }
      tracker := tracker + [k];
      values := values[k := v];
      assert Model() == LruModel.Insert(old(Model()), k, v);
    }

    /** Private `evict()`: drop the least recently used key from both
        structures. The source asserts the cache is not empty. */
    method EvictLru()
      requires Valid() && tracker != []
      modifies this
      ensures Valid()
      ensures Model() == LruModel.EvictLru(old(Model()))
    {
      var front := tracker[0];
      values := values - {front};
      tracker := tracker[1..];
      assert Model() == LruModel.EvictLru(old(Model()));
    }
  }
}
