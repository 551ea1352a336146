/** The abstract state of `lru_cache_using_std` and the effect of each of its
    operations, as pure functions on that state.

    A `Store` is the pair the class keeps in step: the key-access history
    `tracker` (least recently used key first, most recently used key last)
    and the key-to-value map `values`, together with the fixed capacity. The
    list iterators the source stores beside each value only make splicing
    O(1); they carry no information beyond a key's position in `tracker`
    and are not represented. */
module LruModel {
  import opened Sequences

  datatype Store<K, V> = Store(capacity: nat, tracker: seq<K>, values: map<K, V>)

  /** The invariant the class keeps between operations: a non-zero capacity,
      no key twice in the history, the history's keys are exactly the map's
      keys, and no more entries than the capacity. */
  predicate Inv<K, V>(st: Store<K, V>) {
    && st.capacity > 0
    && NoDup(st.tracker)
    && st.values.Keys == Elems(st.tracker)
    && |st.tracker| <= st.capacity
  }

  /** Every cached value is what the cached function gives for its key. */
  predicate Memoises<K, V(==)>(st: Store<K, V>, f: K -> V) {
    forall x | x in st.values :: st.values[x] == f(x)
  }

  /** The freshly constructed cache: nothing tracked, nothing stored. */
  function Empty<K, V>(c: nat): (r: Store<K, V>)
    requires c != 0
    ensures Inv(r) && r.capacity == c
    ensures |r.values| == 0 && |r.tracker| == 0
  {
    Store(c, [], map[])
  }

  /** Under the invariant, the map and the history have the same size. */
  lemma {:induction false} InvSize<K, V>(st: Store<K, V>)
    ensures Inv(st) ==> |st.values| == |st.tracker| <= st.capacity
  {
    if Inv(st) {
      NoDupCard(st.tracker);
      assert |st.values| == |st.values.Keys|;
    }
  }

  /** `is_full`: the map holds at least `capacity` entries. Under the
      invariant that is exactly `capacity` tracked keys, so a full cache has
      a least recently used key to evict. */
  predicate IsFull<K, V>(st: Store<K, V>): (r: bool)
    ensures Inv(st) ==> (r <==> |st.tracker| == st.capacity)
    ensures Inv(st) && r ==> st.tracker != []
  {
    InvSize(st);
    |st.values| >= st.capacity
  }

  /** Private `evict()`: drop the least recently used key, the front of the
      history, from both structures. */
  function EvictLru<K, V>(st: Store<K, V>): (r: Store<K, V>)
    requires Inv(st) && st.tracker != []
    ensures Inv(r) && r.capacity == st.capacity
    ensures r.tracker == st.tracker[1..]
    ensures st.tracker[0] !in r.values
    ensures forall x | x in r.values :: x in st.values && r.values[x] == st.values[x]
    ensures forall x | x in st.values && x != st.tracker[0] :: x in r.values
  {
    ElemsTail(st.tracker);
    Store(st.capacity, st.tracker[1..], st.values - {st.tracker[0]})
  }

  /** Private `insert`: make room by evicting the least recently used key
      when full, then record `k` as the most recently used key with value
      `v`. Only called for a key that is absent. */
  function Insert<K, V>(st: Store<K, V>, k: K, v: V): (r: Store<K, V>)
    requires Inv(st) && k !in st.values
    ensures Inv(r) && r.capacity == st.capacity
    ensures k in r.values && r.values[k] == v
    ensures r.tracker[|r.tracker| - 1] == k
  {
    var room := if IsFull(st) then EvictLru(st) else st;
    AppendFresh(room, k, v);
    Store(room.capacity, room.tracker + [k], room.values[k := v])
  }

  /** Appending an absent key to a cache with room keeps the invariant. */
  lemma AppendFresh<K, V>(st: Store<K, V>, k: K, v: V)
    requires Inv(st) && k !in st.values && |st.tracker| < st.capacity
    ensures Inv(Store(st.capacity, st.tracker + [k], st.values[k := v]))
  {
    NoDupSnoc(st.tracker, k);
    ElemsCons(k, []);
    assert Elems(st.tracker + [k]) == Elems(st.tracker) + Elems([k]);
    assert st.values[k := v].Keys == st.values.Keys + {k};
  }

  /** `operator()`: on a hit, move `k` to the most recent end of the history
      and return its stored value; on a miss, compute `f(k)`, insert it and
      return it. */
  function Lookup<K, V>(st: Store<K, V>, f: K -> V, k: K): (r: (Store<K, V>, V))
    requires Inv(st)
    ensures Inv(r.0) && r.0.capacity == st.capacity
    ensures k in r.0.values && r.1 == r.0.values[k]
    ensures r.0.tracker[|r.0.tracker| - 1] == k
    ensures k in st.values ==> r.1 == st.values[k]
    ensures k !in st.values ==> r.1 == f(k)
    ensures Memoises(st, f) ==> Memoises(r.0, f) && r.1 == f(k)
  {
    if k in st.values then
      ErasePresent(st.tracker, k);
      var t := Erase(st.tracker, k);
      NoDupSnoc(t, k);
      ElemsCons(k, []);
      assert Elems(t + [k]) == Elems(t) + {k};
      (Store(st.capacity, t + [k], st.values), st.values[k])
    else
      var v := f(k);
      (Insert(st, k, v), v)
  }

  /** `set`: insert `k ↦ v` when `k` is absent; when `k` is present, change
      nothing (neither the value nor the recency order). */
  function Set<K, V>(st: Store<K, V>, k: K, v: V): (r: Store<K, V>)
    requires Inv(st)
    ensures Inv(r) && r.capacity == st.capacity
    ensures k in r.values
    ensures k !in st.values ==> r.values[k] == v
  {
    if k in st.values then st else Insert(st, k, v)
  }

  /** `evict(key)`: remove `key` from both structures when present; change
      nothing otherwise. */
  function Evict<K, V>(st: Store<K, V>, key: K): (r: Store<K, V>)
    requires Inv(st)
    ensures Inv(r) && r.capacity == st.capacity
    ensures key !in r.values
    ensures forall x | x in r.values :: x in st.values && r.values[x] == st.values[x]
    ensures forall x | x in st.values && x != key :: x in r.values
  {
    if key in st.values then
      ErasePresent(st.tracker, key);
      Store(st.capacity, Erase(st.tracker, key), st.values - {key})
    else st
  }

  /** `get_keys`: the tracked keys, most recently used first. Under the
      invariant each cached key is listed exactly once. */
  function Keys<K, V>(st: Store<K, V>): (r: seq<K>)
    ensures |r| == |st.tracker|
    ensures forall i | 0 <= i < |r| :: r[i] == st.tracker[|st.tracker| - 1 - i]
    ensures Inv(st) ==> NoDup(r) && Elems(r) == st.values.Keys
  {
    ReversedNoDup(st.tracker);
    ReversedElems(st.tracker);
    Reversed(st.tracker)
  }

  // ---------------------------------------------------------------------
  // Precise effects of each operation on both structures.

  /** The effect of `insert(k, v)`, stated by what leaves and what enters:
      if the cache was full, exactly the former front key leaves the map,
      otherwise no key leaves; exactly `k` enters, with value `v`; every
      other entry keeps its value; and apart from `k`, which is now the most
      recently used key, the history is the old one less the evicted key. */
  ghost predicate Inserted<K, V>(st: Store<K, V>, k: K, v: V, r: Store<K, V>)
    requires st.tracker != [] || !IsFull(st)
  {
    && r.capacity == st.capacity
    && st.values.Keys - r.values.Keys == (if IsFull(st) then {st.tracker[0]} else {})
    && r.values.Keys - st.values.Keys == {k}
    && k in r.values && r.values[k] == v
    && (forall x | x in r.values && x != k :: x in st.values && r.values[x] == st.values[x])
    && r.tracker != [] && r.tracker[|r.tracker| - 1] == k
    && Erase(r.tracker, k) == (if IsFull(st) then Erase(st.tracker, st.tracker[0]) else st.tracker)
  }

  lemma InsertEffect<K, V>(st: Store<K, V>, k: K, v: V)
    requires Inv(st) && k !in st.values
    ensures st.tracker != [] || !IsFull(st)
    ensures Inserted(st, k, v, Insert(st, k, v))
  {
    InsertEntries(st, k, v);
    InsertHistory(st, k, v);
  }

  /** What `insert` does to the map. */
  lemma InsertEntries<K, V>(st: Store<K, V>, k: K, v: V)
    requires Inv(st) && k !in st.values
    ensures st.tracker != [] || !IsFull(st)
    ensures var r := Insert(st, k, v);
            && st.values.Keys - r.values.Keys == (if IsFull(st) then {st.tracker[0]} else {})
            && r.values.Keys - st.values.Keys == {k}
  {
    var room := if IsFull(st) then EvictLru(st) else st;
    assert Insert(st, k, v).values == room.values[k := v];
    assert room.values.Keys == st.values.Keys - (if IsFull(st) then {st.tracker[0]} else {});
  }

  /** What `insert` does to the history. */
  lemma InsertHistory<K, V>(st: Store<K, V>, k: K, v: V)
    requires Inv(st) && k !in st.values
    ensures st.tracker != [] || !IsFull(st)
    ensures var r := Insert(st, k, v);
            Erase(r.tracker, k) == (if IsFull(st) then Erase(st.tracker, st.tracker[0]) else st.tracker)
  {
    var room := if IsFull(st) then EvictLru(st) else st;
    assert Insert(st, k, v).tracker == room.tracker + [k];
    assert k !in room.tracker by {
      assert k !in Elems(room.tracker);
    }
    EraseSnoc(room.tracker, k);
    EraseAbsent(room.tracker, k);
    if IsFull(st) {
      EraseAt(st.tracker, 0);
      assert st.tracker[..0] + st.tracker[1..] == st.tracker[1..];
    }
  }

  /** A hit returns the stored value, leaves the map alone and moves `k`
      from its position `i` to the back, keeping the order of all others. */
  lemma LookupHit<K, V>(st: Store<K, V>, f: K -> V, i: nat)
    requires Inv(st) && i < |st.tracker|
    ensures var k := st.tracker[i];
            var (r, v) := Lookup(st, f, k);
            && v == st.values[k]
            && r.values == st.values
            && r.tracker == st.tracker[..i] + st.tracker[i + 1..] + [k]
  {
    EraseAt(st.tracker, i);
  }

  /** A miss returns `f(k)` and has exactly the effect of `insert(k, f(k))`. */
  lemma LookupMiss<K, V>(st: Store<K, V>, f: K -> V, k: K)
    requires Inv(st) && k !in st.values
    ensures st.tracker != [] || !IsFull(st)
    ensures Lookup(st, f, k).1 == f(k)
    ensures Inserted(st, k, f(k), Lookup(st, f, k).0)
  {
    InsertEffect(st, k, f(k));
  }

  /** `set` on an absent key is `insert`; on a present key it is a no-op. */
  lemma SetEffect<K, V>(st: Store<K, V>, k: K, v: V)
    requires Inv(st)
    ensures st.tracker != [] || !IsFull(st)
    ensures k !in st.values ==> Inserted(st, k, v, Set(st, k, v))
    ensures k in st.values ==> Set(st, k, v) == st
  {
    if k !in st.values {
      InsertEffect(st, k, v);
    }
  }

  /** `evict(key)` on the key at position `i` cuts exactly that position out
      of the history and that entry out of the map; on an absent key it is a
      no-op. */
  lemma EvictEffect<K, V>(st: Store<K, V>, key: K)
    requires Inv(st)
    ensures key !in st.values ==> Evict(st, key) == st
    ensures forall i | 0 <= i < |st.tracker| && st.tracker[i] == key ::
              Evict(st, key) == Store(st.capacity, st.tracker[..i] + st.tracker[i + 1..], st.values - {key})
  {
    forall i | 0 <= i < |st.tracker| && st.tracker[i] == key
      ensures Evict(st, key) == Store(st.capacity, st.tracker[..i] + st.tracker[i + 1..], st.values - {key})
    {
      EraseAt(st.tracker, i);
    }
  }
}
