/** Properties of whole runs of the cache: the invariant (and so the capacity
    bound and the key bijection) survives every sequence of public
    operations, and a cache used only through `operator()` tracks exactly the
    `capacity` most recently accessed distinct keys, ordered by last access. */
module LruProperties {
  import opened Sequences
  import opened LruModel

  /** A call of one of the public mutators. */
  datatype Op<K, V> = CallOp(key: K) | SetOp(key: K, value: V) | EvictOp(key: K)

  /** The state after one public operation. */
  function Step<K, V>(st: Store<K, V>, f: K -> V, op: Op<K, V>): (r: Store<K, V>)
    requires Inv(st)
    ensures Inv(r) && r.capacity == st.capacity
  {
    match op
    case CallOp(k) => Lookup(st, f, k).0
    case SetOp(k, v) => Set(st, k, v)
    case EvictOp(k) => Evict(st, k)
  }

  /** The state after the operations `ops`, applied from first to last. */
  function Run<K, V>(st: Store<K, V>, f: K -> V, ops: seq<Op<K, V>>): (r: Store<K, V>)
    requires Inv(st)
    ensures Inv(r) && r.capacity == st.capacity
    decreases |ops|
  {
    if ops == [] then st else Run(Step(st, f, ops[0]), f, ops[1..])
  }

  /** Capacity bound and bijection: after any run of public operations on a
      freshly constructed cache, both structures have the same size, at most
      the capacity, and hold the same keys, each tracked once. */
  lemma CapacityBound<K, V>(c: nat, f: K -> V, ops: seq<Op<K, V>>)
    requires c != 0
    ensures var r := Run(Empty(c), f, ops);
            && |r.values| == |r.tracker| <= c
            && r.values.Keys == Elems(r.tracker)
            && NoDup(r.tracker)
  {
    InvSize(Run(Empty(c), f, ops));
  }

  /** Running `op` after `ops` is one more step after running `ops`. */
  lemma {:induction false} RunSnoc<K, V>(st: Store<K, V>, f: K -> V, ops: seq<Op<K, V>>, op: Op<K, V>)
    requires Inv(st)
    ensures Run(st, f, ops + [op]) == Step(Run(st, f, ops), f, op)
    decreases |ops|
  {
    if ops == [] {
      assert [] + [op] == [op] && [op][1..] == [];
    } else {
      assert (ops + [op])[0] == ops[0] && (ops + [op])[1..] == ops[1..] + [op];
      RunSnoc(Step(st, f, ops[0]), f, ops[1..], op);
    }
  }

  /** The `operator()` calls on the keys of `h`, in order. */
  function Calls<K, V>(h: seq<K>): seq<Op<K, V>>
    decreases |h|
  {
    if h == [] then [] else Calls(h[..|h| - 1]) + [CallOp(h[|h| - 1])]
  }

  /** The state after calling `operator()` on each key of the access history
      `h` in turn. */
  function Accesses<K, V>(st: Store<K, V>, f: K -> V, h: seq<K>): (r: Store<K, V>)
    requires Inv(st)
    ensures Inv(r) && r.capacity == st.capacity
    ensures Memoises(st, f) ==> Memoises(r, f)
    decreases |h|
  {
    if h == [] then st else Lookup(Accesses(st, f, h[..|h| - 1]), f, h[|h| - 1]).0
  }

  /** A run of accesses is the general run of the matching `operator()`
      calls, so every property of `Run` holds for `Accesses`. */
  lemma {:induction false} AccessesAreRun<K, V>(st: Store<K, V>, f: K -> V, h: seq<K>)
    requires Inv(st)
    ensures Accesses(st, f, h) == Run(st, f, Calls(h))
    decreases |h|
  {
    if h != [] {
      var h0, k := h[..|h| - 1], h[|h| - 1];
      AccessesAreRun(st, f, h0);
      RunSnoc(st, f, Calls(h0), CallOp(k));
    }
  }

  /** A cache used only through `operator()` returns the cached function's
      value for every key, whether it hits or misses. */
  lemma AccessesMemoise<K, V>(c: nat, f: K -> V, h: seq<K>, k: K)
    requires c != 0
    ensures Lookup(Accesses(Empty(c), f, h), f, k).1 == f(k)
  {
    assert Memoises(Empty<K, V>(c), f);
  }

  /** How `operator()` changes a tracker `t` of capacity `c` when accessing
      `k`, under the invariant: a tracked `k` moves to the back; otherwise `k`
      is appended, after dropping the front when `c` keys are tracked. */
  ghost function Touched<T>(t: seq<T>, k: T, c: nat): (r: seq<T>)
    ensures r != [] && r[|r| - 1] == k
  {
    if k in t then Erase(t, k) + [k]
    else if t != [] && |t| >= c then t[1..] + [k]
    else t + [k]
  }

  /** `Touched` is what `operator()` does to the history. */
  lemma LookupTouched<K, V>(st: Store<K, V>, f: K -> V, k: K)
    requires Inv(st)
    ensures Lookup(st, f, k).0.tracker == Touched(st.tracker, k, st.capacity)
  {
    assert k in st.values <==> k in Elems(st.tracker);
  }

  /** One more access to `k` changes the `c` newest distinct keys exactly as
      `operator()` changes a tracker holding them. */
  lemma {:induction false} SuffixStep<T>(L: seq<T>, k: T, c: nat)
    requires NoDup(L) && c > 0
    ensures Suffix(Erase(L, k) + [k], c) == Touched(Suffix(L, c), k, c)
    decreases |L|
  {
    EraseLength(L, k);
    if |L| <= c {
      if k !in L {
        EraseAbsent(L, k);
        if |L| == c {
          assert (L + [k])[1..] == L[1..] + [k];
        }
      }
    } else {
      var x, rest := L[0], L[1..];
      assert L == [x] + rest;
      SuffixStep(rest, k, c);
      EraseLength(rest, k);
      if x == k {
        EraseAbsent(rest, k);
      } else {
        var e := Erase(rest, k) + [k];
        assert Erase(L, k) + [k] == [x] + e;
        assert ([x] + e)[1..] == e;
      }
    }
  }

  /** Recency order: after calling `operator()` on the keys of `h` in turn,
      starting from an empty cache of capacity `c`, the tracker holds the
      last `c` of the distinct keys of `h` ordered by their last access,
      least recent first. (By the invariant the map holds the same keys.) */
  lemma {:induction false} AccessesAreLru<K, V>(c: nat, f: K -> V, h: seq<K>)
    requires c != 0
    ensures Accesses(Empty(c), f, h).tracker == Suffix(LastDistinct(h), c)
    decreases |h|
  {
    if h != [] {
      var h0, k := h[..|h| - 1], h[|h| - 1];
      assert h == h0 + [k];
      AccessesAreLru(c, f, h0);
      var st := Accesses(Empty(c), f, h0);
      LastDistinctSnoc(h0, k);
      SuffixStep(LastDistinct(h0), k, c);
        assert k in st.values <==> k in Elems(st.tracker);
    }
  }

  lemma LastDistinctExample<K>(a: K, b: K, c: K)
    requires a != b && b != c && a != c
    ensures Suffix(LastDistinct([a, b, a, c]), 2) == [a, c]
  {
    assert [c][1..] == [] && LastDistinct([c]) == [c];
    assert [a, c][1..] == [c] && LastDistinct([a, c]) == [a, c];
    assert [b, a, c][1..] == [a, c] && LastDistinct([b, a, c]) == [b, a, c];
    assert [a, b, a, c][1..] == [b, a, c] && LastDistinct([a, b, a, c]) == [b, a, c];
  }

  /** The scenario of accessing `a, b, a, c` with capacity 2: `b` is evicted,
      and `a`, refreshed before `c` arrived, stays. */
  lemma RecencyExample<K, V>(f: K -> V, a: K, b: K, c: K)
    requires a != b && b != c && a != c
    ensures Accesses(Empty(2), f, [a, b, a, c]).tracker == [a, c]
    ensures Accesses(Empty(2), f, [a, b, a, c]).values.Keys == {a, c}
  {
    var r := Accesses(Empty(2), f, [a, b, a, c]);
    assert r.tracker == [a, c] by {
      AccessesAreLru(2, f, [a, b, a, c]);
      LastDistinctExample(a, b, c);
    }
    assert Elems([a, c]) == {a, c} by {
      ElemsCons(a, [c]);
      ElemsCons(c, []);
    }
  }
}
