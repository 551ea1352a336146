/** Sequence vocabulary for the key-access history of the LRU cache: duplicate
    freedom, removal of one key, reversal, suffixes and the "distinct keys in
    order of last access" of an access history. */
module Sequences {

  /** No element occurs twice. */
  predicate NoDup<T(==)>(s: seq<T>)
    decreases |s|
  {
    s == [] || (s[0] !in s[1..] && NoDup(s[1..]))
  }

  /** The set of elements of `s`. */
  function Elems<T>(s: seq<T>): set<T> {
    set x | x in s
  }

  lemma ElemsCons<T>(x: T, s: seq<T>)
    ensures Elems([x] + s) == {x} + Elems(s)
  {
    assert forall y :: y in [x] + s <==> y == x || y in s;
  }

  lemma ElemsTail<T>(s: seq<T>)
    requires s != []
    ensures Elems(s) == {s[0]} + Elems(s[1..])
  {
    assert s == [s[0]] + s[1..];
    ElemsCons(s[0], s[1..]);
  }

  lemma NoDupCons<T>(x: T, s: seq<T>)
    requires NoDup(s) && x !in s
    ensures NoDup([x] + s)
  {
    assert ([x] + s)[1..] == s;
  }

  lemma {:induction false} NoDupSnoc<T>(s: seq<T>, x: T)
    requires NoDup(s) && x !in s
    ensures NoDup(s + [x])
    decreases |s|
  {
    if s == [] {
      assert [] + [x] == [x] && [x][1..] == [];
    } else {
      assert (s + [x])[1..] == s[1..] + [x];
      NoDupSnoc(s[1..], x);
    }
  }

  /** Two different positions of a duplicate-free sequence hold different
      elements. */
  lemma {:induction false} NoDupDistinct<T>(s: seq<T>, i: nat, j: nat)
    requires NoDup(s) && i < j < |s|
    ensures s[i] != s[j]
    decreases i
  {
    if i == 0 {
      assert s[1..][j - 1] == s[j];
    } else {
      assert s[1..][i - 1] == s[i] && s[1..][j - 1] == s[j];
      NoDupDistinct(s[1..], i - 1, j - 1);
    }
  }

  /** A duplicate-free sequence has as many elements as its element set. */
  lemma {:induction false} NoDupCard<T>(s: seq<T>)
    requires NoDup(s)
    ensures |Elems(s)| == |s|
  {
    if s != [] {
      NoDupCard(s[1..]);
      ElemsTail(s);
    }
  }

  /** `s` with every occurrence of `k` removed, the others in their order. */
  function Erase<T(==)>(s: seq<T>, k: T): (r: seq<T>)
    ensures |r| <= |s|
    decreases |s|
  {
    if s == [] then []
    else if s[0] == k then Erase(s[1..], k)
    else [s[0]] + Erase(s[1..], k)
  }

  /** Erasing `k` removes `k` and keeps every other element. */
  lemma {:induction false} EraseElems<T>(s: seq<T>, k: T)
    ensures Elems(Erase(s, k)) == Elems(s) - {k}
    decreases |s|
  {
    if s != [] {
      ElemsTail(s);
      EraseElems(s[1..], k);
      if s[0] != k {
        ElemsCons(s[0], Erase(s[1..], k));
      }
    }
  }

  lemma {:induction false} EraseAbsent<T>(s: seq<T>, k: T)
    requires k !in s
    ensures Erase(s, k) == s
    decreases |s|
  {
    if s != [] {
      assert s[0] != k;
      EraseAbsent(s[1..], k);
      assert [s[0]] + s[1..] == s;
    }
  }

  /** Appending the erased element adds nothing after erasure. */
  lemma {:induction false} EraseSnoc<T>(s: seq<T>, k: T)
    ensures Erase(s + [k], k) == Erase(s, k)
    decreases |s|
  {
    if s == [] {
      assert [] + [k] == [k] && [k][1..] == [];
    } else {
      assert (s + [k])[0] == s[0] && (s + [k])[1..] == s[1..] + [k];
      EraseSnoc(s[1..], k);
    }
  }

  /** Erasing the element at position `i` of a duplicate-free sequence cuts
      exactly that position out and keeps the relative order of the rest. */
  lemma {:induction false} EraseAt<T>(s: seq<T>, i: nat)
    requires NoDup(s) && i < |s|
    ensures Erase(s, s[i]) == s[..i] + s[i + 1..]
    decreases |s|
  {
    if i == 0 {
      EraseAbsent(s[1..], s[0]);
      assert s[..0] + s[1..] == s[1..];
    } else {
      NoDupDistinct(s, 0, i);
      assert s[1..][i - 1] == s[i];
      EraseAt(s[1..], i - 1);
      assert s[..i] + s[i + 1..] == [s[0]] + (s[1..][..i - 1] + s[1..][i..]);
    }
  }

  /** Erasing keeps a sequence duplicate-free. */
  lemma {:induction false} EraseNoDup<T>(s: seq<T>, k: T)
    requires NoDup(s)
    ensures NoDup(Erase(s, k))
    decreases |s|
  {
    if s != [] {
      EraseNoDup(s[1..], k);
      if s[0] != k {
        EraseElems(s[1..], k);
        assert s[0] !in Elems(Erase(s[1..], k));
        assert s[0] !in Erase(s[1..], k);
        NoDupCons(s[0], Erase(s[1..], k));
      }
    }
  }

  /** Erasing a present element of a duplicate-free sequence shortens it by
      exactly one, keeps it duplicate-free and removes just that element. */
  lemma ErasePresent<T>(s: seq<T>, k: T)
    requires NoDup(s) && k in s
    ensures NoDup(Erase(s, k)) && |Erase(s, k)| == |s| - 1
    ensures Elems(Erase(s, k)) == Elems(s) - {k}
  {
    EraseElems(s, k);
    EraseNoDup(s, k);
    var i :| 0 <= i < |s| && s[i] == k;
    EraseAt(s, i);
  }

  /** Erasing shortens a duplicate-free sequence by one exactly when the
      element was present. */
  lemma EraseLength<T>(s: seq<T>, k: T)
    requires NoDup(s)
    ensures |Erase(s, k)| == if k in s then |s| - 1 else |s|
  {
    if k in s {
      ErasePresent(s, k);
    } else {
      EraseAbsent(s, k);
    }
  }

  /** The elements of `s` in reverse order. */
  function Reversed<T>(s: seq<T>): (r: seq<T>)
    ensures |r| == |s|
    ensures forall i | 0 <= i < |s| :: r[i] == s[|s| - 1 - i]
  {
    if s == [] then [] else Reversed(s[1..]) + [s[0]]
  }

  /** Reversing keeps the set of elements. */
  lemma ReversedElems<T>(s: seq<T>)
    ensures Elems(Reversed(s)) == Elems(s)
  {
    var r := Reversed(s);
    forall x | x in Elems(s) ensures x in Elems(r) {
      var i :| 0 <= i < |s| && s[i] == x;
      assert r[|s| - 1 - i] == x;
    }
  }

  /** Reversing keeps a sequence duplicate-free. */
  lemma {:induction false} ReversedNoDup<T>(s: seq<T>)
    ensures NoDup(s) ==> NoDup(Reversed(s))
    decreases |s|
  {
    if s != [] && NoDup(s) {
      var t := Reversed(s[1..]);
      ReversedNoDup(s[1..]);
      ReversedElems(s[1..]);
      assert s[0] !in Elems(t);
      NoDupSnoc(t, s[0]);
    }
  }

  /** The last `n` elements of `s` (all of `s` when it is shorter). */
  function Suffix<T>(s: seq<T>, n: nat): (r: seq<T>)
    ensures |r| == if |s| <= n then |s| else n
    decreases |s|
  {
    if |s| <= n then s else Suffix(s[1..], n)
  }

  /** The distinct elements of an access history `h`, each placed where it
      occurs for the last time: oldest last access first, newest last. An
      element is kept exactly when it does not occur again later. */
  function LastDistinct<T(==)>(h: seq<T>): (r: seq<T>)
    ensures NoDup(r)
    ensures Elems(r) == Elems(h)
  {
    if h == [] then []
    else
      ElemsTail(h);
      if h[0] in h[1..] then LastDistinct(h[1..])
      else
        assert h[0] !in Elems(LastDistinct(h[1..]));
        NoDupCons(h[0], LastDistinct(h[1..]));
        ElemsCons(h[0], LastDistinct(h[1..]));
        [h[0]] + LastDistinct(h[1..])
  }

  /** Accessing `k` once more moves it to the newest end of the distinct
      history and leaves the order of all other elements alone. */
  lemma {:induction false} LastDistinctSnoc<T>(h: seq<T>, k: T)
    ensures LastDistinct(h + [k]) == Erase(LastDistinct(h), k) + [k]
    decreases |h|
  {
    if h == [] {
      assert [] + [k] == [k];
      assert [k][1..] == [];
    } else {
      var x, t := h[0], h[1..];
      assert (h + [k])[0] == x && (h + [k])[1..] == t + [k];
      LastDistinctSnoc(t, k);
      if x in t {
        assert x in t + [k];
      } else if x == k {
        assert x in t + [k];
        assert ([k] + LastDistinct(t))[1..] == LastDistinct(t);
      } else {
        assert x !in t + [k];
        assert ([x] + LastDistinct(t))[1..] == LastDistinct(t);
        assert [x] + (Erase(LastDistinct(t), k) + [k]) == [x] + Erase(LastDistinct(t), k) + [k];
      }
    }
  }

  /** Linear search, as `std::find`: the first position holding `k`, or
      `|s|` when `k` does not occur. */
  method Find<T(==)>(s: seq<T>, k: T) returns (i: nat)
    ensures i <= |s|
    ensures i < |s| ==> s[i] == k
    ensures forall j | 0 <= j < i :: s[j] != k
  {
    i := 0;
    while i < |s| && s[i] != k
      invariant i <= |s|
      invariant forall j | 0 <= j < i :: s[j] != k
    {
      i := i + 1;
    }
  }
}
