/**
 * Python's `sorted(xs, key=...)` and `list.sort(key=...)`: a stable sort, here
 * an insertion sort parametrised by the key and by the order on keys
 * (`reverse=True` is the reversed order, which keeps stability as Python does).
 */
module Sorting {
  /** Inserts `x` before the first element whose key it does not exceed. */
  function Insert<T, K>(x: T, t: seq<T>, key: T -> K, le: (K, K) -> bool): (r: seq<T>)
    ensures multiset(r) == multiset(t) + multiset{x}
    ensures |r| == |t| + 1
  {
    if t == [] || le(key(x), key(t[0])) then [x] + t
    else
      assert t == [t[0]] + t[1..];
      [t[0]] + Insert(x, t[1..], key, le)
  }

  function SortBy<T, K>(s: seq<T>, key: T -> K, le: (K, K) -> bool): (r: seq<T>)
    ensures multiset(r) == multiset(s)
    ensures |r| == |s|
  {
    if s == [] then []
    else
      assert s == [s[0]] + s[1..];
      Insert(s[0], SortBy(s[1..], key, le), key, le)
  }

  ghost predicate TotalPreorder<K(!new)>(le: (K, K) -> bool)
  {
    && (forall a, b :: le(a, b) || le(b, a))
    && (forall a, b, c :: le(a, b) && le(b, c) ==> le(a, c))
  }

  predicate SortedBy<T, K>(s: seq<T>, key: T -> K, le: (K, K) -> bool)
  {
    forall i, j :: 0 <= i < j < |s| ==> le(key(s[i]), key(s[j]))
  }

  /** A property of `x` and of every element of `t` holds of every element of the insertion. */
  lemma {:induction false} InsertAll<T, K>(x: T, t: seq<T>, key: T -> K, le: (K, K) -> bool, P: T -> bool)
    requires P(x)
    requires forall j :: 0 <= j < |t| ==> P(t[j])
    ensures forall j :: 0 <= j < |t| + 1 ==> P(Insert(x, t, key, le)[j])
  {
    if t != [] && !le(key(x), key(t[0])) {
      InsertAll(x, t[1..], key, le, P);
    }
  }

  /** A property of every element of `s` holds of every element of its sort. */
  lemma {:induction false} SortByAll<T, K>(s: seq<T>, key: T -> K, le: (K, K) -> bool, P: T -> bool)
    requires forall j :: 0 <= j < |s| ==> P(s[j])
    ensures forall j :: 0 <= j < |s| ==> P(SortBy(s, key, le)[j])
  {
    if s != [] {
      SortByAll(s[1..], key, le, P);
      InsertAll(s[0], SortBy(s[1..], key, le), key, le, P);
    }
  }

  lemma {:induction false} InsertSorted<T, K(!new)>(x: T, t: seq<T>, key: T -> K, le: (K, K) -> bool)
    requires TotalPreorder(le) && SortedBy(t, key, le)
    ensures SortedBy(Insert(x, t, key, le), key, le)
  {
    if t == [] || le(key(x), key(t[0])) {
    } else {
      var t' := t[1..];
      InsertSorted(x, t', key, le);
      var r := Insert(x, t', key, le);
      assert le(key(t[0]), key(x));
      var b := key(t[0]);
      InsertAll(x, t', key, le, y => le(b, key(y)));
      var full := [t[0]] + r;
      forall i, j | 0 <= i < j < |full| ensures le(key(full[i]), key(full[j])) {
        if i > 0 {
          assert full[i] == r[i - 1] && full[j] == r[j - 1];
        }
      }
    }
  }

  /** The result of a sort under a total preorder is ordered. */
  lemma {:induction false} SortBySorted<T, K(!new)>(s: seq<T>, key: T -> K, le: (K, K) -> bool)
    requires TotalPreorder(le)
    ensures SortedBy(SortBy(s, key, le), key, le)
  {
    if s != [] {
      SortBySorted(s[1..], key, le);
      InsertSorted(s[0], SortBy(s[1..], key, le), key, le);
    }
  }

  /** The elements of `s` whose key is `k`, in their order in `s`. */
  function WithKey<T, K(==)>(s: seq<T>, key: T -> K, k: K): (r: seq<T>)
    ensures |r| <= |s|
    ensures forall i :: 0 <= i < |r| ==> key(r[i]) == k
  {
    if s == [] then []
    else (if key(s[0]) == k then [s[0]] else []) + WithKey(s[1..], key, k)
  }

  lemma WithKeyAppend<T, K>(a: seq<T>, b: seq<T>, key: T -> K, k: K)
    ensures WithKey(a + b, key, k) == WithKey(a, key, k) + WithKey(b, key, k)
  {
    if a != [] {
      assert (a + b)[0] == a[0];
      assert (a + b)[1..] == a[1..] + b;
      WithKeyAppend(a[1..], b, key, k);
    } else {
      assert a + b == b;
    }
  }

  lemma {:induction false} WithKeyInsert<T, K(!new)>(x: T, t: seq<T>, key: T -> K, le: (K, K) -> bool, k: K)
    requires forall a :: le(a, a)
    ensures WithKey(Insert(x, t, key, le), key, k) == WithKey([x], key, k) + WithKey(t, key, k)
  {
    if t == [] || le(key(x), key(t[0])) {
      WithKeyAppend([x], t, key, k);
    } else {
      var t' := t[1..];
      assert le(key(t[0]), key(t[0]));
      var a, b := WithKey([t[0]], key, k), WithKey([x], key, k);
      assert a == [] || b == [];
      calc {
        WithKey(Insert(x, t, key, le), key, k);
        WithKey([t[0]] + Insert(x, t', key, le), key, k);
        { WithKeyAppend([t[0]], Insert(x, t', key, le), key, k); }
        a + WithKey(Insert(x, t', key, le), key, k);
        { WithKeyInsert(x, t', key, le, k); }
        a + (b + WithKey(t', key, k));
        b + (a + WithKey(t', key, k));
        { WithKeyAppend([t[0]], t', key, k); assert [t[0]] + t' == t; }
        b + WithKey(t, key, k);
      }
    }
  }

  /**
   * Stability: the elements sharing one key come out in the order they went in.
   * Only reflexivity of the order is needed.
   */
  lemma {:induction false} SortByStable<T, K(!new)>(s: seq<T>, key: T -> K, le: (K, K) -> bool, k: K)
    requires forall a :: le(a, a)
    ensures WithKey(SortBy(s, key, le), key, k) == WithKey(s, key, k)
  {
    if s != [] {
      var t := SortBy(s[1..], key, le);
      assert SortBy(s, key, le) == Insert(s[0], t, key, le);
      SortByStable(s[1..], key, le, k);
      WithKeyInsert(s[0], t, key, le, k);
      WithKeyAppend([s[0]], s[1..], key, k);
      assert [s[0]] + s[1..] == s;
    }
  }
}
