/**
 * A stable sort by key, as the store's queries use `Array.prototype.sort` with a
 * comparator: an element goes before another exactly when its key is strictly
 * before the other's, and elements with equal keys keep their input order.
 */
module StableSort {

  /** lt is irreflexive, transitive and total on keys: a strict total order. */
  ghost predicate StrictTotalOrder<K(!new)>(lt: (K, K) -> bool) {
    && (forall a :: !lt(a, a))
    && (forall a, b, c :: lt(a, b) && lt(b, c) ==> lt(a, c))
    && (forall a, b :: a != b ==> lt(a, b) || lt(b, a))
  }

  /** No element's key is strictly before the key of an element earlier in s. */
  ghost predicate Sorted<T, K>(s: seq<T>, key: T -> K, lt: (K, K) -> bool) {
    forall i, j :: 0 <= i < j < |s| ==> !lt(key(s[j]), key(s[i]))
  }

  /** The elements of s whose key is k, in their order in s. */
  function WithKey<T, K(==)>(s: seq<T>, key: T -> K, k: K): seq<T> {
    if |s| == 0 then []
    else (if key(s[0]) == k then [s[0]] else []) + WithKey(s[1..], key, k)
  }

  /**
   * r is s sorted stably: sorted, and for every key the elements with that key
   * are those of s in the same order.
   */
  ghost predicate IsStableSortOf<T, K(!new)>(r: seq<T>, s: seq<T>, key: T -> K, lt: (K, K) -> bool) {
    && Sorted(r, key, lt)
    && forall k :: WithKey(r, key, k) == WithKey(s, key, k)
  }

  /** Puts x before the first element of s whose key is not strictly before x's. */
  function Insert<T(==), K>(x: T, s: seq<T>, key: T -> K, lt: (K, K) -> bool): (r: seq<T>)
    ensures multiset(r) == multiset(s) + multiset{x}
  {
    if |s| == 0 || !lt(key(s[0]), key(x)) then [x] + s
    else
      assert s == [s[0]] + s[1..];
      [s[0]] + Insert(x, s[1..], key, lt)
  }

  /** Insertion sort; the head of s is inserted last, before its equals. */
  function Sort<T(==), K>(s: seq<T>, key: T -> K, lt: (K, K) -> bool): (r: seq<T>)
    ensures multiset(r) == multiset(s)
  {
    if |s| == 0 then []
    else
      assert s == [s[0]] + s[1..];
      Insert(s[0], Sort(s[1..], key, lt), key, lt)
  }

  lemma InsertHere<T, K>(x: T, s: seq<T>, key: T -> K, lt: (K, K) -> bool)
    requires |s| == 0 || !lt(key(s[0]), key(x))
    ensures Insert(x, s, key, lt) == [x] + s
  {
  }

  lemma InsertPast<T, K>(x: T, y: T, s: seq<T>, key: T -> K, lt: (K, K) -> bool)
    requires lt(key(y), key(x))
    ensures Insert(x, [y] + s, key, lt) == [y] + Insert(x, s, key, lt)
  {
    assert ([y] + s)[0] == y && ([y] + s)[1..] == s;
  }

  lemma SortCons<T, K>(x: T, s: seq<T>, key: T -> K, lt: (K, K) -> bool)
    ensures Sort([x] + s, key, lt) == Insert(x, Sort(s, key, lt), key, lt)
  {
    assert ([x] + s)[0] == x && ([x] + s)[1..] == s;
  }

  lemma {:induction false} InsertSorted<T(!new), K(!new)>(x: T, s: seq<T>, key: T -> K, lt: (K, K) -> bool)
    requires StrictTotalOrder(lt)
    requires Sorted(s, key, lt)
    ensures Sorted(Insert(x, s, key, lt), key, lt)
  {
    if |s| == 0 || !lt(key(s[0]), key(x)) {
      var r := [x] + s;
      forall i, j | 0 <= i < j < |r| ensures !lt(key(r[j]), key(r[i])) {
        if i == 0 && j > 1 {
          assert r[j] == s[j - 1];
          assert !lt(key(s[j - 1]), key(s[0]));
        }
      }
    } else {
      InsertSorted(x, s[1..], key, lt);
      var t := Insert(x, s[1..], key, lt);
      var r := [s[0]] + t;
      forall j | 0 <= j < |t| ensures !lt(key(t[j]), key(s[0])) {
        assert t[j] in multiset(t);
        if t[j] != x {
          assert t[j] in multiset(s[1..]);
          var m :| 0 <= m < |s[1..]| && s[1..][m] == t[j];
          assert s[m + 1] == t[j];
        }
      }
      forall i, j | 0 <= i < j < |r| ensures !lt(key(r[j]), key(r[i])) {
        if i == 0 {
          assert r[j] == t[j - 1];
        } else {
          assert r[i] == t[i - 1] && r[j] == t[j - 1];
        }
      }
    }
  }

  lemma {:induction false} SortSorted<T(!new), K(!new)>(s: seq<T>, key: T -> K, lt: (K, K) -> bool)
    requires StrictTotalOrder(lt)
    ensures Sorted(Sort(s, key, lt), key, lt)
  {
    if |s| > 0 {
      SortSorted(s[1..], key, lt);
      InsertSorted(s[0], Sort(s[1..], key, lt), key, lt);
    }
  }

  /** Inserting x adds x, and only x, to the elements with x's key, ahead of them. */
  lemma {:induction false} WithKeyInsert<T(!new), K(!new)>(x: T, s: seq<T>, key: T -> K, lt: (K, K) -> bool, k: K)
    requires StrictTotalOrder(lt)
    ensures WithKey(Insert(x, s, key, lt), key, k) == (if key(x) == k then [x] else []) + WithKey(s, key, k)
  {
    if |s| == 0 || !lt(key(s[0]), key(x)) {
      var r := [x] + s;
      assert r[0] == x && r[1..] == s;
    } else {
      WithKeyInsert(x, s[1..], key, lt, k);
      var r := [s[0]] + Insert(x, s[1..], key, lt);
      assert r[0] == s[0] && r[1..] == Insert(x, s[1..], key, lt);
      assert key(s[0]) != key(x);
    }
  }

  lemma {:induction false} SortStable<T(!new), K(!new)>(s: seq<T>, key: T -> K, lt: (K, K) -> bool, k: K)
    requires StrictTotalOrder(lt)
    ensures WithKey(Sort(s, key, lt), key, k) == WithKey(s, key, k)
  {
    if |s| > 0 {
      SortStable(s[1..], key, lt, k);
      WithKeyInsert(s[0], Sort(s[1..], key, lt), key, lt, k);
    }
  }

  /** The insertion sort is a stable sort, and it permutes its input. */
  lemma SortIsStableSort<T(!new), K(!new)>(s: seq<T>, key: T -> K, lt: (K, K) -> bool)
    requires StrictTotalOrder(lt)
    ensures IsStableSortOf(Sort(s, key, lt), s, key, lt)
    ensures multiset(Sort(s, key, lt)) == multiset(s)
  {
    SortSorted(s, key, lt);
    forall k { SortStable(s, key, lt, k); }
  }

  lemma {:induction false} WithKeyWitness<T, K(!new)>(s: seq<T>, key: T -> K, k: K)
    requires WithKey(s, key, k) != []
    ensures exists i :: 0 <= i < |s| && key(s[i]) == k
  {
    if key(s[0]) != k {
      WithKeyWitness(s[1..], key, k);
      var i :| 0 <= i < |s[1..]| && key(s[1..][i]) == k;
      assert key(s[i + 1]) == k;
    }
  }

  lemma {:induction false} WithKeyHasElement<T, K(!new)>(s: seq<T>, key: T -> K, i: nat)
    requires i < |s|
    ensures WithKey(s, key, key(s[i])) != []
  {
    if i > 0 && key(s[0]) != key(s[i]) {
      WithKeyHasElement(s[1..], key, i - 1);
      assert s[1..][i - 1] == s[i];
    }
  }

  /** Two sorted sequences with the same elements for every key start with the same key. */
  lemma SameFirstKey<T(!new), K(!new)>(t: seq<T>, u: seq<T>, key: T -> K, lt: (K, K) -> bool)
    requires StrictTotalOrder(lt)
    requires Sorted(t, key, lt) && Sorted(u, key, lt)
    requires forall k :: WithKey(t, key, k) == WithKey(u, key, k)
    requires |t| > 0 && |u| > 0
    ensures key(t[0]) == key(u[0])
  {
    var k0, k1 := key(t[0]), key(u[0]);
    WithKeyHasElement(t, key, 0);
    WithKeyWitness(u, key, k0);
    var j :| 0 <= j < |u| && key(u[j]) == k0;
    assert !lt(k0, k1) by { if j > 0 { assert !lt(key(u[j]), key(u[0])); } }
    WithKeyHasElement(u, key, 0);
    WithKeyWitness(t, key, k1);
    var i :| 0 <= i < |t| && key(t[i]) == k1;
    assert !lt(k1, k0) by { if i > 0 { assert !lt(key(t[i]), key(t[0])); } }
  }

  /** Dropping the head of a sequence drops it from its key's elements only. */
  lemma WithKeyTail<T, K(!new)>(t: seq<T>, key: T -> K, k: K)
    requires |t| > 0
    ensures WithKey(t[1..], key, k) == if k == key(t[0]) then WithKey(t, key, k)[1..] else WithKey(t, key, k)
  {
  }

  lemma SortedTail<T, K>(t: seq<T>, key: T -> K, lt: (K, K) -> bool)
    requires |t| > 0 && Sorted(t, key, lt)
    ensures Sorted(t[1..], key, lt)
  {
    forall i, j | 0 <= i < j < |t[1..]| ensures !lt(key(t[1..][j]), key(t[1..][i])) {
      assert t[1..][i] == t[i + 1] && t[1..][j] == t[j + 1];
    }
  }

  /** Two sorted sequences with the same elements for every key are equal. */
  lemma {:induction false} SortedSameClassesEqual<T(!new), K(!new)>(t: seq<T>, u: seq<T>, key: T -> K, lt: (K, K) -> bool)
    requires StrictTotalOrder(lt)
    requires Sorted(t, key, lt) && Sorted(u, key, lt)
    requires forall k :: WithKey(t, key, k) == WithKey(u, key, k)
    ensures t == u
  {
    if |t| == 0 || |u| == 0 {
      if |t| > 0 { WithKeyHasElement(t, key, 0); }
      if |u| > 0 { WithKeyHasElement(u, key, 0); }
    } else {
      SameFirstKey(t, u, key, lt);
      var k0 := key(t[0]);
      assert WithKey(t, key, k0)[0] == t[0];
      assert WithKey(u, key, k0)[0] == u[0];
      forall k ensures WithKey(t[1..], key, k) == WithKey(u[1..], key, k) {
        WithKeyTail(t, key, k);
        WithKeyTail(u, key, k);
      }
      SortedTail(t, key, lt);
      SortedTail(u, key, lt);
      SortedSameClassesEqual(t[1..], u[1..], key, lt);
      assert t == [t[0]] + t[1..] && u == [u[0]] + u[1..];
    }
  }

  /** A stable sort of s is unique: it is the insertion sort of s. */
  lemma StableSortUnique<T(!new), K(!new)>(r: seq<T>, s: seq<T>, key: T -> K, lt: (K, K) -> bool)
    requires StrictTotalOrder(lt)
    requires IsStableSortOf(r, s, key, lt)
    ensures r == Sort(s, key, lt)
  {
    SortIsStableSort(s, key, lt);
    SortedSameClassesEqual(r, Sort(s, key, lt), key, lt);
  }
}
