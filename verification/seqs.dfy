/**
 * The array searches the store performs on its collections: `findIndex`, `find`
 * and `filter`, each keeping the first match or the stored order, and the
 * `map`-then-drop-missing pattern of its joins, as a flat map.
 */
module Seqs {
  import opened Wrappers

  /** The index of the first element that satisfies p, if any. */
  function FindIndex<T>(s: seq<T>, p: T -> bool): (r: Option<nat>)
    ensures r.Some? ==> r.value < |s| && p(s[r.value])
    ensures r.Some? ==> forall j :: 0 <= j < r.value ==> !p(s[j])
    ensures r.None? ==> forall j :: 0 <= j < |s| ==> !p(s[j])
  {
    if |s| == 0 then None
    else if p(s[0]) then Some(0)
    else match FindIndex(s[1..], p)
      case None => None
      case Some(k) => Some(k + 1)
  }

  /** The first element that satisfies p, if any. */
  function Find<T>(s: seq<T>, p: T -> bool): (r: Option<T>)
    ensures r.None? <==> forall j :: 0 <= j < |s| ==> !p(s[j])
    ensures r.Some? ==>
      exists i :: 0 <= i < |s| && s[i] == r.value && p(s[i]) && forall j :: 0 <= j < i ==> !p(s[j])
  {
    match FindIndex(s, p)
    case None => None
    case Some(i) => Some(s[i])
  }

  /** The elements that satisfy p, in their stored order. */
  function Filter<T(==,!new)>(s: seq<T>, p: T -> bool): (r: seq<T>)
    ensures |r| <= |s|
    ensures forall i :: 0 <= i < |r| ==> p(r[i])
    ensures forall x :: x in r <==> x in s && p(x)
  {
    if |s| == 0 then []
    else
      assert s == [s[0]] + s[1..];
      if p(s[0]) then [s[0]] + Filter(s[1..], p) else Filter(s[1..], p)
  }

  /** Filtering a concatenation filters each part: the kept elements keep their order. */
  lemma {:induction false} FilterAppend<T(!new)>(a: seq<T>, b: seq<T>, p: T -> bool)
    ensures Filter(a + b, p) == Filter(a, p) + Filter(b, p)
  {
    if |a| == 0 {
      assert a + b == b;
    } else {
      assert (a + b)[0] == a[0];
      assert (a + b)[1..] == a[1..] + b;
      FilterAppend(a[1..], b, p);
    }
  }

  /** Filtering keeps everything when every element satisfies p. */
  lemma {:induction false} FilterKeepsAll<T(!new)>(s: seq<T>, p: T -> bool)
    requires forall i :: 0 <= i < |s| ==> p(s[i])
    ensures Filter(s, p) == s
  {
    if |s| > 0 {
      FilterKeepsAll(s[1..], p);
    }
  }

  /** Filtering keeps every occurrence of the elements that satisfy p, and no other. */
  lemma {:induction false} FilterMultiset<T(!new)>(s: seq<T>, p: T -> bool, x: T)
    ensures multiset(Filter(s, p))[x] == if p(x) then multiset(s)[x] else 0
  {
    if |s| > 0 {
      FilterMultiset(s[1..], p, x);
      assert s == [s[0]] + s[1..];
      assert multiset(s) == multiset{s[0]} + multiset(s[1..]);
      if p(s[0]) {
        assert Filter(s, p) == [s[0]] + Filter(s[1..], p);
        assert multiset(Filter(s, p)) == multiset{s[0]} + multiset(Filter(s[1..], p));
      } else {
        assert Filter(s, p) == Filter(s[1..], p);
      }
    }
  }

  /** Each element mapped to a list, the lists concatenated in stored order. */
  function FlatMap<T, U>(s: seq<T>, f: T -> seq<U>): (r: seq<U>)
    ensures r == [] <==> forall i :: 0 <= i < |s| ==> f(s[i]) == []
  {
    if |s| == 0 then []
    else
      assert forall i :: 0 <= i < |s[1..]| ==> s[1..][i] == s[i + 1];
      f(s[0]) + FlatMap(s[1..], f)
  }

  /** Every element of the result comes from the list of some element of s. */
  lemma {:induction false} FlatMapSound<T, U>(s: seq<T>, f: T -> seq<U>, i: nat)
    requires i < |FlatMap(s, f)|
    ensures exists j :: 0 <= j < |s| && FlatMap(s, f)[i] in f(s[j])
  {
    var r := FlatMap(s, f);
    var rest := FlatMap(s[1..], f);
    if i < |f(s[0])| {
      assert r[i] == f(s[0])[i];
    } else {
      var k := i - |f(s[0])|;
      assert r[i] == rest[k];
      FlatMapSound(s[1..], f, k);
      var j :| 0 <= j < |s[1..]| && rest[k] in f(s[1..][j]);
      assert s[1..][j] == s[j + 1];
    }
  }

  /** Everything in the list of an element of s is in the result. */
  lemma {:induction false} FlatMapComplete<T, U>(s: seq<T>, f: T -> seq<U>, j: nat, y: U)
    requires j < |s| && y in f(s[j])
    ensures y in FlatMap(s, f)
  {
    if j > 0 {
      assert s[1..][j - 1] == s[j];
      FlatMapComplete(s[1..], f, j - 1, y);
    }
  }

  /** Mapping a concatenation concatenates the mapped parts. */
  lemma {:induction false} FlatMapAppend<T, U>(a: seq<T>, b: seq<T>, f: T -> seq<U>)
    ensures FlatMap(a + b, f) == FlatMap(a, f) + FlatMap(b, f)
  {
    if |a| == 0 {
      assert a + b == b;
    } else {
      assert (a + b)[0] == a[0] && (a + b)[1..] == a[1..] + b;
      FlatMapAppend(a[1..], b, f);
    }
  }

  /** With lists of at most one element, the result is no longer than s. */
  lemma {:induction false} FlatMapAtMostOne<T, U>(s: seq<T>, f: T -> seq<U>)
    requires forall i :: 0 <= i < |s| ==> |f(s[i])| <= 1
    ensures |FlatMap(s, f)| <= |s|
  {
    if |s| > 0 {
      assert forall i :: 0 <= i < |s[1..]| ==> s[1..][i] == s[i + 1];
      FlatMapAtMostOne(s[1..], f);
    }
  }

  /** With lists of exactly one element, the result is as long as s. */
  lemma {:induction false} FlatMapExactlyOne<T, U>(s: seq<T>, f: T -> seq<U>)
    requires forall i :: 0 <= i < |s| ==> |f(s[i])| == 1
    ensures |FlatMap(s, f)| == |s|
  {
    if |s| > 0 {
      assert forall i :: 0 <= i < |s[1..]| ==> s[1..][i] == s[i + 1];
      FlatMapExactlyOne(s[1..], f);
    }
  }

  /** Two maps that agree on every element of s give the same result. */
  lemma {:induction false} FlatMapAgree<T, U>(s: seq<T>, f: T -> seq<U>, g: T -> seq<U>)
    requires forall i :: 0 <= i < |s| ==> f(s[i]) == g(s[i])
    ensures FlatMap(s, f) == FlatMap(s, g)
  {
    if |s| > 0 {
      assert forall i :: 0 <= i < |s[1..]| ==> s[1..][i] == s[i + 1];
      FlatMapAgree(s[1..], f, g);
    }
  }
}
