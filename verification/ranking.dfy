/**
 * Python's `sorted(xs, key=k, reverse=True)` and `xs.sort(key=k,
 * reverse=True)`: a stable sort into non-increasing key order. Elements
 * with equal keys keep their input order.
 */
module Ranking {

  predicate SortedDesc<T>(s: seq<T>, key: T -> real) {
    forall i, j :: 0 <= i < j < |s| ==> key(s[i]) >= key(s[j])
  }

  /** The elements of `s` whose key is `v`, in order. */
  function WithKey<T>(s: seq<T>, key: T -> real, v: real): seq<T> {
    if s == [] then []
    else (if key(s[0]) == v then [s[0]] else []) + WithKey(s[1..], key, v)
  }

  /** Insert `x` in front of the first element whose key is not larger. */
  function InsertDesc<T>(x: T, s: seq<T>, key: T -> real): (r: seq<T>)
    ensures |r| == |s| + 1
  {
    if s == [] || key(s[0]) <= key(x) then [x] + s
    else [s[0]] + InsertDesc(x, s[1..], key)
  }

  /** The stable descending sort. */
  function SortDesc<T>(s: seq<T>, key: T -> real): (r: seq<T>)
    ensures |r| == |s|
  {
    if s == [] then [] else InsertDesc(s[0], SortDesc(s[1..], key), key)
  }

  lemma {:induction false} InsertDescSorted<T>(x: T, s: seq<T>, key: T -> real)
    requires SortedDesc(s, key)
    ensures SortedDesc(InsertDesc(x, s, key), key)
    ensures InsertDesc(x, s, key) != [] && key(InsertDesc(x, s, key)[0]) >= (if s == [] then key(x) else if key(x) > key(s[0]) then key(x) else key(s[0]))
  {
    if s != [] && key(s[0]) > key(x) {
      InsertDescSorted(x, s[1..], key);
    }
  }

  lemma {:induction false} InsertDescPermutes<T>(x: T, s: seq<T>, key: T -> real)
    ensures multiset(InsertDesc(x, s, key)) == multiset(s) + multiset{x}
  {
    if s != [] && key(s[0]) > key(x) {
      InsertDescPermutes(x, s[1..], key);
      assert s == [s[0]] + s[1..];
    }
  }

  /** The result is ordered by non-increasing key. */
  lemma {:induction false} SortDescSorted<T>(s: seq<T>, key: T -> real)
    ensures SortedDesc(SortDesc(s, key), key)
  {
    if s != [] {
      SortDescSorted(s[1..], key);
      InsertDescSorted(s[0], SortDesc(s[1..], key), key);
    }
  }

  /** The result is a permutation of the input. */
  lemma {:induction false} SortDescPermutes<T>(s: seq<T>, key: T -> real)
    ensures multiset(SortDesc(s, key)) == multiset(s)
  {
    if s != [] {
      SortDescPermutes(s[1..], key);
      InsertDescPermutes(s[0], SortDesc(s[1..], key), key);
      assert s == [s[0]] + s[1..];
    }
  }

  lemma {:induction false} WithKeyAppend<T>(a: seq<T>, b: seq<T>, key: T -> real, v: real)
    ensures WithKey(a + b, key, v) == WithKey(a, key, v) + WithKey(b, key, v)
  {
    if a != [] {
      WithKeyAppend(a[1..], b, key, v);
      assert (a + b)[0] == a[0];
      assert (a + b)[1..] == a[1..] + b;
    } else {
      assert a + b == b;
    }
  }

  lemma {:induction false} InsertDescWithKey<T>(x: T, s: seq<T>, key: T -> real, v: real)
    ensures WithKey(InsertDesc(x, s, key), key, v) == WithKey([x] + s, key, v)
  {
    if s != [] && key(s[0]) > key(x) {
      InsertDescWithKey(x, s[1..], key, v);
      var r := InsertDesc(x, s, key);
      assert r[1..] == InsertDesc(x, s[1..], key);
      assert ([x] + s)[1..] == s;
      assert s == [s[0]] + s[1..];
      assert ([x] + s[1..])[1..] == s[1..];
      if key(x) == v {
        assert key(s[0]) != v;
      }
    }
  }

  /** Stability: for every key value, the elements carrying it appear in the
      result in the same order as in the input. */
  lemma {:induction false} SortDescStable<T>(s: seq<T>, key: T -> real, v: real)
    ensures WithKey(SortDesc(s, key), key, v) == WithKey(s, key, v)
  {
    if s != [] {
      SortDescStable(s[1..], key, v);
      InsertDescWithKey(s[0], SortDesc(s[1..], key), key, v);
      assert ([s[0]] + SortDesc(s[1..], key))[1..] == SortDesc(s[1..], key);
    }
  }

  /** An already ordered input comes back unchanged. */
  lemma {:induction false} SortDescOfSorted<T>(s: seq<T>, key: T -> real)
    requires SortedDesc(s, key)
    ensures SortDesc(s, key) == s
  {
    if s != [] {
      SortDescOfSorted(s[1..], key);
    }
  }

  /** The first `n` of the sorted elements are the `n` largest: in order,
      drawn from the input, and no element left out has a larger key than
      one kept. */
  lemma {:induction false} TopOf<T>(s: seq<T>, key: T -> real, n: nat)
    requires n <= |s|
    ensures var r := SortDesc(s, key)[..n];
            && SortedDesc(r, key)
            && multiset(r) <= multiset(s)
            && forall x, y :: x in s && x !in r && y in r ==> key(x) <= key(y)
  {
    TopSorted(s, key, n);
    TopDrawn(s, key, n);
    TopDominates(s, key, n);
  }

  lemma {:induction false} TopSorted<T>(s: seq<T>, key: T -> real, n: nat)
    requires n <= |s|
    ensures SortedDesc(SortDesc(s, key)[..n], key)
  {
    SortDescSorted(s, key);
  }

  lemma {:induction false} TopDrawn<T>(s: seq<T>, key: T -> real, n: nat)
    requires n <= |s|
    ensures multiset(SortDesc(s, key)[..n]) <= multiset(s)
  {
    var sorted := SortDesc(s, key);
    SortDescPermutes(s, key);
    assert sorted == sorted[..n] + sorted[n..];
    assert multiset(sorted) == multiset(sorted[..n]) + multiset(sorted[n..]);
  }

  lemma {:induction false} TopDominates<T>(s: seq<T>, key: T -> real, n: nat)
    requires n <= |s|
    ensures var r := SortDesc(s, key)[..n];
            forall x, y :: x in s && x !in r && y in r ==> key(x) <= key(y)
  {
    var sorted := SortDesc(s, key);
    SortDescSorted(s, key);
    SortDescPermutes(s, key);
    var r := sorted[..n];
    forall x, y | x in s && x !in r && y in r
      ensures key(x) <= key(y)
    {
      LeftOut(sorted, s, n, x);
      KeptAbove(sorted, key, n, x, y);
    }
  }

  lemma LeftOut<T>(sorted: seq<T>, s: seq<T>, n: nat, x: T)
    requires n <= |sorted| && multiset(sorted) == multiset(s) && x in s && x !in sorted[..n]
    ensures x in sorted[n..]
  {
    assert x in multiset(s);
    assert x in multiset(sorted);
    assert sorted == sorted[..n] + sorted[n..];
  }

  lemma KeptAbove<T>(sorted: seq<T>, key: T -> real, n: nat, x: T, y: T)
    requires n <= |sorted| && SortedDesc(sorted, key) && x in sorted[n..] && y in sorted[..n]
    ensures key(x) <= key(y)
  {
    var a :| 0 <= a < |sorted[n..]| && sorted[n..][a] == x;
    var b :| 0 <= b < n && sorted[..n][b] == y;
    assert sorted[n + a] == x && sorted[b] == y;
  }

  ghost predicate DistinctBy<T, K>(s: seq<T>, proj: T -> K) {
    forall i, j :: 0 <= i < j < |s| ==> proj(s[i]) != proj(s[j])
  }

  lemma InsertDescMembers<T>(x: T, s: seq<T>, key: T -> real, y: T)
    requires y in InsertDesc(x, s, key)
    ensures y == x || y in s
  {
    InsertDescPermutes(x, s, key);
    assert y in multiset(InsertDesc(x, s, key));
  }

  lemma {:induction false} InsertDescDistinct<T, K>(x: T, s: seq<T>, key: T -> real, proj: T -> K)
    requires DistinctBy(s, proj) && forall i :: 0 <= i < |s| ==> proj(s[i]) != proj(x)
    ensures DistinctBy(InsertDesc(x, s, key), proj)
  {
    if s != [] && key(s[0]) > key(x) {
      InsertDescDistinct(x, s[1..], key, proj);
      var rest := InsertDesc(x, s[1..], key);
      forall j | 0 <= j < |rest|
        ensures proj(rest[j]) != proj(s[0])
      {
        InsertDescMembers(x, s[1..], key, rest[j]);
      }
      assert InsertDesc(x, s, key) == [s[0]] + rest;
    }
  }

  /** Sorting keeps distinct projections distinct. */
  lemma {:induction false} SortDescDistinct<T, K>(s: seq<T>, key: T -> real, proj: T -> K)
    requires DistinctBy(s, proj)
    ensures DistinctBy(SortDesc(s, key), proj)
  {
    if s != [] {
      SortDescDistinct(s[1..], key, proj);
      var rest := SortDesc(s[1..], key);
      SortDescPermutes(s[1..], key);
      forall i | 0 <= i < |rest|
        ensures proj(rest[i]) != proj(s[0])
      {
        assert rest[i] in multiset(s[1..]);
      }
      InsertDescDistinct(s[0], rest, key, proj);
    }
  }
}
