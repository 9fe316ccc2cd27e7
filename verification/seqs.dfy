/** Generic list operations the pages use on fetched records:
    `Array.prototype.filter`, `find`, a stable `sort` by an integer key, and
    `slice(0, n)`. */
module Seqs {
  import opened Wrappers

  /** `a` is `b` with some elements dropped, order kept. */
  predicate IsSubsequence<T(==)>(a: seq<T>, b: seq<T>)
    decreases |b|
  {
    if a == [] then true
    else if b == [] then false
    else (a[0] == b[0] && IsSubsequence(a[1..], b[1..])) || IsSubsequence(a, b[1..])
  }

  /** `xs.filter(p)` */
  function Filter<T>(xs: seq<T>, p: T -> bool): (r: seq<T>)
    ensures |r| <= |xs|
    ensures forall i :: 0 <= i < |r| ==> p(r[i])
    ensures forall i :: 0 <= i < |r| ==> r[i] in xs
    ensures forall i :: 0 <= i < |xs| && p(xs[i]) ==> xs[i] in r
  {
    if xs == [] then []
    else (if p(xs[0]) then [xs[0]] else []) + Filter(xs[1..], p)
  }

  /** Everything kept is kept in its original order. */
  lemma {:induction false} FilterIsSubsequence<T>(xs: seq<T>, p: T -> bool)
    ensures IsSubsequence(Filter(xs, p), xs)
  {
    if xs != [] {
      FilterIsSubsequence(xs[1..], p);
      if p(xs[0]) {
        assert Filter(xs, p) == [xs[0]] + Filter(xs[1..], p);
        assert Filter(xs, p)[1..] == Filter(xs[1..], p);
      } else {
        var r := Filter(xs, p);
        assert r == Filter(xs[1..], p);
        if r != [] {
          assert IsSubsequence(r, xs[1..]);
        }
      }
    }
  }

  /** Filtering twice keeps what both tests keep. */
  lemma {:induction false} FilterFilter<T>(xs: seq<T>, p: T -> bool, q: T -> bool)
    ensures Filter(Filter(xs, p), q) == Filter(xs, x => p(x) && q(x))
  {
    if xs != [] {
      FilterFilter(xs[1..], p, q);
      var head := if p(xs[0]) then [xs[0]] else [];
      FilterAppend(head, Filter(xs[1..], p), q);
    }
  }

  lemma {:induction false} FilterAppend<T>(a: seq<T>, b: seq<T>, p: T -> bool)
    ensures Filter(a + b, p) == Filter(a, p) + Filter(b, p)
  {
    if a != [] {
      assert (a + b)[1..] == a[1..] + b;
      FilterAppend(a[1..], b, p);
    } else {
      assert a + b == b;
    }
  }

  /** Two filters in a row are one filter with the conjoined test. */
  lemma {:induction false} FilterThenFilter<T>(xs: seq<T>, p: T -> bool, q: T -> bool, both: T -> bool)
    requires forall x :: both(x) == (p(x) && q(x))
    ensures Filter(Filter(xs, p), q) == Filter(xs, both)
  {
    if xs != [] {
      FilterThenFilter(xs[1..], p, q, both);
      var head := if p(xs[0]) then [xs[0]] else [];
      FilterAppend(head, Filter(xs[1..], p), q);
    }
  }

  /** A test and its negation split a list without losing or adding
      anything. */
  lemma {:induction false} FilterPartition<T>(xs: seq<T>, p: T -> bool, notP: T -> bool)
    requires forall x :: notP(x) == !p(x)
    ensures multiset(Filter(xs, p)) + multiset(Filter(xs, notP)) == multiset(xs)
  {
    if xs != [] {
      var h := xs[0];
      FilterPartition(xs[1..], p, notP);
      assert multiset(xs) == multiset{h} + multiset(xs[1..]) by {
        assert xs == [h] + xs[1..];
      }
      var a := Filter(xs[1..], p);
      var b := Filter(xs[1..], notP);
      if p(h) {
        assert Filter(xs, p) == [h] + a;
        assert Filter(xs, notP) == b;
        assert multiset([h] + a) == multiset{h} + multiset(a);
      } else {
        assert Filter(xs, p) == a;
        assert Filter(xs, notP) == [h] + b;
        assert multiset([h] + b) == multiset{h} + multiset(b);
      }
    }
  }

  /** What holds of every element of `xs` holds of every element kept by a
      filter, together with the filter's own test. */
  lemma FilterKeeps<T>(xs: seq<T>, p: T -> bool, q: T -> bool)
    requires forall i :: 0 <= i < |xs| ==> q(xs[i])
    ensures forall i :: 0 <= i < |Filter(xs, p)| ==> p(Filter(xs, p)[i]) && q(Filter(xs, p)[i])
  {
    var r := Filter(xs, p);
    forall i | 0 <= i < |r|
      ensures p(r[i]) && q(r[i])
    {
      var k :| 0 <= k < |xs| && xs[k] == r[i];
    }
  }

  /** What holds of every element holds of every element of a permutation. */
  lemma PermutationKeeps<T>(xs: seq<T>, ys: seq<T>, q: T -> bool)
    requires multiset(xs) == multiset(ys)
    requires forall i :: 0 <= i < |xs| ==> q(xs[i])
    ensures forall i :: 0 <= i < |ys| ==> q(ys[i])
  {
    forall i | 0 <= i < |ys|
      ensures q(ys[i])
    {
      assert ys[i] in multiset(ys);
      var k :| 0 <= k < |xs| && xs[k] == ys[i];
    }
  }

  /** A test that keeps everything keeps the list unchanged. */
  lemma {:induction false} FilterAll<T>(xs: seq<T>, p: T -> bool)
    requires forall i :: 0 <= i < |xs| ==> p(xs[i])
    ensures Filter(xs, p) == xs
  {
    if xs != [] {
      FilterAll(xs[1..], p);
      assert [xs[0]] + xs[1..] == xs;
    }
  }

  /** `xs.find(p)`: the first element passing the test. */
  function Find<T(==)>(xs: seq<T>, p: T -> bool): (r: Option<T>)
    ensures r.Some? <==> exists i :: 0 <= i < |xs| && p(xs[i])
    ensures r.Some? ==> exists i :: 0 <= i < |xs| && xs[i] == r.value && p(xs[i])
                         && forall j :: 0 <= j < i ==> !p(xs[j])
  {
    if xs == [] then None
    else if p(xs[0]) then Some(xs[0])
    else
      var r := Find(xs[1..], p);
      if r.Some? then
        var i :| 0 <= i < |xs[1..]| && xs[1..][i] == r.value && p(xs[1..][i])
                 && forall j :: 0 <= j < i ==> !p(xs[1..][j]);
        assert xs[i + 1] == r.value && forall j :: 0 <= j < i + 1 ==> !p(xs[j]);
        r
      else
        assert forall i :: 0 <= i < |xs[1..]| ==> !p(xs[1..][i]);
        assert xs == [xs[0]] + xs[1..];
        r
  }

  /** The first element that passes the test is the one found. */
  lemma FindFirst<T>(xs: seq<T>, p: T -> bool, k: nat)
    requires k < |xs| && p(xs[k])
    requires forall j :: 0 <= j < k ==> !p(xs[j])
    ensures Find(xs, p) == Some(xs[k])
  {
    var r := Find(xs, p);
    var i :| 0 <= i < |xs| && xs[i] == r.value && p(xs[i]) && forall j :: 0 <= j < i ==> !p(xs[j]);
    assert i == k;
  }

  /** Non-decreasing under the key. */
  predicate SortedBy<T>(xs: seq<T>, key: T -> int) {
    forall i, j :: 0 <= i < j < |xs| ==> key(xs[i]) <= key(xs[j])
  }

  /** Sortedness needs only the first pair checked at the front. */
  lemma SortedCons<T>(h: T, t: seq<T>, key: T -> int)
    ensures SortedBy(t, key) && (t != [] ==> key(h) <= key(t[0])) ==> SortedBy([h] + t, key)
  {
  }

  /** Put `x` into a sorted list before the first element whose key is not
      smaller. */
  function InsertBy<T>(x: T, ys: seq<T>, key: T -> int): (r: seq<T>)
    ensures multiset(r) == multiset(ys) + multiset{x}
    ensures |r| == |ys| + 1
    ensures r[0] == x || (ys != [] && r[0] == ys[0])
    ensures SortedBy(ys, key) ==> SortedBy(r, key)
  {
    if ys == [] || key(x) <= key(ys[0]) then
      SortedCons(x, ys, key);
      [x] + ys
    else
      var rest := InsertBy(x, ys[1..], key);
      assert ys == [ys[0]] + ys[1..];
      SortedCons(ys[0], rest, key);
      [ys[0]] + rest
  }

  /** `[...xs].sort((a, b) => key(a) - key(b))`: a stable sort. */
  function SortBy<T>(xs: seq<T>, key: T -> int): (r: seq<T>)
    ensures SortedBy(r, key)
    ensures multiset(r) == multiset(xs)
    ensures |r| == |xs|
  {
    if xs == [] then []
    else
      assert xs == [xs[0]] + xs[1..];
      InsertBy(xs[0], SortBy(xs[1..], key), key)
  }

  /** Elements with one given key. */
  function WithKey<T>(xs: seq<T>, key: T -> int, k: int): seq<T> {
    Filter(xs, x => key(x) == k)
  }

  lemma {:induction false} InsertByStable<T>(x: T, ys: seq<T>, key: T -> int, k: int)
    ensures WithKey(InsertBy(x, ys, key), key, k) == WithKey([x] + ys, key, k)
  {
    if ys == [] || key(x) <= key(ys[0]) {
      assert InsertBy(x, ys, key) == [x] + ys;
    } else {
      var y0, tl := ys[0], ys[1..];
      var rest := InsertBy(x, tl, key);
      InsertByStable(x, tl, key, k);
      assert InsertBy(x, ys, key) == [y0] + rest;
      assert ys == [y0] + tl;
      var a, b, c := WithKey([y0], key, k), WithKey([x], key, k), WithKey(tl, key, k);
      WithKeyAppend([y0], rest, key, k);
      WithKeyAppend([x], tl, key, k);
      assert WithKey(InsertBy(x, ys, key), key, k) == a + (b + c);
      WithKeyAppend([y0], tl, key, k);
      WithKeyAppend([x], ys, key, k);
      assert WithKey([x] + ys, key, k) == b + (a + c);
      WithKeySingle(x, key, k);
      WithKeySingle(y0, key, k);
      SwapEmpty(a, b, c);
    }
  }

  lemma SwapEmpty<T>(a: seq<T>, b: seq<T>, c: seq<T>)
    requires a == [] || b == []
    ensures a + (b + c) == b + (a + c)
  {
    if a == [] {
      assert a + (b + c) == b + c == b + (a + c);
    } else {
      assert a + (b + c) == a + c == b + (a + c);
    }
  }

  lemma WithKeyAppend<T>(a: seq<T>, b: seq<T>, key: T -> int, k: int)
    ensures WithKey(a + b, key, k) == WithKey(a, key, k) + WithKey(b, key, k)
  {
    FilterAppend(a, b, x => key(x) == k);
  }

  lemma WithKeySingle<T>(x: T, key: T -> int, k: int)
    ensures WithKey([x], key, k) == if key(x) == k then [x] else []
  {
    assert [x][1..] == [];
  }

  /** Stability: among elements with equal keys the sort keeps the input
      order. */
  lemma {:induction false} SortByStable<T>(xs: seq<T>, key: T -> int, k: int)
    ensures WithKey(SortBy(xs, key), key, k) == WithKey(xs, key, k)
  {
    if xs != [] {
      SortByStable(xs[1..], key, k);
      InsertByStable(xs[0], SortBy(xs[1..], key), key, k);
      FilterAppend([xs[0]], SortBy(xs[1..], key), y => key(y) == k);
      FilterAppend([xs[0]], xs[1..], y => key(y) == k);
      assert [xs[0]] + xs[1..] == xs;
    }
  }

  /** An already sorted list is left as it is. */
  lemma {:induction false} SortBySorted<T>(xs: seq<T>, key: T -> int)
    requires SortedBy(xs, key)
    ensures SortBy(xs, key) == xs
  {
    if xs != [] {
      SortBySorted(xs[1..], key);
    }
  }

  /** `xs.slice(0, n)` */
  function Take<T>(xs: seq<T>, n: nat): (r: seq<T>)
    ensures |r| <= n && |r| <= |xs|
    ensures |xs| <= n ==> r == xs
    ensures r == xs[..|r|]
    ensures n <= |xs| ==> |r| == n
  {
    if |xs| <= n then xs else xs[..n]
  }

  /** `Math.max(...xs)` of a non-empty list. */
  function Max(xs: seq<int>): (m: int)
    requires xs != []
    ensures forall i :: 0 <= i < |xs| ==> xs[i] <= m
    ensures exists i :: 0 <= i < |xs| && xs[i] == m
  {
    if |xs| == 1 then xs[0]
    else
      var m := Max(xs[1..]);
      assert forall i :: 1 <= i < |xs| ==> xs[i] == xs[1..][i - 1];
      if xs[0] >= m then xs[0] else m
  }

  /** `xs.map(f)` */
  function Map<T, U>(xs: seq<T>, f: T -> U): (r: seq<U>)
    ensures |r| == |xs| && forall i :: 0 <= i < |xs| ==> r[i] == f(xs[i])
  {
    seq(|xs|, i requires 0 <= i < |xs| => f(xs[i]))
  }
}
