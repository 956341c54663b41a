/** Counters and sums over lists and maps, as the fleet rollup uses them. */
module Counting {
  import opened Prelude

  /** m[x]++ for every x of xs. */
  function CountOn<T(==)>(m: map<T, int>, xs: seq<T>): map<T, int> {
    if xs == [] then m
    else
      var c, x := CountOn(m, xs[..|xs| - 1]), xs[|xs| - 1];
      c[x := Count(c, x) + 1]
  }

  /** What reading a Go map of counters yields, 0 for an absent key. */
  function Count<T(==)>(m: map<T, int>, x: T): int {
    if x in m then m[x] else 0
  }

  lemma CountOnNext<T>(m: map<T, int>, xs: seq<T>, x: T)
    ensures var c := CountOn(m, xs);
      CountOn(m, xs + [x]) == c[x := Count(c, x) + 1]
  {
    assert (xs + [x])[..|xs|] == xs;
  }

  lemma {:induction false} CountOnAppend<T>(m: map<T, int>, xs: seq<T>, ys: seq<T>)
    ensures CountOn(m, xs + ys) == CountOn(CountOn(m, xs), ys)
  {
    if ys == [] {
      assert xs + ys == xs;
    } else {
      var n := |ys| - 1;
      assert (xs + ys)[..|xs| + n] == xs + ys[..n];
      CountOnAppend(m, xs, ys[..n]);
    }
  }

  /** Counting from nothing counts occurrences, and has a key for exactly what occurs. */
  lemma {:induction false} CountOnIsMultiset<T>(xs: seq<T>, x: T)
    ensures Count(CountOn(map[], xs), x) == multiset(xs)[x]
    ensures x in CountOn(map[], xs) <==> x in xs
  {
    if xs != [] {
      var n := |xs| - 1;
      CountOnIsMultiset(xs[..n], x);
      assert xs == xs[..n] + [xs[n]];
    }
  }

  /** Counters depend on what was counted, not on the order. */
  lemma CountOnPermutation<T(!new)>(xs: seq<T>, ys: seq<T>)
    requires multiset(xs) == multiset(ys)
    ensures CountOn(map[], xs) == CountOn(map[], ys)
  {
    var a, b := CountOn(map[], xs), CountOn(map[], ys);
    forall x: T ensures (x in a <==> x in b) && Count(a, x) == Count(b, x) {
      CountOnIsMultiset(xs, x);
      CountOnIsMultiset(ys, x);
      assert x in xs <==> x in multiset(xs);
      assert x in ys <==> x in multiset(ys);
    }
    assert a.Keys == b.Keys;
    forall x | x in a ensures a[x] == b[x] {
      assert Count(a, x) == Count(b, x);
    }
  }

  // ----- Sums over lists

  lemma {:induction false} SumSplit<T>(f: T -> int, xs: seq<T>, ys: seq<T>)
    ensures Sum(f, xs + ys) == Sum(f, xs) + Sum(f, ys)
  {
    if ys == [] {
      assert xs + ys == xs;
    } else {
      var n := |ys| - 1;
      assert xs + ys == xs + ys[..n] + [ys[n]];
      SumAppend(f, xs + ys[..n], ys[n]);
      SumSplit(f, xs, ys[..n]);
    }
  }

  lemma CancelOne<T>(a: multiset<T>, b: multiset<T>, x: T)
    requires a + multiset{x} == b + multiset{x}
    ensures a == b
  {
    assert a == a + multiset{x} - multiset{x};
    assert b == b + multiset{x} - multiset{x};
  }

  /** A sum depends on the terms, not on their order. */
  lemma {:induction false} SumPermutation<T(!new)>(f: T -> int, xs: seq<T>, ys: seq<T>)
    requires multiset(xs) == multiset(ys)
    ensures Sum(f, xs) == Sum(f, ys)
  {
    assert |multiset(xs)| == |multiset(ys)|;
    if xs != [] {
      var n := |xs| - 1;
      var x := xs[n];
      assert x in multiset(ys);
      var i :| 0 <= i < |ys| && ys[i] == x;
      var rest := ys[..i] + ys[i + 1..];
      assert xs == xs[..n] + [x];
      assert ys == ys[..i] + ([x] + ys[i + 1..]);
      assert multiset(ys) == multiset(ys[..i]) + (multiset{x} + multiset(ys[i + 1..]));
      assert multiset(rest) == multiset(ys[..i]) + multiset(ys[i + 1..]);
      assert multiset(xs) == multiset(xs[..n]) + multiset{x};
      assert multiset(ys) == multiset(rest) + multiset{x};
      CancelOne(multiset(rest), multiset(xs[..n]), x);
      SumPermutation(f, xs[..n], rest);
      SumSplit(f, ys[..i], [x] + ys[i + 1..]);
      SumSplit(f, [x], ys[i + 1..]);
      SumSplit(f, ys[..i], ys[i + 1..]);
      SumAppend(f, [], x);
      assert [] + [x] == [x];
    }
  }

  lemma {:induction false} SumBelow<T>(f: T -> int, g: T -> int, xs: seq<T>)
    requires forall i :: 0 <= i < |xs| ==> f(xs[i]) <= g(xs[i])
    ensures Sum(f, xs) <= Sum(g, xs)
    ensures Sum(f, xs) == Sum(g, xs) <==> forall i :: 0 <= i < |xs| ==> f(xs[i]) == g(xs[i])
  {
    if xs != [] {
      var n := |xs| - 1;
      SumBelow(f, g, xs[..n]);
      assert forall i :: 0 <= i < n ==> xs[..n][i] == xs[i];
    }
  }

  lemma {:induction false} SumOnes<T>(f: T -> int, xs: seq<T>)
    requires forall x :: x in xs ==> f(x) == 1
    ensures Sum(f, xs) == |xs|
  {
    if xs != [] {
      SumOnes(f, xs[..|xs| - 1]);
    }
  }

  // ----- Sums over maps

  /** The sum of g over the entries of a map. */
  ghost function MapSum<K, V>(g: (K, V) -> int, m: map<K, V>): int
    decreases |m|
  {
    if m == map[] then 0
    else
      var k :| k in m;
      g(k, m[k]) + MapSum(g, m - {k})
  }

  /** It does not matter which entry is taken first. */
  lemma {:induction false} MapSumWithout<K, V>(g: (K, V) -> int, m: map<K, V>, k: K)
    requires k in m
    ensures MapSum(g, m) == g(k, m[k]) + MapSum(g, m - {k})
    decreases |m|
  {
    var j :| j in m && MapSum(g, m) == g(j, m[j]) + MapSum(g, m - {j});
    if j != k {
      MapSumWithout(g, m - {j}, k);
      MapSumWithout(g, m - {k}, j);
      assert m - {j} - {k} == m - {k} - {j};
    }
  }

  lemma MapSumUpdate<K, V>(g: (K, V) -> int, m: map<K, V>, k: K, v: V)
    ensures MapSum(g, m[k := v]) == MapSum(g, m) - (if k in m then g(k, m[k]) else 0) + g(k, v)
  {
    MapSumWithout(g, m[k := v], k);
    assert m[k := v] - {k} == m - {k};
    if k in m {
      MapSumWithout(g, m, k);
    } else {
      assert m - {k} == m;
    }
  }
}
