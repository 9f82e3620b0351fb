/** Sums of the values of a map, which Go takes in no particular order. */
module Sums {
  import opened TrafficAccounting

  function At<K>(m: map<K, Pair>, k: K): Pair {
    if k in m then m[k] else ZERO
  }

  ghost function Sum<K>(m: map<K, Pair>): Pair
    decreases |m|
  {
    if m == map[] then ZERO
    else
      var k :| k in m;
      m[k].Plus(Sum(m - {k}))
  }

  lemma PlusSwaps(a: Pair, b: Pair, c: Pair)
    ensures a.Plus(b.Plus(c)) == b.Plus(a.Plus(c)) && a.Plus(b).Plus(c) == a.Plus(b.Plus(c)) && a.Plus(b) == b.Plus(a)
  {
  }

  lemma {:induction false} SumWithout<K>(m: map<K, Pair>, k: K)
    requires k in m
    ensures Sum(m) == m[k].Plus(Sum(m - {k}))
    decreases |m|
  {
    assert m != map[];
    var j :| j in m && Sum(m) == m[j].Plus(Sum(m - {j}));
    if j != k {
      SumWithout(m - {j}, k);
      SumWithout(m - {k}, j);
      assert (m - {j}) - {k} == (m - {k}) - {j};
      PlusSwaps(m[j], m[k], Sum((m - {k}) - {j}));
    }
  }

  lemma SumUpdated<K>(m: map<K, Pair>, k: K, p: Pair)
    ensures Sum(m[k := At(m, k).Plus(p)]) == Sum(m).Plus(p)
  {
    var after := m[k := At(m, k).Plus(p)];
    SumWithout(after, k);
    assert after - {k} == m - {k};
    if k in m {
      SumWithout(m, k);
    } else {
      assert m - {k} == m;
    }
  }

  lemma SumAtWithout<K>(m: map<K, Pair>, k: K)
    ensures Sum(m) == At(m, k).Plus(Sum(m - {k}))
  {
    if k in m {
      SumWithout(m, k);
    } else {
      assert m - {k} == m;
    }
  }

  /** Entries of zero do not matter to the sum. */
  lemma {:induction false} SumByAt<K(!new)>(a: map<K, Pair>, b: map<K, Pair>)
    requires forall k :: At(a, k) == At(b, k)
    ensures Sum(a) == Sum(b)
    decreases |a| + |b|
  {
    if a != map[] {
      var k :| k in a;
      OneLess(a, b, k);
      SumByAt(a - {k}, b - {k});
    } else if b != map[] {
      var k :| k in b;
      OneLess(b, a, k);
      SumByAt(a - {k}, b - {k});
    }
  }

  lemma OneLess<K(!new)>(a: map<K, Pair>, b: map<K, Pair>, k: K)
    requires k in a && forall j :: At(a, j) == At(b, j)
    ensures |a - {k}| < |a| && |b - {k}| <= |b|
    ensures forall j :: At(a - {k}, j) == At(b - {k}, j)
    ensures Sum(a - {k}) == Sum(b - {k}) ==> Sum(a) == Sum(b)
  {
    hide Sum;
    SumAtWithout(a, k);
    SumAtWithout(b, k);
    assert k !in b ==> b - {k} == b;
    forall j
      ensures At(a - {k}, j) == At(b - {k}, j)
    {
      assert At(a, j) == At(b, j);
    }
  }

  /** A table that is nowhere larger has no larger sum. */
  lemma {:induction false} SumAtMost<K(!new)>(a: map<K, Pair>, b: map<K, Pair>)
    requires forall k :: At(b, k).AtLeast(At(a, k))
    ensures Sum(b).AtLeast(Sum(a))
    decreases |a| + |b|
  {
    if a != map[] {
      var k :| k in a;
      OneLessAtMost(a, b, k);
      SumAtMost(a - {k}, b - {k});
    } else if b != map[] {
      var k :| k in b;
      OneLessAtMost(a, b, k);
      SumAtMost(a - {k}, b - {k});
    }
  }

  lemma Without<K>(m: map<K, Pair>, k: K, j: K)
    ensures At(m - {k}, j) == if j == k then ZERO else At(m, j)
    ensures |m - {k}| <= |m| && (k in m ==> |m - {k}| < |m|)
  {
    assert k !in m ==> m - {k} == m;
  }

  lemma OneLessAtMost<K(!new)>(a: map<K, Pair>, b: map<K, Pair>, k: K)
    requires (k in a || k in b) && forall j :: At(b, j).AtLeast(At(a, j))
    ensures |a - {k}| + |b - {k}| < |a| + |b|
    ensures forall j :: At(b - {k}, j).AtLeast(At(a - {k}, j))
    ensures Sum(b - {k}).AtLeast(Sum(a - {k})) ==> Sum(b).AtLeast(Sum(a))
  {
    hide Sum, At;
    SumAtWithout(a, k);
    SumAtWithout(b, k);
    Without(a, k, k);
    Without(b, k, k);
    forall j
      ensures At(b - {k}, j).AtLeast(At(a - {k}, j))
    {
      Without(a, k, j);
      Without(b, k, j);
    }
  }

  ghost predicate AddUp<K(!new)>(m: map<K, Pair>, a: map<K, Pair>, b: map<K, Pair>) {
    forall k :: At(m, k) == At(a, k).Plus(At(b, k))
  }

  lemma LessAddsUp<K(!new)>(m: map<K, Pair>, a: map<K, Pair>, b: map<K, Pair>, k: K)
    requires AddUp(m, a, b)
    ensures AddUp(m - {k}, a - {k}, b - {k})
  {
    forall j
      ensures At(m - {k}, j) == At(a - {k}, j).Plus(At(b - {k}, j))
    {
      LessAt(m, a, b, k, j);
    }
  }

  lemma LessAt<K(!new)>(m: map<K, Pair>, a: map<K, Pair>, b: map<K, Pair>, k: K, j: K)
    requires At(m, j) == At(a, j).Plus(At(b, j))
    ensures At(m - {k}, j) == At(a - {k}, j).Plus(At(b - {k}, j))
  {
    hide At;
    Without(m, k, j);
    Without(a, k, j);
    Without(b, k, j);
  }

  lemma PlusOver(m: Pair, a: Pair, b: Pair, p: Pair, q: Pair)
    requires m == a.Plus(b)
    ensures m.Plus(p.Plus(q)) == a.Plus(p).Plus(b.Plus(q))
  {
  }

  lemma SumsOver<K(!new)>(m: map<K, Pair>, a: map<K, Pair>, b: map<K, Pair>, k: K)
    requires At(m, k) == At(a, k).Plus(At(b, k))
    requires Sum(m - {k}) == Sum(a - {k}).Plus(Sum(b - {k}))
    ensures Sum(m) == Sum(a).Plus(Sum(b))
  {
    hide Sum, At;
    SumAtWithout(m, k);
    SumAtWithout(a, k);
    SumAtWithout(b, k);
    PlusOver(At(m, k), At(a, k), At(b, k), Sum(a - {k}), Sum(b - {k}));
  }

  /** A table that is two others added up has their sums added up. */
  lemma {:induction false} SumPlus<K(!new)>(m: map<K, Pair>, a: map<K, Pair>, b: map<K, Pair>)
    requires AddUp(m, a, b)
    ensures Sum(m) == Sum(a).Plus(Sum(b))
    decreases |m| + |a| + |b|
  {
    if k :| k in m.Keys + a.Keys + b.Keys {
      assert At(m, k) == At(a, k).Plus(At(b, k));
      LessAddsUp(m, a, b, k);
      Without(m, k, k);
      Without(a, k, k);
      Without(b, k, k);
      hide Sum, AddUp, At;
      SumPlus(m - {k}, a - {k}, b - {k});
      SumsOver(m, a, b, k);
    } else {
      NoSums(m, a, b);
    }
  }

  lemma NoSums<K>(m: map<K, Pair>, a: map<K, Pair>, b: map<K, Pair>)
    requires m.Keys + a.Keys + b.Keys == {}
    ensures Sum(m) == Sum(a).Plus(Sum(b))
  {
    assert m == map[] && a == map[] && b == map[];
  }
}
