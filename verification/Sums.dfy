/** Sums over the values of a finite map. */
module Sums {

  ghost function Pick<K(!new)>(m: map<K, nat>): (k: K)
    requires m != map[]
    ensures k in m
  {
    assert m.Keys != {};
    var k :| k in m; k
  }

  ghost function Sum<K(!new)>(m: map<K, nat>): nat
    decreases |m|
  {
    if m == map[] then 0 else var k := Pick(m); m[k] + Sum(m - {k})
  }

  lemma {:induction false} SumRemove<K(!new)>(m: map<K, nat>, k: K)
    requires k in m
    ensures Sum(m) == m[k] + Sum(m - {k})
    decreases |m|
  {
    var p := Pick(m);
    if p != k {
      SumRemove(m - {p}, k);
      SumRemove(m - {k}, p);
      assert m - {p} - {k} == m - {k} - {p};
    }
  }

  lemma SumUpdate<K(!new)>(m: map<K, nat>, k: K, v: nat)
    requires k in m
    ensures Sum(m[k := v]) == Sum(m) - m[k] + v
  {
    SumRemove(m, k);
    SumRemove(m[k := v], k);
    assert m[k := v] - {k} == m - {k};
  }

  lemma {:induction false} SumMonotonic<K(!new)>(m: map<K, nat>, n: map<K, nat>)
    requires m.Keys == n.Keys && forall k :: k in m ==> m[k] <= n[k]
    ensures Sum(m) <= Sum(n)
    decreases |m|
  {
    if m != map[] {
      var k := Pick(m);
      SumRemove(n, k);
      SumMonotonic(m - {k}, n - {k});
    } else {
      assert n == map[];
    }
  }

  /** Adding one to every value adds the number of keys. */
  lemma {:induction false} SumIncrement<K(!new)>(m: map<K, nat>, n: map<K, nat>)
    requires m.Keys == n.Keys && forall k :: k in m ==> n[k] == m[k] + 1
    ensures Sum(n) == Sum(m) + |m|
    decreases |m|
  {
    if m != map[] {
      var k := Pick(m);
      SumRemove(n, k);
      SumIncrement(m - {k}, n - {k});
      assert m.Keys == (m - {k}).Keys + {k};
    } else {
      assert n == map[];
    }
  }

  /** Keys with value zero do not matter. */
  lemma {:induction false} SumSupport<K(!new)>(m: map<K, nat>, n: map<K, nat>)
    requires m.Keys <= n.Keys
    requires forall k :: k in n ==> n[k] == if k in m then m[k] else 0
    ensures Sum(m) == Sum(n)
    decreases |n|
  {
    if n != map[] {
      var k := Pick(n);
      if k in m {
        SumRemove(m, k);
        SumSupport(m - {k}, n - {k});
      } else {
        SumSupport(m, n - {k});
      }
    } else {
      assert m == map[];
    }
  }
}
