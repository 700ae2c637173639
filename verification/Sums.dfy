/** Sums over the entries of a map, and the one choice from a set that they and products need. */
module Sums {

  ghost function Pick<T>(s: set<T>): (x: T)
    requires s != {}
    ensures x in s
  {
    var x :| x in s; x
  }

  ghost function SumOf<K>(m: map<K, int>): int
    decreases m.Keys
  {
    if m.Keys == {} then 0
    else var k := Pick(m.Keys); m[k] + SumOf(m - {k})
  }

  /** The entry of a key, 0 for a missing one. */
  function Share<K(==)>(m: map<K, int>, k: K): int {
    if k in m then m[k] else 0
  }

  lemma {:induction false} SumAny<K>(m: map<K, int>, k: K)
    requires k in m
    ensures SumOf(m) == m[k] + SumOf(m - {k})
    decreases m.Keys
  {
    var j := Pick(m.Keys);
    if j != k {
      SumAny(m - {j}, k);
      SumAny(m - {k}, j);
      assert m - {j} - {k} == m - {k} - {j};
    }
  }

  /** Setting one entry changes the sum by the change of that entry. */
  lemma SumSet<K>(m: map<K, int>, k: K, v: int)
    ensures SumOf(m[k := v]) == SumOf(m) - Share(m, k) + v
  {
    var m' := m[k := v];
    SumAny(m', k);
    assert m' - {k} == m - {k};
    if k in m {
      SumAny(m, k);
    } else {
      assert m - {k} == m;
    }
  }

  ghost predicate NoneNegative<K>(m: map<K, int>) {
    forall k :: k in m ==> m[k] >= 0
  }

  lemma {:induction false} SumNonNegative<K>(m: map<K, int>)
    requires NoneNegative(m)
    ensures SumOf(m) >= 0
    decreases m.Keys
  {
    if m.Keys != {} {
      SumNonNegative(m - {Pick(m.Keys)});
    }
  }

  lemma ShareAtMostSum<K>(m: map<K, int>, k: K)
    requires NoneNegative(m)
    ensures Share(m, k) <= SumOf(m)
  {
    SumNonNegative(m);
    if k in m {
      SumAny(m, k);
      SumNonNegative(m - {k});
    }
  }

  /** Entries of 0 do not count. */
  lemma {:induction false} SumSameShares<K(!new)>(m: map<K, int>, n: map<K, int>)
    requires forall k :: Share(m, k) == Share(n, k)
    ensures SumOf(m) == SumOf(n)
    decreases m.Keys + n.Keys
  {
    if k :| k in m || k in n {
      assert Share(m, k) == Share(n, k);
      WithoutKey(m, k);
      WithoutKey(n, k);
      forall j ensures Share(m - {k}, j) == Share(n - {k}, j) {
        assert Share(m, j) == Share(n, j);
      }
      SumSameShares(m - {k}, n - {k});
    } else {
      assert m.Keys == {} && n.Keys == {};
    }
  }

  lemma WithoutKey<K>(m: map<K, int>, k: K)
    ensures SumOf(m) == Share(m, k) + SumOf(m - {k})
  {
    if k in m {
      SumAny(m, k);
    } else {
      assert m - {k} == m;
    }
  }
}
