/**
 * Order-free sums over maps. Go visits a map in an unspecified order, so
 * what a nested `range` loop collects is stated as a multiset: the sum,
 * over every key, of the bag that key contributes.
 */
module MapSums {

  /** The union of `f(k, m[k])` over every key `k` of `m`. */
  ghost function SumMap<K, V, E>(m: map<K, V>, f: (K, V) -> multiset<E>): multiset<E>
    decreases |m|
  {
    if m == map[] then multiset{}
    else
      var k :| k in m;
      RemoveShrinks(m, k);
      f(k, m[k]) + SumMap(m - {k}, f)
  }

  lemma RemoveShrinks<K, V>(m: map<K, V>, k: K)
    requires k in m
    ensures |m - {k}| == |m| - 1
  {
    assert (m - {k}).Keys == m.Keys - {k};
  }

  /** Any key may be taken out first: the sum does not depend on the visiting order. */
  lemma {:induction false} SumMapRemove<K, V, E>(m: map<K, V>, f: (K, V) -> multiset<E>, k: K)
    requires k in m
    ensures SumMap(m, f) == f(k, m[k]) + SumMap(m - {k}, f)
    decreases |m|
  {
    var j :| j in m && SumMap(m, f) == f(j, m[j]) + SumMap(m - {j}, f);
    if j != k {
      RemoveShrinks(m, j);
      RemoveShrinks(m, k);
      SumMapRemove(m - {j}, f, k);
      SumMapRemove(m - {k}, f, j);
      assert m - {j} - {k} == m - {k} - {j};
    }
  }

  /** An element is in the sum exactly when some key contributes it. */
  lemma {:induction false} InSumMap<K, V, E>(m: map<K, V>, f: (K, V) -> multiset<E>, x: E)
    ensures x in SumMap(m, f) <==> exists k :: k in m && x in f(k, m[k])
    decreases |m|
  {
    if m != map[] {
      var j :| j in m && SumMap(m, f) == f(j, m[j]) + SumMap(m - {j}, f);
      RemoveShrinks(m, j);
      InSumMap(m - {j}, f, x);
      if x in SumMap(m - {j}, f) {
        var k :| k in m - {j} && x in f(k, (m - {j})[k]);
        assert k in m && x in f(k, m[k]);
      }
      if exists k :: k in m && x in f(k, m[k]) {
        var k :| k in m && x in f(k, m[k]);
        if k != j {
          assert k in m - {j} && x in f(k, (m - {j})[k]);
        }
      }
    }
  }
}
