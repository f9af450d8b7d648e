/** Finite sums over the rows of a table. */
module Sums {

  ghost function Sum<K>(m: map<K, int>): int
    decreases |m|
  {
    if m == map[] then 0
    else
      var k :| k in m;
      m[k] + Sum(m - {k})
  }

  /** Any row can be taken out first. */
  lemma {:induction false} SumRemove<K>(m: map<K, int>, k: K)
    requires k in m
    ensures Sum(m) == m[k] + Sum(m - {k})
    decreases |m|
  {
    var l :| l in m && Sum(m) == m[l] + Sum(m - {l});
    if l != k {
      SumRemove(m - {l}, k);
      SumRemove(m - {k}, l);
      assert (m - {l}) - {k} == (m - {k}) - {l};
    }
  }

  lemma SumUpdate<K>(m: map<K, int>, k: K, v: int)
    ensures Sum(m[k := v]) == Sum(m) - (if k in m then m[k] else 0) + v
  {
    SumRemove(m[k := v], k);
    if k in m {
      SumRemove(m, k);
      assert m[k := v] - {k} == m - {k};
    } else {
      assert m[k := v] - {k} == m;
    }
  }

  /** The part of a table whose keys are in `ks`. */
  function Within<K, V>(m: map<K, V>, ks: set<K>): map<K, V> {
    map k | k in m && k in ks :: m[k]
  }

  lemma {:induction false} SumSplit<K>(m: map<K, int>, ks: set<K>)
    ensures Sum(m) == Sum(Within(m, ks)) + Sum(m - ks)
    decreases |m|
  {
    if m == map[] {
      assert Within(m, ks) == map[] && m - ks == map[];
    } else {
      var k :| k in m;
      SumRemove(m, k);
      SumSplit(m - {k}, ks);
      if k in ks {
        SumRemove(Within(m, ks), k);
        assert Within(m, ks) - {k} == Within(m - {k}, ks);
        assert (m - {k}) - ks == m - ks;
      } else {
        SumRemove(m - ks, k);
        assert (m - ks) - {k} == (m - {k}) - ks;
        assert Within(m - {k}, ks) == Within(m, ks);
      }
    }
  }

  lemma {:induction false} SumNonnegative<K>(m: map<K, int>)
    requires forall k :: k in m ==> m[k] >= 0
    ensures Sum(m) >= 0
    decreases |m|
  {
    if m != map[] {
      var k :| k in m;
      SumRemove(m, k);
      SumNonnegative(m - {k});
    }
  }

  /** A row of a table of counters never exceeds the total. */
  lemma SumBounds<K>(m: map<K, int>, k: K)
    requires k in m && forall l :: l in m ==> m[l] >= 0
    ensures m[k] <= Sum(m)
  {
    SumRemove(m, k);
    SumNonnegative(m - {k});
  }
}
