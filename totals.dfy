/** Sums over the values of a map, independent of the order in which the
    keys are visited (Python's dictionaries are iterated in no stated order). */
module Totals {

  /** The sum of `m[k]` over the keys `k` in `ks`. */
  ghost function SumOver<K>(m: map<K, nat>, ks: set<K>): nat
    requires ks <= m.Keys
    decreases ks
  {
    if ks == {} then 0
    else
      var k :| k in ks;
      m[k] + SumOver(m, ks - {k})
  }

  /** The sum of all values of `m`. */
  ghost function Total<K>(m: map<K, nat>): nat
  {
    SumOver(m, m.Keys)
  }

  /** Any key may be taken out first. */
  lemma {:induction false} SumOverRemove<K>(m: map<K, nat>, ks: set<K>, k: K)
    requires ks <= m.Keys && k in ks
    ensures SumOver(m, ks) == m[k] + SumOver(m, ks - {k})
    decreases ks
  {
    var j :| j in ks && SumOver(m, ks) == m[j] + SumOver(m, ks - {j});
    if j != k {
      SumOverRemove(m, ks - {j}, k);
      SumOverRemove(m, ks - {k}, j);
      assert ks - {j} - {k} == ks - {k} - {j};
    }
  }

  /** The sum only depends on the values at the keys summed over. */
  lemma {:induction false} SumOverAgree<K>(m1: map<K, nat>, m2: map<K, nat>, ks: set<K>)
    requires ks <= m1.Keys && ks <= m2.Keys
    requires forall k :: k in ks ==> m1[k] == m2[k]
    ensures SumOver(m1, ks) == SumOver(m2, ks)
    decreases ks
  {
    if ks != {} {
      var k :| k in ks;
      SumOverRemove(m1, ks, k);
      SumOverRemove(m2, ks, k);
      SumOverAgree(m1, m2, ks - {k});
    }
  }

  /** Replacing one value changes the total by the difference. */
  lemma TotalUpdate<K>(m: map<K, nat>, k: K, v: nat)
    ensures Total(m[k := v]) == Total(m) - (if k in m then m[k] else 0) + v
  {
    var m' := m[k := v];
    SumOverRemove(m', m'.Keys, k);
    assert m'.Keys - {k} == m.Keys - {k};
    SumOverAgree(m', m, m.Keys - {k});
    if k in m {
      SumOverRemove(m, m.Keys, k);
    } else {
      assert m.Keys - {k} == m.Keys;
    }
  }
}
