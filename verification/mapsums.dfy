/** Sums of the values of a dictionary from names to counts. */
module MapSums {

  /** The sum of a dictionary's values. */
  ghost function MapSum(m: map<string, nat>): nat
    decreases m.Keys
  {
    if m.Keys == {} then 0
    else
      var k :| k in m.Keys;
      m[k] + MapSum(m - {k})
  }

  /** The sum may be taken apart at any key. */
  lemma {:induction false} MapSumRemove(m: map<string, nat>, k: string)
    requires k in m
    ensures MapSum(m) == m[k] + MapSum(m - {k})
    decreases m.Keys
  {
    var j :| j in m.Keys && MapSum(m) == m[j] + MapSum(m - {j});
    if j != k {
      var withoutJ, withoutK := m - {j}, m - {k};
      assert withoutJ.Keys < m.Keys && withoutK.Keys < m.Keys;
      MapSumRemove(withoutJ, k);
      MapSumRemove(withoutK, j);
      assert withoutJ - {k} == withoutK - {j};
    }
  }

  /** Setting one key to `x` changes the sum by `x` less what the key held before. */
  lemma MapSumUpdate(m: map<string, nat>, k: string, x: nat)
    ensures MapSum(m[k := x]) == MapSum(m) - (if k in m then m[k] else 0) + x
  {
    MapSumRemove(m[k := x], k);
    assert m[k := x] - {k} == m - {k};
    if k in m {
      MapSumRemove(m, k);
    } else {
      assert m - {k} == m;
    }
  }

  lemma {:induction false} MapSumZeros(m: map<string, nat>)
    requires forall k | k in m :: m[k] == 0
    ensures MapSum(m) == 0
    decreases m.Keys
  {
    if m.Keys != {} {
      var k :| k in m;
      MapSumRemove(m, k);
      assert (m - {k}).Keys < m.Keys;
      MapSumZeros(m - {k});
    }
  }

  lemma MapExtensionality(a: map<string, nat>, b: map<string, nat>)
    requires a.Keys == b.Keys
    requires forall k | k in a :: a[k] == b[k]
    ensures a == b
  {
  }

  /** A dictionary that differs from `m` only at key `k` sums to the sum of
      `m`, less what `m` held at `k`, plus its own entry at `k`. */
  lemma MapSumChanged(m: map<string, nat>, m': map<string, nat>, k: string)
    requires m'.Keys == m.Keys + {k}
    requires forall j | j in m && j != k :: m'[j] == m[j]
    ensures MapSum(m') == MapSum(m) - (if k in m then m[k] else 0) + m'[k]
  {
    MapExtensionality(m', m[k := m'[k]]);
    MapSumUpdate(m, k, m'[k]);
  }
}
