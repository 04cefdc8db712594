/** Sums over the entries of a map. */
module Totals {
  import opened Types

  ghost function Pick<V>(m: map<u64, V>): (k: u64)
    requires m != map[]
    ensures k in m
  {
    var k :| k in m; k
  }

  /** The sum of `w` over all entries of `m`. */
  ghost function Total<V>(m: map<u64, V>, w: V -> int): int
    decreases |m|
  {
    if m == map[] then 0
    else
      var k := Pick(m);
      w(m[k]) + Total(m - {k}, w)
  }

  lemma {:induction false} TotalMinus<V>(m: map<u64, V>, k: u64, w: V -> int)
    requires k in m
    ensures Total(m, w) == w(m[k]) + Total(m - {k}, w)
    decreases |m|
  {
    var j := Pick(m);
    if j != k {
      TotalMinus(m - {j}, k, w);
      TotalMinus(m - {k}, j, w);
      assert m - {j} - {k} == m - {k} - {j};
    }
  }

  lemma TotalPut<V>(m: map<u64, V>, k: u64, v: V, w: V -> int)
    ensures Total(m[k := v], w) == (if k in m then Total(m, w) - w(m[k]) else Total(m, w)) + w(v)
  {
    TotalMinus(m[k := v], k, w);
    assert m[k := v] - {k} == m - {k};
    if k in m {
      TotalMinus(m, k, w);
    } else {
      assert m - {k} == m;
    }
  }

  lemma {:induction false} TotalAtLeast<V>(m: map<u64, V>, w: V -> int)
    requires forall k <- m :: w(m[k]) >= 0
    ensures Total(m, w) >= 0
    ensures forall k <- m :: w(m[k]) <= Total(m, w)
    decreases |m|
  {
    if m != map[] {
      var p := Pick(m);
      TotalAtLeast(m - {p}, w);
      forall k <- m ensures w(m[k]) <= Total(m, w) {
        assert k == p || (k in m - {p} && w((m - {p})[k]) <= Total(m - {p}, w));
      }
    }
  }

  lemma {:induction false} TotalZero<V>(m: map<u64, V>, w: V -> int)
    requires forall k <- m :: w(m[k]) == 0
    ensures Total(m, w) == 0
    decreases |m|
  {
    if m != map[] {
      TotalZero(m - {Pick(m)}, w);
    }
  }
}
