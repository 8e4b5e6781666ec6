/** Sums over finite maps, independent of the order in which entries are visited. */
module Sums {

  ghost function SumOver<K, V>(m: map<K, V>, f: (K, V) -> int): int
    decreases m.Keys
  {
    if m == map[] then 0 else
      var k :| k in m;
      f(k, m[k]) + SumOver(m - {k}, f)
  }

  lemma {:induction false} SumRemove<K, V>(m: map<K, V>, f: (K, V) -> int, k: K)
    requires k in m
    ensures SumOver(m, f) == f(k, m[k]) + SumOver(m - {k}, f)
    decreases m.Keys
  {
    var p :| p in m && SumOver(m, f) == f(p, m[p]) + SumOver(m - {p}, f);
    if p != k {
      SumRemove(m - {p}, f, k);
      SumRemove(m - {k}, f, p);
      assert m - {p} - {k} == m - {k} - {p};
    }
  }

  /** Storing v at k replaces k's term and touches nothing else. */
  lemma SumStore<K, V>(m: map<K, V>, f: (K, V) -> int, k: K, v: V)
    ensures SumOver(m[k := v], f) == SumOver(m, f) + f(k, v) - if k in m then f(k, m[k]) else 0
  {
    SumRemove(m[k := v], f, k);
    assert m[k := v] - {k} == m - {k};
    if k in m { SumRemove(m, f, k); } else { assert m - {k} == m; }
  }

  /** Two sums agree when they agree term by term. */
  lemma {:induction false} SumAgrees<K, V>(m: map<K, V>, n: map<K, V>, f: (K, V) -> int, g: (K, V) -> int)
    requires m.Keys == n.Keys
    requires forall k :: k in m ==> f(k, m[k]) == g(k, n[k])
    ensures SumOver(m, f) == SumOver(n, g)
    decreases m.Keys
  {
    if m == map[] {
      assert n == map[];
    } else {
      var k :| k in m;
      SumRemove(m, f, k);
      SumRemove(n, g, k);
      SumAgrees(m - {k}, n - {k}, f, g);
    }
  }

  lemma SumCongruent<K, V>(m: map<K, V>, n: map<K, V>, f: (K, V) -> int)
    requires m.Keys == n.Keys
    requires forall k :: k in m ==> f(k, m[k]) == f(k, n[k])
    ensures SumOver(m, f) == SumOver(n, f)
  {
    SumAgrees(m, n, f, f);
  }

  /** Where each entry's old term is its new term and a part given up, so are the sums. */
  lemma {:induction false} SumSplits<K, V>(m: map<K, V>, n: map<K, V>, f: (K, V) -> int, part: (K, V) -> int)
    requires m.Keys == n.Keys
    requires forall k :: k in m ==> f(k, m[k]) == f(k, n[k]) + part(k, m[k])
    ensures SumOver(m, f) == SumOver(n, f) + SumOver(m, part)
    decreases m.Keys
  {
    if m == map[] {
      assert n == map[];
    } else {
      var k :| k in m;
      SumRemove(m, f, k);
      SumRemove(n, f, k);
      SumRemove(m, part, k);
      SumSplits(m - {k}, n - {k}, f, part);
    }
  }

  lemma {:induction false} SumZero<K, V>(m: map<K, V>, f: (K, V) -> int)
    requires forall k :: k in m ==> f(k, m[k]) == 0
    ensures SumOver(m, f) == 0
    decreases m.Keys
  {
    if m == map[] {
    } else {
      var k :| k in m;
      SumRemove(m, f, k);
      SumZero(m - {k}, f);
    }
  }

  /** With no negative term, the sum is at least each of its terms. */
  lemma {:induction false} SumBounds<K, V>(m: map<K, V>, f: (K, V) -> int, k: K)
    requires forall j :: j in m ==> f(j, m[j]) >= 0
    ensures SumOver(m, f) >= 0
    ensures k in m ==> SumOver(m, f) >= f(k, m[k])
    decreases m.Keys
  {
    if m == map[] {
    } else {
      var p := if k in m then k else var j :| j in m; j;
      SumRemove(m, f, p);
      SumBounds(m - {p}, f, k);
    }
  }
}
