/** Sums over the values of a finite map. */
module Sums {

  ghost function Sum<K, V>(m: map<K, V>, cost: V -> int): int {
    if m == map[] then 0 else var k :| k in m; cost(m[k]) + Sum(m - {k}, cost)
  }

  lemma {:induction false} SumTake<K, V>(m: map<K, V>, cost: V -> int, k: K)
    requires k in m
    ensures Sum(m, cost) == cost(m[k]) + Sum(m - {k}, cost)
    decreases |m|
  {
    var j :| j in m && Sum(m, cost) == cost(m[j]) + Sum(m - {j}, cost);
    if j != k {
      SumTake(m - {j}, cost, k);
      SumTake(m - {k}, cost, j);
      assert m - {j} - {k} == m - {k} - {j};
    }
  }

  lemma SumPut<K, V>(m: map<K, V>, cost: V -> int, k: K, v: V)
    ensures Sum(m[k := v], cost) == Sum(m, cost) - (if k in m then cost(m[k]) else 0) + cost(v)
  {
    SumTake(m[k := v], cost, k);
    assert m[k := v] - {k} == m - {k};
    if k in m {
      SumTake(m, cost, k);
    } else {
      assert m - {k} == m;
    }
  }

  lemma JoinPut<K, V>(m: map<K, V>, n: map<K, V>, k: K)
    requires k in n
    ensures m + n == (m + (n - {k}))[k := n[k]] && (k !in m ==> k !in m + (n - {k}))
  {
  }

  lemma {:induction false} SumJoin<K, V>(m: map<K, V>, n: map<K, V>, cost: V -> int)
    requires m.Keys !! n.Keys
    ensures Sum(m + n, cost) == Sum(m, cost) + Sum(n, cost)
    decreases |n|
  {
    if n == map[] {
      assert m + n == m;
    } else {
      var k :| k in n;
      var rest := n - {k};
      SumJoin(m, rest, cost);
      SumTake(n, cost, k);
      JoinPut(m, n, k);
      SumPut(m + rest, cost, k, n[k]);
    }
  }

  lemma {:induction false} SumNotNegative<K, V>(m: map<K, V>, cost: V -> int)
    requires forall v :: cost(v) >= 0
    ensures Sum(m, cost) >= 0
    decreases |m|
  {
    if m != map[] {
      var k :| k in m && Sum(m, cost) == cost(m[k]) + Sum(m - {k}, cost);
      SumNotNegative(m - {k}, cost);
    }
  }
}
