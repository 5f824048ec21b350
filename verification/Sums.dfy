/** Sums over the values of a map. */
module Sums {

  ghost function Sum<T>(m: map<string, T>, size: T -> nat): nat
  {
    if m == map[] then 0
    else
      var k :| k in m;
      size(m[k]) + Sum(m - {k}, size)
  }

  lemma {:induction false} SumWithout<T>(m: map<string, T>, size: T -> nat, k: string)
    requires k in m
    ensures Sum(m, size) == size(m[k]) + Sum(m - {k}, size)
    decreases |m|
  {
    var j :| j in m && Sum(m, size) == size(m[j]) + Sum(m - {j}, size);
    if j != k {
      SumWithout(m - {j}, size, k);
      SumWithout(m - {k}, size, j);
      assert m - {j} - {k} == m - {k} - {j};
    }
  }

  /** A map with fewer entries has no larger sum. */
  lemma {:induction false} SumOfFewer<T>(m: map<string, T>, more: map<string, T>, size: T -> nat)
    requires forall k | k in m :: k in more && more[k] == m[k]
    ensures Sum(m, size) <= Sum(more, size)
    decreases |more|
  {
    if k :| k in more && k !in m {
      SumWithout(more, size, k);
      SumOfFewer(m, more - {k}, size);
    } else {
      assert m == more;
    }
  }
}
