/** Facts about finite sets, sequences and maps: cardinalities and sums. */
module Finite {

  lemma {:induction false} SubsetIsSmaller<T>(a: set<T>, b: set<T>)
    requires a <= b
    ensures |a| <= |b|
    ensures |a| == |b| ==> a == b
  {
    if a != {} {
      var x :| x in a;
      SubsetIsSmaller(a - {x}, b - {x});
    }
  }

  predicate Distinct<T(==)>(s: seq<T>) {
    forall i, j :: 0 <= i < j < |s| ==> s[i] != s[j]
  }

  lemma {:induction false} DistinctSize<T>(s: seq<T>, elements: set<T>)
    requires Distinct(s) && elements == set x | x in s
    ensures |s| == |elements|
  {
    if s != [] {
      var n := |s| - 1;
      assert s == s[..n] + [s[n]];
      DistinctSize(s[..n], elements - {s[n]});
    }
  }

  /** The sum of all values of a map. */
  ghost function Sum<K>(m: map<K, int>): int {
    if |m| == 0 then 0
    else
      var k :| k in m;
      m[k] + Sum(m - {k})
  }

  lemma SumPick<K>(m: map<K, int>) returns (p: K)
    requires |m| > 0
    ensures p in m && Sum(m) == m[p] + Sum(m - {p})
  {
    p :| p in m && Sum(m) == m[p] + Sum(m - {p});
  }

  lemma RemovalsCommute<K>(m: map<K, int>, p: K, k: K)
    requires p in m && k in m && p != k
    ensures (m - {p}) - {k} == (m - {k}) - {p}
    ensures |m - {p}| < |m| && |m - {k}| < |m|
  {
  }

  /** The sum does not depend on the order in which the keys are taken. */
  lemma {:induction false} SumWithout<K>(m: map<K, int>, k: K)
    requires k in m
    ensures Sum(m) == m[k] + Sum(m - {k})
    decreases |m|
  {
    var p := SumPick(m);
    if p != k {
      RemovalsCommute(m, p, k);
      SumWithout(m - {p}, k);
      SumWithout(m - {k}, p);
    }
  }

  lemma SumUpdate<K>(m: map<K, int>, k: K, v: int)
    ensures Sum(m[k := v]) == Sum(m) + v - (if k in m then m[k] else 0)
  {
    SumWithout(m[k := v], k);
    if k in m {
      SumWithout(m, k);
      assert m[k := v] - {k} == m - {k};
    } else {
      assert m[k := v] - {k} == m;
    }
  }
}
