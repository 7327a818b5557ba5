/** Sums of the values of a finite map. */
module MapSums {

  ghost function SumValues<K>(m: map<K, int>): int
    decreases |m|
  {
    if m == map[] then 0
    else
      var p :| p in m;
      m[p] + SumValues(m - {p})
  }

  /** Any key may be taken out first. */
  lemma {:induction false} SumWithout<K>(m: map<K, int>, p: K)
    requires p in m
    ensures SumValues(m) == m[p] + SumValues(m - {p})
    decreases |m|
  {
    var q :| q in m && SumValues(m) == m[q] + SumValues(m - {q});
    if q != p {
      SumWithout(m - {q}, p);
      SumWithout(m - {p}, q);
      assert m - {q} - {p} == m - {p} - {q};
    }
  }

  lemma SumUpdate<K>(m: map<K, int>, p: K, v: int)
    ensures SumValues(m[p := v]) == SumValues(m) + v - (if p in m then m[p] else 0)
  {
    SumWithout(m[p := v], p);
    if p in m {
      SumWithout(m, p);
      assert m[p := v] - {p} == m - {p};
    } else {
      assert m[p := v] - {p} == m;
    }
  }

  lemma {:induction false} SumDominates<K>(m: map<K, int>, p: K)
    requires (forall q :: q in m ==> m[q] >= 0) && p in m
    ensures SumValues(m) >= m[p]
  {
    SumWithout(m, p);
    SumNonNegative(m - {p});
  }

  lemma {:induction false} SumNonNegative<K>(m: map<K, int>)
    requires forall q :: q in m ==> m[q] >= 0
    ensures SumValues(m) >= 0
    decreases |m|
  {
    if m != map[] {
      var p :| p in m && SumValues(m) == m[p] + SumValues(m - {p});
      SumNonNegative(m - {p});
    }
  }
}
