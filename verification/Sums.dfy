/** Sums over sequences and maps, and how one update changes them. */
module Sums {
  function SumSeq(s: seq<int>): int {
    if s == [] then 0 else SumSeq(s[..|s| - 1]) + s[|s| - 1]
  }

  ghost function SumMap(m: map<nat, int>): int {
    if m == map[] then 0 else
      var k :| k in m;
      m[k] + SumMap(m - {k})
  }

  /** The order in which SumMap visits the keys does not matter. */
  lemma {:induction false} SumMapSplit(m: map<nat, int>, k: nat)
    requires k in m
    ensures SumMap(m) == m[k] + SumMap(m - {k})
    decreases |m|
  {
    var k0 :| k0 in m && SumMap(m) == m[k0] + SumMap(m - {k0});
    if k0 != k {
      SumMapSplit(m - {k0}, k);
      SumMapSplit(m - {k}, k0);
      assert (m - {k0}) - {k} == (m - {k}) - {k0};
    }
  }

  lemma SumMapUpdate(m: map<nat, int>, k: nat, v: int)
    ensures SumMap(m[k := v]) == SumMap(m) - (if k in m then m[k] else 0) + v
  {
    SumMapSplit(m[k := v], k);
    if k in m {
      SumMapSplit(m, k);
      assert m[k := v] - {k} == m - {k};
    } else {
      assert m[k := v] - {k} == m;
    }
  }

  lemma {:induction false} SumMapBounds(m: map<nat, int>, k: nat)
    requires forall j :: j in m ==> m[j] >= 0
    ensures SumMap(m) >= 0
    ensures k in m ==> m[k] <= SumMap(m)
    decreases |m|
  {
    if k in m {
      SumMapSplit(m, k);
      SumMapBounds(m - {k}, k);
    } else if m != map[] {
      var j :| j in m;
      SumMapSplit(m, j);
      SumMapBounds(m - {j}, k);
    }
  }
}
