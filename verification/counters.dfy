/** Counter maps: a missing key counts as zero, as `(record[key] || 0)`
    reads it, and one increment bumps one key. */
module Counters {

  /** `m[k] || 0`. */
  function Count<K>(m: map<K, nat>, k: K): (n: nat)
    ensures k in m ==> n == m[k]
    ensures n == 0 <==> k !in m || m[k] == 0
  {
    if k in m then m[k] else 0
  }

  /** `m[k] = (m[k] || 0) + 1`: one more at key k, every other key as it was. */
  function Bump<K>(m: map<K, nat>, k: K): (r: map<K, nat>)
    ensures r.Keys == m.Keys + {k}
    ensures r[k] == Count(m, k) + 1
    ensures forall j :: j in m && j != k ==> r[j] == m[j]
  {
    m[k := Count(m, k) + 1]
  }

  /** The sum of all counts in a map. */
  ghost function SumValues<K>(m: map<K, nat>): nat
    decreases |m|
  {
    if |m| == 0 then 0
    else
      var k :| k in m;
      m[k] + SumValues(m - {k})
  }

  /** The key the definition of SumValues splits off first. */
  lemma FirstSummand<K>(m: map<K, nat>) returns (j: K)
    requires |m| > 0
    ensures j in m && SumValues(m) == m[j] + SumValues(m - {j})
  {
    j :| j in m && SumValues(m) == m[j] + SumValues(m - {j});
  }

  /** The sum splits off any one key, whichever key the definition picked. */
  lemma {:induction false} SumRemove<K>(m: map<K, nat>, k: K)
    requires k in m
    ensures SumValues(m) == m[k] + SumValues(m - {k})
    decreases |m|
  {
    var j := FirstSummand(m);
    if j != k {
      var mj, mk := m - {j}, m - {k};
      assert |mj| < |m| && |mk| < |m|;
      SumRemove(mj, k);
      SumRemove(mk, j);
      assert mj - {k} == mk - {j};
    }
  }

  /** No single count exceeds the sum. */
  lemma SumAtLeast<K>(m: map<K, nat>, k: K)
    requires k in m
    ensures m[k] <= SumValues(m)
  {
    SumRemove(m, k);
  }

  /** One increment adds exactly one to the sum. */
  lemma SumBump<K>(m: map<K, nat>, k: K)
    ensures SumValues(Bump(m, k)) == SumValues(m) + 1
  {
    var b := Bump(m, k);
    SumRemove(b, k);
    if k in m {
      SumRemove(m, k);
      assert b - {k} == m - {k};
    } else {
      assert b - {k} == m;
    }
  }
}
