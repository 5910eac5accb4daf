/** Column totals: the sum of one counter over a list of rows, and over the
    rows of a table keyed by team name. */
module Totals {
  import opened Records

  function SeqSum(r: seq<Standing>, c: Counter): nat {
    if r == [] then 0 else Get(r[0], c) + SeqSum(r[1..], c)
  }

  /** Sum of counter `c` over all rows of the table, in no particular order. */
  ghost function MapSum(t: map<string, Standing>, c: Counter): nat
    decreases t.Keys
  {
    if t.Keys == {} then 0
    else
      var k :| k in t;
      Get(t[k], c) + MapSum(t - {k}, c)
  }

  /** Any row can be taken out first: the total does not depend on the order
      in which the rows are visited. */
  lemma {:induction false} MapSumRemove(t: map<string, Standing>, k: string, c: Counter)
    requires k in t
    ensures MapSum(t, c) == Get(t[k], c) + MapSum(t - {k}, c)
    decreases t.Keys
  {
    var j :| j in t && MapSum(t, c) == Get(t[j], c) + MapSum(t - {j}, c);
    if j != k {
      MapSumRemove(t - {j}, k, c);
      MapSumRemove(t - {k}, j, c);
      assert t - {j} - {k} == t - {k} - {j};
    }
  }

  /** Replacing or adding one row changes the total by the difference. */
  lemma MapSumUpdate(t: map<string, Standing>, k: string, v: Standing, c: Counter)
    ensures k in t ==> MapSum(t[k := v], c) == MapSum(t, c) - Get(t[k], c) + Get(v, c)
    ensures k !in t ==> MapSum(t[k := v], c) == MapSum(t, c) + Get(v, c)
  {
    MapSumRemove(t[k := v], k, c);
    if k in t {
      MapSumRemove(t, k, c);
      assert t[k := v] - {k} == t - {k};
    } else {
      assert t[k := v] - {k} == t;
    }
  }
}
