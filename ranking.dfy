/** The second phase of the points table: the rows of the table are listed and
    sorted in place by points, highest first, ties broken by team name. */
module Ranking {
  import opened Records
  import opened Collation
  import opened Totals

  /** The comparator handed to the sort: negative when `x` goes first. Points
      decide first (a higher total goes first), then the team names. */
  function Compare(x: Standing, y: Standing): (r: int)
    ensures r < 0 <==> x.points > y.points || (x.points == y.points && LexCompare(x.team, y.team) < 0)
    ensures r > 0 <==> x.points < y.points || (x.points == y.points && LexCompare(x.team, y.team) > 0)
  {
    if x.points != y.points then y.points - x.points else LexCompare(x.team, y.team)
  }

  /** `x` may stand before `y` in the sorted table. */
  predicate Before(x: Standing, y: Standing) {
    Compare(x, y) <= 0
  }

  lemma CompareAntisymmetric(x: Standing, y: Standing)
    ensures Compare(y, x) == -Compare(x, y)
  {
    LexCompareAntisymmetric(x.team, y.team);
  }

  /** The comparator only calls two rows equal when they have the same points
      and the same name. */
  lemma CompareZero(x: Standing, y: Standing)
    ensures Compare(x, y) == 0 <==> x.points == y.points && x.team == y.team
  {
    LexCompareZero(x.team, y.team);
  }

  lemma CompareTransitive(x: Standing, y: Standing, z: Standing)
    requires Before(x, y) && Before(y, z)
    ensures Before(x, z)
  {
    if x.points == y.points == z.points {
      LexCompareTransitive(x.team, y.team, z.team);
    }
  }

  // ---------------------------------------------------------------------
  // What a finished table is.
  // ---------------------------------------------------------------------

  ghost predicate Ranked(r: seq<Standing>) {
    forall i, j :: 0 <= i < j < |r| ==> Before(r[i], r[j])
  }

  ghost predicate DistinctTeams(r: seq<Standing>) {
    forall i, j :: 0 <= i < j < |r| ==> r[i].team != r[j].team
  }

  /** Every row is filed under its own team name. */
  ghost predicate Keyed(t: map<string, Standing>) {
    forall k :: k in t ==> t[k].team == k
  }

  /** `r` lists every row of `t` exactly once. */
  ghost predicate Enumerates(r: seq<Standing>, t: map<string, Standing>) {
    && Keyed(t)
    && (forall i :: 0 <= i < |r| ==> r[i].team in t && t[r[i].team] == r[i])
    && (forall k :: k in t ==> t[k] in r)
    && DistinctTeams(r)
  }

  /** `r` is the sorted table of `t`. */
  ghost predicate IsRanking(r: seq<Standing>, t: map<string, Standing>) {
    Enumerates(r, t) && Ranked(r)
  }

  lemma {:induction false} EnumeratesTail(r: seq<Standing>, t: map<string, Standing>)
    requires Enumerates(r, t) && r != []
    ensures r[0].team in t && t[r[0].team] == r[0]
    ensures Enumerates(r[1..], t - {r[0].team})
  {
    var t' := t - {r[0].team};
    forall k | k in t' ensures t'[k] in r[1..] {
      var j :| 0 <= j < |r| && r[j] == t[k];
      assert j != 0;
      assert r[1..][j - 1] == t'[k];
    }
  }

  /** A listing has exactly as many rows as the table. */
  lemma {:induction false} EnumerationSize(r: seq<Standing>, t: map<string, Standing>)
    requires Enumerates(r, t)
    ensures |r| == |t|
    decreases |r|
  {
    if r == [] {
      assert t.Keys == {};
    } else {
      EnumeratesTail(r, t);
      EnumerationSize(r[1..], t - {r[0].team});
      assert (t - {r[0].team}).Keys == t.Keys - {r[0].team};
    }
  }

  /** Column totals over a listing are the totals over the table. */
  lemma {:induction false} EnumerationSum(r: seq<Standing>, t: map<string, Standing>, c: Counter)
    requires Enumerates(r, t)
    ensures SeqSum(r, c) == MapSum(t, c)
    decreases |r|
  {
    if r == [] {
      assert t.Keys == {};
    } else {
      EnumeratesTail(r, t);
      EnumerationSum(r[1..], t - {r[0].team}, c);
      MapSumRemove(t, r[0].team, c);
    }
  }

  /** The sorted table is unique: it depends neither on the order in which the
      rows were listed nor on the sorting algorithm. */
  lemma {:induction false} RankingUnique(r1: seq<Standing>, r2: seq<Standing>, t: map<string, Standing>)
    requires IsRanking(r1, t) && IsRanking(r2, t)
    ensures r1 == r2
    decreases |r1|
  {
    EnumerationSize(r1, t);
    EnumerationSize(r2, t);
    if r1 != [] {
      var x1, x2 := r1[0], r2[0];
      EnumeratesTail(r1, t);
      EnumeratesTail(r2, t);
      assert x2 in r1 && x1 in r2;
      FirstOfBoth(r1, x2);
      FirstOfBoth(r2, x1);
      BeforeBothWays(x1, x2);
      assert x1 == t[x1.team] == x2;
      RankingUnique(r1[1..], r2[1..], t - {x1.team});
      assert r1 == [x1] + r1[1..] && r2 == [x2] + r2[1..];
    }
  }

  /** The first row of a ranked listing may come before any row in it. */
  lemma FirstOfBoth(r: seq<Standing>, x: Standing)
    requires Ranked(r) && x in r
    ensures Before(r[0], x)
  {
    var j :| 0 <= j < |r| && r[j] == x;
    if j == 0 {
      CompareZero(x, x);
    }
  }

  /** Rows that may each come before the other have equal points and names. */
  lemma BeforeBothWays(x: Standing, y: Standing)
    requires Before(x, y) && Before(y, x)
    ensures x.points == y.points && x.team == y.team
  {
    CompareAntisymmetric(x, y);
    CompareZero(x, y);
  }

  /** In a sorted table each row has strictly more points than the next, or
      as many points and a name that comes strictly earlier. */
  lemma RankingStrict(r: seq<Standing>, t: map<string, Standing>)
    requires IsRanking(r, t)
    ensures forall i :: 0 < i < |r| ==>
              r[i - 1].points > r[i].points ||
              (r[i - 1].points == r[i].points && LexCompare(r[i - 1].team, r[i].team) < 0)
  {
    forall i | 0 < i < |r|
      ensures r[i - 1].points > r[i].points ||
              (r[i - 1].points == r[i].points && LexCompare(r[i - 1].team, r[i].team) < 0)
    {
      assert Before(r[i - 1], r[i]);
      LexCompareZero(r[i - 1].team, r[i].team);
    }
  }

  // ---------------------------------------------------------------------
  // Listing the rows and sorting them.
  // ---------------------------------------------------------------------

  /** The rows of the table, in some order of its keys (`order`). The order
      the runtime enumerates keys in is not modelled: any key may come next. */
  method Values(t: map<string, Standing>) returns (vals: seq<Standing>, ghost order: seq<string>)
    ensures |order| == |vals|
    ensures forall i :: 0 <= i < |vals| ==> order[i] in t && vals[i] == t[order[i]]
    ensures forall k :: k in t ==> k in order
    ensures forall i, j :: 0 <= i < j < |order| ==> order[i] != order[j]
    // Every row of the table is listed, stated of the returned rows alone,
    // so that the contract does not depend on the ghost key order.
    ensures forall k :: k in t ==> t[k] in vals
  {
    vals, order := [], [];
    var rest := t.Keys;
    while rest != {}
      invariant rest <= t.Keys
      invariant |order| == |vals|
      invariant forall i :: 0 <= i < |vals| ==> order[i] in t && order[i] !in rest && vals[i] == t[order[i]]
      invariant forall k :: k in t && k !in rest ==> k in order
      invariant forall i, j :: 0 <= i < j < |order| ==> order[i] != order[j]
      invariant forall k :: k in t && k !in rest ==> t[k] in vals
      decreases rest
    {
      var k :| k in rest;
      vals, order := vals + [t[k]], order + [k];
      rest := rest - {k};
    }
  }

  /** The listing of a table keyed by team name lists every row once. */
  lemma ValuesEnumerate(vals: seq<Standing>, order: seq<string>, t: map<string, Standing>)
    requires Keyed(t)
    requires |order| == |vals|
    requires forall i :: 0 <= i < |vals| ==> order[i] in t && vals[i] == t[order[i]]
    requires forall k :: k in t ==> k in order
    requires forall i, j :: 0 <= i < j < |order| ==> order[i] != order[j]
    ensures Enumerates(vals, t)
  {
    forall k | k in t ensures t[k] in vals {
      var i :| 0 <= i < |order| && order[i] == k;
      assert vals[i] == t[k];
    }
  }

  method Swap(a: array<Standing>, i: int, j: int)
    requires 0 <= i < a.Length && 0 <= j < a.Length
    modifies a
    ensures a[..] == old(a[..])[i := old(a[j])][j := old(a[i])]
    ensures multiset(a[..]) == old(multiset(a[..]))
  {
    a[i], a[j] := a[j], a[i];
  }

  lemma SwapKeepsDistinct(s: seq<Standing>, i: int, j: int)
    requires 0 <= i < |s| && 0 <= j < |s|
    requires DistinctTeams(s)
    ensures DistinctTeams(s[i := s[j]][j := s[i]])
  {
    var s' := s[i := s[j]][j := s[i]];
    forall p, q | 0 <= p < q < |s'| ensures s'[p].team != s'[q].team {
      var p' := if p == i then j else if p == j then i else p;
      var q' := if q == i then j else if q == j then i else q;
      assert s'[p] == s[p'] && s'[q] == s[q'];
      assert p' != q';
    }
  }

  /** The first `i` rows are in order and none of them goes after a later row. */
  ghost predicate SortedUpTo(s: seq<Standing>, i: int)
    requires 0 <= i <= |s|
  {
    && (forall p, q :: 0 <= p < q < i ==> Before(s[p], s[q]))
    && (forall p, q :: 0 <= p < i <= q < |s| ==> Before(s[p], s[q]))
  }

  /** Position of a row of `a[i..]` that may go before all of them. */
  method SelectFirst(a: array<Standing>, i: int) returns (m: int)
    requires 0 <= i < a.Length
    ensures i <= m < a.Length
    ensures forall j :: i <= j < a.Length ==> Before(a[m], a[j])
  {
    m := i;
    CompareZero(a[i], a[i]);
    var k := i + 1;
    while k < a.Length
      invariant i <= m < k <= a.Length
      invariant forall j :: i <= j < k ==> Before(a[m], a[j])
    {
      if Compare(a[k], a[m]) < 0 {
        forall j | i <= j < k ensures Before(a[k], a[j]) {
          CompareTransitive(a[k], a[m], a[j]);
        }
        CompareZero(a[k], a[k]);
        m := k;
      } else {
        CompareAntisymmetric(a[k], a[m]);
      }
      k := k + 1;
    }
  }

  /** Moving the first of the unsorted rows to position `i` extends the
      sorted part by one. */
  lemma SelectStep(s: seq<Standing>, i: int, m: int)
    requires 0 <= i <= m < |s|
    requires SortedUpTo(s, i)
    requires forall j :: i <= j < |s| ==> Before(s[m], s[j])
    ensures SortedUpTo(s[i := s[m]][m := s[i]], i + 1)
  {
    var s' := s[i := s[m]][m := s[i]];
    assert forall q :: i < q < |s| ==> s'[q] == s[if q == m then i else q];
  }

  /** Sorts the table in place with the comparator: afterwards no row stands
      before one that the comparator puts first, and the rows are the same. */
  method Sort(a: array<Standing>)
    modifies a
    ensures Ranked(a[..])
    ensures multiset(a[..]) == old(multiset(a[..]))
    ensures DistinctTeams(old(a[..])) ==> DistinctTeams(a[..])
  {
    var i := 0;
    while i < a.Length
      invariant 0 <= i <= a.Length
      invariant SortedUpTo(a[..], i)
      invariant multiset(a[..]) == old(multiset(a[..]))
      invariant DistinctTeams(old(a[..])) ==> DistinctTeams(a[..])
    {
      var m := SelectFirst(a, i);
      ghost var before := a[..];
      SelectStep(before, i, m);
      if DistinctTeams(before) {
        SwapKeepsDistinct(before, i, m);
      }
      Swap(a, i, m);
      i := i + 1;
    }
  }
}
