/** The points table as a whole: the accumulator pass over the matches, then
    the rows listed and sorted by points (highest first) and team name. */
module PointsTable {
  import opened Records
  import opened Collation
  import opened Totals
  import opened Accumulator
  import opened Ranking

  /** Builds the sorted points table of a season. An empty season gives an
      empty table. */
  method IplPointsTable(matches: seq<MatchRecord>) returns (ranking: seq<Standing>)
    ensures matches == [] ==> ranking == []
    ensures IsRanking(ranking, Tabulate(matches))
    ensures SeasonFacts(ranking, matches)
  {
    if |matches| == 0 {
      ranking := [];
      assert Enumerates(ranking, Tabulate(matches));
    } else {
      var table := BuildTable(matches);
      var vals, order := Values(table);
      ValuesEnumerate(vals, order, table);
      var a := new Standing[|vals|](i requires 0 <= i < |vals| => vals[i]);
      assert a[..] == vals;
      Sort(a);
      ranking := a[..];
      PermutationEnumerates(ranking, vals, table);
    }
    RankingFacts(ranking, matches);
  }

  /** What the sorted table of a season says about the season: one row per
      team that played, consistent counters, a strict order, and column
      totals fixed by the match results. */
  ghost predicate SeasonFacts(ranking: seq<Standing>, matches: seq<MatchRecord>) {
    && (forall k :: k in TeamsIn(matches) <==> exists i :: 0 <= i < |ranking| && ranking[i].team == k)
    && (forall i :: 0 <= i < |ranking| ==> WellFormed(ranking[i]))
    && (forall i :: 0 < i < |ranking| ==>
          ranking[i - 1].points > ranking[i].points ||
          (ranking[i - 1].points == ranking[i].points && LexCompare(ranking[i - 1].team, ranking[i].team) < 0))
    && SeqSum(ranking, Played) == 2 * |matches|
    && SeqSum(ranking, Won) == Wins(matches)
    && SeqSum(ranking, Lost) == Wins(matches)
    && SeqSum(ranking, Tied) == 2 * Ties(matches)
    && SeqSum(ranking, NoResult) == 2 * NoResults(matches)
    && SeqSum(ranking, Points) == 2 * |matches|
  }

  lemma RankingFacts(ranking: seq<Standing>, matches: seq<MatchRecord>)
    requires IsRanking(ranking, Tabulate(matches))
    ensures SeasonFacts(ranking, matches)
  {
    var t := Tabulate(matches);
    TabulateKeys(matches);
    TabulateWellFormed(matches);
    TabulateTotals(matches);
    RankingStrict(ranking, t);
    EnumerationSum(ranking, t, Played);
    EnumerationSum(ranking, t, Won);
    EnumerationSum(ranking, t, Lost);
    EnumerationSum(ranking, t, Tied);
    EnumerationSum(ranking, t, NoResult);
    EnumerationSum(ranking, t, Points);
    forall k | k in TeamsIn(matches)
      ensures exists i :: 0 <= i < |ranking| && ranking[i].team == k
    {
      var i :| 0 <= i < |ranking| && ranking[i] == t[k];
    }
  }

  /** Reordering a listing keeps it a listing, as long as no name repeats. */
  lemma PermutationEnumerates(r: seq<Standing>, s: seq<Standing>, t: map<string, Standing>)
    requires Enumerates(s, t)
    requires multiset(r) == multiset(s)
    requires DistinctTeams(r)
    ensures Enumerates(r, t)
  {
    forall i | 0 <= i < |r| ensures r[i].team in t && t[r[i].team] == r[i] {
      assert r[i] in multiset(s);
    }
    forall k | k in t ensures t[k] in r {
      assert t[k] in multiset(r);
    }
  }

  // ---------------------------------------------------------------------
  // The documented example: CSK beat MI, then RCB and CSK tied. The three
  // names are parameters; any three distinct names behave the same.
  // ---------------------------------------------------------------------

  function DocumentedSeason(csk: string, mi: string, rcb: string): seq<MatchRecord> {
    [ MatchRecord(csk, mi, "win", Some(csk)),
      MatchRecord(rcb, csk, "tie", None) ]
  }

  /** CSK: played 2, won 1, tied 1, 3 points; MI: played 1, lost 1, 0 points;
      RCB: played 1, tied 1, 1 point. */
  lemma DocumentedTable(csk: string, mi: string, rcb: string)
    requires csk != mi && csk != rcb && mi != rcb
    ensures var t := Tabulate(DocumentedSeason(csk, mi, rcb));
            && t.Keys == {csk, mi, rcb}
            && t[csk] == Standing(csk, 2, 1, 0, 1, 0, 3)
            && t[mi] == Standing(mi, 1, 0, 1, 0, 0, 0)
            && t[rcb] == Standing(rcb, 1, 0, 0, 1, 0, 1)
  {
    var ms := DocumentedSeason(csk, mi, rcb);
    DocumentedCredits(csk, mi, rcb);
    TwoMatches(ms[0], ms[1], csk);
    TwoMatches(ms[0], ms[1], mi);
    TwoMatches(ms[0], ms[1], rcb);
    assert ms == [ms[0], ms[1]];
  }

  /** What each match of the documented example credits to each team. */
  lemma DocumentedCredits(csk: string, mi: string, rcb: string)
    requires csk != mi && csk != rcb && mi != rcb
    ensures var ms := DocumentedSeason(csk, mi, rcb);
            && |ms| == 2
            && ms[0].team1 == csk && ms[0].team2 == mi && ms[1].team1 == rcb && ms[1].team2 == csk
            && Credit(ms[0], csk) == Standing(csk, 1, 1, 0, 0, 0, 2)
            && Credit(ms[0], mi) == Standing(mi, 1, 0, 1, 0, 0, 0)
            && Credit(ms[0], rcb) == Zero(rcb)
            && Credit(ms[1], csk) == Standing(csk, 1, 0, 0, 1, 0, 1)
            && Credit(ms[1], mi) == Zero(mi)
            && Credit(ms[1], rcb) == Standing(rcb, 1, 0, 0, 1, 0, 1)
  {
    var ms := DocumentedSeason(csk, mi, rcb);
    assert IsWin(ms[0]) && !IsWin(ms[1]) && IsTie(ms[1]);
  }

  /** The table after two matches, row by row: each row is the sum of the two
      credits, and the keys are the four sides. */
  lemma TwoMatches(m0: MatchRecord, m1: MatchRecord, k: string)
    ensures Tabulate([m0, m1]).Keys == {m0.team1, m0.team2, m1.team1, m1.team2}
    ensures Base(Tabulate([m0, m1]), k) == Plus(Plus(Zero(k), Credit(m0, k)), Credit(m1, k))
  {
    TabulateSnoc([], m0);
    TabulateSnoc([m0], m1);
    assert [] + [m0] == [m0] && [m0] + [m1] == [m0, m1];
    ApplyMatchEffect(map[], m0, k);
    ApplyMatchEffect(ApplyMatch(map[], m0), m1, k);
  }

  /** The documented example's table is sorted CSK (3), RCB (1), MI (0), and
      no other order is a sorted table of that season. */
  lemma DocumentedRanking(csk: string, mi: string, rcb: string, r: seq<Standing>)
    requires csk != mi && csk != rcb && mi != rcb
    requires IsRanking(r, Tabulate(DocumentedSeason(csk, mi, rcb)))
    ensures r == [Standing(csk, 2, 1, 0, 1, 0, 3),
                  Standing(rcb, 1, 0, 0, 1, 0, 1),
                  Standing(mi, 1, 0, 1, 0, 0, 0)]
  {
    DocumentedTable(csk, mi, rcb);
    DocumentedOrder(Tabulate(DocumentedSeason(csk, mi, rcb)), csk, mi, rcb, r);
  }

  lemma DocumentedOrder(t: map<string, Standing>, csk: string, mi: string, rcb: string, r: seq<Standing>)
    requires csk != mi && csk != rcb && mi != rcb
    requires t.Keys == {csk, mi, rcb}
    requires t[csk] == Standing(csk, 2, 1, 0, 1, 0, 3)
    requires t[mi] == Standing(mi, 1, 0, 1, 0, 0, 0)
    requires t[rcb] == Standing(rcb, 1, 0, 0, 1, 0, 1)
    requires IsRanking(r, t)
    ensures r == [t[csk], t[rcb], t[mi]]
  {
    ThreeRowRanking(t, csk, rcb, mi, r);
  }

  /** A table of three teams with strictly decreasing points is sorted in
      that order. */
  lemma ThreeRowRanking(t: map<string, Standing>, a: string, b: string, c: string, r: seq<Standing>)
    requires t.Keys == {a, b, c} && a != b && a != c && b != c
    requires Keyed(t)
    requires t[a].points > t[b].points > t[c].points
    requires IsRanking(r, t)
    ensures r == [t[a], t[b], t[c]]
  {
    var expected := [t[a], t[b], t[c]];
    forall k | k in t ensures t[k] in expected {
      assert k in t.Keys;
    }
    RankingUnique(r, expected, t);
  }

  // ---------------------------------------------------------------------
  // Equal points: the names decide.
  // ---------------------------------------------------------------------

  /** Each of two teams beats the other once. */
  function SplitSeason(a: string, b: string): seq<MatchRecord> {
    [ MatchRecord(b, a, "win", Some(b)),
      MatchRecord(a, b, "win", Some(a)) ]
  }

  lemma SplitTable(a: string, b: string)
    requires a != b
    ensures var t := Tabulate(SplitSeason(a, b));
            && t.Keys == {a, b}
            && t[a] == Standing(a, 2, 1, 1, 0, 0, 2)
            && t[b] == Standing(b, 2, 1, 1, 0, 0, 2)
  {
    var ms := SplitSeason(a, b);
    SplitCredits(a, b);
    TwoMatches(ms[0], ms[1], a);
    TwoMatches(ms[0], ms[1], b);
    assert ms == [ms[0], ms[1]];
  }

  /** What each match of the split season credits to each team. */
  lemma SplitCredits(a: string, b: string)
    requires a != b
    ensures var ms := SplitSeason(a, b);
            && |ms| == 2
            && ms[0].team1 == b && ms[0].team2 == a && ms[1].team1 == a && ms[1].team2 == b
            && Credit(ms[0], a) == Standing(a, 1, 0, 1, 0, 0, 0)
            && Credit(ms[0], b) == Standing(b, 1, 1, 0, 0, 0, 2)
            && Credit(ms[1], a) == Standing(a, 1, 1, 0, 0, 0, 2)
            && Credit(ms[1], b) == Standing(b, 1, 0, 1, 0, 0, 0)
  {
    var ms := SplitSeason(a, b);
    assert IsWin(ms[0]) && IsWin(ms[1]);
  }

  /** Two teams level on points are listed with the earlier name first. */
  lemma SplitRanking(a: string, b: string, r: seq<Standing>)
    requires LexCompare(a, b) < 0
    requires IsRanking(r, Tabulate(SplitSeason(a, b)))
    ensures r == [Standing(a, 2, 1, 1, 0, 0, 2), Standing(b, 2, 1, 1, 0, 0, 2)]
  {
    LexCompareZero(a, b);
    var t := Tabulate(SplitSeason(a, b));
    SplitTable(a, b);
    TwoRowRanking(t, a, b);
    RankingUnique(r, [t[a], t[b]], t);
  }

  lemma TwoRowRanking(t: map<string, Standing>, a: string, b: string)
    requires t.Keys == {a, b} && a != b
    requires Keyed(t)
    requires Before(t[a], t[b])
    ensures IsRanking([t[a], t[b]], t)
  {
    var r := [t[a], t[b]];
    forall k | k in t ensures t[k] in r {
      assert k in t.Keys;
    }
  }
}
