/** The first phase of the points table: one pass over the matches that keeps
    a table from team name to that team's row, creating a row the first time a
    name is seen and bumping the counters of both sides of every match. */
module Accumulator {
  import opened Records
  import opened Totals

  type Table = map<string, Standing>

  /** Every name that appears on either side of some match. */
  function TeamsIn(ms: seq<MatchRecord>): set<string> {
    (set m | m in ms :: m.team1) + (set m | m in ms :: m.team2)
  }

  /** The row of `k` before a match: the existing one, or a fresh zero row. */
  function Base(t: Table, k: string): Standing {
    if k in t then t[k] else Zero(k)
  }

  // ---------------------------------------------------------------------
  // One match, step by step in the order the source performs its updates.
  // ---------------------------------------------------------------------

  /** Create the zero row of `name` unless it already has one. */
  function Enroll(t: Table, name: string): (r: Table)
    ensures r.Keys == t.Keys + {name}
  {
    if name in t then t else t[name := Zero(name)]
  }

  /** `t[name].<c> += amount` */
  function Bump(t: Table, name: string, c: Counter, amount: nat): (r: Table)
    requires name in t
    ensures r.Keys == t.Keys
  {
    t[name := Add(t[name], c, amount)]
  }

  /** Both sides get a row. */
  function Enter(t: Table, m: MatchRecord): (r: Table)
    ensures r.Keys == t.Keys + {m.team1, m.team2}
  {
    Enroll(Enroll(t, m.team1), m.team2)
  }

  /** Both sides have played once more. */
  function CountPlayed(t: Table, m: MatchRecord): (r: Table)
    requires m.team1 in t && m.team2 in t
    ensures r.Keys == t.Keys
  {
    Bump(Bump(t, m.team1, Played, 1), m.team2, Played, 1)
  }

  /** The result-specific updates. A win is credited to `team1` only when
      `winner` equals `team1`; every other winner value credits `team2`. A
      result other than "win" and "tie" is scored as a no-result. */
  function Score(t: Table, m: MatchRecord): (r: Table)
    requires m.team1 in t && m.team2 in t
    ensures r.Keys == t.Keys
  {
    if IsWin(m) then
      if m.winner == Some(m.team1) then
        Bump(Bump(Bump(t, m.team1, Won, 1), m.team1, Points, 2), m.team2, Lost, 1)
      else
        Bump(Bump(Bump(t, m.team2, Won, 1), m.team2, Points, 2), m.team1, Lost, 1)
    else if IsTie(m) then
      Bump(Bump(Bump(Bump(t, m.team1, Tied, 1), m.team1, Points, 1), m.team2, Tied, 1), m.team2, Points, 1)
    else
      Bump(Bump(Bump(Bump(t, m.team1, NoResult, 1), m.team1, Points, 1), m.team2, NoResult, 1), m.team2, Points, 1)
  }

  /** The table after one more match. When both sides carry the same name
      every update lands on the one shared row. */
  function ApplyMatch(t: Table, m: MatchRecord): (r: Table)
    ensures r.Keys == t.Keys + {m.team1, m.team2}
  {
    Score(CountPlayed(Enter(t, m), m), m)
  }

  /** The table after all matches, in input order. */
  function Tabulate(ms: seq<MatchRecord>): Table
    decreases |ms|
  {
    if ms == [] then map[] else ApplyMatch(Tabulate(ms[..|ms| - 1]), ms[|ms| - 1])
  }

  lemma TabulateSnoc(p: seq<MatchRecord>, m: MatchRecord)
    ensures Tabulate(p + [m]) == ApplyMatch(Tabulate(p), m)
  {
    assert (p + [m])[..|p|] == p;
  }

  // ---------------------------------------------------------------------
  // A reference description, team by team.
  // ---------------------------------------------------------------------

  /** On how many sides of match `m` team `k` plays: 0, 1, or 2 against itself. */
  function Sides(m: MatchRecord, k: string): nat {
    (if k == m.team1 then 1 else 0) + (if k == m.team2 then 1 else 0)
  }

  /** What match `m` adds to the row of team `k`, stated once per team
      rather than per update: `k` plays once for every side it is on. */
  function Credit(m: MatchRecord, k: string): Standing {
    var sides := Sides(m, k);
    if IsWin(m) then
      var w := if m.winner == Some(m.team1) then m.team1 else m.team2;
      var l := if m.winner == Some(m.team1) then m.team2 else m.team1;
      var won := if k == w then 1 else 0;
      Standing(k, sides, won, if k == l then 1 else 0, 0, 0, 2 * won)
    else if IsTie(m) then
      Standing(k, sides, 0, 0, sides, 0, sides)
    else
      Standing(k, sides, 0, 0, 0, sides, sides)
  }

  /** The row of `k` after all matches: the sum of what each match credits it. */
  function TeamRecord(ms: seq<MatchRecord>, k: string): Standing
    decreases |ms|
  {
    if ms == [] then Zero(k) else Plus(TeamRecord(ms[..|ms| - 1], k), Credit(ms[|ms| - 1], k))
  }

  lemma EnterAt(t: Table, m: MatchRecord, k: string)
    ensures Base(Enter(t, m), k) == Base(t, k)
  {
  }

  lemma BumpAt(t: Table, name: string, c: Counter, amount: nat, k: string)
    requires name in t
    ensures Base(Bump(t, name, c, amount), k) == if k == name then Add(Base(t, k), c, amount) else Base(t, k)
  {
  }

  lemma CountPlayedAt(t: Table, m: MatchRecord, k: string)
    requires m.team1 in t && m.team2 in t
    ensures Base(CountPlayed(t, m), k) == Base(t, k).(played := Base(t, k).played + Sides(m, k))
  {
    BumpAt(t, m.team1, Played, 1, k);
    BumpAt(Bump(t, m.team1, Played, 1), m.team2, Played, 1, k);
  }

  lemma WinScoreAt(t: Table, m: MatchRecord, k: string)
    requires m.team1 in t && m.team2 in t && IsWin(m)
    ensures Base(Score(t, m), k) == Plus(Base(t, k), Credit(m, k).(played := 0))
  {
    var w, l := if m.winner == Some(m.team1) then m.team1 else m.team2,
                if m.winner == Some(m.team1) then m.team2 else m.team1;
    var t1 := Bump(t, w, Won, 1);
    var t2 := Bump(t1, w, Points, 2);
    BumpAt(t, w, Won, 1, k);
    BumpAt(t1, w, Points, 2, k);
    BumpAt(t2, l, Lost, 1, k);
    assert Score(t, m) == Bump(t2, l, Lost, 1);
    var b := Base(t, k);
    if k == w && k == l {
      assert Credit(m, k).(played := 0) == Standing(k, 0, 1, 1, 0, 0, 2);
    } else if k == w {
      assert Credit(m, k).(played := 0) == Standing(k, 0, 1, 0, 0, 0, 2);
    } else if k == l {
      assert Credit(m, k).(played := 0) == Standing(k, 0, 0, 1, 0, 0, 0);
    } else {
      assert Credit(m, k).(played := 0) == Standing(k, 0, 0, 0, 0, 0, 0);
    }
  }

  lemma DrawScoreAt(t: Table, m: MatchRecord, k: string)
    requires m.team1 in t && m.team2 in t && !IsWin(m)
    ensures Base(Score(t, m), k) == Plus(Base(t, k), Credit(m, k).(played := 0))
  {
    var col := if IsTie(m) then Tied else NoResult;
    var t1 := Bump(t, m.team1, col, 1);
    var t2 := Bump(t1, m.team1, Points, 1);
    var t3 := Bump(t2, m.team2, col, 1);
    BumpAt(t, m.team1, col, 1, k);
    BumpAt(t1, m.team1, Points, 1, k);
    BumpAt(t2, m.team2, col, 1, k);
    BumpAt(t3, m.team2, Points, 1, k);
    assert Score(t, m) == Bump(t3, m.team2, Points, 1);
    var b, n := Base(t, k), Sides(m, k);
    if IsTie(m) {
      assert Base(Score(t, m), k) == b.(tied := b.tied + n, points := b.points + n);
    } else {
      assert Base(Score(t, m), k) == b.(noResult := b.noResult + n, points := b.points + n);
    }
  }

  /** The step-by-step update agrees with the per-team description, also when
      both sides carry the same name; a team not in the match keeps its row. */
  lemma ApplyMatchEffect(t: Table, m: MatchRecord, k: string)
    ensures k in ApplyMatch(t, m) <==> k in t || k == m.team1 || k == m.team2
    ensures Base(ApplyMatch(t, m), k) == Plus(Base(t, k), Credit(m, k))
  {
    var t1 := Enter(t, m);
    EnterAt(t, m, k);
    CountPlayedAt(t1, m, k);
    if IsWin(m) {
      WinScoreAt(CountPlayed(t1, m), m, k);
    } else {
      DrawScoreAt(CountPlayed(t1, m), m, k);
    }
  }

  /** A match between two different teams that `team1` wins. */
  lemma WinForTeam1(t: Table, m: MatchRecord)
    requires IsWin(m) && m.winner == Some(m.team1) && m.team1 != m.team2
    ensures var r, b1, b2 := ApplyMatch(t, m), Base(t, m.team1), Base(t, m.team2);
            && r[m.team1] == b1.(played := b1.played + 1, won := b1.won + 1, points := b1.points + 2)
            && r[m.team2] == b2.(played := b2.played + 1, lost := b2.lost + 1)
  {
    ApplyMatchEffect(t, m, m.team1);
    ApplyMatchEffect(t, m, m.team2);
  }

  /** A win whose `winner` is anything but `team1` (absent, `team2`, or a
      name on neither side) is credited to `team2`. */
  lemma WinForTeam2(t: Table, m: MatchRecord)
    requires IsWin(m) && m.winner != Some(m.team1) && m.team1 != m.team2
    ensures var r, b1, b2 := ApplyMatch(t, m), Base(t, m.team1), Base(t, m.team2);
            && r[m.team2] == b2.(played := b2.played + 1, won := b2.won + 1, points := b2.points + 2)
            && r[m.team1] == b1.(played := b1.played + 1, lost := b1.lost + 1)
  {
    ApplyMatchEffect(t, m, m.team1);
    ApplyMatchEffect(t, m, m.team2);
  }

  /** A tie gives both sides a tie and a point; so does any result that is
      neither "win" nor "tie", counted as a no-result. */
  lemma SharedPoint(t: Table, m: MatchRecord)
    requires !IsWin(m) && m.team1 != m.team2
    ensures forall k :: k == m.team1 || k == m.team2 ==>
              var b := Base(t, k);
              ApplyMatch(t, m)[k] ==
                if IsTie(m) then b.(played := b.played + 1, tied := b.tied + 1, points := b.points + 1)
                else b.(played := b.played + 1, noResult := b.noResult + 1, points := b.points + 1)
  {
    ApplyMatchEffect(t, m, m.team1);
    ApplyMatchEffect(t, m, m.team2);
  }

  /** A match of a team against itself updates its one row twice. */
  lemma SelfMatch(t: Table, m: MatchRecord)
    requires m.team1 == m.team2
    ensures var r, b := ApplyMatch(t, m), Base(t, m.team1);
            && r[m.team1].played == b.played + 2
            && r[m.team1].points == b.points + 2
            && (IsWin(m) ==> r[m.team1].won == b.won + 1 && r[m.team1].lost == b.lost + 1)
            && (IsTie(m) ==> r[m.team1].tied == b.tied + 2)
            && (IsNoResult(m) ==> r[m.team1].noResult == b.noResult + 2)
  {
    ApplyMatchEffect(t, m, m.team1);
  }

  /** The table has a row for exactly the names that appear in some match. */
  lemma {:induction false} TabulateKeys(ms: seq<MatchRecord>)
    ensures Tabulate(ms).Keys == TeamsIn(ms)
    decreases |ms|
  {
    if ms != [] {
      var p, m := ms[..|ms| - 1], ms[|ms| - 1];
      TabulateKeys(p);
      assert ms == p + [m];
      TeamsInSnoc(p, m);
    }
  }

  lemma TeamsInSnoc(p: seq<MatchRecord>, m: MatchRecord)
    ensures TeamsIn(p + [m]) == TeamsIn(p) + {m.team1, m.team2}
  {
    assert forall x :: x in p + [m] <==> x in p || x == m;
  }

  /** Each row of the table is the per-team sum of credits; a name that never
      appeared has received nothing. */
  lemma {:induction false} TabulateRecord(ms: seq<MatchRecord>, k: string)
    ensures k in Tabulate(ms) ==> Tabulate(ms)[k] == TeamRecord(ms, k)
    ensures k !in Tabulate(ms) ==> TeamRecord(ms, k) == Zero(k)
    decreases |ms|
  {
    if ms != [] {
      var p, m := ms[..|ms| - 1], ms[|ms| - 1];
      TabulateRecord(p, k);
      ApplyMatchEffect(Tabulate(p), m, k);
    }
  }

  lemma {:induction false} TeamRecordWellFormed(ms: seq<MatchRecord>, k: string)
    ensures TeamRecord(ms, k).team == k
    ensures WellFormed(TeamRecord(ms, k))
    decreases |ms|
  {
    if ms != [] {
      var p, m := ms[..|ms| - 1], ms[|ms| - 1];
      TeamRecordWellFormed(p, k);
      PlusWellFormed(TeamRecord(p, k), Credit(m, k));
    }
  }

  /** Every row carries its own key as its name, and its counters agree:
      played = won + lost + tied + noResult and
      points = 2 * won + tied + noResult. */
  lemma TabulateWellFormed(ms: seq<MatchRecord>)
    ensures forall k :: k in Tabulate(ms) ==> Tabulate(ms)[k].team == k && WellFormed(Tabulate(ms)[k])
  {
    forall k | k in Tabulate(ms)
      ensures Tabulate(ms)[k].team == k && WellFormed(Tabulate(ms)[k])
    {
      TabulateRecord(ms, k);
      TeamRecordWellFormed(ms, k);
    }
  }

  // ---------------------------------------------------------------------
  // Totals over all teams.
  // ---------------------------------------------------------------------

  function Wins(ms: seq<MatchRecord>): nat decreases |ms| {
    if ms == [] then 0 else Wins(ms[..|ms| - 1]) + (if IsWin(ms[|ms| - 1]) then 1 else 0)
  }

  function Ties(ms: seq<MatchRecord>): nat decreases |ms| {
    if ms == [] then 0 else Ties(ms[..|ms| - 1]) + (if IsTie(ms[|ms| - 1]) then 1 else 0)
  }

  function NoResults(ms: seq<MatchRecord>): nat decreases |ms| {
    if ms == [] then 0 else NoResults(ms[..|ms| - 1]) + (if IsNoResult(ms[|ms| - 1]) then 1 else 0)
  }

  /** How much one match adds to a column total, over both sides together. */
  function MatchTotal(m: MatchRecord, c: Counter): nat {
    match c
    case Played => 2
    case Won => if IsWin(m) then 1 else 0
    case Lost => if IsWin(m) then 1 else 0
    case Tied => if IsTie(m) then 2 else 0
    case NoResult => if IsNoResult(m) then 2 else 0
    case Points => 2
  }

  lemma EnrollTotal(t: Table, name: string, c: Counter)
    ensures MapSum(Enroll(t, name), c) == MapSum(t, c)
  {
    if name !in t {
      MapSumUpdate(t, name, Zero(name), c);
    }
  }

  lemma BumpTotal(t: Table, name: string, c': Counter, amount: nat, c: Counter)
    requires name in t
    ensures MapSum(Bump(t, name, c', amount), c) == MapSum(t, c) + (if c' == c then amount else 0)
  {
    MapSumUpdate(t, name, Add(t[name], c', amount), c);
  }

  lemma ScoreTotal(t: Table, m: MatchRecord, c: Counter)
    requires m.team1 in t && m.team2 in t
    ensures MapSum(Score(t, m), c) == MapSum(t, c) + MatchTotal(m, c) - (if c == Played then 2 else 0)
  {
    if IsWin(m) {
      var w, l := if m.winner == Some(m.team1) then m.team1 else m.team2,
                  if m.winner == Some(m.team1) then m.team2 else m.team1;
      var t1 := Bump(t, w, Won, 1);
      var t2 := Bump(t1, w, Points, 2);
      BumpTotal(t, w, Won, 1, c);
      BumpTotal(t1, w, Points, 2, c);
      BumpTotal(t2, l, Lost, 1, c);
    } else {
      var col := if IsTie(m) then Tied else NoResult;
      var t1 := Bump(t, m.team1, col, 1);
      var t2 := Bump(t1, m.team1, Points, 1);
      var t3 := Bump(t2, m.team2, col, 1);
      BumpTotal(t, m.team1, col, 1, c);
      BumpTotal(t1, m.team1, Points, 1, c);
      BumpTotal(t2, m.team2, col, 1, c);
      BumpTotal(t3, m.team2, Points, 1, c);
    }
  }

  /** One match adds exactly its share to every column total. */
  lemma ApplyMatchTotal(t: Table, m: MatchRecord, c: Counter)
    ensures MapSum(ApplyMatch(t, m), c) == MapSum(t, c) + MatchTotal(m, c)
  {
    var t1 := Enroll(t, m.team1);
    var t2 := Enter(t, m);
    var t3 := Bump(t2, m.team1, Played, 1);
    EnrollTotal(t, m.team1, c);
    EnrollTotal(t1, m.team2, c);
    BumpTotal(t2, m.team1, Played, 1, c);
    BumpTotal(t3, m.team2, Played, 1, c);
    ScoreTotal(CountPlayed(t2, m), m, c);
  }

  /** Conservation across all teams: every match is played by two sides and
      hands out two points, every win one win and one loss, every tie two
      ties and every no-result two no-results. */
  lemma {:induction false} TabulateTotals(ms: seq<MatchRecord>)
    ensures MapSum(Tabulate(ms), Played) == 2 * |ms|
    ensures MapSum(Tabulate(ms), Won) == Wins(ms)
    ensures MapSum(Tabulate(ms), Lost) == Wins(ms)
    ensures MapSum(Tabulate(ms), Tied) == 2 * Ties(ms)
    ensures MapSum(Tabulate(ms), NoResult) == 2 * NoResults(ms)
    ensures MapSum(Tabulate(ms), Points) == 2 * |ms|
    decreases |ms|
  {
    if ms != [] {
      var p, m := ms[..|ms| - 1], ms[|ms| - 1];
      TabulateTotals(p);
      ApplyMatchTotal(Tabulate(p), m, Played);
      ApplyMatchTotal(Tabulate(p), m, Won);
      ApplyMatchTotal(Tabulate(p), m, Lost);
      ApplyMatchTotal(Tabulate(p), m, Tied);
      ApplyMatchTotal(Tabulate(p), m, NoResult);
      ApplyMatchTotal(Tabulate(p), m, Points);
    }
  }

  // ---------------------------------------------------------------------
  // The loop.
  // ---------------------------------------------------------------------

  /** The body of the accumulator loop for one match: rows are created lazily
      and updated in place in the source's order, so that a match of a team
      against itself updates its one row twice. */
  method RecordMatch(before: Table, m: MatchRecord) returns (table: Table)
    ensures table == ApplyMatch(before, m)
  {
    table := before;
    var team1, team2 := m.team1, m.team2;

    if team1 !in table {
      table := table[team1 := Zero(team1)];
    }
    if team2 !in table {
      table := table[team2 := Zero(team2)];
    }
    assert table == Enter(before, m);
    ghost var entered := table;

    table := table[team1 := Add(table[team1], Played, 1)];
    table := table[team2 := Add(table[team2], Played, 1)];
    assert table == CountPlayed(entered, m);
    ghost var counted := table;

    if m.result == "win" {
      if m.winner == Some(team1) {
        table := table[team1 := Add(table[team1], Won, 1)];
        table := table[team1 := Add(table[team1], Points, 2)];
        table := table[team2 := Add(table[team2], Lost, 1)];
      } else {
        table := table[team2 := Add(table[team2], Won, 1)];
        table := table[team2 := Add(table[team2], Points, 2)];
        table := table[team1 := Add(table[team1], Lost, 1)];
      }
    } else if m.result == "tie" {
      table := table[team1 := Add(table[team1], Tied, 1)];
      table := table[team1 := Add(table[team1], Points, 1)];
      table := table[team2 := Add(table[team2], Tied, 1)];
      table := table[team2 := Add(table[team2], Points, 1)];
    } else {
      table := table[team1 := Add(table[team1], NoResult, 1)];
      table := table[team1 := Add(table[team1], Points, 1)];
      table := table[team2 := Add(table[team2], NoResult, 1)];
      table := table[team2 := Add(table[team2], Points, 1)];
    }
    assert table == Score(counted, m);
  }

  /** The accumulator loop over the matches, in input order. */
  method BuildTable(matches: seq<MatchRecord>) returns (table: Table)
    ensures table == Tabulate(matches)
    ensures table.Keys == TeamsIn(matches)
    ensures forall k :: k in table ==> table[k].team == k && WellFormed(table[k])
  {
    table := map[];
    var i := 0;
    while i < |matches|
      invariant 0 <= i <= |matches|
      invariant table == Tabulate(matches[..i])
    {
      ghost var done := matches[..i];
      table := RecordMatch(table, matches[i]);
      i := i + 1;
      assert matches[..i] == done + [matches[i - 1]];
      TabulateSnoc(done, matches[i - 1]);
    }
    assert matches[..i] == matches;
    TabulateKeys(matches);
    TabulateWellFormed(matches);
  }
}
