/** Data model of the points table: the match records the caller supplies and
    the per-team standings the table is built from. */
module Records {

  datatype Option<T> = None | Some(value: T)

  /** One match as supplied by the caller. `result` is free text: only "win"
      and "tie" are recognised, anything else counts as a no-result. `winner`
      may be absent (it is only consulted for a win). */
  datatype MatchRecord = MatchRecord(team1: string, team2: string, result: string, winner: Option<string>)

  predicate IsWin(m: MatchRecord) { m.result == "win" }

  predicate IsTie(m: MatchRecord) { m.result == "tie" }

  /** Every result that is neither "win" nor "tie" is scored as a no-result. */
  predicate IsNoResult(m: MatchRecord) { !IsWin(m) && !IsTie(m) }

  /** The row kept for one team. Counters are naturals: the source only ever
      adds to them. */
  datatype Standing = Standing(team: string, played: nat, won: nat, lost: nat, tied: nat, noResult: nat, points: nat)

  /** The row created the first time a team name is seen. */
  function Zero(team: string): Standing {
    Standing(team, 0, 0, 0, 0, 0, 0)
  }

  /** The consistency every row of the table keeps. */
  predicate WellFormed(s: Standing) {
    && s.played == s.won + s.lost + s.tied + s.noResult
    && s.points == 2 * s.won + s.tied + s.noResult
  }

  /** Names for the six counters, so that totals can be stated once. */
  datatype Counter = Played | Won | Lost | Tied | NoResult | Points

  function Get(s: Standing, c: Counter): nat {
    match c
    case Played => s.played
    case Won => s.won
    case Lost => s.lost
    case Tied => s.tied
    case NoResult => s.noResult
    case Points => s.points
  }

  /** `s.<c> += amount`: one counter goes up, the name and the other counters stay. */
  function Add(s: Standing, c: Counter, amount: nat): Standing {
    match c
    case Played => s.(played := s.played + amount)
    case Won => s.(won := s.won + amount)
    case Lost => s.(lost := s.lost + amount)
    case Tied => s.(tied := s.tied + amount)
    case NoResult => s.(noResult := s.noResult + amount)
    case Points => s.(points := s.points + amount)
  }

  /** Counter-wise sum of a row and an increment; the row keeps its name. */
  function Plus(s: Standing, d: Standing): Standing {
    Standing(s.team, s.played + d.played, s.won + d.won, s.lost + d.lost,
             s.tied + d.tied, s.noResult + d.noResult, s.points + d.points)
  }

  /** Adding to one counter leaves the name and every other counter as they were. */
  lemma AddGet(s: Standing, c: Counter, amount: nat, c': Counter)
    ensures Add(s, c, amount).team == s.team
    ensures Get(Add(s, c, amount), c') == Get(s, c') + (if c == c' then amount else 0)
  {
  }

  /** Sums of well-formed rows are well-formed. */
  lemma PlusWellFormed(s: Standing, d: Standing)
    requires WellFormed(s) && WellFormed(d)
    ensures WellFormed(Plus(s, d))
  {
  }
}
