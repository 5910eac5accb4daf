# IPL season points table

This project models `iplPointsTable`, which builds a season's points table from
a list of match results. Each match names two teams, a result (`"win"`,
`"tie"`, or anything else, which counts as a no-result) and, for a win, the
winner. The function works in two phases:

1. **Accumulator.** A loop over the matches keeps an object from team name to
   that team's row: `played`, `won`, `lost`, `tied`, `noResult`, `points`.
   A row is created the first time a name is seen. Then both sides are
   credited:
   - a win gives 2 points to the winner and a loss to the other side;
   - a tie or a no-result gives 1 point to each side.
2. **Ranking.** The rows are listed and sorted by points, highest first.
   Equal points are ordered by team name, ascending.

An empty list of matches gives an empty table.

Modules:

- `Records`: match records, rows (`Standing`), and the six counters named
  by `Counter`, so that a total can be stated once for all six.
- `Collation`: the name order used for the tie-break.
- `Totals`: column sums over a list of rows and over a table.
- `Accumulator`: the loop, as methods over a `map<string, Standing>`.
  - `RecordMatch` is one iteration; it performs the source's updates one
    statement at a time, in the source's order.
  - `BuildTable` is the loop.
  - Both are proved against the specification function `ApplyMatch` and its
    fold `Tabulate`.
  - `Credit` is an independent, team-by-team description of what one match
    adds to a row. `ApplyMatchEffect` proves that the step-by-step updates
    agree with it, including a match of a team against itself. In that case
    the second update reads the row the first one changed.
- `Ranking`: the comparator, listing the rows (`Values`), and an in-place
  selection sort on an array (`Sort`).
  - The predicate `IsRanking` says what a finished table is.
  - `RankingUnique` proves that a finished table is unique.
- `PointsTable`: the top-level function, what its result says about the
  season, and the documented example.

## Model

| member | source | states |
|---|---|---|
| PointsTable.IplPointsTable | src/07-ipl-points-table.js:39-107 | An empty season gives `[]`. Otherwise the result is the sorted table of the accumulated rows: it lists every row of `Tabulate(matches)` exactly once, with no name repeated, and in comparator order. It also satisfies `SeasonFacts`. |
| PointsTable.RankingFacts | src/07-ipl-points-table.js:42-106 | The sorted table has a row for exactly the teams named in some match. Every row satisfies played = won + lost + tied + noResult and points = 2·won + tied + noResult. Adjacent rows are strictly ordered: more points, or equal points and an earlier name. Column totals: played and points are 2 × matches, won and lost are the number of wins, tied is 2 × ties, noResult is 2 × no-results. |
| PointsTable.PermutationEnumerates | src/07-ipl-points-table.js:96-104 | Reordering a listing of the table (same multiset of rows, distinct names) is still a listing of the table. |
| PointsTable.DocumentedTable | src/07-ipl-points-table.js:29-36 | In the documented season (CSK beat MI, then RCB tied CSK), with any three distinct names, the rows are: CSK played 2, won 1, tied 1, 3 points; MI played 1, lost 1, 0 points; RCB played 1, tied 1, 1 point. The table has exactly these three keys. |
| PointsTable.DocumentedCredits | src/07-ipl-points-table.js:29-33 | What each documented match credits to each of the three teams. |
| PointsTable.TwoMatches | src/07-ipl-points-table.js:44-94 | After two matches, the keys are the four sides. Each row is a zero row plus the two matches' credits. |
| PointsTable.DocumentedRanking | src/07-ipl-points-table.js:37 | The only sorted table of the documented season is CSK (3), RCB (1), MI (0), with exactly those rows. |
| PointsTable.DocumentedOrder | src/07-ipl-points-table.js:37 | A table with the documented three rows has exactly one sorted order: CSK, RCB, MI. |
| PointsTable.ThreeRowRanking | src/07-ipl-points-table.js:98-101 | Three rows with strictly decreasing points are sorted in that order, whatever their names. |
| PointsTable.SplitCredits | src/07-ipl-points-table.js:73-82 | When each of two teams beats the other once, each win credits the named winner and a loss to the other side. |
| PointsTable.SplitTable | src/07-ipl-points-table.js:44-94 | When each of two teams beats the other once, both rows read played 2, won 1, lost 1, 2 points. |
| PointsTable.SplitRanking | src/07-ipl-points-table.js:98-103 | In the season where each of two teams beats the other once, both end on 2 points, and the only sorted table lists first the name that compares lower. The general two-team case is `TwoRowRanking` together with `Ranking.RankingUnique`. |
| PointsTable.TwoRowRanking | src/07-ipl-points-table.js:98-104 | Two rows of which the first may come before the second form the sorted table of a two-team table. |
| Accumulator.BuildTable | src/07-ipl-points-table.js:42-94 | The loop's table is the fold of `ApplyMatch` over the matches, in input order. Its keys are exactly the names on either side of some match. Every row is filed under its own name and is consistent (played and points identities). |
| Accumulator.RecordMatch | src/07-ipl-points-table.js:45-93 | One loop iteration performs the source's updates statement by statement. The resulting table is `ApplyMatch(before, m)`, whose per-team effect is `ApplyMatchEffect`. |
| Accumulator.ApplyMatchEffect | src/07-ipl-points-table.js:49-93 | After a match, a name has a row iff it had one before or it is a side of the match. Each row is the old row (a zero row if new) plus `Credit(m, k)`. This also holds when team1 == team2. A team not in the match keeps its row. |
| Accumulator.WinForTeam1 | src/07-ipl-points-table.js:73-77 | When a win's `winner` equals `team1` and the sides differ: team1 gains a game, a win and 2 points; team2 gains a game and a loss; nothing else in either row changes. |
| Accumulator.WinForTeam2 | src/07-ipl-points-table.js:78-82 | When a win's `winner` is anything other than `team1` (absent, `team2`, or a third name): team2 gains a game, a win and 2 points; team1 gains a game and a loss. |
| Accumulator.SharedPoint | src/07-ipl-points-table.js:83-93 | For a result other than "win", with distinct sides, each side gains a game and a point. A "tie" adds a tie; any other result adds a no-result. |
| Accumulator.SelfMatch | src/07-ipl-points-table.js:46-93 | When both sides carry the same name, its one row gains 2 games and 2 points. A win adds a win and a loss; a tie adds 2 ties; a no-result adds 2 no-results. |
| Accumulator.Enroll | src/07-ipl-points-table.js:49-68 | Creating a row on first sight adds exactly that name to the keys. |
| Accumulator.Bump | src/07-ipl-points-table.js:70-92 | Incrementing one counter of an existing row keeps the set of keys. |
| Accumulator.ApplyMatch | src/07-ipl-points-table.js:45-93 | After a match, the keys are the old keys plus both sides. |
| Accumulator.Enter | src/07-ipl-points-table.js:49-68 | Creating the rows of both sides (when missing) adds exactly those two names to the keys. |
| Accumulator.EnterAt | src/07-ipl-points-table.js:49-68 | Creating rows changes no row's contents: a new row is the zero row the team would have had anyway. |
| Accumulator.CountPlayed | src/07-ipl-points-table.js:70-71 | Counting the game for both sides keeps the set of keys. |
| Accumulator.CountPlayedAt | src/07-ipl-points-table.js:70-71 | Counting the game raises each team's `played` by the number of sides it is on (2 when team1 == team2) and changes nothing else. |
| Accumulator.Score | src/07-ipl-points-table.js:73-93 | The result-specific updates keep the set of keys. |
| Accumulator.WinScoreAt | src/07-ipl-points-table.js:73-82 | For a win, the updates add to each row exactly `Credit` without the game: a win and 2 points to the winner, a loss to the other side, both to one row when the sides coincide. |
| Accumulator.DrawScoreAt | src/07-ipl-points-table.js:83-93 | For a tie or any other non-win result, the updates add to each row exactly `Credit` without the game: per side, a tie (or a no-result) and a point. |
| Accumulator.BumpAt | src/07-ipl-points-table.js:70-92 | A single `+=` changes only the named row, and that row only in the named counter. |
| Accumulator.TabulateKeys | src/07-ipl-points-table.js:44-68 | After all matches, the table has a row for exactly the names that appear on either side of some match. |
| Accumulator.TabulateRecord | src/07-ipl-points-table.js:44-94 | Each row after all matches is the sum, over the matches, of what each match credits that team. |
| Accumulator.TeamRecordWellFormed | src/07-ipl-points-table.js:70-93 | That per-team sum carries the team's name and satisfies both row identities. |
| Accumulator.TabulateWellFormed | src/07-ipl-points-table.js:50-93 | Every row of the accumulated table carries its key as `team` and satisfies played = won + lost + tied + noResult and points = 2·won + tied + noResult. |
| Accumulator.ApplyMatchTotal | src/07-ipl-points-table.js:70-93 | One match adds to the column totals: played +2 and points +2; won +1 and lost +1 for a win; tied +2 for a tie; noResult +2 otherwise. |
| Accumulator.TabulateTotals | src/07-ipl-points-table.js:44-94 | Over the whole table: played and points total 2 × matches, won and lost total the number of wins, tied totals 2 × ties, noResult totals 2 × no-results. |
| Accumulator.TabulateSnoc | src/07-ipl-points-table.js:44-94 | The loop is the fold `Tabulate` of `ApplyMatch` over the matches in input order: one more match at the end is one more `ApplyMatch` on the table so far. |
| Ranking.Values | src/07-ipl-points-table.js:96 | Lists the table's rows, one per key, in some order of distinct keys that covers every key; every row of the table is listed. |
| Ranking.ValuesEnumerate | src/07-ipl-points-table.js:96 | That listing of a table whose rows carry their own keys lists every row exactly once. |
| Ranking.Sort | src/07-ipl-points-table.js:98-104 | After sorting in place, every row may come before every later row under the comparator. The array holds the same multiset of rows. Distinct names stay distinct. |
| Ranking.SelectFirst | src/07-ipl-points-table.js:98-104 | Returns the position of a row in the unsorted suffix that may come before every row of that suffix. |
| Ranking.Swap | src/07-ipl-points-table.js:98 | Exchanges two cells and keeps the multiset of rows. |
| Ranking.RankingUnique | src/07-ipl-points-table.js:96-104 | Two sorted listings of the same table are equal. The result depends neither on the order of `Object.values` nor on the sort algorithm. |
| Ranking.RankingStrict | src/07-ipl-points-table.js:98-104 | In a sorted table, each row has more points than the next, or equal points and a name that compares strictly lower. |
| Ranking.EnumerationSize | src/07-ipl-points-table.js:96 | A listing has as many rows as the table has keys. |
| Ranking.EnumerationSum | src/07-ipl-points-table.js:96 | Column totals over a listing equal the totals over the table. |
| Ranking.Compare | src/07-ipl-points-table.js:98-104 | The comparator is negative exactly when the first row has more points, or equal points and a name that compares lower; positive exactly in the mirrored case. |
| Ranking.CompareZero | src/07-ipl-points-table.js:98-104 | The comparator returns zero exactly when points and names are equal. |
| Ranking.CompareAntisymmetric | src/07-ipl-points-table.js:98-104 | Swapping the comparator's arguments negates its result. |
| Ranking.CompareTransitive | src/07-ipl-points-table.js:98-104 | "May come before" is transitive: points descending, then names ascending. |
| Collation.LexCompare | src/07-ipl-points-table.js:102 | The name comparison returns -1, 0 or 1. |
| Collation.LexCompareZero | src/07-ipl-points-table.js:102 | Names compare as zero exactly when they are equal. |
| Collation.LexCompareAntisymmetric | src/07-ipl-points-table.js:102 | Swapping the names negates the comparison. |
| Collation.LexCompareTransitive | src/07-ipl-points-table.js:102 | "Not after" on names is transitive. |
| Totals.MapSumRemove | src/07-ipl-points-table.js:96 | A table's column total is any one row's value plus the total of the rest, so the total does not depend on key order. |
| Totals.MapSumUpdate | src/07-ipl-points-table.js:70-92 | Replacing or adding one row changes a column total by exactly the difference. |
| Records.AddGet | src/07-ipl-points-table.js:70-92 | Incrementing one counter by an amount raises that counter by the amount. The name and the other five counters are unchanged. |
| Records.PlusWellFormed | src/07-ipl-points-table.js:70-93 | Adding a consistent increment to a consistent row gives a consistent row. |

## Left out

- Collation.LexCompare: the tie-break on names uses the runtime's
  locale-aware collation (`localeCompare`). The model orders names by
  character code points, a shorter prefix first. The two orders can differ,
  for example on case and accents. The code-point order is a total order
  that is zero only on equal names; `localeCompare` is not: it returns zero
  for distinct but canonically equivalent names (a precomposed "é" and an
  "e" followed by a combining accent). For such names with equal points the
  source's stable sort keeps the `Object.values` order, which the model
  does not capture.
- The `Array.isArray` test is not modelled. A non-array argument has no
  counterpart in the model's typed input; only the empty list is modelled.
- Malformed match records are not modelled: a missing `team1`/`team2`, or
  a non-string field. Every record has two names and a result string. An
  absent `winner` is `None`.
- Ranking.Values: `Object.values` enumerates keys in insertion order (with
  integer-like keys first). The model picks keys in an unspecified order.
  `RankingUnique` shows that, under the model's code-point name order, the
  sorted result does not depend on that order. Under `localeCompare` it can,
  for canonically equivalent names with equal points (see
  `Collation.LexCompare` above).
- Ranking.Sort: the runtime's sort algorithm is replaced by a selection sort.
  Only its result is specified, and `RankingUnique` makes that result unique.
- Counters are unbounded naturals. The source uses floating-point numbers,
  which are exact for any realistic season.
- Accumulator.RecordMatch: its contract equates the new table with
  `ApplyMatch`. The per-team meaning is stated once, in
  `Accumulator.ApplyMatchEffect`, and not repeated on the method.
- Accumulator.Enroll: names that a plain object inherits are not modelled
  (`constructor`, `toString`, `valueOf`, `hasOwnProperty`, `__proto__` and
  the other `Object.prototype` members). The source's `in` test is true for
  them, so it creates no row. Its updates then land on the inherited
  built-in value (the counters become NaN), and `Object.values` leaves the
  team out of the result. The model tests own keys only, so it creates a row
  for every name. `Accumulator.TabulateKeys`, the team set and the column
  totals in `PointsTable.SeasonFacts`, and `Accumulator.TabulateTotals` hold
  for the source only when no team carries such a name.
- Accumulator.RecordMatch: the same inherited-name case. The guards test map
  membership, while the source's `in` also sees inherited names; for those
  the source updates objects shared by every call instead of a row of the
  table.
- Rows are immutable values in the map. The source mutates row objects in
  place. For names that are not inherited, each key has its own row object,
  so no aliasing between keys is lost. The team1 == team2 case updates the
  one row twice, as in the source.
