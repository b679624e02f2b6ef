# League derivation engine — Dafny model

This project models the logic of a small football-league tracker (`app.js`).
The tracker stores teams, players and matches. From them it derives two views:

- the **league table** (`updateTable`): one row per team with games played, wins,
  draws, losses, goals for and against. Rows are ranked by points (3 per win,
  1 per draw), then by goal difference.
- the **scorer list** (`updateStats`): one row per player who has scored,
  ranked by goals.

Recording a match (`saveGoalsForMatch`) checks the per-player goal counts typed
into the dialog against the score. It then builds the match's goal list, one
player id per goal. Deleting a team removes the team and its roster. Deleting a
match removes that match.

Modules:

- `Seqs`: `Option` and an order-preserving `Filter`, standing for `Array.prototype.filter`.
- `StableSort`: a stable sort into descending order of a two-level key.
  `Array.prototype.sort` is stable since ECMAScript 2019.
- `League`: the entities, the store, and the deletions `deleteTeam` and `deleteMatch`.
- `Standings`: the league table.
  - The `teamsMap` object is modelled as a sequence of rows with unique keys.
  - A team id registered twice keeps its first position and takes the later name.
  - A match is counted only when both of its team ids resolve.
  - A match whose two team ids are equal credits the same row twice.
  - `Object.values` lists array-index keys (integers in [0, 2^32 - 2]) first, in
    ascending order, and the other keys in insertion order. This is modelled as
    `PropertyOrder`. Ids made by `generateId` are never array indices, so in
    practice the order is registration order.
- `TableTotals`: conservation laws of the whole table.
- `Scorers`: the goal tally and the scorer list.
  - A player's team name is the first team with that id, or "N/A".
  - Goals from matches whose teams were deleted still count.
- `GoalAttribution`: the goal-count check and the goal-list builder of
  `saveGoalsForMatch`, both as written and corrected (see Findings), and the save.
- `StoreEffects`: how deletions and saves show up in the derived views.

Each field value is modelled as an already-parsed integer.

- A field that does not parse (`NaN`) is modelled as 0. The sum falls back to 0
  for it, and a loop bounded by `NaN` runs no iteration.
- A team reference that does not parse is modelled as an id no team has.
- The fresh match id from `generateId()` is a parameter.

Two behaviours of the code look unintended. The model keeps the code's behaviour
and states the intended one beside it.

- Negative goal counts. The goal fields are declared `min="0"` (app.js:173, 189),
  so a negative count is evidently not meant to be accepted. The save still adds
  it to the side's total. `GoalAttribution.SaveGoalsAsWritten` and
  `GoalAttribution.CheckAndBuildAsWritten` model the code. `GoalAttribution.SaveGoals`
  and `GoalAttribution.CheckAndBuild` also refuse a negative count. Findings
  records the difference.
- Orphaned players. Deleting a team deletes its roster too (app.js:126), so a
  player whose team is gone should not exist. The scorer list still looks the team
  up and falls back to "N/A" (app.js:434). `Scorers.TeamName` models that fallback.

## Model

| member | source | states |
|---|---|---|
| League.DeleteTeam | app.js:125-126 | exactly the teams with a different id survive, and exactly the players of other teams, each with its multiplicity and in their original relative order; matches are untouched |
| League.DeleteMatch | app.js:325 | exactly the matches with a different id survive, with their multiplicities and in their original relative order; teams and players are untouched |
| League.DeleteTeamIdempotent | app.js:125-126 | deleting a team a second time changes nothing |
| League.DeleteMatchIdempotent | app.js:325 | deleting a match a second time changes nothing |
| League.DeleteUnknownTeam | app.js:125-126 | deleting an id no team and no player refers to leaves the store as it was |
| League.DeleteUnknownMatch | app.js:325 | deleting an id no match has leaves the store as it was |
| StableSort.Sort | app.js:378-385 | the sorted rows are a permutation of the input, ordered by the first key descending and, among equal first keys, by the second key descending |
| StableSort.SortKeepsTies | app.js:378-385 | elements with equal keys keep their relative input order (stability) |
| Standings.IndexOf | app.js:351-352 | the `teamsMap[id]` lookup finds a row with that id exactly when one exists |
| Standings.RegisterAll | app.js:337-348 | registration yields one zeroed row per distinct team id, each named after the last team registered with that id |
| Standings.RegisterAllUnique | app.js:337-348 | with unique team ids the rows are the teams themselves, in order, with zero records |
| Standings.Apply | app.js:350-374 | processing a match keeps the row keys and names, and a match with an unresolved team changes nothing |
| Standings.ApplyCredits | app.js:354-373 | a counted match adds to every row exactly the home part when that row is team 1 and the away part when it is team 2: played, goals for and against, and win, draw or loss by comparing the scores |
| Standings.ApplyAllRecords | app.js:350-374 | after the match loop each row holds its initial record plus the sum over the counted matches of what the match gives that team |
| Standings.RecordOfConsistent | app.js:354-373 | every team's record counts each game played as exactly one win, draw or loss |
| Standings.IdleTeamIsZero | app.js:354-373 | a team that no counted match involves has an all-zero record |
| Standings.PropertyOrder | app.js:376 | `Object.values` is a permutation of the rows that puts array-index keys first, in ascending order, and lists every other key in insertion order |
| Standings.PropertyOrderOfNamedKeys | app.js:376 | when no id is an array index, `Object.values` keeps insertion order |
| Standings.Table | app.js:334-385 | the league table is a permutation of the aggregated rows, ranked by points descending and then by goal difference descending |
| Standings.TableRows | app.js:337-385 | the table has one row per distinct team id; each row holds that team's reference record, is consistent, and is named after the last team registered with that id |
| Standings.TableSize | app.js:337-348 | with unique team ids the table has exactly one row per team |
| Standings.IdleTeamRow | app.js:337-374 | a team without counted matches appears with a zero record and 0 points |
| Standings.OrphanMatchIgnored | app.js:351-354 | adding a match with a team id that does not resolve leaves the table unchanged |
| Standings.TableKeepsTies | app.js:378-385 | rows with equal points and goal difference keep their `Object.values` order |
| Standings.TiesInRegistrationOrder | app.js:337-385 | with unique, non-array-index ids the aggregated rows follow registration order, and tied rows keep that order in the table |
| TableTotals.MatchTotalsBalance | app.js:354-373 | each counted match adds two games, one win and one loss or two draws, and equal goals for and against |
| TableTotals.TableConservation | app.js:334-385 | over the whole table: wins equal losses and the number of counted decisive matches; draws are even, twice the counted draws; goals for equal goals against; games played are twice the counted matches |
| Scorers.GoalCountsAreOccurrences | app.js:414-418 | the tally gives each player id the number of its occurrences in all matches' goal lists |
| Scorers.FindTeam | app.js:430 | `find` returns the first team with the id, and nothing exactly when there is none |
| Scorers.TeamName | app.js:430-434 | the team column is the first matching team's name, or "N/A" when the team no longer exists |
| Scorers.CandidatesExact | app.js:424-438 | the unsorted scorer rows are exactly the rows of the players who scored, each with their full tally |
| Scorers.Leaderboard | app.js:410-441 | the scorer list is a permutation of the candidate rows, ordered by goals, most first |
| Scorers.LeaderboardRows | app.js:410-441 | the scorer list has one row per player who scored, holding their tally and team name, and no row with zero goals |
| Scorers.LeaderboardKeepsTies | app.js:441 | players with equal goals stay in player registration order |
| GoalAttribution.Repeat | app.js:255-257 | the inner loop pushes the id `count` times, and nothing for a count that is not positive |
| GoalAttribution.GoalListCounts | app.js:246-273 | the built goal list holds each player id exactly as often as the fields credit it; fields with an invalid id or a count that is not positive credit nothing |
| GoalAttribution.GoalListLength | app.js:227-273 | with valid ids and no negative count, one side's goal list is as long as that side's summed total |
| GoalAttribution.CheckAndBuildAsWritten | app.js:227-273 | as written: accepted exactly when both summed totals equal the score, with the goal list crediting each player as the fields do |
| GoalAttribution.NegativeCountBreaksScore | app.js:231 | as written, home counts 3 and -1 against a 2-0 score are accepted with a 3-goal list |
| GoalAttribution.CheckAndBuild | app.js:227-273 | corrected: accepted exactly when both totals equal the score and no count is negative; the goal list credits each player as the fields do and, with valid ids, has score1 + score2 goals |
| GoalAttribution.SaveGoalsAsWritten | app.js:238-285 | the save is refused, with the store unchanged, exactly when a side's summed counts differ from its score; otherwise exactly one match is appended with the fresh id, the pending teams and scores, and the built goals, keeping teams, players and earlier matches |
| GoalAttribution.SaveGoals | app.js:238-285 | corrected: the save is also refused when a count is negative; an accepted save appends the match as above, and with valid ids its goal list has score1 + score2 goals |
| GoalAttribution.NegativeCountIsSaved | app.js:231-285 | as written, the 2-0 match with home counts 3 and -1 is stored with three goals; the corrected save refuses it, naming the negative field |
| GoalAttribution.SavesAgreeWithoutNegatives | app.js:238-285 | without negative counts the corrected save and the save as written give the same store and outcome |
| StoreEffects.DeleteTeamFromTable | app.js:125-129 | after deleting a team the table has rows for exactly the remaining team ids, and that team's matches are no longer counted |
| StoreEffects.SaveGoalsRaisesTallies | app.js:238-285 | after a save as written, each player's tally grows by exactly the goals the fields credit them; a refused save changes no tally |

## Left out

- Rendering and other DOM work is left out: tables, lists, forms, the goal dialog, `alert` and `confirm`. A declined `confirm` simply means no deletion.
- Persistence (`loadData`, `saveData`, `localStorage`) is left out. The store is a value.
- `generateId` is not modelled. The fresh match id is a parameter.
- Reading and parsing form fields is not modelled. This covers `parseInt` of the scores, the team selects, the goal fields and the player-id attributes. It also covers the `NaN` score check in `showGoalModal` (app.js:141-144). Inputs are the already-parsed integers, with `NaN` as described above.
- The live running total `updateTotalGoals` (app.js:198-221) is left out. It only colours the display, and its sums are the ones `GoalAttribution.SubmittedTotal` models.
- The goal dialog lists only the players of the two teams (`renderGoalEntries`). The model accepts any list of fields.
- CSV export, the match date and the match list display are left out.
- `addTeam` and team-name validation are outside the modelled core.
- Numbers are unbounded integers. JavaScript doubles are exact for these counts and ids, which stay far below 2^53.
- Tally and name lookups are modelled on numeric ids. Two different ids that print the same as object keys cannot occur below 2^53.
- GoalAttribution.CheckAndBuild: a count that is not an integer is not refused. `parseInt` truncates it, and the model starts from parsed integers.

## Findings

| source | as written | input that shows it | evidently intended | confidence | as-written member | corrected member |
|---|---|---|---|---|---|---|
| app.js:231 | a negative goal count is added to the side's total (the sum falls back to 0 only for a field that does not parse), but the builder loop at app.js:255 pushes no goal for it, so the totals check passes while the goal list is longer than the score | score 2-0; home fields player 7 = 3, player 8 = -1; no away fields: total 2 is accepted and the goal list is [7, 7, 7] | a negative count is refused, so an accepted match with valid player ids has exactly score1 + score2 goals | not executed | GoalAttribution.NegativeCountBreaksScore | GoalAttribution.CheckAndBuild |
