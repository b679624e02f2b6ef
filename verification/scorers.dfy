/** The top-scorer list (`updateStats`): goals are tallied per player id over
    every match's goal list, whether or not the match's teams still exist;
    every existing player with at least one goal gets a row naming their team
    (or "N/A" when that team is gone); rows are stably sorted by goals,
    most first. */
module Scorers {
  import opened Seqs
  import opened StableSort
  import opened League

  /** The `goalsCount` object: goals per player id; ids that never scored
      have no entry. */
  type Tally = map<Id, int>

  function Lookup(counts: Tally, pid: Id): int {
    if pid in counts then counts[pid] else 0
  }

  /** Adds one to the tally of the scorer of each goal, in goal order; an id
      seen for the first time starts from zero. */
  function CountGoals(counts: Tally, goals: seq<Id>): Tally {
    if |goals| == 0 then counts
    else
      var pid := goals[|goals| - 1];
      var before := CountGoals(counts, goals[..|goals| - 1]);
      before[pid := Lookup(before, pid) + 1]
  }

  /** The tally built by the nested loops over every match's goals. */
  function GoalCounts(matches: seq<Match>): Tally {
    if |matches| == 0 then map[]
    else CountGoals(GoalCounts(matches[..|matches| - 1]), matches[|matches| - 1].goals)
  }

  /** Reference tally: how often `pid` occurs in the goal lists of `matches`. */
  function Occurrences(pid: Id, matches: seq<Match>): nat {
    if |matches| == 0 then 0
    else Occurrences(pid, matches[..|matches| - 1]) + multiset(matches[|matches| - 1].goals)[pid]
  }

  lemma {:induction false} CountGoalsAdds(counts: Tally, goals: seq<Id>, pid: Id)
    ensures Lookup(CountGoals(counts, goals), pid) == Lookup(counts, pid) + multiset(goals)[pid]
  {
    if |goals| > 0 {
      var prefix := goals[..|goals| - 1];
      CountGoalsAdds(counts, prefix, pid);
      assert goals == prefix + [goals[|goals| - 1]];
    }
  }

  /** The tally object holds, for every id, its number of occurrences. */
  lemma {:induction false} GoalCountsAreOccurrences(matches: seq<Match>, pid: Id)
    ensures Lookup(GoalCounts(matches), pid) == Occurrences(pid, matches)
  {
    if |matches| > 0 {
      GoalCountsAreOccurrences(matches[..|matches| - 1], pid);
      CountGoalsAdds(GoalCounts(matches[..|matches| - 1]), matches[|matches| - 1].goals, pid);
    }
  }

  /** The first team with id `teamId`, in registration order, if there is one. */
  function FindTeam(teams: seq<Team>, teamId: Id): (r: Option<Team>)
    ensures r.None? <==> forall i | 0 <= i < |teams| :: teams[i].id != teamId
    ensures r.Some? ==> exists i | 0 <= i < |teams| :: teams[i] == r.value && teams[i].id == teamId &&
                          forall j | 0 <= j < i :: teams[j].id != teamId
  {
    if |teams| == 0 then None
    else if teams[0].id == teamId then Some(teams[0])
    else
      var r := FindTeam(teams[1..], teamId);
      assert forall i | 1 <= i < |teams| :: teams[i] == teams[1..][i - 1];
      if r.Some? then
        var k :| 0 <= k < |teams[1..]| && teams[1..][k] == r.value && teams[1..][k].id == teamId &&
                  forall j | 0 <= j < k :: teams[1..][j].id != teamId;
        assert teams[k + 1] == r.value;
        assert forall j | 1 <= j < k + 1 :: teams[j].id != teamId;
        r
      else r
  }

  /** The team column: the name of the first team with the player's team id,
      or "N/A" when there is none. */
  function TeamName(teams: seq<Team>, teamId: Id): (name: string)
    ensures (forall i | 0 <= i < |teams| :: teams[i].id != teamId) ==> name == "N/A"
    ensures (exists i | 0 <= i < |teams| :: teams[i].id == teamId) ==>
      exists i | 0 <= i < |teams| :: teams[i].id == teamId && name == teams[i].name &&
        forall j | 0 <= j < i :: teams[j].id != teamId
  {
    match FindTeam(teams, teamId)
    case Some(team) => team.name
    case None => "N/A"
  }

  datatype ScorerRow = ScorerRow(id: Id, name: string, teamName: string, goals: int)

  /** The row a player gets when their tally is `goals`. */
  function RowFor(p: Player, teams: seq<Team>, goals: int): ScorerRow {
    ScorerRow(p.id, p.name, TeamName(teams, p.teamId), goals)
  }

  /** `playerStats`: one row per player with a positive tally, in player
      registration order. */
  function Candidates(players: seq<Player>, teams: seq<Team>, counts: Tally): seq<ScorerRow> {
    if |players| == 0 then []
    else
      var p := players[0];
      var goals := Lookup(counts, p.id);
      (if goals > 0 then [RowFor(p, teams, goals)] else []) + Candidates(players[1..], teams, counts)
  }

  /** Sort key of the scorer list: goals, most first. */
  function GoalsKey(r: ScorerRow): Rank {
    Rank(r.goals, 0)
  }

  /** `updateStats`: the ranked scorer list. */
  function Leaderboard(players: seq<Player>, teams: seq<Team>, matches: seq<Match>): (board: seq<ScorerRow>)
    ensures multiset(board) == multiset(Candidates(players, teams, GoalCounts(matches)))
    ensures forall i, j | 0 <= i < j < |board| :: board[i].goals >= board[j].goals
  {
    Sort(Candidates(players, teams, GoalCounts(matches)), GoalsKey)
  }

  /** Has `p` scored in `matches`? */
  predicate Scored(p: Player, matches: seq<Match>) {
    Occurrences(p.id, matches) > 0
  }

  /** The candidate rows are exactly the rows of the players who scored,
      each with their true tally. */
  lemma {:induction false} CandidatesExact(players: seq<Player>, teams: seq<Team>, matches: seq<Match>)
    ensures var c := Candidates(players, teams, GoalCounts(matches));
      && |c| == |Filter(players, (p: Player) => Scored(p, matches))|
      && forall r :: r in c <==>
           exists p | p in players :: Scored(p, matches) && r == RowFor(p, teams, Occurrences(p.id, matches))
  {
    if |players| > 0 {
      var p := players[0];
      CandidatesExact(players[1..], teams, matches);
      GoalCountsAreOccurrences(matches, p.id);
      assert players == [p] + players[1..];
      forall q | q in players ensures q == p || q in players[1..] {
      }
    }
  }

  /** The scorer list: every row belongs to a player who scored, shows that
      player's full tally over all matches and their team's name (or "N/A"),
      and every such player has a row; no row has zero goals. */
  lemma LeaderboardRows(players: seq<Player>, teams: seq<Team>, matches: seq<Match>)
    ensures var board := Leaderboard(players, teams, matches);
      && |board| == |Filter(players, (p: Player) => Scored(p, matches))|
      && (forall r :: r in board <==>
            exists p | p in players :: Scored(p, matches) && r == RowFor(p, teams, Occurrences(p.id, matches)))
      && forall i | 0 <= i < |board| :: board[i].goals > 0
  {
    var board := Leaderboard(players, teams, matches);
    var c := Candidates(players, teams, GoalCounts(matches));
    CandidatesExact(players, teams, matches);
    assert |board| == |multiset(board)| == |multiset(c)| == |c|;
    forall r ensures r in board <==> r in c {
      assert r in board <==> r in multiset(board);
    }
    forall i | 0 <= i < |board| ensures board[i].goals > 0 {
      assert board[i] in board;
    }
  }

  /** Stability: players with the same number of goals are listed in player
      registration order. */
  lemma LeaderboardKeepsTies(players: seq<Player>, teams: seq<Team>, matches: seq<Match>, k: Rank)
    ensures Ties(Leaderboard(players, teams, matches), GoalsKey, k)
         == Ties(Candidates(players, teams, GoalCounts(matches)), GoalsKey, k)
  {
    SortKeepsTies(Candidates(players, teams, GoalCounts(matches)), GoalsKey, k);
  }
}
