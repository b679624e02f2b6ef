/** How the store operations show up in the derived views: a deleted team
    drops out of the league table and takes the counting of its matches with
    it; a saved match raises every scorer's tally by the goals credited. */
module StoreEffects {
  import opened Seqs
  import opened League
  import opened Standings
  import opened Scorers
  import opened GoalAttribution

  lemma TeamIdsAfterDelete(teams: seq<Team>, id: Id)
    ensures TeamIds(Filter(teams, (t: Team) => t.id != id)) == TeamIds(teams) - {id}
  {
    var keep := (t: Team) => t.id != id;
    var kept := Filter(teams, keep);
    FilterContents(teams, keep);
    forall x | x in TeamIds(kept) ensures x in TeamIds(teams) - {id} {
      var i :| 0 <= i < |kept| && kept[i].id == x;
      assert kept[i] in kept;
    }
    forall x | x in TeamIds(teams) - {id} ensures x in TeamIds(kept) {
      var i :| 0 <= i < |teams| && teams[i].id == x;
      assert teams[i] in teams;
      var j :| 0 <= j < |kept| && kept[j] == teams[i];
    }
  }

  /** After `deleteTeam`, the league table has a row for every remaining team
      id and none for the deleted one, and no match that references the
      deleted team is counted any more. */
  lemma DeleteTeamFromTable(s: Store, id: Id)
    ensures var r := DeleteTeam(s, id);
      && Ids(Table(r.teams, r.matches)) == TeamIds(s.teams) - {id}
      && forall m | m in r.matches && (m.team1Id == id || m.team2Id == id) :: !Resolves(TeamIds(r.teams), m)
  {
    var r := DeleteTeam(s, id);
    TeamIdsAfterDelete(s.teams, id);
    TableRows(r.teams, r.matches);
  }

  lemma OccurrencesSnoc(pid: Id, matches: seq<Match>, m: Match)
    ensures Occurrences(pid, matches + [m]) == Occurrences(pid, matches) + multiset(m.goals)[pid]
  {
    assert (matches + [m])[..|matches|] == matches;
  }

  /** A save as written raises each player's tally by exactly the goals the
      submitted fields credit to them, and a refused save changes no tally. */
  lemma SaveGoalsRaisesTallies(s: Store, pending: PendingMatch, home: seq<GoalEntry>, away: seq<GoalEntry>, newId: Id, pid: Id)
    ensures var r := SaveGoalsAsWritten(s, pending, home, away, newId);
      Occurrences(pid, r.store.matches)
        == Occurrences(pid, s.matches) + if r.error.None? then GoalsCredited(home, pid) + GoalsCredited(away, pid) else 0
  {
    var r := SaveGoalsAsWritten(s, pending, home, away, newId);
    if r.error.None? {
      var m := r.store.matches[|s.matches|];
      assert r.store.matches == s.matches + [m];
      OccurrencesSnoc(pid, s.matches, m);
    }
  }
}
