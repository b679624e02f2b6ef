/** The league's stored entities and the two deletions the store supports.
    Records are never updated in place: every change builds new collections. */
module League {
  import opened Seqs

  /** Identifiers are the numbers the application generates. A team reference
      that could not be parsed (`NaN`) is represented by an id no team has. */
  type Id = int

  datatype Team = Team(id: Id, name: string)

  datatype Player = Player(id: Id, name: string, teamId: Id)

  /** A played match; `goals` holds one player id per goal scored, in any
      order. The match date is not modelled. */
  datatype Match = Match(id: Id, team1Id: Id, team2Id: Id, score1: int, score2: int, goals: seq<Id>)

  /** The three collections the application keeps, in registration order. */
  datatype Store = Store(teams: seq<Team>, players: seq<Player>, matches: seq<Match>)

  /** Removes the team with id `id` together with its roster, keeping the
      remaining teams and players in their order. Matches that reference the
      team stay in the store; the aggregators skip them. */
  function DeleteTeam(s: Store, id: Id): (r: Store)
    ensures forall t :: t in r.teams <==> t in s.teams && t.id != id
    ensures forall t :: multiset(r.teams)[t] == if t.id != id then multiset(s.teams)[t] else 0
    ensures forall p :: p in r.players <==> p in s.players && p.teamId != id
    ensures forall p :: multiset(r.players)[p] == if p.teamId != id then multiset(s.players)[p] else 0
    ensures exists idx :: Picks(r.teams, s.teams, idx)
    ensures exists idx :: Picks(r.players, s.players, idx)
    ensures r.matches == s.matches
  {
    var keepTeam := (t: Team) => t.id != id;
    var keepPlayer := (p: Player) => p.teamId != id;
    FilterContents(s.teams, keepTeam);
    FilterContents(s.players, keepPlayer);
    FilterPicks(s.teams, keepTeam);
    FilterPicks(s.players, keepPlayer);
    Store(Filter(s.teams, keepTeam), Filter(s.players, keepPlayer), s.matches)
  }

  /** Removes every match with id `id`, keeping the others in their order;
      teams and players are untouched. */
  function DeleteMatch(s: Store, id: Id): (r: Store)
    ensures forall m :: m in r.matches <==> m in s.matches && m.id != id
    ensures forall m :: multiset(r.matches)[m] == if m.id != id then multiset(s.matches)[m] else 0
    ensures exists idx :: Picks(r.matches, s.matches, idx)
    ensures r.teams == s.teams && r.players == s.players
  {
    var keepMatch := (m: Match) => m.id != id;
    FilterContents(s.matches, keepMatch);
    FilterPicks(s.matches, keepMatch);
    Store(s.teams, s.players, Filter(s.matches, keepMatch))
  }

  /** Deleting the same team twice is the same as deleting it once. */
  lemma DeleteTeamIdempotent(s: Store, id: Id)
    ensures DeleteTeam(DeleteTeam(s, id), id) == DeleteTeam(s, id)
  {
    FilterIdempotent(s.teams, (t: Team) => t.id != id);
    FilterIdempotent(s.players, (p: Player) => p.teamId != id);
  }

  /** Deleting the same match twice is the same as deleting it once. */
  lemma DeleteMatchIdempotent(s: Store, id: Id)
    ensures DeleteMatch(DeleteMatch(s, id), id) == DeleteMatch(s, id)
  {
    FilterIdempotent(s.matches, (m: Match) => m.id != id);
  }

  /** Deleting a team whose id is unknown, and that owns no player, changes
      nothing. */
  lemma DeleteUnknownTeam(s: Store, id: Id)
    requires forall t | t in s.teams :: t.id != id
    requires forall p | p in s.players :: p.teamId != id
    ensures DeleteTeam(s, id) == s
  {
    FilterAll(s.teams, (t: Team) => t.id != id);
    FilterAll(s.players, (p: Player) => p.teamId != id);
  }

  /** Deleting a match whose id is unknown changes nothing. */
  lemma DeleteUnknownMatch(s: Store, id: Id)
    requires forall m | m in s.matches :: m.id != id
    ensures DeleteMatch(s, id) == s
  {
    FilterAll(s.matches, (m: Match) => m.id != id);
  }
}
