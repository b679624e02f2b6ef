/** The league table (`updateTable`): one zeroed row per registered team id,
    every match whose two team references resolve folded into win/draw/loss
    and goal counters, the rows put in the order in which a JavaScript object
    enumerates its keys, and finally a stable sort by points and then by goal
    difference. */
module Standings {
  import opened Seqs
  import opened StableSort
  import opened League

  /** The counters of one table row. Scores are parsed integers and may in
      principle be negative, so the goal counters may be too; the game
      counters are never negative (see `Consistent`). */
  datatype Record = Record(played: int, wins: int, draws: int, losses: int, goalsFor: int, goalsAgainst: int)

  const Zero := Record(0, 0, 0, 0, 0, 0)

  function Add(a: Record, b: Record): Record {
    Record(a.played + b.played, a.wins + b.wins, a.draws + b.draws, a.losses + b.losses,
           a.goalsFor + b.goalsFor, a.goalsAgainst + b.goalsAgainst)
  }

  lemma AddAssociative(a: Record, b: Record, c: Record)
    ensures Add(Add(a, b), c) == Add(a, Add(b, c))
  {
  }

  lemma AddZero(a: Record)
    ensures Add(a, Zero) == a && Add(Zero, a) == a
  {
  }

  /** Every game played is exactly one of a win, a draw or a loss. */
  predicate Consistent(r: Record) {
    r.wins >= 0 && r.draws >= 0 && r.losses >= 0 && r.played == r.wins + r.draws + r.losses
  }

  /** What a counted match adds to the row of `team1Id`. */
  function HomeResult(m: Match): Record {
    Record(1, if m.score1 > m.score2 then 1 else 0, if m.score1 == m.score2 then 1 else 0,
           if m.score1 < m.score2 then 1 else 0, m.score1, m.score2)
  }

  /** What a counted match adds to the row of `team2Id`. */
  function AwayResult(m: Match): Record {
    Record(1, if m.score2 > m.score1 then 1 else 0, if m.score1 == m.score2 then 1 else 0,
           if m.score2 < m.score1 then 1 else 0, m.score2, m.score1)
  }

  /** One line of the table. */
  datatype Row = Row(id: Id, name: string, record: Record) {
    /** Three points for a win, one for a draw. */
    function Points(): int {
      record.wins * 3 + record.draws
    }

    function GoalDifference(): int {
      record.goalsFor - record.goalsAgainst
    }
  }

  function TeamIds(teams: seq<Team>): set<Id> {
    set i | 0 <= i < |teams| :: teams[i].id
  }

  function Ids(rows: seq<Row>): set<Id> {
    set i | 0 <= i < |rows| :: rows[i].id
  }

  predicate DistinctIds(rows: seq<Row>) {
    forall i, j | 0 <= i < j < |rows| :: rows[i].id != rows[j].id
  }

  predicate UniqueTeamIds(teams: seq<Team>) {
    forall i, j | 0 <= i < j < |teams| :: teams[i].id != teams[j].id
  }

  /** A match is counted only when both of its team references resolve. */
  predicate Resolves(ids: set<Id>, m: Match) {
    m.team1Id in ids && m.team2Id in ids
  }

  /** The name of the most recently registered team with id `id`. */
  function LatestName(teams: seq<Team>, id: Id): Option<string> {
    if |teams| == 0 then None
    else if teams[|teams| - 1].id == id then Some(teams[|teams| - 1].name)
    else LatestName(teams[..|teams| - 1], id)
  }

  /** Position of the row keyed `id`: looking a team id up in the key-to-row map. */
  function IndexOf(rows: seq<Row>, id: Id): (r: Option<nat>)
    ensures r.Some? ==> r.value < |rows| && rows[r.value].id == id
    ensures r.None? <==> id !in Ids(rows)
  {
    if |rows| == 0 then None
    else if rows[0].id == id then Some(0)
    else
      assert Ids(rows) == {rows[0].id} + Ids(rows[1..]) by {
        forall x ensures x in Ids(rows) <==> x in {rows[0].id} + Ids(rows[1..]) {
          if x in Ids(rows) && x != rows[0].id {
            var i :| 0 <= i < |rows| && rows[i].id == x;
            assert rows[1..][i - 1].id == x;
          }
        }
      }
      match IndexOf(rows[1..], id)
      case None => None
      case Some(i) => Some(i + 1)
  }

  /** Registering a team in the key-to-row map: a new key goes last; an
      existing key keeps its place and gets a fresh zeroed row under the newer
      name. */
  function Register(rows: seq<Row>, team: Team): seq<Row> {
    match IndexOf(rows, team.id)
    case Some(i) => rows[i := Row(team.id, team.name, Zero)]
    case None => rows + [Row(team.id, team.name, Zero)]
  }

  /** The object built by the first loop of `updateTable`, as the sequence of
      its entries in insertion order. One row per distinct team id, zeroed,
      named after the last team registered under that id. */
  function RegisterAll(teams: seq<Team>): (rows: seq<Row>)
    ensures DistinctIds(rows)
    ensures Ids(rows) == TeamIds(teams)
    ensures forall i | 0 <= i < |rows| :: rows[i].record == Zero
    ensures forall i | 0 <= i < |rows| :: LatestName(teams, rows[i].id) == Some(rows[i].name)
  {
    if |teams| == 0 then []
    else
      var prefix := teams[..|teams| - 1];
      var team := teams[|teams| - 1];
      var rows := RegisterAll(prefix);
      TeamIdsSnoc(teams);
      RegisterIds(rows, team);
      Register(rows, team)
  }

  lemma TeamIdsSnoc(teams: seq<Team>)
    requires |teams| > 0
    ensures TeamIds(teams) == TeamIds(teams[..|teams| - 1]) + {teams[|teams| - 1].id}
  {
    var prefix := teams[..|teams| - 1];
    forall x | x in TeamIds(teams) ensures x in TeamIds(prefix) + {teams[|teams| - 1].id} {
      var i :| 0 <= i < |teams| && teams[i].id == x;
      if i < |teams| - 1 {
        assert prefix[i].id == x;
      }
    }
  }

  lemma RegisterIds(rows: seq<Row>, team: Team)
    ensures Ids(Register(rows, team)) == Ids(rows) + {team.id}
  {
    var r := Register(rows, team);
    forall x | x in Ids(rows) ensures x in Ids(r) {
      var j :| 0 <= j < |rows| && rows[j].id == x;
      assert r[j].id == x;
    }
    if IndexOf(rows, team.id).None? {
      assert r[|rows|].id == team.id;
    }
  }

  /** Adds `d` to the counters of the row at position `i`. */
  function Credit(rows: seq<Row>, i: nat, d: Record): (r: seq<Row>)
    requires i < |rows|
  {
    rows[i := rows[i].(record := Add(rows[i].record, d))]
  }

  /** What match `m` adds to the row of team `t`: the home part when `t` is
      `team1Id`, the away part when `t` is `team2Id`, both when a team was
      entered on both sides. */
  function Contribution(t: Id, m: Match): Record {
    Add(if m.team1Id == t then HomeResult(m) else Zero,
        if m.team2Id == t then AwayResult(m) else Zero)
  }

  /** One iteration of the match loop of `updateTable`. */
  function Apply(rows: seq<Row>, m: Match): (r: seq<Row>)
    ensures |r| == |rows|
    ensures forall i | 0 <= i < |rows| :: r[i].id == rows[i].id && r[i].name == rows[i].name
    ensures !Resolves(Ids(rows), m) ==> r == rows
  {
    match (IndexOf(rows, m.team1Id), IndexOf(rows, m.team2Id))
    case (Some(i1), Some(i2)) => Credit(Credit(rows, i1, HomeResult(m)), i2, AwayResult(m))
    case _ => rows
  }

  /** With distinct keys, a counted match adds to each row exactly that
      team's contribution: rows of other teams are untouched. */
  lemma ApplyCredits(rows: seq<Row>, m: Match)
    requires DistinctIds(rows) && Resolves(Ids(rows), m)
    ensures forall i | 0 <= i < |rows| :: Apply(rows, m)[i].record == Add(rows[i].record, Contribution(rows[i].id, m))
  {
    var i1 := IndexOf(rows, m.team1Id).value;
    var i2 := IndexOf(rows, m.team2Id).value;
    var r1 := Credit(rows, i1, HomeResult(m));
    var r := Credit(r1, i2, AwayResult(m));
    assert Apply(rows, m) == r;
    forall i | 0 <= i < |rows| ensures r[i].record == Add(rows[i].record, Contribution(rows[i].id, m)) {
      var rec := rows[i].record;
      assert rows[i].id == m.team1Id <==> i == i1;
      assert rows[i].id == m.team2Id <==> i == i2;
      if i == i1 && i == i2 {
        assert r[i].record == Add(Add(rec, HomeResult(m)), AwayResult(m));
        AddAssociative(rec, HomeResult(m), AwayResult(m));
      } else if i == i1 {
        assert r[i].record == Add(rec, HomeResult(m));
        AddZero(HomeResult(m));
      } else if i == i2 {
        assert r[i].record == Add(rec, AwayResult(m));
        AddZero(AwayResult(m));
      } else {
        assert r[i].record == rec;
        AddZero(Zero);
        AddZero(rec);
      }
    }
  }

  /** The whole match loop: a left fold of `Apply`. */
  function ApplyAll(rows: seq<Row>, matches: seq<Match>): (r: seq<Row>)
    ensures |r| == |rows|
    ensures forall i | 0 <= i < |rows| :: r[i].id == rows[i].id && r[i].name == rows[i].name
  {
    if |matches| == 0 then rows
    else Apply(ApplyAll(rows, matches[..|matches| - 1]), matches[|matches| - 1])
  }

  /** Reference definition of a team's counters, independent of the table:
      the sum of the contributions of every counted match. */
  function RecordOf(t: Id, ids: set<Id>, matches: seq<Match>): Record {
    if |matches| == 0 then Zero
    else
      var m := matches[|matches| - 1];
      var before := RecordOf(t, ids, matches[..|matches| - 1]);
      if Resolves(ids, m) then Add(before, Contribution(t, m)) else before
  }

  /** Sequences with the same key at every position have the same key set. */
  lemma SameKeys(a: seq<Row>, b: seq<Row>)
    requires |a| == |b| && forall i | 0 <= i < |a| :: a[i].id == b[i].id
    ensures Ids(a) == Ids(b)
    ensures DistinctIds(a) ==> DistinctIds(b)
  {
    forall x | x in Ids(a) ensures x in Ids(b) {
      var i :| 0 <= i < |a| && a[i].id == x;
      assert b[i].id == x;
    }
  }

  /** The match loop leaves every row holding its initial counters plus the
      reference counters of its team. */
  lemma {:induction false} ApplyAllRecords(rows: seq<Row>, matches: seq<Match>)
    requires DistinctIds(rows)
    ensures forall i | 0 <= i < |rows| ::
      ApplyAll(rows, matches)[i].record == Add(rows[i].record, RecordOf(rows[i].id, Ids(rows), matches))
  {
    if |matches| == 0 {
      forall i | 0 <= i < |rows| ensures rows[i].record == Add(rows[i].record, Zero) {
        AddZero(rows[i].record);
      }
    } else {
      var prefix := matches[..|matches| - 1];
      var m := matches[|matches| - 1];
      var prev := ApplyAll(rows, prefix);
      ApplyAllRecords(rows, prefix);
      SameKeys(rows, prev);
      if Resolves(Ids(rows), m) {
        ApplyCredits(prev, m);
        forall i | 0 <= i < |rows| ensures ApplyAll(rows, matches)[i].record
                                        == Add(rows[i].record, RecordOf(rows[i].id, Ids(rows), matches)) {
          AddAssociative(rows[i].record, RecordOf(rows[i].id, Ids(rows), prefix), Contribution(rows[i].id, m));
        }
      }
    }
  }

  /** Keys that are array indices (canonical numerals below 2^32 - 1): a
      JavaScript object enumerates these first, in ascending numeric order. */
  predicate IsArrayIndex(id: Id) {
    0 <= id < 0xFFFF_FFFF
  }

  predicate IndexKeyed(row: Row) {
    IsArrayIndex(row.id)
  }

  predicate NameKeyed(row: Row) {
    !IsArrayIndex(row.id)
  }

  /** Sort key that puts smaller ids first. */
  function AscendingId(row: Row): Rank {
    Rank(-row.id, 0)
  }

  /** `Object.values(teamsMap)`: the array-index keys in ascending order, then
      every other key in insertion order. */
  function PropertyOrder(rows: seq<Row>): (r: seq<Row>)
    ensures multiset(r) == multiset(rows)
    ensures |r| == |rows|
    ensures forall i, j | 0 <= i < j < |r| && IndexKeyed(r[j]) :: IndexKeyed(r[i]) && r[i].id <= r[j].id
    ensures Filter(r, NameKeyed) == Filter(rows, NameKeyed)
  {
    var indexed := Sort(Filter(rows, IndexKeyed), AscendingId);
    var named := Filter(rows, NameKeyed);
    FilterContents(rows, IndexKeyed);
    FilterContents(rows, NameKeyed);
    PartitionByKeyKind(rows);
    SortedIndexKeys(indexed, named, Filter(rows, IndexKeyed));
    NamedKeysInInsertionOrder(indexed, rows);
    indexed + named
  }

  /** Behind the sorted array-index keys, the other keys keep their order. */
  lemma NamedKeysInInsertionOrder(indexed: seq<Row>, rows: seq<Row>)
    requires forall x | x in indexed :: IndexKeyed(x)
    ensures Filter(indexed + Filter(rows, NameKeyed), NameKeyed) == Filter(rows, NameKeyed)
  {
    FilterConcat(indexed, Filter(rows, NameKeyed), NameKeyed);
    FilterNone(indexed, NameKeyed);
    FilterIdempotent(rows, NameKeyed);
  }

  /** Array-index keys and the other keys together are all the keys. */
  lemma PartitionByKeyKind(rows: seq<Row>)
    ensures multiset(Filter(rows, IndexKeyed)) + multiset(Filter(rows, NameKeyed)) == multiset(rows)
  {
    var indexed := Filter(rows, IndexKeyed);
    var named := Filter(rows, NameKeyed);
    FilterContents(rows, IndexKeyed);
    FilterContents(rows, NameKeyed);
    forall x ensures (multiset(indexed) + multiset(named))[x] == multiset(rows)[x] {
    }
  }

  lemma SortedIndexKeys(indexed: seq<Row>, named: seq<Row>, source: seq<Row>)
    requires indexed == Sort(source, AscendingId)
    requires forall x | x in source :: IndexKeyed(x)
    requires forall x | x in named :: NameKeyed(x)
    ensures var r := indexed + named;
      forall i, j | 0 <= i < j < |r| && IndexKeyed(r[j]) :: IndexKeyed(r[i]) && r[i].id <= r[j].id
  {
    var r := indexed + named;
    forall i | 0 <= i < |indexed| ensures IndexKeyed(indexed[i]) {
      assert indexed[i] in multiset(source);
    }
    forall j | |indexed| <= j < |r| ensures NameKeyed(r[j]) {
      assert r[j] == named[j - |indexed|];
    }
    forall i, j | 0 <= i < j < |r| && IndexKeyed(r[j]) ensures IndexKeyed(r[i]) && r[i].id <= r[j].id {
      assert r[i] == indexed[i] && r[j] == indexed[j];
    }
  }

  /** When no team id is an array index, as with the time-based ids the
      application generates, enumeration order is insertion order. */
  lemma PropertyOrderOfNamedKeys(rows: seq<Row>)
    requires forall i | 0 <= i < |rows| :: !IsArrayIndex(rows[i].id)
    ensures PropertyOrder(rows) == rows
  {
    FilterAll(rows, NameKeyed);
  }

  /** The sort key of the table: points, then goal difference. */
  function StandingKey(row: Row): Rank {
    Rank(row.Points(), row.GoalDifference())
  }

  /** The table before sorting, in registration order of the team ids. */
  function Aggregate(teams: seq<Team>, matches: seq<Match>): seq<Row> {
    ApplyAll(RegisterAll(teams), matches)
  }

  /** `updateTable`: the ranked league table. */
  function Table(teams: seq<Team>, matches: seq<Match>): (table: seq<Row>)
    ensures multiset(table) == multiset(Aggregate(teams, matches))
    ensures forall i, j | 0 <= i < j < |table| :: table[i].Points() >= table[j].Points()
    ensures forall i, j | 0 <= i < j < |table| && table[i].Points() == table[j].Points() ::
      table[i].GoalDifference() >= table[j].GoalDifference()
  {
    Sort(PropertyOrder(Aggregate(teams, matches)), StandingKey)
  }

  /** Every counter record built from match results is consistent. */
  lemma {:induction false} RecordOfConsistent(t: Id, ids: set<Id>, matches: seq<Match>)
    ensures Consistent(RecordOf(t, ids, matches))
  {
    if |matches| > 0 {
      RecordOfConsistent(t, ids, matches[..|matches| - 1]);
    }
  }

  /** A team that appears in no counted match keeps an all-zero record. */
  lemma {:induction false} IdleTeamIsZero(t: Id, ids: set<Id>, matches: seq<Match>)
    requires forall m | m in matches && Resolves(ids, m) :: m.team1Id != t && m.team2Id != t
    ensures RecordOf(t, ids, matches) == Zero
  {
    if |matches| > 0 {
      var prefix := matches[..|matches| - 1];
      var m := matches[|matches| - 1];
      forall m' | m' in prefix && Resolves(ids, m') ensures m'.team1Id != t && m'.team2Id != t {
        var k :| 0 <= k < |prefix| && prefix[k] == m';
        assert matches[k] == m';
      }
      IdleTeamIsZero(t, ids, prefix);
      if Resolves(ids, m) {
        assert m in matches;
        assert Contribution(t, m) == Zero by {
          AddZero(Zero);
        }
        AddZero(Zero);
      }
    }
  }

  /** With unique team ids the initial table is exactly one zeroed row per
      team, in registration order. */
  lemma {:induction false} RegisterAllUnique(teams: seq<Team>)
    requires UniqueTeamIds(teams)
    ensures |RegisterAll(teams)| == |teams|
    ensures forall i | 0 <= i < |teams| :: RegisterAll(teams)[i] == Row(teams[i].id, teams[i].name, Zero)
  {
    if |teams| > 0 {
      var prefix := teams[..|teams| - 1];
      var team := teams[|teams| - 1];
      RegisterAllUnique(prefix);
      var rows := RegisterAll(prefix);
      assert team.id !in TeamIds(prefix) by {
        forall i | 0 <= i < |prefix| ensures prefix[i].id != team.id {
          assert prefix[i] == teams[i];
        }
      }
      assert IndexOf(rows, team.id).None?;
    }
  }

  /** Two positions of `b` are matched by two different positions of any
      reordering `a` of it. */
  lemma MatchingPositions(a: seq<Row>, b: seq<Row>, i: nat, j: nat) returns (p: nat, q: nat)
    requires multiset(a) == multiset(b) && i < j < |b|
    ensures p < |a| && q < |a| && p != q && a[p] == b[i] && a[q] == b[j]
  {
    assert b[i] in multiset(a) && b[j] in multiset(a);
    if b[i] != b[j] {
      p :| 0 <= p < |a| && a[p] == b[i];
      q :| 0 <= q < |a| && a[q] == b[j];
    } else {
      var x := b[i];
      assert b == b[..j] + b[j..];
      assert x in b[..j] && x == b[j..][0];
      assert multiset(b)[x] == multiset(b[..j])[x] + multiset(b[j..])[x];
      p :| 0 <= p < |a| && a[p] == x;
      assert a == a[..p] + [x] + a[p + 1..];
      assert multiset(a)[x] == multiset(a[..p])[x] + 1 + multiset(a[p + 1..])[x];
      if x in a[..p] {
        q :| 0 <= q < p && a[..p][q] == x;
      } else {
        assert x in a[p + 1..];
        var k :| 0 <= k < |a[p + 1..]| && a[p + 1..][k] == x;
        q := p + 1 + k;
      }
    }
  }

  /** Reordering keeps keys distinct. */
  lemma DistinctIdsPermutation(a: seq<Row>, b: seq<Row>)
    requires multiset(a) == multiset(b) && DistinctIds(a)
    ensures DistinctIds(b)
  {
    forall i, j | 0 <= i < j < |b| ensures b[i].id != b[j].id {
      var p, q := MatchingPositions(a, b, i, j);
      if p < q {
        assert a[p].id != a[q].id;
      } else {
        assert a[q].id != a[p].id;
      }
    }
  }

  /** Reordering keeps the key set. */
  lemma IdsPermutation(a: seq<Row>, b: seq<Row>)
    requires multiset(a) == multiset(b)
    ensures Ids(a) == Ids(b)
  {
    forall x | x in Ids(a) ensures x in Ids(b) {
      var i :| 0 <= i < |a| && a[i].id == x;
      assert a[i] in multiset(b);
      var j :| 0 <= j < |b| && b[j] == a[i];
    }
    forall x | x in Ids(b) ensures x in Ids(a) {
      var i :| 0 <= i < |b| && b[i].id == x;
      assert b[i] in multiset(a);
      var j :| 0 <= j < |a| && a[j] == b[i];
    }
  }

  /** A row of the unsorted table holds its team's reference counters and
      the name of the last team registered under its id. */
  lemma AggregateRow(teams: seq<Team>, matches: seq<Match>, j: nat)
    requires j < |Aggregate(teams, matches)|
    ensures var row := Aggregate(teams, matches)[j];
      && row.record == RecordOf(row.id, TeamIds(teams), matches)
      && Consistent(row.record)
      && LatestName(teams, row.id) == Some(row.name)
  {
    var rows := RegisterAll(teams);
    ApplyAllRecords(rows, matches);
    AddZero(RecordOf(rows[j].id, Ids(rows), matches));
    RecordOfConsistent(rows[j].id, TeamIds(teams), matches);
  }

  /** The contents of the table: exactly one row per distinct team id, each
      named after the last team registered under that id and holding the
      reference counters of that team, with every game counted once as a win,
      a draw or a loss. */
  lemma TableRows(teams: seq<Team>, matches: seq<Match>)
    ensures var table := Table(teams, matches);
      && DistinctIds(table)
      && Ids(table) == TeamIds(teams)
      && forall i | 0 <= i < |table| ::
           && table[i].record == RecordOf(table[i].id, TeamIds(teams), matches)
           && Consistent(table[i].record)
           && LatestName(teams, table[i].id) == Some(table[i].name)
  {
    var rows := RegisterAll(teams);
    var agg := Aggregate(teams, matches);
    var table := Table(teams, matches);
    SameKeys(rows, agg);
    DistinctIdsPermutation(agg, table);
    IdsPermutation(agg, table);
    forall i | 0 <= i < |table|
      ensures && table[i].record == RecordOf(table[i].id, TeamIds(teams), matches)
              && Consistent(table[i].record)
              && LatestName(teams, table[i].id) == Some(table[i].name)
    {
      assert table[i] in multiset(agg);
      var j :| 0 <= j < |agg| && agg[j] == table[i];
      AggregateRow(teams, matches, j);
    }
  }

  /** With unique team ids the table has exactly one row per team. */
  lemma TableSize(teams: seq<Team>, matches: seq<Match>)
    requires UniqueTeamIds(teams)
    ensures |Table(teams, matches)| == |teams|
  {
    RegisterAllUnique(teams);
  }

  /** A team that appears in no counted match has an all-zero row and no
      points. */
  lemma IdleTeamRow(teams: seq<Team>, matches: seq<Match>, i: nat)
    requires i < |Table(teams, matches)|
    requires forall m | m in matches && Resolves(TeamIds(teams), m) ::
      m.team1Id != Table(teams, matches)[i].id && m.team2Id != Table(teams, matches)[i].id
    ensures Table(teams, matches)[i].record == Zero
    ensures Table(teams, matches)[i].Points() == 0
  {
    TableRows(teams, matches);
    IdleTeamIsZero(Table(teams, matches)[i].id, TeamIds(teams), matches);
  }

  /** Recording a match with an unresolved team reference changes no row. */
  lemma OrphanMatchIgnored(teams: seq<Team>, matches: seq<Match>, m: Match)
    requires !Resolves(TeamIds(teams), m)
    ensures Table(teams, matches + [m]) == Table(teams, matches)
  {
    var rows := RegisterAll(teams);
    assert (matches + [m])[..|matches|] == matches;
    SameKeys(rows, ApplyAll(rows, matches));
  }

  /** Stability: rows that tie on both points and goal difference keep the
      order in which the team object enumerates them. */
  lemma TableKeepsTies(teams: seq<Team>, matches: seq<Match>, k: Rank)
    ensures Ties(Table(teams, matches), StandingKey, k) == Ties(PropertyOrder(Aggregate(teams, matches)), StandingKey, k)
  {
    SortKeepsTies(PropertyOrder(Aggregate(teams, matches)), StandingKey, k);
  }

  /** With unique ids that are not array indices (the ids `generateId`
      produces are), rows tying on points and goal difference appear in team
      registration order. */
  lemma TiesInRegistrationOrder(teams: seq<Team>, matches: seq<Match>, k: Rank)
    requires UniqueTeamIds(teams)
    requires forall i | 0 <= i < |teams| :: !IsArrayIndex(teams[i].id)
    ensures |Aggregate(teams, matches)| == |teams|
    ensures forall i | 0 <= i < |teams| ::
      Aggregate(teams, matches)[i].id == teams[i].id && Aggregate(teams, matches)[i].name == teams[i].name
    ensures Ties(Table(teams, matches), StandingKey, k) == Ties(Aggregate(teams, matches), StandingKey, k)
  {
    RegisterAllUnique(teams);
    PropertyOrderOfNamedKeys(Aggregate(teams, matches));
    TableKeepsTies(teams, matches, k);
  }
}
