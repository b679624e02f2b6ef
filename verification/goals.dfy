/** Recording a match (`saveGoalsForMatch`): the per-player goal counts typed
    into the modal are summed per side and compared with the score; on a
    match, the counts are flattened into the match's goal list (each player id
    repeated once per goal) and the match is appended to the store.

    Every field value is an already-parsed integer. A field that does not parse
    (`NaN`) is represented by 0: the sum falls back to 0 for it, and a loop
    bounded by `NaN` runs no iteration, exactly as for 0. The same
    holds for a player id attribute: `NaN` and 0 are both skipped. */
module GoalAttribution {
  import opened Seqs
  import opened League

  /** One goal-count field: the player id it belongs to and the count typed. */
  datatype GoalEntry = GoalEntry(playerId: Id, count: int)

  /** The score recorded in the first step of the dialog. */
  datatype PendingMatch = PendingMatch(team1Id: Id, team2Id: Id, score1: int, score2: int)

  datatype GoalError =
    | TotalsMismatch(homeTotal: int, awayTotal: int)  // a side's counts do not add up to its score
    | NegativeCount(playerId: Id)                     // a count below zero was submitted

  /** Outcome of the check: the goal list of the new match, or why it was refused. */
  datatype Verdict = Accepted(goals: seq<Id>) | Rejected(error: GoalError)

  /** The sum of the counts typed into the fields of one side. */
  function SubmittedTotal(entries: seq<GoalEntry>): int {
    if |entries| == 0 then 0 else entries[0].count + SubmittedTotal(entries[1..])
  }

  /** The builder skips fields whose player id is `NaN` or not positive. */
  predicate ValidPlayerId(pid: Id) {
    pid > 0
  }

  /** The goals one field pushes: the player id `n` times, none when `n` is
      not positive. */
  function Repeat(pid: Id, n: int): (r: seq<Id>)
    ensures |r| == if n > 0 then n else 0
    ensures forall i | 0 <= i < |r| :: r[i] == pid
    decreases n
  {
    if n <= 0 then [] else [pid] + Repeat(pid, n - 1)
  }

  /** The goals one field contributes to the list. */
  function Pushed(e: GoalEntry): seq<Id> {
    if ValidPlayerId(e.playerId) then Repeat(e.playerId, e.count) else []
  }

  /** The builder loop over the fields of one side, in field order. */
  function GoalList(entries: seq<GoalEntry>): seq<Id> {
    if |entries| == 0 then [] else Pushed(entries[0]) + GoalList(entries[1..])
  }

  /** Reference count: the goals the fields of `entries` credit to `pid`. A
      field credits nothing when its id is invalid or its count not positive. */
  function GoalsCredited(entries: seq<GoalEntry>, pid: Id): int {
    if |entries| == 0 then 0
    else
      var e := entries[0];
      (if e.playerId == pid && ValidPlayerId(pid) && e.count > 0 then e.count else 0)
        + GoalsCredited(entries[1..], pid)
  }

  predicate NoNegativeCount(entries: seq<GoalEntry>) {
    forall e | e in entries :: e.count >= 0
  }

  predicate AllIdsValid(entries: seq<GoalEntry>) {
    forall e | e in entries :: ValidPlayerId(e.playerId)
  }

  lemma {:induction false} RepeatCounts(pid: Id, n: int, x: Id)
    ensures multiset(Repeat(pid, n))[x] == if x == pid && n > 0 then n else 0
    decreases n
  {
    if n > 0 {
      RepeatCounts(pid, n - 1, x);
    }
  }

  /** The built list holds each player id exactly as often as its fields
      credit it; invalid ids never occur. */
  lemma {:induction false} GoalListCounts(entries: seq<GoalEntry>, pid: Id)
    ensures multiset(GoalList(entries))[pid] == GoalsCredited(entries, pid)
  {
    if |entries| > 0 {
      var e := entries[0];
      GoalListCounts(entries[1..], pid);
      if ValidPlayerId(e.playerId) {
        RepeatCounts(e.playerId, e.count, pid);
      }
    }
  }

  /** With non-negative counts and valid ids, the built list has exactly as
      many goals as the side's total. */
  lemma {:induction false} GoalListLength(entries: seq<GoalEntry>)
    requires NoNegativeCount(entries) && AllIdsValid(entries)
    ensures |GoalList(entries)| == SubmittedTotal(entries)
  {
    if |entries| > 0 {
      assert entries[0] in entries;
      assert forall e | e in entries[1..] :: e in entries;
      GoalListLength(entries[1..]);
    }
  }

  lemma BothSidesLength(home: seq<GoalEntry>, away: seq<GoalEntry>)
    requires NoNegativeCount(home) && NoNegativeCount(away)
    ensures AllIdsValid(home) && AllIdsValid(away) ==>
      |GoalList(home) + GoalList(away)| == SubmittedTotal(home) + SubmittedTotal(away)
  {
    if AllIdsValid(home) && AllIdsValid(away) {
      GoalListLength(home);
      GoalListLength(away);
    }
  }

  /** The first field of `entries` with a negative count, if any. */
  function FirstNegative(entries: seq<GoalEntry>): (r: Option<GoalEntry>)
    ensures r.None? <==> NoNegativeCount(entries)
    ensures r.Some? ==> r.value in entries && r.value.count < 0
  {
    if |entries| == 0 then None
    else if entries[0].count < 0 then Some(entries[0])
    else
      var r := FirstNegative(entries[1..]);
      assert forall e | e in entries :: e == entries[0] || e in entries[1..];
      r
  }

  /** The check and the builder of `saveGoalsForMatch` as written: a match is
      accepted when the summed counts equal the score on both sides, and a
      negative count, though added to the sum, pushes no goal. */
  function CheckAndBuildAsWritten(pending: PendingMatch, home: seq<GoalEntry>, away: seq<GoalEntry>): (v: Verdict)
    ensures v.Accepted? <==> SubmittedTotal(home) == pending.score1 && SubmittedTotal(away) == pending.score2
    ensures v.Accepted? ==> forall pid :: multiset(v.goals)[pid] == GoalsCredited(home, pid) + GoalsCredited(away, pid)
  {
    var homeTotal := SubmittedTotal(home);
    var awayTotal := SubmittedTotal(away);
    if homeTotal != pending.score1 || awayTotal != pending.score2 then
      Rejected(TotalsMismatch(homeTotal, awayTotal))
    else
      var goals := GoalList(home) + GoalList(away);
      assert forall pid :: multiset(goals)[pid] == GoalsCredited(home, pid) + GoalsCredited(away, pid) by {
        forall pid ensures multiset(goals)[pid] == GoalsCredited(home, pid) + GoalsCredited(away, pid) {
          GoalListCounts(home, pid);
          GoalListCounts(away, pid);
        }
      }
      Accepted(goals)
  }

  /** A home count of -1 next to a count of 3 sums to the recorded 2 goals, so
      the match is accepted, but the goal list built for it holds 3 goals. */
  lemma NegativeCountBreaksScore()
    ensures var pending := PendingMatch(1, 2, 2, 0);
      var v := CheckAndBuildAsWritten(pending, [GoalEntry(7, 3), GoalEntry(8, -1)], []);
      v.Accepted? && |v.goals| == 3 && |v.goals| != pending.score1 + pending.score2
  {
    var home := [GoalEntry(7, 3), GoalEntry(8, -1)];
    var tail := [GoalEntry(8, -1)];
    assert home[1..] == tail;
    assert tail[1..] == [];
    assert SubmittedTotal(tail) == -1;
    assert SubmittedTotal(home) == 2;
    assert GoalList(tail) == [];
    assert |Repeat(7, 3)| == 3;
    assert |GoalList(home)| == 3;
    assert GoalList([]) == [];
  }

  /** The check as intended: on top of the sums, a negative count is refused
      instead of being silently added. */
  function CheckAndBuild(pending: PendingMatch, home: seq<GoalEntry>, away: seq<GoalEntry>): (v: Verdict)
    ensures v.Accepted? <==>
      && SubmittedTotal(home) == pending.score1 && SubmittedTotal(away) == pending.score2
      && NoNegativeCount(home) && NoNegativeCount(away)
    ensures v.Accepted? ==> forall pid :: multiset(v.goals)[pid] == GoalsCredited(home, pid) + GoalsCredited(away, pid)
    ensures v.Accepted? && AllIdsValid(home) && AllIdsValid(away) ==> |v.goals| == pending.score1 + pending.score2
  {
    var homeTotal := SubmittedTotal(home);
    var awayTotal := SubmittedTotal(away);
    if homeTotal != pending.score1 || awayTotal != pending.score2 then
      Rejected(TotalsMismatch(homeTotal, awayTotal))
    else
      match FirstNegative(home + away)
      case Some(e) =>
        assert e in home || e in away;
        Rejected(NegativeCount(e.playerId))
      case None =>
        assert forall e | e in home :: e in home + away;
        assert forall e | e in away :: e in home + away;
        BothSidesLength(home, away);
        CheckAndBuildAsWritten(pending, home, away)
  }

  /** The store after pressing "save": the new match and no error, or the
      untouched store and the reason. */
  datatype Saved = Saved(store: Store, error: Option<GoalError>)

  /** `after` is `before` with exactly one match appended: the one with the
      fresh id, the pending teams and score, and a goal list crediting every
      player as the submitted fields do. */
  ghost predicate AppendsMatch(before: Store, after: Store, pending: PendingMatch,
                               home: seq<GoalEntry>, away: seq<GoalEntry>, newId: Id) {
    && after.teams == before.teams && after.players == before.players
    && |after.matches| == |before.matches| + 1
    && after.matches[..|before.matches|] == before.matches
    && var m := after.matches[|before.matches|];
       && m.id == newId && m.team1Id == pending.team1Id && m.team2Id == pending.team2Id
       && m.score1 == pending.score1 && m.score2 == pending.score2
       && forall pid :: multiset(m.goals)[pid] == GoalsCredited(home, pid) + GoalsCredited(away, pid)
  }

  /** Stores the match a verdict accepts, or reports why it was refused. */
  function Commit(s: Store, pending: PendingMatch, v: Verdict, newId: Id): Saved {
    match v
    case Rejected(error) => Saved(s, Some(error))
    case Accepted(goals) =>
      var m := Match(newId, pending.team1Id, pending.team2Id, pending.score1, pending.score2, goals);
      Saved(Store(s.teams, s.players, s.matches + [m]), None)
  }

  /** `saveGoalsForMatch` as written: the save is refused exactly when a
      side's summed counts differ from its score, and otherwise the match is
      appended. `newId` stands for the fresh `generateId()` value. */
  function SaveGoalsAsWritten(s: Store, pending: PendingMatch, home: seq<GoalEntry>, away: seq<GoalEntry>, newId: Id): (r: Saved)
    ensures r.error.Some? <==> SubmittedTotal(home) != pending.score1 || SubmittedTotal(away) != pending.score2
    ensures r.error.Some? ==> r.store == s
    ensures r.error.None? ==> AppendsMatch(s, r.store, pending, home, away, newId)
  {
    Commit(s, pending, CheckAndBuildAsWritten(pending, home, away), newId)
  }

  /** The save with the intended check: a negative count is refused as well,
      so every stored match with valid player ids has as many goals as its
      score says. */
  function SaveGoals(s: Store, pending: PendingMatch, home: seq<GoalEntry>, away: seq<GoalEntry>, newId: Id): (r: Saved)
    ensures r.error.Some? <==>
      || SubmittedTotal(home) != pending.score1 || SubmittedTotal(away) != pending.score2
      || !NoNegativeCount(home) || !NoNegativeCount(away)
    ensures r.error.Some? ==> r.store == s
    ensures r.error.None? ==> AppendsMatch(s, r.store, pending, home, away, newId)
    ensures r.error.None? && AllIdsValid(home) && AllIdsValid(away) ==>
      |r.store.matches[|s.matches|].goals| == pending.score1 + pending.score2
  {
    Commit(s, pending, CheckAndBuild(pending, home, away), newId)
  }

  /** As written, the 2-0 match with home counts 3 and -1 is stored with three
      goals; the intended save refuses it, naming the negative field. */
  lemma NegativeCountIsSaved(s: Store, newId: Id)
    ensures var pending := PendingMatch(1, 2, 2, 0);
      var home := [GoalEntry(7, 3), GoalEntry(8, -1)];
      var r := SaveGoalsAsWritten(s, pending, home, [], newId);
      && r.error.None?
      && |r.store.matches[|s.matches|].goals| == 3
      && SaveGoals(s, pending, home, [], newId) == Saved(s, Some(NegativeCount(8)))
  {
    var home := [GoalEntry(7, 3), GoalEntry(8, -1)];
    NegativeCountBreaksScore();
    assert home + [] == home;
    assert home[1..] == [GoalEntry(8, -1)];
    assert FirstNegative(home) == Some(GoalEntry(8, -1));
  }

  /** Without negative counts the intended save and the save as written agree. */
  lemma SavesAgreeWithoutNegatives(s: Store, pending: PendingMatch, home: seq<GoalEntry>, away: seq<GoalEntry>, newId: Id)
    requires NoNegativeCount(home) && NoNegativeCount(away)
    ensures SaveGoals(s, pending, home, away, newId) == SaveGoalsAsWritten(s, pending, home, away, newId)
  {
    assert CheckAndBuild(pending, home, away) == CheckAndBuildAsWritten(pending, home, away);
  }
}
