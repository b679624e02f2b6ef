/** Conservation laws of the league table: summed over all rows, every
    counted match adds one win and one loss or two draws, two games played,
    and as many goals for as goals against. */
module TableTotals {
  import opened League
  import opened Standings

  /** The column sums of a table. */
  function TotalOf(rows: seq<Row>): Record {
    if |rows| == 0 then Zero else Add(rows[0].record, TotalOf(rows[1..]))
  }

  /** What a counted match adds to the column sums. */
  function Both(m: Match): Record {
    Add(HomeResult(m), AwayResult(m))
  }

  /** Reference column sums: the sum of `Both` over the counted matches. */
  function MatchTotals(ids: set<Id>, matches: seq<Match>): Record {
    if |matches| == 0 then Zero
    else
      var m := matches[|matches| - 1];
      var before := MatchTotals(ids, matches[..|matches| - 1]);
      if Resolves(ids, m) then Add(before, Both(m)) else before
  }

  /** Number of counted matches. */
  function ResolvedCount(ids: set<Id>, matches: seq<Match>): nat {
    if |matches| == 0 then 0
    else
      var m := matches[|matches| - 1];
      ResolvedCount(ids, matches[..|matches| - 1]) + if Resolves(ids, m) then 1 else 0
  }

  /** Number of counted matches that have a winner. */
  function DecisiveCount(ids: set<Id>, matches: seq<Match>): nat {
    if |matches| == 0 then 0
    else
      var m := matches[|matches| - 1];
      DecisiveCount(ids, matches[..|matches| - 1]) + if Resolves(ids, m) && m.score1 != m.score2 then 1 else 0
  }

  lemma {:induction false} TotalOfConcat(a: seq<Row>, b: seq<Row>)
    ensures TotalOf(a + b) == Add(TotalOf(a), TotalOf(b))
  {
    if |a| == 0 {
      assert a + b == b;
      AddZero(TotalOf(b));
    } else {
      var ab := a + b;
      assert TotalOf(ab) == Add(a[0].record, TotalOf(a[1..] + b)) by {
        assert ab[0] == a[0];
        assert ab[1..] == a[1..] + b;
      }
      TotalOfConcat(a[1..], b);
      AddAssociative(a[0].record, TotalOf(a[1..]), TotalOf(b));
    }
  }

  lemma RemoveAtMultiset(b: seq<Row>, j: nat)
    requires j < |b|
    ensures multiset(b[..j] + b[j + 1..]) == multiset(b) - multiset{b[j]}
  {
    assert b == b[..j] + [b[j]] + b[j + 1..];
  }

  lemma TotalOfRemoveAt(b: seq<Row>, j: nat)
    requires j < |b|
    ensures TotalOf(b) == Add(b[j].record, TotalOf(b[..j] + b[j + 1..]))
  {
    var x := b[j];
    var pre, suf := b[..j], b[j + 1..];
    assert pre + ([x] + suf) == b;
    assert ([x] + suf)[1..] == suf;
    assert TotalOf([x] + suf) == Add(x.record, TotalOf(suf));
    TotalOfConcat(pre, [x] + suf);
    TotalOfConcat(pre, suf);
    AddSwap(TotalOf(pre), x.record, TotalOf(suf));
  }

  lemma AddSwap(a: Record, b: Record, c: Record)
    ensures Add(a, Add(b, c)) == Add(b, Add(a, c))
  {
  }

  /** Column sums do not depend on the order of the rows. */
  lemma {:induction false} TotalOfPermutation(a: seq<Row>, b: seq<Row>)
    requires multiset(a) == multiset(b)
    ensures TotalOf(a) == TotalOf(b)
    decreases |a|
  {
    if |a| == 0 {
      assert |multiset(b)| == 0;
    } else {
      var x := a[0];
      assert x in multiset(b);
      var j :| 0 <= j < |b| && b[j] == x;
      var rest := b[..j] + b[j + 1..];
      RemoveAtMultiset(b, j);
      assert a == [x] + a[1..];
      assert multiset(a[1..]) == multiset(a) - multiset{x};
      TotalOfPermutation(a[1..], rest);
      TotalOfRemoveAt(b, j);
    }
  }

  /** Crediting one row raises the column sums by the credit. */
  lemma {:induction false} TotalOfCredit(rows: seq<Row>, i: nat, d: Record)
    requires i < |rows|
    ensures TotalOf(Credit(rows, i, d)) == Add(TotalOf(rows), d)
  {
    var r := Credit(rows, i, d);
    if i == 0 {
      assert r[1..] == rows[1..];
    } else {
      TotalOfCredit(rows[1..], i - 1, d);
      assert r[1..] == Credit(rows[1..], i - 1, d);
      AddAssociative(rows[0].record, TotalOf(rows[1..]), d);
    }
  }

  /** The match loop raises the column sums by the reference sums. */
  lemma {:induction false} TotalOfApplyAll(rows: seq<Row>, matches: seq<Match>)
    ensures TotalOf(ApplyAll(rows, matches)) == Add(TotalOf(rows), MatchTotals(Ids(rows), matches))
  {
    if |matches| == 0 {
      AddZero(TotalOf(rows));
    } else {
      var prefix := matches[..|matches| - 1];
      var m := matches[|matches| - 1];
      var prev := ApplyAll(rows, prefix);
      TotalOfApplyAll(rows, prefix);
      SameKeys(rows, prev);
      if Resolves(Ids(rows), m) {
        var i1 := IndexOf(prev, m.team1Id).value;
        var i2 := IndexOf(prev, m.team2Id).value;
        var r1 := Credit(prev, i1, HomeResult(m));
        TotalOfCredit(prev, i1, HomeResult(m));
        TotalOfCredit(r1, i2, AwayResult(m));
        AddAssociative(TotalOf(prev), HomeResult(m), AwayResult(m));
        AddAssociative(TotalOf(rows), MatchTotals(Ids(rows), prefix), Both(m));
      }
    }
  }

  /** Every counted match adds two games, one win and one loss or two draws,
      and equal goals for and against. */
  lemma {:induction false} MatchTotalsBalance(ids: set<Id>, matches: seq<Match>)
    ensures var t := MatchTotals(ids, matches);
      && t.played == 2 * ResolvedCount(ids, matches)
      && t.wins == DecisiveCount(ids, matches)
      && t.losses == DecisiveCount(ids, matches)
      && t.draws == 2 * (ResolvedCount(ids, matches) - DecisiveCount(ids, matches))
      && t.draws % 2 == 0
      && t.goalsFor == t.goalsAgainst
  {
    if |matches| > 0 {
      MatchTotalsBalance(ids, matches[..|matches| - 1]);
    }
  }

  lemma {:induction false} TotalOfZeroRows(rows: seq<Row>)
    requires forall r | r in rows :: r.record == Zero
    ensures TotalOf(rows) == Zero
  {
    if |rows| > 0 {
      assert rows[0] in rows;
      assert forall r | r in rows[1..] :: r in rows;
      TotalOfZeroRows(rows[1..]);
    }
  }

  /** The column sums of the unsorted table are the reference sums. */
  lemma AggregateTotal(teams: seq<Team>, matches: seq<Match>)
    ensures TotalOf(Aggregate(teams, matches)) == MatchTotals(TeamIds(teams), matches)
  {
    var rows := RegisterAll(teams);
    TotalOfZeroRows(rows);
    TotalOfApplyAll(rows, matches);
    AddZero(MatchTotals(TeamIds(teams), matches));
  }

  /** Across the whole league table: total wins equal total losses and the
      number of counted matches with a winner; total draws are even, twice
      the number of counted draws; total goals for equal total goals against;
      every counted match is two games played. */
  lemma TableConservation(teams: seq<Team>, matches: seq<Match>)
    ensures var t := TotalOf(Table(teams, matches));
      && t.wins == t.losses
      && t.wins == DecisiveCount(TeamIds(teams), matches)
      && t.draws % 2 == 0
      && t.draws == 2 * (ResolvedCount(TeamIds(teams), matches) - DecisiveCount(TeamIds(teams), matches))
      && t.goalsFor == t.goalsAgainst
      && t.played == 2 * ResolvedCount(TeamIds(teams), matches)
  {
    var ids := TeamIds(teams);
    assert TotalOf(Table(teams, matches)) == MatchTotals(ids, matches) by {
      AggregateTotal(teams, matches);
      TotalOfPermutation(Aggregate(teams, matches), Table(teams, matches));
    }
    MatchTotalsBalance(ids, matches);
  }
}
