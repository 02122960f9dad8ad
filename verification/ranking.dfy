/**
 The leaderboard: an optional exact-match team filter, a descending sort on
 one metric, and the first N rows. The script sorts with pandas' default
 (non-stable) sort, so the order among rows with equal metric values is
 left unspecified here; the contracts speak only of sortedness, of which
 rows are kept, and of the metric column, which does not depend on ties.
 */
module Ranking {

  import opened Season
  import opened Seqs
  import opened Sorting
  import Selectors

  /** Bounds of the "Top N jugadores" slider. */
  const MinTop: int := 5
  const MaxTop: int := 30

  function MinOf(a: int, b: int): int
  {
    if a <= b then a else b
  }

  /** The rows of team `team`, or every row for the "all teams" sentinel. */
  function FilterTeam(t: seq<StatRow>, team: string): (r: seq<StatRow>)
    ensures team == Selectors.AllTeams ==> r == t
    ensures Subseq(r, t)
    ensures team != Selectors.AllTeams ==> forall i | 0 <= i < |r| :: r[i].raw.team == team
    ensures forall x: StatRow | x.raw.team == team :: multiset(r)[x] == multiset(t)[x]
  {
    if team == Selectors.AllTeams then
      SubseqRefl(t);
      t
    else
      var p := (x: StatRow) => x.raw.team == team;
      FilterCounts(t, p);
      Filter(t, p)
  }

  lemma {:induction false} SubseqRefl<T>(s: seq<T>)
    ensures Subseq(s, s)
    decreases |s|
  {
    if s != [] {
      SubseqRefl(s[1..]);
    }
  }

  /** For a real team, the filter result is the only order-preserving
      selection of exactly that team's rows. */
  lemma FilterTeamExact(t: seq<StatRow>, team: string, r: seq<StatRow>)
    requires team != Selectors.AllTeams
    requires Subseq(r, t)
    requires forall i | 0 <= i < |r| :: r[i].raw.team == team
    requires forall x: StatRow | x.raw.team == team :: multiset(r)[x] == multiset(t)[x]
    ensures r == FilterTeam(t, team)
  {
    FilterUnique(t, (x: StatRow) => x.raw.team == team, r);
  }

  /** The sort key of metric `s`. */
  function Key(s: Stat): StatRow -> real
  {
    (x: StatRow) => Value(x, s)
  }

  /** Non-increasing on metric `s`. */
  ghost predicate SortedDesc(r: seq<StatRow>, s: Stat)
  {
    Descending(r, Key(s))
  }

  /** The metric column of a list of rows. */
  function Column(r: seq<StatRow>, s: Stat): (c: seq<real>)
    ensures |c| == |r|
    ensures forall i | 0 <= i < |r| :: c[i] == Value(r[i], s)
  {
    Map(r, Key(s))
  }

  /** `sort_values(by=s, ascending=False)`: a permutation of the rows in
      non-increasing order of `s`. */
  function SortRows(t: seq<StatRow>, s: Stat): (r: seq<StatRow>)
    ensures multiset(r) == multiset(t)
    ensures |r| == |t|
    ensures forall i, j | 0 <= i < j < |r| :: Value(r[i], s) >= Value(r[j], s)
  {
    var r := SortDesc(t, Key(s));
    assert SortedDesc(r, s);
    r
  }

  /** `.head(n)` of the sorted rows: the `n` rows with the largest `s`
      (fewer when there are fewer rows). Every row left out is no larger
      on `s` than any row kept. */
  function TopN(t: seq<StatRow>, s: Stat, n: nat): (r: seq<StatRow>)
    ensures |r| == MinOf(n, |t|)
    ensures multiset(r) <= multiset(t)
    ensures forall i, j | 0 <= i < j < |r| :: Value(r[i], s) >= Value(r[j], s)
    ensures forall x, i | x in multiset(t) - multiset(r) && 0 <= i < |r| ::
      Value(x, s) <= Value(r[i], s)
  {
    var key := Key(s);
    var sorted := SortRows(t, s);
    assert SortedDesc(sorted, s);
    var k := MinOf(n, |t|);
    HeadKeepsLargest(sorted, key, k);
    var r := sorted[..k];
    forall i, j | 0 <= i < j < |r|
      ensures Value(r[i], s) >= Value(r[j], s)
    {
      assert key(r[i]) >= key(r[j]);
    }
    forall x, i | x in multiset(t) - multiset(r) && 0 <= i < |r|
      ensures Value(x, s) <= Value(r[i], s)
    {
      assert key(x) <= key(sorted[i]);
    }
    r
  }

  /** The leaderboard of the season view: filter by team, rank by `s`,
      keep the slider's `n` rows. */
  function Leaderboard(t: seq<StatRow>, team: string, s: Stat, n: int): (r: seq<StatRow>)
    requires MinTop <= n <= MaxTop
    ensures |r| == MinOf(n, |FilterTeam(t, team)|)
    ensures team == Selectors.AllTeams ==> |r| == MinOf(n, |t|)
    ensures team != Selectors.AllTeams ==> forall i | 0 <= i < |r| :: r[i].raw.team == team
    ensures multiset(r) <= multiset(t)
    ensures forall i, j | 0 <= i < j < |r| :: Value(r[i], s) >= Value(r[j], s)
  {
    var f := FilterTeam(t, team);
    var r := TopN(f, s, n);
    SubseqMultiset(f, t);
    forall i | 0 <= i < |r| && team != Selectors.AllTeams
      ensures r[i].raw.team == team
    {
      assert r[i] in multiset(f);
    }
    r
  }

  /** No row of the selected team that missed the leaderboard beats a row
      on it. */
  lemma LeaderboardKeepsLargest(t: seq<StatRow>, team: string, s: Stat, n: int)
    requires MinTop <= n <= MaxTop
    ensures var r := Leaderboard(t, team, s, n);
      forall x, i | x in t && (team == Selectors.AllTeams || x.raw.team == team) && x !in r && 0 <= i < |r| ::
        Value(x, s) <= Value(r[i], s)
  {
    var f := FilterTeam(t, team);
    var r := Leaderboard(t, team, s, n);
    assert r == TopN(f, s, n);
    forall x, i | x in t && (team == Selectors.AllTeams || x.raw.team == team) && x !in r && 0 <= i < |r|
      ensures Value(x, s) <= Value(r[i], s)
    {
      if team != Selectors.AllTeams {
        assert multiset(f)[x] == multiset(t)[x];
      }
      assert x in multiset(f) - multiset(r);
    }
  }

  /** Whatever tie order a sort chooses, the top-N metric column shown on
      the leaderboard is the same: it equals the first rows' column of any
      other descending order of the same rows. */
  lemma TopNColumnDetermined(t: seq<StatRow>, s: Stat, n: nat, other: seq<StatRow>)
    requires multiset(other) == multiset(t)
    requires forall i, j | 0 <= i < j < |other| :: Value(other[i], s) >= Value(other[j], s)
    ensures |other| == |t|
    ensures Column(TopN(t, s, n), s) == Column(other[..MinOf(n, |t|)], s)
  {
    assert |other| == |multiset(other)| == |t|;
    var sorted := SortRows(t, s);
    var k := MinOf(n, |t|);
    assert TopN(t, s, n) == sorted[..k];
    assert SortedDesc(sorted, s);
    assert SortedDesc(other, s);
    TieOrderIrrelevant(sorted, other, Key(s));
    ColumnPrefix(sorted, s, k);
    ColumnPrefix(other, s, k);
  }

  lemma ColumnPrefix(r: seq<StatRow>, s: Stat, k: nat)
    requires k <= |r|
    ensures Column(r[..k], s) == Column(r, s)[..k]
  {
  }

  /** Two players with 10 and 20 points: the top one is the 20-point player,
      and the full leaderboard lists them 20 then 10. */
  lemma RankingExample(p1: StatRow, p2: StatRow)
    requires p1.raw.pts == 10.0 && p2.raw.pts == 20.0
    ensures TopN([p1, p2], Pts, 1) == [p2]
    ensures Leaderboard([p1, p2], Selectors.AllTeams, Pts, 5) == [p2, p1]
  {
    var key := Key(Pts);
    assert [p1, p2][1..] == [p2];
    assert SortDesc([p2], key) == [p2];
    assert SortDesc([p1, p2], key) == Insert(p1, [p2], key);
    assert [p2][1..] == [];
    assert Insert(p1, [p2], key) == [p2, p1];
  }
}
