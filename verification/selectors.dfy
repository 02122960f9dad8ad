/**
 The option lists of the team and player selectors, built from the season
 table: distinct values, sorted, with the "all teams" sentinel in front of
 the team list.
 */
module Selectors {

  import opened Season
  import opened StrOrder

  /** The team selector's sentinel that disables the team filter. */
  const AllTeams: string := "Todos"

  /** The TEAM_ABBREVIATION column. */
  function Teams(t: seq<StatRow>): (c: seq<string>)
    ensures |c| == |t|
    ensures forall i | 0 <= i < |t| :: c[i] == t[i].raw.team
  {
    seq(|t|, i requires 0 <= i < |t| => t[i].raw.team)
  }

  /** The PLAYER_NAME column. */
  function Names(t: seq<StatRow>): (c: seq<string>)
    ensures |c| == |t|
    ensures forall i | 0 <= i < |t| :: c[i] == t[i].raw.player
  {
    seq(|t|, i requires 0 <= i < |t| => t[i].raw.player)
  }

  /** The team selector's options: the sentinel, then every team of the
      table once, in ascending order. */
  function TeamOptions(t: seq<StatRow>): (r: seq<string>)
    ensures |r| >= 1 && r[0] == AllTeams
    ensures StrictlySorted(r[1..])
    ensures forall x :: x in r[1..] <==> exists i | 0 <= i < |t| :: t[i].raw.team == x
  {
    var teams := SortedDistinct(Teams(t));
    var r := [AllTeams] + teams;
    assert r[1..] == teams;
    r
  }

  /** The player selectors' options: every player name of the table once,
      in ascending order. */
  function PlayerOptions(t: seq<StatRow>): (r: seq<string>)
    ensures StrictlySorted(r)
    ensures forall x :: x in r <==> exists i | 0 <= i < |t| :: t[i].raw.player == x
  {
    SortedDistinct(Names(t))
  }

  /** The player list is the one and only sorted duplicate-free listing of
      the table's names: pandas' first-appearance order from `unique()` is
      irrelevant once the list is sorted. */
  lemma PlayerOptionsCanonical(t: seq<StatRow>, listing: seq<string>)
    requires StrictlySorted(listing)
    requires forall x :: x in listing <==> x in Names(t)
    ensures listing == PlayerOptions(t)
  {
    StrictlySortedUnique(listing, PlayerOptions(t));
  }

  /** Likewise for the team list after the sentinel. */
  lemma TeamOptionsCanonical(t: seq<StatRow>, listing: seq<string>)
    requires StrictlySorted(listing)
    requires forall x :: x in listing <==> x in Teams(t)
    ensures [AllTeams] + listing == TeamOptions(t)
  {
    var r := TeamOptions(t);
    StrictlySortedUnique(listing, r[1..]);
    assert r == [r[0]] + r[1..];
  }

  /** Reordering the rows of the table does not change either option list. */
  lemma OptionsIgnoreRowOrder(t: seq<StatRow>, t': seq<StatRow>)
    requires multiset(t) == multiset(t')
    ensures TeamOptions(t) == TeamOptions(t')
    ensures PlayerOptions(t) == PlayerOptions(t')
  {
    forall x
      ensures x in Names(t') <==> x in Names(t)
      ensures x in Teams(t') <==> x in Teams(t)
    {
      CarryValues(t, t', x);
      CarryValues(t', t, x);
    }
    PlayerOptionsCanonical(t, PlayerOptions(t'));
    TeamOptionsCanonical(t, TeamOptions(t')[1..]);
  }

  /** A name or team found in `t` is found in any table holding the same rows. */
  lemma CarryValues(t: seq<StatRow>, t': seq<StatRow>, x: string)
    requires multiset(t) <= multiset(t')
    ensures x in Names(t) ==> x in Names(t')
    ensures x in Teams(t) ==> x in Teams(t')
  {
    if x in Names(t) {
      var i :| 0 <= i < |t| && t[i].raw.player == x;
      assert t[i] in multiset(t');
      var j :| 0 <= j < |t'| && t'[j] == t[i];
      assert Names(t')[j] == x;
    }
    if x in Teams(t) {
      var i :| 0 <= i < |t| && t[i].raw.team == x;
      assert t[i] in multiset(t');
      var j :| 0 <= j < |t'| && t'[j] == t[i];
      assert Teams(t')[j] == x;
    }
  }
}
