/**
 Head-to-head comparison of two players: each name selects the first row
 carrying it, that row is projected onto a fixed ordered list of metrics,
 and the two projections are "melted" into long-form (metric, player,
 value) rows for the grouped bar chart; the radar chart reads a shorter
 metric list off the same two rows.
 */
module Comparison {

  import opened Season
  import opened Seqs
  import opened Wrappers
  import Selectors

  /** One row of the melted table: "Estadística", "Jugador", "Valor". */
  datatype Triple = Triple(stat: Stat, player: string, value: real)

  /** The metrics of the grouped bar chart, in display order. */
  const StatsCompare: seq<Stat> :=
    [Pts, Ast, Reb, Stl, Blk, Fg3m, Min, PtsPerMin, AstPerMin, RebPerMin]

  /** The metrics of the radar chart. */
  const RadarStats: seq<Stat> := [Pts, Ast, Reb, Stl, Blk, Fg3m]

  /** Position of the first row whose player is `name`, if any. */
  function FirstIndex(t: seq<StatRow>, name: string): (r: Option<nat>)
    ensures r.None? <==> forall i | 0 <= i < |t| :: t[i].raw.player != name
    ensures r.Some? ==> r.value < |t| && t[r.value].raw.player == name
    ensures r.Some? ==> forall j | 0 <= j < r.value :: t[j].raw.player != name
    decreases |t|
  {
    if t == [] then None
    else if t[0].raw.player == name then Some(0)
    else
      match FirstIndex(t[1..], name)
      case None => None
      case Some(i) => Some(i + 1)
  }

  /** `df[df["PLAYER_NAME"] == name].iloc[0]`: the first row of `name`. The
      script raises when there is none, so the name must be in the table. */
  function FirstRow(t: seq<StatRow>, name: string): (r: StatRow)
    requires name in Selectors.Names(t)
    ensures r.raw.player == name
    ensures exists i | 0 <= i < |t| :: t[i] == r && forall j | 0 <= j < i :: t[j].raw.player != name
  {
    var i :| 0 <= i < |t| && Selectors.Names(t)[i] == name;
    assert t[i].raw.player == name;
    t[FirstIndex(t, name).value]
  }

  /** The values of row `r` for the metrics `stats`, in that order. */
  function Project(r: StatRow, stats: seq<Stat>): (v: seq<real>)
    ensures |v| == |stats|
    ensures forall i | 0 <= i < |stats| :: v[i] == Value(r, stats[i])
  {
    Map(stats, (s: Stat) => Value(r, s))
  }

  /** The melted rows of one value column. */
  function MeltColumn(stats: seq<Stat>, player: string, values: seq<real>): (m: seq<Triple>)
    requires |values| == |stats|
    ensures |m| == |stats|
    ensures forall i | 0 <= i < |stats| :: m[i].stat == stats[i] && m[i].player == player && m[i].value == values[i]
  {
    seq(|stats|, i requires 0 <= i < |stats| => Triple(stats[i], player, values[i]))
  }

  /** A wide table with one value column per player: the column's header and
      its values, one per metric. */
  type Wide = seq<(string, seq<real>)>

  ghost predicate WellShaped(stats: seq<Stat>, cols: Wide)
  {
    forall k | 0 <= k < |cols| :: |cols[k].1| == |stats|
  }

  /** `DataFrame.melt(id_vars="Estadística")`: every value column in turn,
      each listed in metric order. */
  function Melt(stats: seq<Stat>, cols: Wide): (m: seq<Triple>)
    requires WellShaped(stats, cols)
    ensures |m| == |cols| * |stats|
    decreases |cols|
  {
    if cols == [] then []
    else MeltColumn(stats, cols[0].0, cols[0].1) + Melt(stats, cols[1..])
  }

  /** Where each value lands in the long form: the `i`-th metric of the
      `k`-th value column is row `k * |stats| + i`, labelled with that
      column's header. */
  lemma {:induction false} MeltAt(stats: seq<Stat>, cols: Wide, k: nat, i: nat)
    requires WellShaped(stats, cols)
    requires k < |cols| && i < |stats|
    ensures k * |stats| + i < |Melt(stats, cols)|
    ensures Melt(stats, cols)[k * |stats| + i] == Triple(stats[i], cols[k].0, cols[k].1[i])
    decreases |cols|
  {
    var n := |stats|;
    var m := Melt(stats, cols);
    var head := MeltColumn(stats, cols[0].0, cols[0].1);
    var rest := Melt(stats, cols[1..]);
    assert m == head + rest;
    if k == 0 {
      assert m[i] == head[i];
    } else {
      MeltAt(stats, cols[1..], k - 1, i);
      RowOffset(k - 1, |cols| - 1, n, i);
      assert cols[1..][k - 1] == cols[k];
      assert m[n + ((k - 1) * n + i)] == rest[(k - 1) * n + i];
    }
  }

  /** Index arithmetic for `MeltAt`: row `k * n + i` of a block of `c`
      columns is row `n + k * n + i` once one more column precedes it. */
  lemma RowOffset(k: nat, c: nat, n: nat, i: nat)
    requires k < c && i < n
    ensures k * n + i < c * n
    ensures (k + 1) * n + i == n + (k * n + i)
  {
  }

  /** The value columns of the comparison frame. The script builds it from a
      dict keyed by player name, so equal names leave a single column. */
  function CompareColumns(t: seq<StatRow>, p1: string, p2: string): (cols: Wide)
    requires p1 in Selectors.Names(t) && p2 in Selectors.Names(t)
    ensures WellShaped(StatsCompare, cols)
  {
    var v1 := Project(FirstRow(t, p1), StatsCompare);
    var v2 := Project(FirstRow(t, p2), StatsCompare);
    if p1 == p2 then [(p1, v2)] else [(p1, v1), (p2, v2)]
  }

  /** The long-form comparison data. For two different players it lists
      every metric of player 1 in `StatsCompare` order, then every metric of
      player 2 in the same order; choosing the same player twice yields one
      block. */
  function Compare(t: seq<StatRow>, p1: string, p2: string): (m: seq<Triple>)
    requires p1 in Selectors.Names(t) && p2 in Selectors.Names(t)
    ensures p1 != p2 ==> |m| == 2 * |StatsCompare|
    ensures p1 == p2 ==> |m| == |StatsCompare|
    ensures forall i | 0 <= i < |StatsCompare| ::
      m[i] == Triple(StatsCompare[i], p1, Value(FirstRow(t, p1), StatsCompare[i]))
    ensures p1 != p2 ==> forall i | 0 <= i < |StatsCompare| ::
      m[|StatsCompare| + i] == Triple(StatsCompare[i], p2, Value(FirstRow(t, p2), StatsCompare[i]))
  {
    var cols := CompareColumns(t, p1, p2);
    var m := Melt(StatsCompare, cols);
    if p1 == p2 then
      assert m == MeltColumn(StatsCompare, cols[0].0, cols[0].1) + [];
      m
    else
      assert cols[1..][1..] == [];
      assert cols[1..][0] == cols[1];
      assert Melt(StatsCompare, cols[1..]) == MeltColumn(StatsCompare, cols[1].0, cols[1].1) + [];
      assert m == MeltColumn(StatsCompare, cols[0].0, cols[0].1)
        + (MeltColumn(StatsCompare, cols[1].0, cols[1].1) + []);
      m
  }

  /** Selects the melted rows of one player. */
  function IsOf(player: string): Triple -> bool
  {
    (x: Triple) => x.player == player
  }

  /** The melted rows of one player. */
  function Slice(m: seq<Triple>, player: string): seq<Triple>
  {
    Filter(m, IsOf(player))
  }

  /** No two value columns share a header. */
  ghost predicate DistinctHeaders(cols: Wide)
  {
    forall a, b | 0 <= a < b < |cols| :: cols[a].0 != cols[b].0
  }

  /** Dropping the first column keeps a wide table well shaped and its
      headers distinct, and the first header occurs nowhere after it. */
  lemma DropColumn(stats: seq<Stat>, cols: Wide)
    requires WellShaped(stats, cols) && DistinctHeaders(cols) && cols != []
    ensures WellShaped(stats, cols[1..]) && DistinctHeaders(cols[1..])
    ensures forall j | 0 <= j < |cols[1..]| :: cols[1..][j].0 != cols[0].0
  {
    var tail := cols[1..];
    forall j | 0 <= j < |tail|
      ensures |tail[j].1| == |stats| && tail[j].0 != cols[0].0
    {
      assert tail[j] == cols[j + 1];
    }
    forall a, b | 0 <= a < b < |tail|
      ensures tail[a].0 != tail[b].0
    {
      assert tail[a] == cols[a + 1] && tail[b] == cols[b + 1];
    }
  }

  /** The rows of one player in a melted table: those of the first column,
      then those of the rest. */
  lemma SliceCons(stats: seq<Stat>, cols: Wide, player: string)
    requires WellShaped(stats, cols) && cols != []
    ensures WellShaped(stats, cols[1..])
    ensures Slice(Melt(stats, cols), player)
      == Slice(MeltColumn(stats, cols[0].0, cols[0].1), player) + Slice(Melt(stats, cols[1..]), player)
  {
    assert WellShaped(stats, cols[1..]) by {
      forall j | 0 <= j < |cols[1..]|
        ensures |cols[1..][j].1| == |stats|
      {
        assert cols[1..][j] == cols[j + 1];
      }
    }
    FilterAppend(MeltColumn(stats, cols[0].0, cols[0].1), Melt(stats, cols[1..]), IsOf(player));
  }

  /** A melted column contains rows of its own header only. */
  lemma SliceColumn(stats: seq<Stat>, header: string, values: seq<real>, player: string)
    requires |values| == |stats|
    ensures header == player ==> Slice(MeltColumn(stats, header, values), player) == MeltColumn(stats, header, values)
    ensures header != player ==> Slice(MeltColumn(stats, header, values), player) == []
  {
    var m := MeltColumn(stats, header, values);
    if header == player {
      FilterAll(m, IsOf(player));
    } else {
      FilterNone(m, IsOf(player));
    }
  }

  /** Melting a wide table with distinct headers and reading back the rows of
      one header gives exactly that column, labelled in metric order. */
  lemma {:induction false} MeltSlice(stats: seq<Stat>, cols: Wide, k: nat)
    requires WellShaped(stats, cols) && DistinctHeaders(cols)
    requires k < |cols|
    ensures Slice(Melt(stats, cols), cols[k].0) == MeltColumn(stats, cols[k].0, cols[k].1)
    decreases |cols|
  {
    var player := cols[k].0;
    var first := MeltColumn(stats, cols[0].0, cols[0].1);
    var want := MeltColumn(stats, player, cols[k].1);
    SliceCons(stats, cols, player);
    SliceColumn(stats, cols[0].0, cols[0].1, player);
    DropColumn(stats, cols);
    if k == 0 {
      MeltMissing(stats, cols[1..], player);
      assert Slice(first, player) == want;
      assert Slice(Melt(stats, cols[1..]), player) == [];
      assert want + [] == want;
    } else {
      assert cols[0].0 != player;
      assert Slice(first, player) == [];
      var c := cols[1..][k - 1];
      assert c == cols[k];
      MeltSlice(stats, cols[1..], k - 1);
      assert Slice(Melt(stats, cols[1..]), c.0) == MeltColumn(stats, c.0, c.1);
      assert [] + want == want;
    }
  }

  /** A header that is not in the wide table has no melted rows. */
  lemma {:induction false} MeltMissing(stats: seq<Stat>, cols: Wide, player: string)
    requires WellShaped(stats, cols)
    requires forall j | 0 <= j < |cols| :: cols[j].0 != player
    ensures Slice(Melt(stats, cols), player) == []
    decreases |cols|
  {
    if cols != [] {
      SliceCons(stats, cols, player);
      SliceColumn(stats, cols[0].0, cols[0].1, player);
      forall j | 0 <= j < |cols[1..]|
        ensures cols[1..][j].0 != player
      {
        assert cols[1..][j] == cols[j + 1];
      }
      MeltMissing(stats, cols[1..], player);
    }
  }

  /** Pivoting the comparison back to wide form recovers each player's
      projected row: the melt loses nothing and mixes no values between the
      two players. */
  lemma CompareRoundTrip(t: seq<StatRow>, p1: string, p2: string)
    requires p1 in Selectors.Names(t) && p2 in Selectors.Names(t)
    ensures Slice(Compare(t, p1, p2), p1)
      == MeltColumn(StatsCompare, p1, Project(FirstRow(t, p1), StatsCompare))
    ensures Slice(Compare(t, p1, p2), p2)
      == MeltColumn(StatsCompare, p2, Project(FirstRow(t, p2), StatsCompare))
  {
    var cols := CompareColumns(t, p1, p2);
    MeltSlice(StatsCompare, cols, 0);
    if p1 != p2 {
      MeltSlice(StatsCompare, cols, 1);
    }
  }

  /** The radar chart's two value lists. */
  function Radar(t: seq<StatRow>, p1: string, p2: string): (r: (seq<real>, seq<real>))
    requires p1 in Selectors.Names(t) && p2 in Selectors.Names(t)
    ensures |r.0| == |RadarStats| && |r.1| == |RadarStats|
    ensures forall i | 0 <= i < |RadarStats| ::
      Triple(RadarStats[i], p1, r.0[i]) in Compare(t, p1, p2)
    ensures forall i | 0 <= i < |RadarStats| ::
      Triple(RadarStats[i], p2, r.1[i]) in Compare(t, p1, p2)
  {
    var r := (Project(FirstRow(t, p1), RadarStats), Project(FirstRow(t, p2), RadarStats));
    var m := Compare(t, p1, p2);
    forall i | 0 <= i < |RadarStats|
      ensures Triple(RadarStats[i], p1, r.0[i]) in m
      ensures Triple(RadarStats[i], p2, r.1[i]) in m
    {
      assert RadarStats[i] == StatsCompare[i];
      assert m[i] == Triple(RadarStats[i], p1, r.0[i]);
      if p1 != p2 {
        assert m[|StatsCompare| + i] == Triple(RadarStats[i], p2, r.1[i]);
      }
    }
    r
  }

  /** Every name the player selectors offer has a row, so the lookup behind
      the comparison never comes up empty for a selectable player. */
  lemma SelectablePlayersResolve(t: seq<StatRow>, p: string)
    requires p in Selectors.PlayerOptions(t)
    ensures p in Selectors.Names(t)
    ensures FirstIndex(t, p).Some?
  {
    var i :| 0 <= i < |t| && t[i].raw.player == p;
    assert Selectors.Names(t)[i] == p;
  }
}
