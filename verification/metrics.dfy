/**
 The zero-guard and the six derived ratio columns of the season table.
 Every ratio is defined for every row: a zero denominator is first replaced
 by a small constant, so a player with no minutes gets a large but finite
 per-minute rate instead of a division error.
 */
module Metrics {

  import opened Season

  /** The value that replaces an exact zero in a guarded column. */
  const Epsilon: real := 0.1

  /** Replaces an exact zero with `Epsilon` and leaves every other value alone. */
  function Guard(x: real): (g: real)
    ensures g != 0.0
    ensures x != 0.0 ==> g == x
    ensures x == 0.0 ==> g == Epsilon
  {
    if x == 0.0 then Epsilon else x
  }

  /** The zero-guard applied to the four denominator columns of one row. */
  function GuardRow(r: Row): (g: Row)
    ensures g.min != 0.0 && g.fg3a != 0.0 && g.fga != 0.0 && g.tov != 0.0
    ensures g.min == Guard(r.min) && g.fg3a == Guard(r.fg3a)
    ensures g.fga == Guard(r.fga) && g.tov == Guard(r.tov)
    ensures SameUnguarded(r, g)
  {
    r.(min := Guard(r.min), fg3a := Guard(r.fg3a), fga := Guard(r.fga), tov := Guard(r.tov))
  }

  /** `a` and `b` agree on every column the zero-guard does not touch. */
  predicate SameUnguarded(a: Row, b: Row)
  {
    && a.player == b.player && a.team == b.team
    && a.pts == b.pts && a.ast == b.ast && a.reb == b.reb
    && a.stl == b.stl && a.blk == b.blk && a.fg3m == b.fg3m
    && a.plusMinus == b.plusMinus
  }

  /** What the augmented row `a` must be for the raw row `r`: the four
      denominators are guarded (zero becomes `Epsilon`, anything else is
      kept), no other raw column changes, and each derived column times its
      guarded denominator gives back its numerator. This pins `a` down
      completely, so it serves as an independent definition of `Augment`. */
  ghost predicate Derived(r: Row, a: StatRow)
  {
    && SameUnguarded(r, a.raw)
    && a.raw.min == Guard(r.min) && a.raw.fg3a == Guard(r.fg3a)
    && a.raw.fga == Guard(r.fga) && a.raw.tov == Guard(r.tov)
    && a.ptsPerMin * a.raw.min == r.pts
    && a.astPerMin * a.raw.min == r.ast
    && a.rebPerMin * a.raw.min == r.reb
    && a.threePercent * a.raw.fg3a == r.fg3m * 100.0
    && a.astPerTov * a.raw.tov == r.ast
    && a.ptsPerFga * a.raw.fga == r.pts
  }

  /** One row of the season table after the guard and the derived columns. */
  function Augment(r: Row): (a: StatRow)
    ensures Derived(r, a)
  {
    var g := GuardRow(r);
    StatRow(
      g,
      g.pts / g.min,
      g.ast / g.min,
      g.reb / g.min,
      (g.fg3m / g.fg3a) * 100.0,
      g.ast / g.tov,
      g.pts / g.fga)
  }

  /** `Derived` has exactly one solution per row, so `Augment` is the only
      function meeting it. */
  lemma DerivedUnique(r: Row, a: StatRow, b: StatRow)
    requires Derived(r, a) && Derived(r, b)
    ensures a == b
  {
    assert a.raw == b.raw;
    DivideOut(a.ptsPerMin, b.ptsPerMin, a.raw.min);
    DivideOut(a.astPerMin, b.astPerMin, a.raw.min);
    DivideOut(a.rebPerMin, b.rebPerMin, a.raw.min);
    DivideOut(a.threePercent, b.threePercent, a.raw.fg3a);
    DivideOut(a.astPerTov, b.astPerTov, a.raw.tov);
    DivideOut(a.ptsPerFga, b.ptsPerFga, a.raw.fga);
  }

  lemma DivideOut(x: real, y: real, d: real)
    requires d != 0.0 && x * d == y * d
    ensures x == y
  {
    assert (x - y) * d == 0.0;
  }

  /** The whole table with the guard and derived columns, row by row: same
      length, same order, nothing dropped. */
  function AugmentTable(t: seq<Row>): (u: seq<StatRow>)
    ensures |u| == |t|
    ensures forall i | 0 <= i < |t| :: Derived(t[i], u[i])
    decreases |t|
  {
    if t == [] then []
    else [Augment(t[0])] + AugmentTable(t[1..])
  }

  /** After the guard no denominator column is zero in any row. */
  lemma {:induction false} NoZeroDenominators(t: seq<Row>)
    ensures forall a | a in AugmentTable(t) ::
      a.raw.min != 0.0 && a.raw.fg3a != 0.0 && a.raw.fga != 0.0 && a.raw.tov != 0.0
  {
    var u := AugmentTable(t);
    forall a | a in u
      ensures a.raw.min != 0.0 && a.raw.fg3a != 0.0 && a.raw.fga != 0.0 && a.raw.tov != 0.0
    {
      var i :| 0 <= i < |u| && u[i] == a;
      assert Derived(t[i], u[i]);
    }
  }

  /** A player with 30 points and no minutes gets 300 points per minute. */
  lemma ZeroMinutesExample(r: Row)
    requires r.pts == 30.0 && r.min == 0.0
    ensures Augment(r).ptsPerMin == 300.0
    ensures Augment(r).raw.min == 0.1
  {
  }
}
