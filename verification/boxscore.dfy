/**
 The single-game view: the traditional boxscore of one game, and the rows
 of players who actually played, which feed the points-per-player chart.
 */
module Boxscore {

  import opened Seqs

  /** One player's line of a game boxscore. `minutes` is the "MM:SS" text
      the stats service returns; points stay as returned, before numeric
      coercion. */
  datatype GameRow = GameRow(player: string, team: string, minutes: string, points: string)

  /** The minutes text of a player who did not get on the court. */
  const ZeroMinutes: string := "0:00"

  predicate Played(r: GameRow)
  {
    r.minutes != ZeroMinutes
  }

  /** `stats_df[stats_df["MIN"] != "0:00"]`: the rows of players who played,
      in boxscore order. */
  function PlayedRows(rows: seq<GameRow>): (r: seq<GameRow>)
    ensures Subseq(r, rows)
    ensures forall i | 0 <= i < |r| :: r[i].minutes != ZeroMinutes
    ensures forall x: GameRow | x.minutes != ZeroMinutes :: multiset(r)[x] == multiset(rows)[x]
  {
    FilterCounts(rows, Played);
    Filter(rows, Played)
  }

  /** The three properties above leave no freedom: any order-preserving
      selection of exactly the rows that played is `PlayedRows`. */
  lemma PlayedRowsExact(rows: seq<GameRow>, r: seq<GameRow>)
    requires Subseq(r, rows)
    requires forall i | 0 <= i < |r| :: r[i].minutes != ZeroMinutes
    requires forall x: GameRow | x.minutes != ZeroMinutes :: multiset(r)[x] == multiset(rows)[x]
    ensures r == PlayedRows(rows)
  {
    FilterUnique(rows, Played, r);
  }

  /** Dropping the rows of a later part of the boxscore does not disturb the
      earlier part: the filter works row by row. */
  lemma PlayedRowsAppend(a: seq<GameRow>, b: seq<GameRow>)
    ensures PlayedRows(a + b) == PlayedRows(a) + PlayedRows(b)
  {
    FilterAppend(a, b, Played);
  }
}
