/**
 The season table: one row per player as loaded from the season CSV, the
 row after the derived columns have been added, and the closed set of
 metrics a user can rank or compare by.
 */
module Season {

  import opened Wrappers

  /** The raw columns of one player-season row that the dashboard reads.
      `min` is total minutes played; `plusMinus` is the only signed stat. */
  datatype Row = Row(
    player: string,   // PLAYER_NAME
    team: string,     // TEAM_ABBREVIATION
    pts: real,
    ast: real,
    reb: real,
    stl: real,
    blk: real,
    fg3m: real,
    min: real,
    plusMinus: real,
    fga: real,
    fg3a: real,
    tov: real)

  /** A row after the zero-guard and the six derived columns; `raw` holds the
      guarded MIN, FG3A, FGA and TOV values. */
  datatype StatRow = StatRow(
    raw: Row,
    ptsPerMin: real,     // PTS_per_MIN
    astPerMin: real,     // AST_per_MIN
    rebPerMin: real,     // REB_per_MIN
    threePercent: real,  // 3P_percent
    astPerTov: real,     // AST_per_TOV
    ptsPerFga: real)     // PTS_per_FGA

  /** The metrics offered by the "Estadística" selector and the comparison
      lists, as a closed enumeration instead of column-name strings. */
  datatype Stat =
    | Pts | Ast | Reb | Stl | Blk | Fg3m | Min | PlusMinus
    | PtsPerMin | AstPerMin | RebPerMin | ThreePercent | AstPerTov | PtsPerFga

  /** The column a metric names, read from an augmented row. */
  function Value(r: StatRow, s: Stat): real
  {
    match s
    case Pts => r.raw.pts
    case Ast => r.raw.ast
    case Reb => r.raw.reb
    case Stl => r.raw.stl
    case Blk => r.raw.blk
    case Fg3m => r.raw.fg3m
    case Min => r.raw.min
    case PlusMinus => r.raw.plusMinus
    case PtsPerMin => r.ptsPerMin
    case AstPerMin => r.astPerMin
    case RebPerMin => r.rebPerMin
    case ThreePercent => r.threePercent
    case AstPerTov => r.astPerTov
    case PtsPerFga => r.ptsPerFga
  }

  /** The column header the script uses for each metric. */
  function ColumnName(s: Stat): string
  {
    match s
    case Pts => "PTS"
    case Ast => "AST"
    case Reb => "REB"
    case Stl => "STL"
    case Blk => "BLK"
    case Fg3m => "FG3M"
    case Min => "MIN"
    case PlusMinus => "PLUS_MINUS"
    case PtsPerMin => "PTS_per_MIN"
    case AstPerMin => "AST_per_MIN"
    case RebPerMin => "REB_per_MIN"
    case ThreePercent => "3P_percent"
    case AstPerTov => "AST_per_TOV"
    case PtsPerFga => "PTS_per_FGA"
  }

  /** Resolves a header of the ranking selector back to its metric; a header
      outside the list resolves to nothing. */
  function ParseStat(name: string): (r: Option<Stat>)
    ensures r.Some? ==> ColumnName(r.value) == name
    ensures r.None? ==> forall s: Stat :: ColumnName(s) != name
  {
    if name == "PTS" then Some(Pts)
    else if name == "AST" then Some(Ast)
    else if name == "REB" then Some(Reb)
    else if name == "STL" then Some(Stl)
    else if name == "BLK" then Some(Blk)
    else if name == "FG3M" then Some(Fg3m)
    else if name == "MIN" then Some(Min)
    else if name == "PLUS_MINUS" then Some(PlusMinus)
    else if name == "PTS_per_MIN" then Some(PtsPerMin)
    else if name == "AST_per_MIN" then Some(AstPerMin)
    else if name == "REB_per_MIN" then Some(RebPerMin)
    else if name == "3P_percent" then Some(ThreePercent)
    else if name == "AST_per_TOV" then Some(AstPerTov)
    else if name == "PTS_per_FGA" then Some(PtsPerFga)
    else None
  }

  /** The ranking selector's option list, in the order it is displayed. */
  const Selectable: seq<Stat> :=
    [Pts, Ast, Reb, Stl, Blk, Fg3m, Min, PlusMinus,
     PtsPerMin, AstPerMin, RebPerMin, ThreePercent, AstPerTov, PtsPerFga]

  /** Every header resolves back to the metric it names. */
  lemma ParseColumnName(s: Stat)
    ensures ParseStat(ColumnName(s)) == Some(s)
  {
  }

  /** The selector offers every metric. */
  lemma SelectableComplete(s: Stat)
    ensures s in Selectable
  {
    match s
    case Pts => assert Selectable[0] == s;
    case Ast => assert Selectable[1] == s;
    case Reb => assert Selectable[2] == s;
    case Stl => assert Selectable[3] == s;
    case Blk => assert Selectable[4] == s;
    case Fg3m => assert Selectable[5] == s;
    case Min => assert Selectable[6] == s;
    case PlusMinus => assert Selectable[7] == s;
    case PtsPerMin => assert Selectable[8] == s;
    case AstPerMin => assert Selectable[9] == s;
    case RebPerMin => assert Selectable[10] == s;
    case ThreePercent => assert Selectable[11] == s;
    case AstPerTov => assert Selectable[12] == s;
    case PtsPerFga => assert Selectable[13] == s;
  }
}
