# NBA season dashboard: derived metrics, rankings and head-to-head comparison

A Dafny model of the data transformations behind the NBA 2023-24 dashboard
(`app_nba.py`). The script is top-level Streamlit code; this model pulls its
pure steps out as functions over a sequence of player rows:

- **Zero-guard and derived metrics** (`Metrics`): MIN, FG3A, FGA and TOV equal
  to exactly 0 become 0.1, then six ratio columns are added (PTS/MIN, AST/MIN,
  REB/MIN, FG3M/FG3A·100, AST/TOV, PTS/FGA). Values are `real`, so division
  is exact.
- **Selector lists** (`Selectors`, `StrOrder`): the team list is "Todos"
  followed by the distinct team abbreviations in ascending order. The player
  list is the distinct player names in ascending order. Strings are ordered
  by character code, as Python orders `str`.
- **Team filter and top-N ranking** (`Ranking`): "Todos" keeps every row.
  Any other choice keeps the rows of exactly that team, in table order. The
  kept rows are sorted descending on one metric and the first N are shown,
  with N from the slider's range [5, 30].
- **Head-to-head comparison** (`Comparison`): each name selects its first
  row. That row is projected onto the ten comparison metrics, and the two
  projections are melted into (metric, player, value) rows. The radar chart
  reads six of those metrics from the same two rows.
- **Boxscore filter** (`Boxscore`): keeps the rows whose minutes text is not
  `"0:00"`, in order.

Metric columns are a closed enumeration (`Season.Stat`) rather than strings;
`Season.ParseStat` maps the script's column headers onto it.

Points where the code's behaviour is easy to misread, and what the model
does about them:

- `sort_values` uses pandas' default sort, which is not stable, so the
  order among rows with equal metric values is not fixed. The model leaves
  tie order unspecified and proves that the displayed metric column does
  not depend on it.
- Nothing rejects choosing the same player twice. The dict that builds the
  comparison frame then has one player key, so the melted table has a
  single block of ten rows. The model does exactly that.
- The code raises no missing-column, unknown-metric or player-not-found
  error of its own. Metrics are a closed enumeration, so an unknown metric
  cannot occur. A name with no row makes `.iloc[0]` raise, so the
  comparison requires both names to be in the table.
  `Comparison.SelectablePlayersResolve` shows that every name the selectors
  offer meets this.

## Model

| member | source | states |
|---|---|---|
| `Metrics.Guard` | app_nba.py:43-50 | the guarded value is never 0; a nonzero value is kept; an exact 0 becomes 0.1 |
| `Metrics.GuardRow` | app_nba.py:43-50 | MIN, FG3A, FGA and TOV of the row are guarded and nonzero; player, team and every other read column are unchanged |
| `Metrics.Augment` | app_nba.py:43-54 | the augmented row meets `Derived`: guarded denominators, other raw columns untouched, and each derived column times its guarded denominator gives back the numerator (3P_percent × FG3A = FG3M × 100) |
| `Metrics.DerivedUnique` | app_nba.py:44-54 | `Derived` has only one solution per row, so it fully defines the augmented row independently of the division |
| `Metrics.AugmentTable` | app_nba.py:43-54 | the table keeps its length and order; row i of the result is the augmentation of row i of the input |
| `Metrics.NoZeroDenominators` | app_nba.py:43-50 | after the guard, no row of the table has MIN, FG3A, FGA or TOV equal to 0 |
| `Metrics.ZeroMinutesExample` | app_nba.py:43-44 | PTS = 30 with MIN = 0 gives MIN = 0.1 and PTS_per_MIN = 300 |
| `Season.ParseStat` | app_nba.py:63-67 | a header of the metric selector resolves to the metric of that name; a header matching no metric resolves to nothing |
| `Season.ParseColumnName` | app_nba.py:63-67 | every metric's header resolves back to that metric |
| `Season.SelectableComplete` | app_nba.py:63-67 | the metric selector lists every metric |
| `StrOrder.InsertUnique` | app_nba.py:59-60 | adding a name to an ascending duplicate-free list keeps it ascending and duplicate-free, and its elements are the old ones plus the name |
| `StrOrder.SortedDistinct` | app_nba.py:59-60 | `unique()` then `sort()`: strictly ascending, holding exactly the values of the column |
| `StrOrder.StrictlySortedUnique` | app_nba.py:110-111 | two strictly ascending lists with the same elements are equal, so a sorted distinct list is uniquely determined |
| `Selectors.TeamOptions` | app_nba.py:59-61 | the first option is "Todos"; the rest are strictly ascending and are exactly the teams of the table |
| `Selectors.PlayerOptions` | app_nba.py:110-111 | strictly ascending, and exactly the player names of the table |
| `Selectors.PlayerOptionsCanonical` | app_nba.py:110-111 | any strictly ascending listing of the table's names is the player list |
| `Selectors.TeamOptionsCanonical` | app_nba.py:59-61 | "Todos" followed by any strictly ascending listing of the table's teams is the team list |
| `Selectors.OptionsIgnoreRowOrder` | app_nba.py:59-61 | reordering the table's rows changes neither option list |
| `Ranking.FilterTeam` | app_nba.py:74-76 | "Todos" returns the table unchanged; otherwise the result is an order-preserving subsequence whose rows are all of that team and which keeps every row of that team as often as the table has it |
| `Ranking.FilterTeamExact` | app_nba.py:74-76 | those properties determine the filter result: any sequence meeting them equals it |
| `Ranking.SortRows` | app_nba.py:78 | the sort is a permutation of its input and is non-increasing on the chosen metric |
| `Ranking.TopN` | app_nba.py:78 | `head(n)` of the sort has min(n, rows) rows, takes rows only from the input and no row more often than the input has it, is non-increasing, and no row left out is larger than any row kept |
| `Ranking.Leaderboard` | app_nba.py:71-78 | with N in [5, 30], the board has min(N, filtered rows) rows and at most N; with "Todos" that is min(N, table rows); otherwise every row is of the chosen team; rows come from the table, in non-increasing order |
| `Ranking.LeaderboardKeepsLargest` | app_nba.py:74-78 | a row of the selected team that is not on the board is no larger on the metric than any row on it |
| `Sorting.TieOrderIrrelevant` | app_nba.py:78 | two descending orders of the same rows have the same key column, so the unspecified tie order is invisible in that column |
| `Ranking.TopNColumnDetermined` | app_nba.py:78 | the top-N metric column equals that of the first N rows of any other descending order of the same rows |
| `Ranking.RankingExample` | app_nba.py:78 | rows with 10 and 20 points: the top 1 is the 20-point row, and the board of 5 lists 20 then 10 |
| `Comparison.FirstIndex` | app_nba.py:121-122 | finds nothing exactly when no row has the name; otherwise it returns the position of the first row that has it |
| `Comparison.FirstRow` | app_nba.py:121-122 | the selected row has the name and no earlier row does |
| `Comparison.Project` | app_nba.py:121-122 | the projection lists the row's value of each chosen metric, in the metric list's order |
| `Comparison.Melt` | app_nba.py:124-128 | the long form of a wide table has (number of value columns) × (number of metrics) rows |
| `Comparison.MeltAt` | app_nba.py:124-128 | the i-th metric of the k-th value column sits at row k × (number of metrics) + i, as (metric i, header k, value i of column k): every column in turn, each in metric order |
| `Comparison.Compare` | app_nba.py:119-128 | two different names give 20 rows: player 1's ten metrics in comparison order, then player 2's; the same name twice gives one block of ten |
| `Comparison.MeltSlice` | app_nba.py:124-128 | with distinct headers, the melted rows of one header are exactly that column, labelled in metric order |
| `Comparison.CompareRoundTrip` | app_nba.py:119-128 | reading one player's rows back from the comparison recovers that player's projected first row |
| `Comparison.Radar` | app_nba.py:143-146 | each radar value is the value of the bar with the same metric and player in the comparison data |
| `Comparison.SelectablePlayersResolve` | app_nba.py:110-122 | every name in the player list has a row, so the first-row lookup succeeds |
| `Boxscore.PlayedRows` | app_nba.py:197 | an order-preserving subsequence whose rows all have minutes other than "0:00", keeping every such row as often as the boxscore has it |
| `Boxscore.PlayedRowsExact` | app_nba.py:197 | those properties determine the result: any sequence meeting them equals it |
| `Boxscore.PlayedRowsAppend` | app_nba.py:197 | the filter works row by row: filtering a concatenation concatenates the filtered parts |

## Left out

- CSV reading and writing (app_nba.py:36-39; estadisticas_nba.py and analisis_nba.py in full): file and network I/O through the nba_api client, which is not part of this model. The model starts from the loaded rows.
- Columns the dashboard never reads: the season table has many more columns. They pass through untouched and are not represented.
- Streamlit widgets, layout, HTML, the logo and the download button (app_nba.py:10-30, 57-71, 100-105): UI plumbing. Only the values the widgets constrain are modelled: the chosen team, the metric and N in [5, 30].
- Plotly figures (app_nba.py:86-96, 130-139, 148-167, 200-207): rendering sinks. The model stops at the data handed to them.
- ScoreboardV2 and BoxScoreTraditionalV2 calls, their try/except and the game selector (app_nba.py:171-195): network I/O. The boxscore rows are an input.
- `.round(2)` on the displayed metric (app_nba.py:79): floating-point display rounding. The ranked rows are unrounded, which matches the order the sort produces.
- `pd.to_numeric(..., errors="coerce")` on boxscore points (app_nba.py:198): library parsing. Points remain the service's text.
- Floating-point behaviour: IEEE rounding of the ratios and NaN placement in the sort. Values are exact reals.
- Ranking.SortRows: this is one fixed sort (an insertion sort). The contract says only "permutation, non-increasing", because pandas' default sort is not stable and its tie order is not part of the program's behaviour.
- Comparison.Compare: does not model a player named "Estadística" or "Valor" (app_nba.py:124-128). The frame's dict also has the literal key "Estadística", so a player of that name overwrites the metric-label column and only the other player's ten rows remain, labelled with numbers; `melt(value_name="Valor")` raises in pandas when a column is already named "Valor". The model treats every name as a plain player column and always returns the normal rows. The same holds for `Comparison.Radar` and `Comparison.CompareRoundTrip`, which build on it.
- The default selections of the player selectors (`index=0`, `index=1`, app_nba.py:115-117), which need at least two players: these are widget defaults, and any two names of the table may be chosen.
