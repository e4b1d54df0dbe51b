# SAC_baseball data import, modelled in Dafny

SAC_baseball assembles baseball tables for a season, or for a range of
seasons. It takes them from FanGraphs, Baseball-Reference, Retrosheet schedules, the
Lahman database and the Chadwick id register (all reached through
pybaseball), then joins them with pandas. Two copies of the import
module exist. `docs/dataimport.py` works on season ranges. The top-level
`dataimport.py` works on a single season. This project models the part of both
that is the project's own logic:

- the static catalogs `fgteams`, `month`, `div`, `drop_bio` and the
  FanGraphs column lists (module `Catalogs`);
- the derived game-log columns of `gameLogs` (module `GameLogs`, with the
  string handling in `Text`);
- `teamDepot` (module `Depot`);
- the per-team loops of `fgBatting` / `fgPitching` (modules `Teams`, `FgStats`)
  and of `genBatting` / `genPitching` (modules `Teams`, `DataImport`);
- the identity pipeline: `genID`, `genBio` and the deduplication in `master`
  (module `DocsImport`), and `genID`, `genBio`, `genbWARBatting`,
  `genbWARpitching`, `genFielding` and `master` (module `DataImport`);
- the one argument choice of `statPitching` that is wrong (module
  `StatPitching`).

The tables are modelled in `Frames`:

- A frame has at most one named index level, a list of columns, and rows.
- Each row is a map from label to cell.
- A cell is NaN, an integer, a string or an opaque provider value.

The pandas operations the source chains are modelled as functions that
return either a frame or the pandas exception they raise. These are column
selection, `drop`, `rename`, column assignment, `set_index`, `reset_index`,
`concat`, `groupby(...).get_group`, `Series.map` and `apply`.

- `drop_duplicates` keeps the first row of each key (module `Keys`).
- `merge` (module `Joins`) handles inner, left and right joins. It keeps left
  order, puts NaN in unmatched cells, raises on missing keys, and joins on the
  shared columns when `on` is not given.

Every provider call is a parameter: a per-team fetch function, the register
table, the people table, the WAR tables, the fielding table, the Lahman team
table and a schedule function. Where the code does something in steps, so
does the model: a loop over the thirty teams, a loop over the seasons, and
`master`'s sequence of assignments. Each method is proved equal to a
specification function, and the properties are proved about that function.

Where the repository's own description and its code disagree, the model
follows the code:

- `genID` in `dataimport.py` is an inner join on `key_fangraphs` with no
  deduplication. It is not a left join with deduplication like the `docs`
  copy.
- `gameLogs` computes `R_tot` and `R_diff` but drops both in its final
  column selection.

## Model

| member | source | states |
|---|---|---|
| `Catalogs.FgTeamsDomain` | docs/dataimport.py:13-17 | `fgteams` is defined exactly on 1..30, and every code has three letters |
| `Catalogs.FgTeamsInjective` | dataimport.py:13-17 | `TeamNumber` inverts `fgteams`, so two team numbers with the same code are equal |
| `Catalogs.CellMap` | docs/dataimport.py:124 | a string table used with `Series.map`: each key maps to its value, and nothing else is a key |
| `Catalogs.MonthInjective` | docs/dataimport.py:52-61 | `MonthName` inverts the month table, so no two abbreviations share a number |
| `Catalogs.MonthNumbers` | docs/dataimport.py:53-60 | every month number is two digits with value 3 to 10 |
| `Catalogs.DivNames` | docs/dataimport.py:117-124 | the division map has keys E, C and W and distinct names; any other letter maps to NaN |
| `Text.Split` | docs/dataimport.py:105-106 | `str.split` gives at least one piece, and no piece holds the separator |
| `Text.JoinSplit` | docs/dataimport.py:105-106 | joining the pieces of a split with the separator gives back the string |
| `Text.SplitJoin` | docs/dataimport.py:105-106 | splitting a join of separator-free pieces gives back the pieces |
| `Text.Piece` | docs/dataimport.py:105-106 | indexing the pieces succeeds exactly when the index is in range (otherwise IndexError) and gives that piece |
| `Text.ParseInt` | docs/dataimport.py:107 | `int(x)` succeeds exactly on a digit string with an optional sign; on digits it gives their value |
| `Text.LeadingZero` | docs/dataimport.py:107 | a leading "0" does not change the value of a digit string |
| `Text.ShowValue` | docs/dataimport.py:107 | the decimal text of a number has that number as its value |
| `Text.ParseShow` | docs/dataimport.py:110 | `int` reads back the decimal text of any natural number |
| `Text.ShowLength` | docs/dataimport.py:107 | numbers below 10 print as one digit, and 10..99 as two |
| `GameLogs.RunsFacts` | docs/dataimport.py:103-104 | `R_tot` is R + RA; `R_diff` is abs(R - RA), symmetric in R and RA and at most the total; 7 and 3 give 10 and 4 |
| `GameLogs.RunsMissing` | docs/dataimport.py:103-104 | a missing run count gives NaN in both derived columns |
| `GameLogs.TextOf` | docs/dataimport.py:105 | `.split` is only possible on a string cell |
| `GameLogs.TimeRoundTrip` | docs/dataimport.py:110 | "H:MM" with MM < 60 becomes H*60 + MM, and dividing by 60 gives H back with remainder MM |
| `GameLogs.TimeNeedsColon` | docs/dataimport.py:110 | a time without a colon raises |
| `GameLogs.DateFields` | docs/dataimport.py:105-108 | for "Weekday, Mon D ...", the text after the comma starts with an empty field, the month is field 1 and the day is field 2 |
| `GameLogs.PadSingleDigit` | docs/dataimport.py:107 | a one-digit day d becomes "0"+d, two characters long |
| `GameLogs.PadTwoDigits` | docs/dataimport.py:107 | a day of 10 or more is left unchanged |
| `GameLogs.PadKeepsValue` | docs/dataimport.py:107 | padding keeps the day's numeric value |
| `GameLogs.PadNotIdempotent` | docs/dataimport.py:107 | "5" pads to "05", but "05" pads again to "005" |
| `GameLogs.Derive` | docs/dataimport.py:103-111 | the derived table keeps one row per schedule row and has exactly the eight selected columns, in order |
| `GameLogs.DeriveByRow` | docs/dataimport.py:103-111 | row i of the derived table is the game row computed from schedule row i alone |
| `GameLogs.DeriveKeepsSeason` | docs/dataimport.py:100-111 | each derived row keeps its schedule row's season |
| `GameLogs.YearSlice` | docs/dataimport.py:99-100 | a season's slice stamps `Season` = that year on every row |
| `GameLogs.Schedules` | docs/dataimport.py:100 | one schedule per team of the season's group, in the group's order |
| `GameLogs.YearsFrom` | docs/dataimport.py:98-101 | one slice per year of the range, the k-th stamped with start + k |
| `GameLogs.CollectYears` | docs/dataimport.py:96-101 | the loop over the seasons returns exactly the slices of `YearsFrom` |
| `GameLogs.GameLogs` | docs/dataimport.py:95-111 | the step-by-step game-log build equals the specification `GameLogsOf`, with months mapped through the month table |
| `GameLogs.EmptyRange` | docs/dataimport.py:102 | an empty year range raises at `pd.concat` |
| `GameLogs.GameLogSeasons` | docs/dataimport.py:98-102 | every game-log season lies in [start, end], and seasons never decrease down the table |
| `GameLogs.DictCall` | docs/dataimport.py:109 | the builtin `dict` on a cell: the empty string (or `{}` itself) gives `{}`, any other string raises ValueError (its characters are not key-value pairs), and NaN or a number raises TypeError |
| `GameLogs.DictCallOnlyEmpty` | docs/dataimport.py:105-109 | as written, the derivation goes through only when every row's month field is the empty string, and then every `Month` cell is `{}` |
| `GameLogs.DictCallEmptyOk` | docs/dataimport.py:105-109 | conversely, where the corrected derivation goes through and every month field is empty, the one as written goes through too |
| `GameLogs.DictCallFirstError` | docs/dataimport.py:105-109 | where the corrected derivation goes through, the one as written raises ValueError with the text of the first non-empty month field |
| `GameLogs.DictCallRaises` | docs/dataimport.py:105-109 | where the corrected derivation goes through, any non-empty month field makes the one as written raise ValueError |
| `GameLogs.NoEmptyMonth` | docs/dataimport.py:108-109 | the month table has no entry for an empty field, so the corrected step gives NaN there |
| `GameLogs.MonthAsWrittenFails` | docs/dataimport.py:95-111 | as written, `gameLogs` comes out only with `{}` in every `Month` cell, and whenever the corrected version shows a month number anywhere, it raises ValueError instead |
| `GameLogs.MonthNumberCell` | docs/dataimport.py:108-109 | the corrected month step turns an abbreviation into its number from the month table, and anything else into NaN |
| `GameLogs.DerivedMonths` | docs/dataimport.py:108-111 | with the corrected step, every `Month` cell is a month number or NaN |
| `Depot.YearGroups` | docs/dataimport.py:122-123 | the groups exist exactly when every season of the range is in the table; group k holds season start + k's rows |
| `Depot.DepotFrame` | docs/dataimport.py:124-128 | mapping, selecting and renaming keep one row per team-season and give the renamed columns |
| `Depot.DepotFrameOk` | docs/dataimport.py:124-128 | mapping, selecting and renaming succeed exactly when `divID` and the kept columns exist and neither the kept nor the new labels repeat |
| `Depot.TeamDepotOf` | docs/dataimport.py:116-128 | the depot table is well formed and keeps the team table's index |
| `Depot.TeamDepot` | docs/dataimport.py:116-128 | the step-by-step build, with `divID` rewritten in place, equals `TeamDepotOf` |
| `Depot.DepotRows` | docs/dataimport.py:123-128 | row p of the result is stacked row p, each kept cell under its new label and the division mapped |
| `Depot.DepotEmpty` | docs/dataimport.py:123 | an empty season range raises at `pd.concat` |
| `Depot.DepotMissingSeason` | docs/dataimport.py:122-123 | a season missing from the team table makes `teamDepot` raise |
| `Depot.DepotOk` | docs/dataimport.py:122-128 | `teamDepot` succeeds exactly when the range is non-empty, every season is present and the nine columns exist |
| `Depot.DepotShape` | docs/dataimport.py:125-128 | the result has the columns Team, TeamName, Season, Division, Rank, W, L, BPF and PPF |
| `Depot.DepotDivisions` | docs/dataimport.py:117-124 | every `Division` is EAST, CENTRAL, WEST or NaN |
| `Depot.DepotSeasons` | docs/dataimport.py:123-128 | seasons lie in the range and never decrease down the table |
| `Teams.TeamTagsDistinct` | dataimport.py:67-69 | different teams get different `Team` tags |
| `Teams.TeamSlice` | dataimport.py:68-69 | a team's slice succeeds exactly when the wanted columns exist and are distinct; each row is the fetched row, cut and tagged with `fgteams[t]` |
| `Teams.TeamsFrom` | dataimport.py:67-70 | the thirty slices are built exactly when each one can be, team 1 first |
| `Teams.TeamsOk` | dataimport.py:67-70 | the team loop succeeds exactly when the columns are distinct and every team's table has them |
| `Teams.CollectTeams` | dataimport.py:65-70 | the loop over `fgteams` returns exactly the slices of `TeamsFrom` |
| `Teams.TeamsConcat` | dataimport.py:72 | the thirty slices stack into their rows, in team order, under the tagged columns |
| `Teams.TeamRows` | dataimport.py:67-72 | the stacked rows tagged `fgteams[t]` are exactly team t's fetched rows, in order |
| `Teams.TeamOrder` | docs/dataimport.py:141-150 | every stacked row carries its team's tag, and teams appear in key order |
| `Teams.StackedRow` | docs/dataimport.py:141-150 | stacked row p is the fetched row it came from, cut to the wanted columns and tagged |
| `FgStats.FgMerged` | docs/dataimport.py:150 | the renamed stack joined with the register's id pair is well formed |
| `FgStats.FgTable` | docs/dataimport.py:150-151 | the result is indexed by `key_mlbam` and has the wanted columns |
| `FgStats.FgStats` | docs/dataimport.py:139-151 | the team loop, stacking and join equal `FgStatsOf` |
| `FgStats.FgBatting` | docs/dataimport.py:138-152 | `fgBatting` is `FgStatsOf` with the hitting columns |
| `FgStats.FgPitching` | docs/dataimport.py:206-221 | `fgPitching` is `FgStatsOf` with the pitching columns |
| `FgStats.FgMergedOk` | docs/dataimport.py:150 | the join succeeds exactly when the register has both ids and the stack has no `key_fangraphs` yet |
| `FgStats.FgMergedKeys` | docs/dataimport.py:150 | the inner join keeps exactly the FanGraphs ids known to the register |
| `FgStats.FgTableRows` | docs/dataimport.py:150-151 | with a register unique on the FanGraphs id: one row per stacked row whose FanGraphs id the register knows, in order, keeping its selected cells and gaining the register's MLBAM id |
| `FgStats.FgStatsRows` | docs/dataimport.py:141-151 | the same, for the whole pipeline over the stacked team slices |
| `FgStats.FgStatsTeams` | docs/dataimport.py:141-151 | output rows stay in team order and keep their team tags |
| `FgStats.FgTableOk` | docs/dataimport.py:150-151 | the join and column selection succeed exactly when the register has both ids and the output columns are distinct, include `key_mlbam` and each is an id or a stacked column other than `IDfg` |
| `FgStats.FgStatsOk` | docs/dataimport.py:141-151 | `fgBatting` / `fgPitching` succeed exactly when every team's table has the distinct fetched columns and the join and selection conditions of `FgTableOk` hold |
| `StatPitching.CallsAsWritten` | docs/dataimport.py:231-243 | four provider requests per season of the range |
| `StatPitching.Calls` | docs/dataimport.py:231-243 | the corrected request list, also four per season |
| `StatPitching.CallsAt` | docs/dataimport.py:232-243 | request 4k+t is request t of season start + k |
| `StatPitching.CallsInRange` | docs/dataimport.py:232-243 | with the correction, request i asks for season start + i/4, always within the range |
| `StatPitching.CallsAsWrittenStale` | docs/dataimport.py:235 | as written, every season's speed-arsenal request asks for 2022 |
| `StatPitching.StaleArsenal2021` | docs/dataimport.py:235 | for 2021 the code asks for the 2022 arsenal where 2021 is meant |
| `Keys.DropDuplicates` | docs/dataimport.py:71 | `drop_duplicates(subset)` succeeds exactly when the subset columns exist; it keeps the shape and deduplicates the rows |
| `Keys.DropExactDuplicates` | dataimport.py:95 | `drop_duplicates()` keeps the shape and deduplicates on all columns |
| `Keys.DedupFromKeys` | docs/dataimport.py:327 | after deduplication each key appears once, and no key is lost |
| `Keys.DedupFromFirst` | docs/dataimport.py:71 | each kept row is the first row with its key |
| `Keys.DedupFromOrder` | dataimport.py:59 | kept rows are in the order of their keys' first occurrences |
| `Keys.DedupUniqueNoop` | dataimport.py:135-136 | rows already unique on the key come through unchanged |
| `Keys.DedupIdempotent` | docs/dataimport.py:326 | deduplicating twice is deduplicating once |
| `Keys.DedupPrefersFirstPart` | dataimport.py:59 | deduplicating a + b keeps one row per key of either part, taking a's row when a has one |
| `Keys.DedupCoarserKeys` | dataimport.py:136 | dropping exact duplicates loses no key |
| `Joins.Merge` | docs/dataimport.py:71-73 | `merge` succeeds exactly when the keys exist on both sides and no other column clashes; result columns are the left's then the right's non-key columns |
| `Joins.MergeOnCommon` | docs/dataimport.py:150 | `merge` without `on` joins on the shared columns and raises when there are none |
| `Joins.MergeLeftKeeps` | docs/dataimport.py:83-85 | a left merge keeps exactly the left keys, and every left row survives |
| `Joins.MergeLeftUnique` | docs/dataimport.py:71-73 | when the right side is unique on the key, a left merge has one row per left row, in order, with the matching cells or NaN |
| `Joins.MergeInnerKeys` | dataimport.py:55 | an inner merge keeps exactly the keys found on both sides |
| `Joins.MergeInnerUnique` | dataimport.py:55 | when the right side is unique on the key, an inner merge has one row per matched left row, in order, with the matching cells |
| `Joins.MergeKeyColumns` | dataimport.py:135 | every key is a column of the merged table |
| `Joins.MergeRightKeeps` | dataimport.py:95 | a right merge keeps exactly the right keys, and every right row survives |
| `Joins.MergeRightUnique` | dataimport.py:112 | when the left side is unique on the key, a right merge has one row per right row, in order, with the matching cells or NaN |
| `Joins.BlockContent` | docs/dataimport.py:71-73 | the rows one preserved row contributes are exactly its matches joined to it, or it padded with NaN in an outer join |
| `Joins.JoinRowsContent` | docs/dataimport.py:71-73 | with no uniqueness on either side: each joined row is a preserved row with a matching row's cells or NaN, and every matching pair and (outer) every unmatched row gives one |
| `Joins.MergeRightRows` | dataimport.py:95 | a right merge holds exactly each right row with the cells of a left row of its key, or with NaN when there is none |
| `Keys.DropExactSameRows` | dataimport.py:95 | on a frame with a positional index, `drop_duplicates()` keeps every distinct row and adds none |
| `Frames.Project` | dataimport.py:73 | column selection succeeds exactly on existing columns, and gives those columns in that order for every row; where pandas would repeat a label, the model raises `DuplicateLabels` instead |
| `Frames.Drop` | dataimport.py:55 | `drop` succeeds exactly when the columns exist; they are gone and all other cells stay |
| `Frames.Rename` | dataimport.py:72 | `rename` moves each cell to its new label; where pandas would end with two columns of one label, the model raises `DuplicateLabels` instead |
| `Frames.Stamp` | dataimport.py:69 | assigning a constant column sets it on every row and changes nothing else |
| `Frames.SetIndex` | dataimport.py:87 | `set_index` succeeds exactly on an existing column, which becomes the index |
| `Frames.ResetIndex` | docs/dataimport.py:83 | `reset_index` moves the named index into the columns, or adds the positional `index` column |
| `Frames.Concat` | docs/dataimport.py:102 | `concat` raises exactly on an empty list; otherwise it has one row per input row, under the union of the columns, and keeps a shared index unless told to ignore it |
| `Frames.ConcatUniform` | docs/dataimport.py:99 | same-shaped frames stack into their rows, in order |
| `Frames.ConcatKeepsCell` | docs/dataimport.py:123 | a column every part has keeps each stacked row's cell |
| `Frames.Select` | docs/dataimport.py:122 | every selected row holds the value and comes from the input; nothing is selected exactly when no row holds the value |
| `Frames.SelectHas` | dataimport.py:95 | every row holding the value is selected |
| `Frames.GetGroup` | dataimport.py:95 | `get_group` succeeds exactly when the column exists and some row holds the (non-NaN) value, and gives exactly those rows in order |
| `Frames.MapValues` | docs/dataimport.py:124 | `Series.map(table)` looks up every cell, giving NaN for a missing key |
| `Frames.ApplyCells` | docs/dataimport.py:105-110 | `apply` succeeds exactly when the function succeeds on every cell; otherwise it raises the first failure |
| `Frames.Apply` | docs/dataimport.py:105 | a column assigned from `apply` holds the function of each row's source cell, and nothing else changes |
| `Frames.Combine` | docs/dataimport.py:103 | a column computed from two columns holds the function of each row's two cells |
| `DocsImport.FirstIds` | docs/dataimport.py:71 | the identity selection has the columns key_mlbam, Name and Team and no index |
| `DocsImport.RegisterTable` | docs/dataimport.py:72-73 | the renamed and trimmed register keeps one row per register row |
| `DocsImport.RenamesSpareIds` | docs/dataimport.py:72 | the register renames leave `key_mlbam` alone |
| `DocsImport.GenID` | docs/dataimport.py:70-73 | `genID` gives a well-formed table with no named index |
| `DocsImport.FirstIdsFacts` | docs/dataimport.py:71 | one identity row per MLBAM id of the input, holding that id's first id, name and team |
| `DocsImport.GenIDKeys` | docs/dataimport.py:70-73 | `genID` has exactly the MLBAM ids of its input |
| `DocsImport.GenIDUnique` | docs/dataimport.py:70-73 | with a register unique on `key_mlbam`: one row per input id, holding that id's first name and team |
| `DocsImport.JoinIds` | docs/dataimport.py:71-73 | the left join against such a register keeps the identity rows one for one |
| `DocsImport.PeopleTable` | docs/dataimport.py:83-85 | the people table keeps its rows and loses the `drop_bio` columns |
| `DocsImport.GenBio` | docs/dataimport.py:82-85 | `genBio` gives a well-formed table with no named index |
| `DocsImport.PeopleKey` | docs/dataimport.py:84 | the people table's `key_bbref` is its former `playerID` |
| `DocsImport.PeopleCells` | docs/dataimport.py:83-85 | people columns that are not renamed or dropped keep their cells |
| `DocsImport.BioDropsApart` | docs/dataimport.py:49-50 | no `drop_bio` column is one of the four dropped afterwards, nor either key |
| `DocsImport.GenBioColumns` | docs/dataimport.py:85 | the four dropped columns are absent; a `drop_bio` column is present exactly when the identity table has it |
| `DocsImport.GenBioKeeps` | docs/dataimport.py:82-85 | no identity row is lost: each reappears with its kept cells |
| `DocsImport.GenBioUnique` | docs/dataimport.py:82-85 | with people unique on `playerID`: one row per identity row, each biography cell from the matching person or NaN |
| `DocsImport.MasterStack` | docs/dataimport.py:326-327 | batting rows come first, then pitching rows |
| `DocsImport.MasterCombineOk` | docs/dataimport.py:326-327 | combining succeeds exactly when there is a `key_mlbam` column, and keeps the shape |
| `DocsImport.MasterTwoWay` | docs/dataimport.py:326-327 | one row per MLBAM id of either table; a two-way player keeps the batting row, a pure pitcher the first pitching row |
| `DataImport.BasicTable` | dataimport.py:72-73 | the stack indexed by `key_fangraphs`, cut to the wanted columns, keeping every row |
| `DataImport.GenBasic` | dataimport.py:65-75 | the team loop, stacking and selection equal `BasicOf`, indexed by `key_fangraphs` |
| `DataImport.GenBatting` | dataimport.py:64-75 | columns Name, Team, G, then the hitting columns in declared order |
| `DataImport.GenPitching` | dataimport.py:79-90 | columns Name, Team, G, GS, then the pitching columns in declared order |
| `DataImport.BasicRows` | dataimport.py:72-73 | row p is stacked row p, with `IDfg` as its `key_fangraphs` |
| `DataImport.BasicTableOk` | dataimport.py:72-73 | renaming, indexing and selecting succeed exactly when the output columns are distinct existing non-id columns |
| `DataImport.BasicOk` | dataimport.py:67-73 | `genBatting` / `genPitching` succeed exactly when every team's table has the columns |
| `DataImport.BasicStatsRows` | dataimport.py:67-73 | every fetched row is kept, in team-key order, tagged with its team's code |
| `DataImport.NameTable` | dataimport.py:55 | `df['Name'].reset_index()` keeps one row per input row |
| `DataImport.GenID` | dataimport.py:54-55 | `genID` has no `name_last` / `name_first` |
| `DataImport.GenIDCols` | dataimport.py:55 | the columns are the name table's and the register's, minus the two name columns |
| `DataImport.GenIDKeys` | dataimport.py:55 | `genID` keeps exactly the FanGraphs ids both in the input and in the register |
| `DataImport.GenIDRows` | dataimport.py:55 | with a register unique on `key_fangraphs`: the known input rows in order, each with id, name and the register's cells |
| `DataImport.PeopleTable` | dataimport.py:59 | the people table keeps its rows under the dropped and renamed columns |
| `DataImport.GenBio` | dataimport.py:58-59 | the intended `genBio`: the identity union left-joined with the people table |
| `DataImport.GenBioAsWritten` | dataimport.py:58-59 | `genBio` as written raises exactly what the joins raise, and otherwise hands back `None` |
| `DataImport.GenBioDiscards` | dataimport.py:58-59 | as written, `genBio` hands back `None` whenever the table can be built |
| `DataImport.IdStack` | dataimport.py:59 | with `ignore_index`, batting identities stack before pitching ones |
| `DataImport.IdUnionRows` | dataimport.py:59 | one identity row per FanGraphs id of either table; a two-way player keeps the batting row |
| `DataImport.PeopleKey` | dataimport.py:59 | `key_bbref` of the people table holds its `playerID` |
| `DataImport.GenBioColumns` | dataimport.py:59 | a `drop_bio` column other than `debut` is present exactly when the identity table has it |
| `DataImport.GenBioKeeps` | dataimport.py:59 | the left join loses no identity row and keeps its `key_bbref` ids |
| `DataImport.GenBioUnique` | dataimport.py:59 | with people unique on `playerID`: exactly one row per FanGraphs id of either table |
| `DataImport.GenBWar` | dataimport.py:94-100 | the WAR table for a season is well formed with no named index |
| `DataImport.GenBWarKeys` | dataimport.py:95 | every MLBAM id of the identities survives, no other id appears, and no two rows are equal |
| `DataImport.GenBWarSeason` | dataimport.py:95 | the season's group holds exactly the renamed WAR rows of that season |
| `DataImport.GenBWarRows` | dataimport.py:95 | every row is an identity row's MLBAM id with the cells of a season WAR row for that id, or with NaN when the season has none; every such combination is a row |
| `DataImport.GenBWarSeasonRows` | dataimport.py:95 | with WAR tables on a positional index: the rows are exactly the season WAR rows of identity ids, plus a NaN row per identity id the season lacks |
| `DataImport.RightOntoIdRows` | dataimport.py:95 | a right join onto the id columns of an identity table holds exactly the identity ids joined with each matching row's cells, or with NaN |
| `DataImport.GenFielding` | dataimport.py:111-112 | the fielding table is well formed with no named index |
| `DataImport.GenFieldingKeys` | dataimport.py:112 | the fielding table has exactly the FanGraphs ids of `bio`, and at least as many rows |
| `DataImport.FieldingCells` | dataimport.py:112 | the keyed fielding table has a row per fielding row, holding its `IDfg` as `key_fangraphs`, its other cells unchanged, and no `Name` |
| `DataImport.GenFieldingRows` | dataimport.py:111-112 | every row is a `bio` FanGraphs id with the cells of a keyed fielding row for that id, or with NaN when there is none; every such combination is a row |
| `DataImport.WithIds` | dataimport.py:135-136 | the basic table laid onto the id pairs is well formed |
| `DataImport.WithIdsKeeps` | dataimport.py:135-136 | the FanGraphs ids are exactly the identity table's, every identity row's id pair appears, and no two rows are equal |
| `DataImport.WithIdsRows` | dataimport.py:135-136 | every row is an identity row's id pair with the cells of a basic row of that FanGraphs id, or with NaN when there is none; every such combination is a row |
| `DataImport.IdentitiesOf` | dataimport.py:129-134 | the basic tables and their `genID` tables, the two identity tables having the same columns |
| `DataImport.MasterFrom` | dataimport.py:135-144 | the rest of `master`, with each table produced by its step |
| `DataImport.Master` | dataimport.py:127-151 | `master` step by step equals the intended `MasterOf` |
| `DataImport.MasterFromAsWritten` | dataimport.py:135-144 | as written, the rest of `master` always raises, at the `genFielding` call once earlier steps succeed |
| `DataImport.MasterAsWritten` | dataimport.py:127-151 | as written, `master` never returns its tables |
| `DataImport.MasterAsWrittenFails` | dataimport.py:144 | whenever the intended `master` succeeds, the code as written raises the missing-argument error |
| `DataImport.MasterKeys` | dataimport.py:133-144 | which players each `master` table has: register-known basic rows with their id pairs, WAR rows for exactly the identity ids, fielding rows for exactly the `bio` players |
| `DataImport.MasterBio` | dataimport.py:137 | with people unique on `playerID`: `bio` has one row per player of the batting or pitching table |

## Left out

- Every pybaseball call is a parameter. Network access, provider failures and
  provider-side filters are folded into those parameters and not modelled. The
  filters are `qual=10`, `qual=20`, `split_seasons`, `minBBE` and `minPA`.
- The season argument of `genBatting`, `genPitching` and `master` is likewise
  folded into the fetch parameters, and so is the year range of `fgBatting` /
  `fgPitching`. `GenBWar` takes the year because it selects a group with it.
- Statistic values (AVG, ERA, WAR, exit velocity and the rest) are opaque cells.
  Only `R`, `RA`, the date text and the time text are interpreted.
- The Statcast chains are left out: `statBatting` (docs/dataimport.py:162-171),
  the joins of `statPitching` (docs/dataimport.py:231-243; only its year
  arguments are modelled), and `genStatcastBatting` / `genStatcastPitching`
  (dataimport.py:103-108). They are left joins of provider tables, already
  covered by `Joins.Merge`.
- `bwarBatting` / `bwarPitching` in the docs copy (docs/dataimport.py:181-185,
  253-257), `teamBatting` (docs/dataimport.py:195-196) and `teamPitching`
  (docs/dataimport.py:266-267) are one-call wrappers around providers and are
  left out.
- `genTeamBatting`, `genTeamPitching` and `genTeamFielding`
  (dataimport.py:115-125) are one-call wrappers around providers and are left
  out.
- The docs copy's `genBatting` / `genPitching` (docs/dataimport.py:282-311)
  combine the left-out tables. They are not modelled except through `genID`
  and `genBio`.
- Of the docs copy's `master`, only the deduplication (lines 326-327) is
  modelled. Its `gameLogs` and `teamDepot` calls (lines 328-329) are the
  modules `GameLogs` and `Depot`. The `genBatting` / `genPitching` calls
  (lines 324-325) and the assembly of the returned list are left out.
- The statcast and team tables in `master`'s return tuple
  (dataimport.py:142-143, 147-149) are not part of `MasterTables`.
- `Frames.Project`, `Frames.Rename`, `Frames.SetColumn`: a frame cannot hold one column label twice. Where pandas would produce one
  (`df[['a', 'a']]`, a `rename` onto an existing label, assigning a column
  named like the index), the model raises `DuplicateLabels`. No call in the
  source does this: the column lists are free of repeats.
- The pandas column suffixes `_x` / `_y` are not modelled. A merge where both
  sides carry a non-key column of the same name is the error `ColumnClash`.
- A frame has at most one named index level. Dtypes, NaN-as-float and
  index alignment are not modelled.
- An inner merge keeps left order (pandas 2.2 and later); older pandas order by
  key.
- `Text.ParseInt`: Python's `int()` also accepts surrounding whitespace and
  digit-group underscores; the model accepts only an optional sign followed
  by ASCII digits, and the contract gives the value only for unsigned digit
  strings.
- `GameLogs.RunsFacts`: R and RA are whole numbers. A float column with NaN is
  modelled as the NaN cell (`GameLogs.RunsMissing`).
- `DataImport.GenFielding`: the season is folded into the fielding table
  parameter, so the model has no `year` argument. The missing argument at
  dataimport.py:144 is modelled by `DataImport.MasterFromAsWritten`.
- The unused imports (docs/dataimport.py:1-9) and the commented-out string
  block (docs/dataimport.py:313-322) are not code the model needs.

## Findings

| source | as written | input that shows it | evidently intended | confidence | as-written member | corrected member |
|---|---|---|---|---|---|---|
| docs/dataimport.py:109 | the month column is mapped with the builtin `dict` type instead of the month table | any game dated "Sun, Apr 2": `dict("Apr")` raises ValueError | look each abbreviation up in the month table, "Apr" to "04" | not executed | `GameLogs.DictCallFirstError` | `GameLogs.DerivedMonths` |
| dataimport.py:59 | `genBio` builds the joined table but has no `return`, so callers get `None` | any call of `genBio` whose joins succeed | return the joined table | not executed | `DataImport.GenBioDiscards` | `DataImport.GenBioUnique` |
| dataimport.py:144 | `genFielding(bio)` is called without its required `year` argument | any `master(year)` whose earlier steps succeed raises TypeError there | `genFielding(bio, year)` | not executed | `DataImport.MasterAsWrittenFails` | `DataImport.MasterKeys` |
| docs/dataimport.py:235 | the speed-arsenal request is fixed to season 2022 | `statPitching(2021, 2021)` asks for the 2022 arsenal | ask for `year`, like the other three requests | not executed | `StatPitching.StaleArsenal2021` | `StatPitching.CallsInRange` |
