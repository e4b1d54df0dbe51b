/**
 * `teamDepot(start_year, end_year)` of docs/dataimport.py: the Lahman team
 * table's groups for the seasons `start_year` to `end_year`, stacked in
 * season order, with the division letter mapped to its name, cut to nine
 * columns and relabelled. The team table is a parameter.
 */
module Depot {
  import opened Frames
  import opened Catalogs
  import opened GameLogs

  /** The team-table columns `teamDepot` keeps, in order. */
  const DepotCols: seq<string> := ["teamIDBR", "name", "yearID", "divID", "Rank", "W", "L", "BPF", "PPF"]

  /** The relabelling of four of them. */
  const DepotRenames: map<string, string> :=
    map["teamIDBR" := "Team", "name" := "TeamName", "yearID" := "Season", "divID" := "Division"]

  /** The columns of the result, in order. */
  const DepotOut: seq<string> := ["Team", "TeamName", "Season", "Division", "Rank", "W", "L", "BPF", "PPF"]

  /** Slice `k` of `fs` is the group of season `year + k` of the team table: its rows for that season, in order. */
  predicate SeasonGroups(core: Frame, fs: seq<Frame>, year: int) {
    forall k :: 0 <= k < |fs| ==>
      && fs[k].Valid() && fs[k].index == core.index && fs[k].cols == core.cols
      && fs[k].rows == Select(core.rows, "yearID", Int(year + k))
  }

  lemma SeasonGroupsCons(core: Frame, g: Frame, rest: seq<Frame>, year: int)
    requires g.Valid() && g.index == core.index && g.cols == core.cols && g.rows == Select(core.rows, "yearID", Int(year))
    requires SeasonGroups(core, rest, year + 1)
    ensures SeasonGroups(core, [g] + rest, year)
  {
    var all := [g] + rest;
    forall k | 0 <= k < |all|
      ensures all[k].Valid() && all[k].index == core.index && all[k].cols == core.cols
      ensures all[k].rows == Select(core.rows, "yearID", Int(year + k))
    {
      if k > 0 {
        assert all[k] == rest[k - 1];
        assert year + k == year + 1 + (k - 1);
      }
    }
  }

  /**
   * `[lmn.get_group(year) for year in range(year, end + 1)]`: the group of
   * every season in turn; the first season the table lacks raises KeyError.
   */
  function YearGroups(core: Frame, year: int, end: int): (r: Result<seq<Frame>>)
    requires core.Valid()
    ensures r.Ok? <==> forall y :: year <= y <= end ==> GetGroup(core, "yearID", Int(y)).Ok?
    ensures r.Ok? ==> |r.value| == YearCount(year, end) && SeasonGroups(core, r.value, year)
    decreases end - year
  {
    if year > end then Ok([])
    else
      var group :- GetGroup(core, "yearID", Int(year));
      var rest :- YearGroups(core, year + 1, end);
      SeasonGroupsCons(core, group, rest, year);
      Ok([group] + rest)
  }

  /** Every stacked row holds, under `yearID`, the season of the group it comes from. */
  lemma GroupSeasons(core: Frame, groups: seq<Frame>, start: int)
    requires SeasonGroups(core, groups, start)
    ensures forall p :: 0 <= p < TotalRows(groups) ==> Get(Flatten(groups)[p], "yearID") == Int(start + Origin(groups, p).0)
  {
    forall p | 0 <= p < TotalRows(groups) ensures Get(Flatten(groups)[p], "yearID") == Int(start + Origin(groups, p).0) {
      var o := Origin(groups, p);
      assert groups[o.0].rows == Select(core.rows, "yearID", Int(start + o.0));
    }
  }

  /** The stacked season groups share the team table's index and columns, so `pd.concat` just stacks their rows. */
  lemma GroupsConcat(core: Frame, groups: seq<Frame>, start: int)
    requires SeasonGroups(core, groups, start)
    ensures AllValid(groups)
    ensures groups != [] ==> Concat(groups, false) == Ok(Frame(core.index, core.cols, Flatten(groups)))
  {
    if groups != [] {
      ConcatUniform(groups, core.index, core.cols);
    }
  }

  /**
   * The rest of `teamDepot` on the stacked groups: `divID` mapped through
   * `div` (NaN for any other value), then the columns `cols`, relabelled by
   * `renames`.
   */
  function DepotFrame(teams: Frame, div: map<Cell, Cell>, cols: seq<string>, renames: map<string, string>): (r: Result<Frame>)
    requires teams.Valid()
    ensures r.Ok? ==> r.value.Valid() && r.value.index == teams.index && |r.value.rows| == |teams.rows|
    ensures r.Ok? ==> r.value.cols == RelabelAll(renames, cols)
  {
    var mapped :- MapValues(teams, "divID", div);
    var picked :- Project(mapped, cols);
    Rename(picked, renames)
  }

  /** `teamDepot(start, end)`: the season groups stacked in season order, then `DepotFrame`. */
  function TeamDepotOf(core: Frame, start: int, end: int): (r: Result<Frame>)
    requires core.Valid()
    ensures r.Ok? ==> r.value.Valid() && r.value.index == core.index
  {
    var groups :- YearGroups(core, start, end);
    GroupsConcat(core, groups, start);
    var teams :- Concat(groups, false);
    DepotFrame(teams, CellMap(Div), DepotCols, DepotRenames)
  }

  /** The steps as the source takes them, the division column rewritten in place. */
  method TeamDepot(core: Frame, startYear: int, endYear: int) returns (r: Result<Frame>)
    requires core.Valid()
    ensures r == TeamDepotOf(core, startYear, endYear)
  {
    var groups :- YearGroups(core, startYear, endYear);
    GroupsConcat(core, groups, startYear);
    var teams :- Concat(groups, false);
    teams :- MapValues(teams, "divID", CellMap(Div));
    var picked :- Project(teams, DepotCols);
    r := Rename(picked, DepotRenames);
  }

  /** What a row of the result holds under the new label of `a`, given the stacked team-table row it comes from. */
  function DepotCell(row: Row, div: map<Cell, Cell>, a: string): Cell {
    if a == "divID" then Lookup(div, Get(row, "divID")) else Get(row, a)
  }

  /** No kept label, and no label of the result, appears twice. */
  lemma DepotDistinct()
    ensures Distinct(DepotCols) && Distinct(DepotOut)
  {
  }

  /** The kept labels become the labels of the result. */
  lemma DepotRelabel()
    ensures RelabelAll(DepotRenames, DepotCols) == DepotOut
  {
    forall i | 0 <= i < |DepotCols| ensures Relabel(DepotRenames, DepotCols[i]) == DepotOut[i] {
    }
  }

  /** Row `out` holds each cell of `src` in `cols` under its new label, the division mapped through `div`. */
  predicate DepotRowOf(out: Row, src: Row, div: map<Cell, Cell>, cols: seq<string>, renames: map<string, string>) {
    forall a :: a in cols ==> Get(out, Relabel(renames, a)) == DepotCell(src, div, a)
  }

  /** Row `p` of `DepotFrame` is row `p` of its input, each kept cell under its new label, the division mapped through `div`. */
  lemma DepotFrameRows(teams: Frame, div: map<Cell, Cell>, cols: seq<string>, renames: map<string, string>, out: Frame)
    requires teams.Valid() && DepotFrame(teams, div, cols, renames) == Ok(out)
    ensures |out.rows| == |teams.rows|
    ensures forall p :: 0 <= p < |teams.rows| ==> DepotRowOf(out.rows[p], teams.rows[p], div, cols, renames)
  {
    var mapped := MapValues(teams, "divID", div).value;
    var picked := Project(mapped, cols).value;
    forall p | 0 <= p < |teams.rows| ensures "divID" in teams.rows[p] {
      assert teams.rows[p].Keys == Labels(teams.index + teams.cols);
    }
    forall a | a in cols
      ensures forall p :: 0 <= p < |teams.rows| ==> Get(out.rows[p], Relabel(renames, a)) == DepotCell(teams.rows[p], div, a)
    {
      ProjectCell(mapped, cols, picked, a);
      RenameMoves(picked, renames, out, a);
    }
    assert forall p :: 0 <= p < |teams.rows| ==> DepotRowOf(out.rows[p], teams.rows[p], div, cols, renames);
  }

  /**
   * Row `p` of the result is row `p` of the stacked season groups, each kept
   * cell under its new label, the division mapped through `div`.
   */
  lemma DepotRows(core: Frame, start: int, end: int, out: Frame)
    requires core.Valid() && TeamDepotOf(core, start, end) == Ok(out)
    ensures YearGroups(core, start, end).Ok?
    ensures var groups := YearGroups(core, start, end).value;
      && |out.rows| == TotalRows(groups)
      && forall p :: 0 <= p < |out.rows| ==> DepotRowOf(out.rows[p], Flatten(groups)[p], CellMap(Div), DepotCols, DepotRenames)
  {
    var groups := YearGroups(core, start, end).value;
    GroupsConcat(core, groups, start);
    DepotFrameRows(Frame(core.index, core.cols, Flatten(groups)), CellMap(Div), DepotCols, DepotRenames, out);
  }

  /** With no season in the range, `pd.concat([])` raises. */
  lemma DepotEmpty(core: Frame, start: int, end: int)
    requires core.Valid() && end < start
    ensures TeamDepotOf(core, start, end) == Err(NoObjectsToConcatenate)
  {
  }

  /** A season of the range that the team table lacks makes `get_group` raise. */
  lemma DepotMissingSeason(core: Frame, start: int, end: int, y: int)
    requires core.Valid() && start <= y <= end && GetGroup(core, "yearID", Int(y)).Err?
    ensures TeamDepotOf(core, start, end).Err?
  {
  }

  /** On a table with the default index, `DepotFrame` succeeds exactly when the columns it reads are there and its labels do not clash. */
  lemma DepotFrameOk(teams: Frame, div: map<Cell, Cell>, cols: seq<string>, renames: map<string, string>)
    requires teams.Valid() && teams.index == []
    ensures DepotFrame(teams, div, cols, renames).Ok? <==>
              && "divID" in teams.cols && (forall c :: c in cols ==> c in teams.cols)
              && Distinct(cols) && Distinct(RelabelAll(renames, cols))
  {
    assert [] + RelabelAll(renames, cols) == RelabelAll(renames, cols);
  }

  /**
   * On a team table with the default index, `teamDepot` succeeds exactly
   * when the range holds a season, every season of it is in the table, and
   * the table has the nine columns.
   */
  lemma DepotOk(core: Frame, start: int, end: int)
    requires core.Valid() && core.index == []
    ensures TeamDepotOf(core, start, end).Ok? <==>
              && start <= end
              && (forall y :: start <= y <= end ==> GetGroup(core, "yearID", Int(y)).Ok?)
              && (forall c :: c in DepotCols ==> c in core.cols)
  {
    DepotDistinct();
    DepotRelabel();
    var gs := YearGroups(core, start, end);
    if gs.Ok? {
      GroupsConcat(core, gs.value, start);
      if start <= end {
        DepotFrameOk(Frame(core.index, core.cols, Flatten(gs.value)), CellMap(Div), DepotCols, DepotRenames);
      }
    }
  }

  /** The result has the nine relabelled columns, and the team table's index. */
  lemma DepotShape(core: Frame, start: int, end: int, out: Frame)
    requires core.Valid() && TeamDepotOf(core, start, end) == Ok(out)
    ensures out.cols == DepotOut && out.index == core.index
  {
    DepotRelabel();
  }

  /** The division names, and NaN, are the only values `div` gives. */
  lemma DivisionValues(v: Cell)
    ensures Lookup(CellMap(Div), v) in {Str("EAST"), Str("CENTRAL"), Str("WEST"), Null}
  {
  }

  /**
   * Every `Division` cell is the name of the team's division letter, or NaN
   * when the letter is not one of `E`, `C` and `W`.
   */
  lemma DepotDivisions(core: Frame, start: int, end: int, out: Frame)
    requires core.Valid() && TeamDepotOf(core, start, end) == Ok(out)
    ensures forall p :: 0 <= p < |out.rows| ==> Get(out.rows[p], "Division") in {Str("EAST"), Str("CENTRAL"), Str("WEST"), Null}
  {
    DepotRows(core, start, end, out);
    var rows := Flatten(YearGroups(core, start, end).value);
    assert Relabel(DepotRenames, "divID") == "Division";
    assert "divID" in DepotCols;
    forall p | 0 <= p < |out.rows| ensures Get(out.rows[p], "Division") in {Str("EAST"), Str("CENTRAL"), Str("WEST"), Null} {
      assert DepotRowOf(out.rows[p], rows[p], CellMap(Div), DepotCols, DepotRenames);
      assert Get(out.rows[p], Relabel(DepotRenames, "divID")) == Lookup(CellMap(Div), Get(rows[p], "divID"));
      DivisionValues(Get(rows[p], "divID"));
    }
  }

  /** `yearID` is kept, and becomes `Season`. */
  lemma SeasonLabel()
    ensures "yearID" in DepotCols && Relabel(DepotRenames, "yearID") == "Season"
  {
  }

  /** Every row holds a season of `start` to `end` under `Season`, and the seasons never go down the rows. */
  predicate SeasonsInOrder(rows: seq<Row>, start: int, end: int) {
    && (forall p :: 0 <= p < |rows| ==> Get(rows[p], "Season").Int? && start <= Get(rows[p], "Season").i <= end)
    && (forall p, q :: 0 <= p <= q < |rows| ==> Get(rows[p], "Season").i <= Get(rows[q], "Season").i)
  }

  /** Rows built from the stacked season groups, `yearID` relabelled `Season`, carry seasons of the range, in order. */
  lemma SeasonOrder(rows: seq<Row>, groups: seq<Frame>, start: int, end: int,
                    div: map<Cell, Cell>, cols: seq<string>, renames: map<string, string>)
    requires |groups| == YearCount(start, end) && |rows| == TotalRows(groups)
    requires forall p :: 0 <= p < TotalRows(groups) ==> Get(Flatten(groups)[p], "yearID") == Int(start + Origin(groups, p).0)
    requires "yearID" in cols && Relabel(renames, "yearID") == "Season"
    requires forall p :: 0 <= p < |rows| ==> DepotRowOf(rows[p], Flatten(groups)[p], div, cols, renames)
    ensures SeasonsInOrder(rows, start, end)
  {
    forall p | 0 <= p < |rows| ensures Get(rows[p], "Season") == Int(start + Origin(groups, p).0) {
      assert DepotRowOf(rows[p], Flatten(groups)[p], div, cols, renames);
      assert Get(rows[p], Relabel(renames, "yearID")) == DepotCell(Flatten(groups)[p], div, "yearID");
    }
    forall p, q | 0 <= p <= q < |rows| ensures Origin(groups, p).0 <= Origin(groups, q).0 {
      OriginOrdered(groups, p, q);
    }
  }

  /** The rows `DepotRows` describes carry the seasons of the range, in order. */
  lemma DepotRowsSeasons(core: Frame, start: int, end: int, rows: seq<Row>)
    requires core.Valid() && YearGroups(core, start, end).Ok?
    requires var groups := YearGroups(core, start, end).value;
      && |rows| == TotalRows(groups)
      && forall p :: 0 <= p < |rows| ==> DepotRowOf(rows[p], Flatten(groups)[p], CellMap(Div), DepotCols, DepotRenames)
    ensures SeasonsInOrder(rows, start, end)
  {
    var groups := YearGroups(core, start, end).value;
    GroupSeasons(core, groups, start);
    SeasonLabel();
    SeasonOrder(rows, groups, start, end, CellMap(Div), DepotCols, DepotRenames);
  }

  /**
   * Every `Season` cell is a season of the range, and the seasons never go
   * down the table: the rows of each season come before those of the next.
   */
  lemma DepotSeasons(core: Frame, start: int, end: int, out: Frame)
    requires core.Valid() && TeamDepotOf(core, start, end) == Ok(out)
    ensures SeasonsInOrder(out.rows, start, end)
  {
    DepotRows(core, start, end, out);
    DepotRowsSeasons(core, start, end, out.rows);
  }
}
