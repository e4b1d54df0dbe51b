/**
 * `fgBatting` and `fgPitching` of docs/dataimport.py: the thirty per-team
 * FanGraphs tables are stacked, `IDfg` is renamed to `key_fangraphs`, the
 * rows are inner-joined with the Chadwick register's `key_fangraphs` /
 * `key_mlbam` pair (on the columns the two share), and the wanted columns
 * are kept with `key_mlbam` as the index. The provider and the register are
 * parameters.
 */
module FgStats {
  import opened Frames
  import opened Keys
  import opened Joins
  import opened Catalogs
  import opened Teams

  const FgKey: seq<string> := ["key_fangraphs"]
  const IdFg: seq<string> := ["IDfg"]

  /** `rename(columns={"IDfg": "key_fangraphs"})`. */
  const FgIds: map<string, string> := map["IDfg" := "key_fangraphs"]

  /** The two register columns the join brings in. */
  const RegisterIds: seq<string> := ["key_fangraphs", "key_mlbam"]

  /** The columns `fgBatting` takes from each team's table, and the ones it returns. */
  const BattingFetch: seq<string> := ["IDfg", "Name", "Age", "G", "Season"] + HittingCols
  const BattingOut: seq<string> := ["key_mlbam", "Name", "Age", "Team", "G", "Season"] + HittingCols

  /** The columns `fgPitching` takes from each team's table, and the ones it returns. */
  const PitchingFetch: seq<string> := ["IDfg", "Name", "Age", "Season", "G", "GS"] + PitchingCols
  const PitchingOut: seq<string> := ["key_mlbam", "Name", "Age", "Team", "Season", "G", "GS"] + PitchingCols

  /** The stacked table renamed and inner-joined with the register's id pair on their common columns. */
  function FgMerged(stacked: Frame, register: Frame): (r: Result<Frame>)
    requires stacked.Valid() && register.Valid()
    ensures r.Ok? ==> r.value.Valid() && r.value.index == []
  {
    var renamed :- Rename(stacked, FgIds);
    var ids :- Project(register, RegisterIds);
    MergeOnCommon(renamed, ids, Inner)
  }

  /** The joined table cut to `outCols`, indexed by `key_mlbam`. */
  function FgTable(stacked: Frame, register: Frame, outCols: seq<string>): (r: Result<Frame>)
    requires stacked.Valid() && register.Valid()
    ensures r.Ok? ==> r.value.Valid() && r.value.index == ["key_mlbam"] && r.value.cols == Without(outCols, ["key_mlbam"])
  {
    var merged :- FgMerged(stacked, register);
    var picked :- Project(merged, outCols);
    SetIndex(picked, "key_mlbam")
  }

  /** The whole of `fgBatting` / `fgPitching`, with the per-team fetch and the output columns as parameters. */
  function FgStatsOf(fetch: int -> Frame, register: Frame, fetchCols: seq<string>, outCols: seq<string>): (r: Result<Frame>)
    requires TeamProvider(fetch) && register.Valid()
  {
    var fs :- TeamsFrom(Slicer(fetch, fetchCols, TeamTag), []);
    TeamsConcat(fetch, fetchCols, TeamTag, fs);
    var stacked :- Concat(fs, false);
    FgTable(stacked, register, outCols)
  }

  /** The loop over the teams, then the stacking and the join. */
  method FgStats(fetch: int -> Frame, register: Frame, fetchCols: seq<string>, outCols: seq<string>) returns (r: Result<Frame>)
    requires TeamProvider(fetch) && register.Valid()
    ensures r == FgStatsOf(fetch, register, fetchCols, outCols)
  {
    var teamDfs := CollectTeams(fetch, fetchCols);
    if teamDfs.Err? {
      return Err(teamDfs.error);
    }
    TeamsConcat(fetch, fetchCols, TeamTag, teamDfs.value);
    var stacked := Concat(teamDfs.value, false);
    r := FgTable(stacked.value, register, outCols);
  }

  /** `fgBatting(start_year, end_year)`; the year range is folded into `fetch`. */
  method FgBatting(fetch: int -> Frame, register: Frame) returns (r: Result<Frame>)
    requires TeamProvider(fetch) && register.Valid()
    ensures r == FgStatsOf(fetch, register, BattingFetch, BattingOut)
  {
    r := FgStats(fetch, register, BattingFetch, BattingOut);
  }

  /** `fgPitching(start_year, end_year)`; the year range is folded into `fetch`. */
  method FgPitching(fetch: int -> Frame, register: Frame) returns (r: Result<Frame>)
    requires TeamProvider(fetch) && register.Valid()
    ensures r == FgStatsOf(fetch, register, PitchingFetch, PitchingOut)
  {
    r := FgStats(fetch, register, PitchingFetch, PitchingOut);
  }

  /** Labels after an empty index are just the labels. */
  lemma NoIndex(s: seq<string>)
    ensures [] + s == s
  {
  }

  /** A distinct sequence holding `x` and nothing else is `[x]`. */
  lemma OnlyElement(r: seq<string>, x: string)
    requires Distinct(r) && forall y :: y in r <==> y == x
    ensures r == [x]
  {
    assert x in r;
    FirstTwoDiffer(r);
  }

  /** The first two labels of a distinct sequence differ. */
  lemma FirstTwoDiffer(r: seq<string>)
    requires Distinct(r)
    ensures 2 <= |r| ==> r[0] != r[1] && r[0] in r && r[1] in r
  {
  }

  /** Renaming `IDfg` to `key_fangraphs` keeps the labels distinct exactly when `key_fangraphs` was not a label yet. */
  lemma RelabelDistinct(cols: seq<string>)
    requires Distinct(cols) && "IDfg" in cols
    ensures Distinct(RelabelAll(FgIds, cols)) <==> "key_fangraphs" !in cols
    ensures forall c :: c in RelabelAll(FgIds, cols) <==> (c in cols && c != "IDfg") || c == "key_fangraphs"
  {
    var rel := RelabelAll(FgIds, cols);
    var p :| 0 <= p < |cols| && cols[p] == "IDfg";
    assert rel[p] == "key_fangraphs";
    if "key_fangraphs" in cols {
      var q :| 0 <= q < |cols| && cols[q] == "key_fangraphs";
      assert rel[q] == "key_fangraphs";
      assert p != q;
      if p < q {
        assert !Distinct(rel) by { assert rel[p] == rel[q]; }
      } else {
        assert !Distinct(rel) by { assert rel[q] == rel[p]; }
      }
    }
    forall c | c in cols && c != "IDfg" ensures c in rel {
      var i :| 0 <= i < |cols| && cols[i] == c;
      assert rel[i] == c;
    }
  }

  /**
   * The join succeeds exactly when `key_fangraphs` is not already a column
   * and the register has both id columns; it then runs on `key_fangraphs`
   * alone and appends `key_mlbam` to the renamed columns.
   */
  lemma FgMergedOk(stacked: Frame, register: Frame)
    requires stacked.Valid() && register.Valid() && stacked.index == []
    requires "IDfg" in stacked.cols && "key_mlbam" !in stacked.cols
    ensures FgMerged(stacked, register).Ok? <==>
      "key_fangraphs" !in stacked.cols && "key_fangraphs" in register.cols && "key_mlbam" in register.cols
    ensures FgMerged(stacked, register).Ok? ==>
      FgMerged(stacked, register).value.cols == RelabelAll(FgIds, stacked.cols) + ["key_mlbam"]
  {
    FgRenameOk(stacked);
    var rn := Rename(stacked, FgIds);
    var ids := Project(register, RegisterIds);
    if rn.Ok? && ids.Ok? {
      FgCommon(rn.value, ids.value);
    }
  }

  /** The rename succeeds exactly when `key_fangraphs` is not a column yet. */
  lemma FgRenameOk(stacked: Frame)
    requires stacked.Valid() && stacked.index == [] && "IDfg" in stacked.cols && "key_mlbam" !in stacked.cols
    ensures Rename(stacked, FgIds).Ok? <==> "key_fangraphs" !in stacked.cols
    ensures Rename(stacked, FgIds).Ok? ==>
      && Rename(stacked, FgIds).value.cols == RelabelAll(FgIds, stacked.cols)
      && "key_fangraphs" in RelabelAll(FgIds, stacked.cols) && "key_mlbam" !in RelabelAll(FgIds, stacked.cols)
  {
    assert [] + stacked.cols == stacked.cols;
    RelabelDistinct(stacked.cols);
    NoIndex(RelabelAll(FgIds, stacked.cols));
  }

  /** The renamed table and the register's id pair share `key_fangraphs` alone; `key_mlbam` is what the join adds. */
  lemma FgCommon(renamed: Frame, ids: Frame)
    requires renamed.Valid() && ids.Valid() && renamed.index == [] && ids.cols == RegisterIds
    requires "key_fangraphs" in renamed.cols && "key_mlbam" !in renamed.cols
    ensures Common(renamed.cols, ids.cols) == FgKey
    ensures Without(ids.cols, FgKey) == ["key_mlbam"]
    ensures Carried(renamed, FgKey) == renamed.cols
  {
    assert [] + renamed.cols == renamed.cols;
    OnlyElement(Common(renamed.cols, ids.cols), "key_fangraphs");
  }

  /**
   * `merged` is the join of the stacked rows with a register unique on
   * `key_fangraphs`: one row per stacked row whose `IDfg` the register
   * knows, in order, holding that row's cells under the renamed labels and
   * the register's `key_mlbam` for that id.
   */
  predicate FgJoined(merged: seq<Row>, stacked: seq<Row>, cols: seq<string>, register: seq<Row>) {
    var h := Hits(stacked, IdFg, KeySet(register, FgKey), 0);
    && |merged| == |h|
    && (forall j, c :: 0 <= j < |h| && c in cols ==> Get(merged[j], Relabel(FgIds, c)) == Get(stacked[h[j]], c))
    && (forall j :: 0 <= j < |h| ==>
          Get(merged[j], "key_mlbam") == MatchCell(register, FgKey, KeyOf(stacked[h[j]], IdFg), "key_mlbam"))
  }

  /** Row `i` of `renamed` holds, under each renamed label, the cell row `i` of `stacked` held under the old one. */
  predicate RenamedRows(renamed: seq<Row>, stacked: seq<Row>, cols: seq<string>) {
    && |renamed| == |stacked|
    && forall i, c :: 0 <= i < |stacked| && c in cols ==> Get(renamed[i], Relabel(FgIds, c)) == Get(stacked[i], c)
  }

  /** Renaming moves every cell to its new label, and the FanGraphs id from `IDfg` to `key_fangraphs`. */
  lemma FgRenamed(stacked: Frame, renamed: Frame)
    requires stacked.Valid() && "IDfg" in stacked.cols && Rename(stacked, FgIds) == Ok(renamed)
    ensures RenamedRows(renamed.rows, stacked.rows, stacked.cols)
    ensures forall i :: 0 <= i < |stacked.rows| ==> KeyOf(renamed.rows[i], FgKey) == KeyOf(stacked.rows[i], IdFg)
    ensures KeySet(renamed.rows, FgKey) == KeySet(stacked.rows, IdFg)
  {
    forall c | c in stacked.cols
      ensures forall i :: 0 <= i < |stacked.rows| ==> Get(renamed.rows[i], Relabel(FgIds, c)) == Get(stacked.rows[i], c)
    {
      RenameMoves(stacked, FgIds, renamed, c);
    }
    assert Relabel(FgIds, "IDfg") == "key_fangraphs";
    KeyColumnMoved(stacked.rows, renamed.rows, "IDfg", "key_fangraphs");
  }

  /** The register's id pair keeps the register's ids, its MLBAM ids and its uniqueness. */
  lemma FgRegister(register: Frame, ids: Frame)
    requires register.Valid() && Project(register, RegisterIds) == Ok(ids) && UniqueOn(register.rows, FgKey)
    ensures UniqueOn(ids.rows, FgKey) && KeySet(ids.rows, FgKey) == KeySet(register.rows, FgKey)
    ensures forall k :: MatchCell(ids.rows, FgKey, k, "key_mlbam") == MatchCell(register.rows, FgKey, k, "key_mlbam")
  {
    ProjectCell(register, RegisterIds, ids, "key_fangraphs");
    ProjectCell(register, RegisterIds, ids, "key_mlbam");
    KeyColumnMoved(register.rows, ids.rows, "key_fangraphs", "key_fangraphs");
    forall k ensures MatchCell(ids.rows, FgKey, k, "key_mlbam") == MatchCell(register.rows, FgKey, k, "key_mlbam") {
      MatchCellMoved(register.rows, ids.rows, "key_fangraphs", "key_fangraphs", "key_mlbam", k);
    }
  }

  /** With a register unique on `key_fangraphs`, the join keeps the rows the register knows, one for one. */
  lemma FgJoinRows(stacked: Frame, renamed: Frame, register: Frame, ids: Frame, merged: Frame)
    requires stacked.Valid() && register.Valid() && stacked.index == [] && "IDfg" in stacked.cols
    requires Rename(stacked, FgIds) == Ok(renamed) && Project(register, RegisterIds) == Ok(ids)
    requires "key_fangraphs" in renamed.cols && "key_mlbam" !in renamed.cols
    requires Merge(renamed, ids, FgKey, Inner) == Ok(merged)
    requires UniqueOn(register.rows, FgKey)
    ensures FgJoined(merged.rows, stacked.rows, stacked.cols, register.rows)
  {
    FgRenamed(stacked, renamed);
    FgRegister(register, ids);
    FgCommon(renamed, ids);
    MergeInnerUnique(renamed, ids, FgKey, merged);
    FgJoinCore(stacked.rows, stacked.cols, renamed, ids.rows, register.rows, merged.rows);
  }

  /** `FgJoinRows` once the rename, the register columns and the join are reduced to facts about rows. */
  lemma FgJoinCore(stacked: seq<Row>, cols: seq<string>, renamed: Frame, ids: seq<Row>, register: seq<Row>, merged: seq<Row>)
    requires renamed.Valid() && renamed.index == []
    requires RenamedRows(renamed.rows, stacked, cols)
    requires forall i :: 0 <= i < |stacked| ==> KeyOf(renamed.rows[i], FgKey) == KeyOf(stacked[i], IdFg)
    requires forall c :: c in cols ==> Relabel(FgIds, c) in renamed.cols
    requires KeySet(ids, FgKey) == KeySet(register, FgKey)
    requires forall k :: MatchCell(ids, FgKey, k, "key_mlbam") == MatchCell(register, FgKey, k, "key_mlbam")
    requires var kept := Matched(renamed.rows, ids, FgKey);
      && |merged| == |kept|
      && (forall j :: 0 <= j < |kept| ==> Extends(merged[j], Restrict(kept[j], Carried(renamed, FgKey))))
      && (forall j, c :: 0 <= j < |kept| && c in ["key_mlbam"] ==>
            c in merged[j] && merged[j][c] == MatchCell(ids, FgKey, KeyOf(kept[j], FgKey), c))
    ensures FgJoined(merged, stacked, cols, register)
  {
    var keys := KeySet(register, FgKey);
    MatchedHits(renamed.rows, ids, FgKey, 0);
    assert renamed.rows[0..] == renamed.rows;
    HitsMoved(stacked, renamed.rows, IdFg, FgKey, keys, 0);
    var h := Hits(stacked, IdFg, keys, 0);
    var kept := Matched(renamed.rows, ids, FgKey);
    assert Carried(renamed, FgKey) == renamed.cols;
    forall j, c | 0 <= j < |h| && c in cols
      ensures Get(merged[j], Relabel(FgIds, c)) == Get(stacked[h[j]], c)
    {
      assert renamed.rows[h[j]].Keys == Labels(renamed.index + renamed.cols);
      ExtendsRestrict(merged[j], kept[j], renamed.cols, Relabel(FgIds, c));
    }
    forall j | 0 <= j < |h|
      ensures Get(merged[j], "key_mlbam") == MatchCell(register, FgKey, KeyOf(stacked[h[j]], IdFg), "key_mlbam")
    {
      assert "key_mlbam" in ["key_mlbam"];
    }
  }

  /** Selecting `outCols` and moving `key_mlbam` to the index keeps every selected cell of every row. */
  lemma FgPicked(merged: Frame, outCols: seq<string>, out: Frame)
    requires merged.Valid() && merged.index == []
    requires Project(merged, outCols).Ok? && SetIndex(Project(merged, outCols).value, "key_mlbam") == Ok(out)
    ensures |out.rows| == |merged.rows|
    ensures forall i, c :: 0 <= i < |merged.rows| && c in outCols ==> Get(out.rows[i], c) == Get(merged.rows[i], c)
  {
    var picked := Project(merged, outCols).value;
    forall c | c in outCols ensures forall i :: 0 <= i < |merged.rows| ==> Get(out.rows[i], c) == Get(merged.rows[i], c) {
      ProjectCell(merged, outCols, picked, c);
      SetIndexCell(picked, "key_mlbam", out, c);
    }
  }

  /**
   * With a register unique on `key_fangraphs`, the output holds one row per
   * stacked row whose `IDfg` the register knows, in order: under each kept
   * label the cell of that row (`key_fangraphs` holding its `IDfg`), and in
   * the index the register's `key_mlbam` for that id.
   */
  predicate FgOut(out: seq<Row>, stacked: seq<Row>, cols: seq<string>, outCols: seq<string>, register: seq<Row>) {
    var h := Hits(stacked, IdFg, KeySet(register, FgKey), 0);
    && |out| == |h|
    && (forall j, c :: 0 <= j < |h| && c in cols && Relabel(FgIds, c) in outCols ==>
          Get(out[j], Relabel(FgIds, c)) == Get(stacked[h[j]], c))
    && (forall j :: 0 <= j < |h| ==>
          Get(out[j], "key_mlbam") == MatchCell(register, FgKey, KeyOf(stacked[h[j]], IdFg), "key_mlbam"))
  }

  lemma FgOutOfJoined(merged: seq<Row>, out: seq<Row>, stacked: seq<Row>, cols: seq<string>, outCols: seq<string>, register: seq<Row>)
    requires FgJoined(merged, stacked, cols, register) && "key_mlbam" in outCols
    requires |out| == |merged| && forall i, c :: 0 <= i < |merged| && c in outCols ==> Get(out[i], c) == Get(merged[i], c)
    ensures FgOut(out, stacked, cols, outCols, register)
  {
  }

  /** `FgTable` against a register unique on `key_fangraphs`: see `FgOut`. */
  lemma FgTableRows(stacked: Frame, register: Frame, outCols: seq<string>, out: Frame)
    requires stacked.Valid() && register.Valid() && stacked.index == []
    requires "IDfg" in stacked.cols && "key_mlbam" !in stacked.cols
    requires FgTable(stacked, register, outCols) == Ok(out) && UniqueOn(register.rows, FgKey)
    ensures FgOut(out.rows, stacked.rows, stacked.cols, outCols, register.rows)
  {
    FgMergedOk(stacked, register);
    FgRenameOk(stacked);
    var renamed := Rename(stacked, FgIds).value;
    var ids := Project(register, RegisterIds).value;
    var merged := FgMerged(stacked, register).value;
    FgCommon(renamed, ids);
    assert Merge(renamed, ids, FgKey, Inner) == Ok(merged);
    FgJoinRows(stacked, renamed, register, ids, merged);
    FgPicked(merged, outCols, out);
    FgOutOfJoined(merged.rows, out.rows, stacked.rows, stacked.cols, outCols, register.rows);
  }

  /** The FanGraphs ids that survive the join are those of the stacked rows that the register knows. */
  lemma FgMergedKeys(stacked: Frame, register: Frame, merged: Frame)
    requires stacked.Valid() && register.Valid() && stacked.index == []
    requires "IDfg" in stacked.cols && "key_mlbam" !in stacked.cols
    requires FgMerged(stacked, register) == Ok(merged)
    ensures KeySet(merged.rows, FgKey) == KeySet(stacked.rows, IdFg) * KeySet(register.rows, FgKey)
  {
    FgRenameOk(stacked);
    var renamed := Rename(stacked, FgIds).value;
    var ids := Project(register, RegisterIds).value;
    FgCommon(renamed, ids);
    FgRenamed(stacked, renamed);
    ProjectCell(register, RegisterIds, ids, "key_fangraphs");
    KeyColumnMoved(register.rows, ids.rows, "key_fangraphs", "key_fangraphs");
    MergeInnerKeys(renamed, ids, FgKey, merged);
  }

  /** Once the thirty slices are in, the result is `FgTable` of their stacked rows. */
  lemma FgStatsTable(fetch: int -> Frame, register: Frame, fetchCols: seq<string>, outCols: seq<string>, fs: seq<Frame>)
    requires TeamProvider(fetch) && register.Valid()
    requires TeamsFrom(Slicer(fetch, fetchCols, TeamTag), []) == Ok(fs)
    ensures Frame([], TaggedCols(fetchCols), Flatten(fs)).Valid()
    ensures FgStatsOf(fetch, register, fetchCols, outCols) == FgTable(Frame([], TaggedCols(fetchCols), Flatten(fs)), register, outCols)
  {
    TeamsConcat(fetch, fetchCols, TeamTag, fs);
  }

  /**
   * `fgBatting` / `fgPitching` against a register unique on `key_fangraphs`:
   * the output rows are the stacked per-team rows whose FanGraphs id the
   * register knows, in order (see `FgOut`).
   */
  lemma FgStatsRows(fetch: int -> Frame, register: Frame, fetchCols: seq<string>, outCols: seq<string>, fs: seq<Frame>, out: Frame)
    requires TeamProvider(fetch) && register.Valid()
    requires "IDfg" in fetchCols && "key_mlbam" !in fetchCols
    requires TeamsFrom(Slicer(fetch, fetchCols, TeamTag), []) == Ok(fs)
    requires FgStatsOf(fetch, register, fetchCols, outCols) == Ok(out) && UniqueOn(register.rows, FgKey)
    ensures FgOut(out.rows, Flatten(fs), TaggedCols(fetchCols), outCols, register.rows)
  {
    FgStatsTable(fetch, register, fetchCols, outCols, fs);
    FgTableRows(Frame([], TaggedCols(fetchCols), Flatten(fs)), register, outCols, out);
  }

  /** The output rows keep the team order of the loop, and each carries the code of its team. */
  lemma FgStatsTeams(fetch: int -> Frame, register: Frame, fetchCols: seq<string>, outCols: seq<string>, fs: seq<Frame>, out: Frame)
    requires TeamProvider(fetch) && register.Valid()
    requires "IDfg" in fetchCols && "key_mlbam" !in fetchCols
    requires TeamsFrom(Slicer(fetch, fetchCols, TeamTag), []) == Ok(fs)
    requires FgStatsOf(fetch, register, fetchCols, outCols) == Ok(out) && UniqueOn(register.rows, FgKey)
    ensures var h := Hits(Flatten(fs), IdFg, KeySet(register.rows, FgKey), 0);
      TeamOrdered(fs, h) && ("Team" in outCols ==> TeamTagged(out.rows, fs, h, TeamTag))
  {
    FgStatsRows(fetch, register, fetchCols, outCols, fs, out);
    TeamOrder(fetch, fetchCols, TeamTag, fs);
    FgTeams(fs, out.rows, TaggedCols(fetchCols), outCols, register.rows, TeamTag);
  }

  /** The stacked rows at the positions `h` come from teams in nondecreasing order. */
  predicate TeamOrdered(fs: seq<Frame>, h: seq<nat>) {
    forall j, j' :: 0 <= j <= j' < |h| && h[j] < TotalRows(fs) && h[j'] < TotalRows(fs) ==>
      Origin(fs, h[j]).0 <= Origin(fs, h[j']).0
  }

  /** Row `j` of `out` carries the tag of the team that stacked row `h[j]` comes from. */
  predicate TeamTagged(out: seq<Row>, fs: seq<Frame>, h: seq<nat>, tag: int -> Cell) {
    forall j :: 0 <= j < |h| && j < |out| && h[j] < TotalRows(fs) ==> Get(out[j], "Team") == tag(Origin(fs, h[j]).0 + 1)
  }

  /** The team order and the team tags of the stacked rows carry over to the output rows. */
  lemma FgTeams(fs: seq<Frame>, out: seq<Row>, cols: seq<string>, outCols: seq<string>, register: seq<Row>, tag: int -> Cell)
    requires FgOut(out, Flatten(fs), cols, outCols, register) && "Team" in cols
    requires StackOrdered(fs, tag)
    ensures var h := Hits(Flatten(fs), IdFg, KeySet(register, FgKey), 0);
      TeamOrdered(fs, h) && ("Team" in outCols ==> TeamTagged(out, fs, h, tag))
  {
    var h := Hits(Flatten(fs), IdFg, KeySet(register, FgKey), 0);
    forall j, j' | 0 <= j <= j' < |h| ensures Origin(fs, h[j]).0 <= Origin(fs, h[j']).0 {
      assert h[j] <= h[j'];
    }
    if "Team" in outCols {
      assert Relabel(FgIds, "Team") == "Team";
    }
  }

  /**
   * `FgTable` succeeds exactly when the register has both id columns and
   * `outCols` are distinct labels of the joined table that include `key_mlbam`.
   */
  lemma FgTableOk(stacked: Frame, register: Frame, outCols: seq<string>)
    requires stacked.Valid() && register.Valid() && stacked.index == []
    requires "IDfg" in stacked.cols && "key_mlbam" !in stacked.cols && "key_fangraphs" !in stacked.cols
    ensures FgTable(stacked, register, outCols).Ok? <==>
      && "key_fangraphs" in register.cols && "key_mlbam" in register.cols
      && Distinct(outCols) && "key_mlbam" in outCols
      && forall c :: c in outCols ==> c == "key_mlbam" || c == "key_fangraphs" || (c in stacked.cols && c != "IDfg")
  {
    NoIndex(stacked.cols);
    RelabelDistinct(stacked.cols);
    FgMergedOk(stacked, register);
    var merged := FgMerged(stacked, register);
    if merged.Ok? {
      FgPickOk(merged.value, outCols);
    }
  }

  /** Selecting `outCols` and indexing by `key_mlbam` succeed exactly when `outCols` are distinct columns including `key_mlbam`. */
  lemma FgPickOk(merged: Frame, outCols: seq<string>)
    requires merged.Valid()
    ensures (Project(merged, outCols).Ok? && SetIndex(Project(merged, outCols).value, "key_mlbam").Ok?) <==>
      Distinct(outCols) && "key_mlbam" in outCols && forall c :: c in outCols ==> c in merged.cols
  {
  }

  /**
   * `fgBatting` / `fgPitching` succeed exactly when every team's table has
   * the wanted columns, the register has both id columns, and the output
   * columns are distinct labels of the joined table that include `key_mlbam`.
   */
  lemma FgStatsOk(fetch: int -> Frame, register: Frame, fetchCols: seq<string>, outCols: seq<string>)
    requires TeamProvider(fetch) && register.Valid()
    requires "IDfg" in fetchCols && "key_mlbam" !in fetchCols && "key_fangraphs" !in fetchCols
    ensures FgStatsOf(fetch, register, fetchCols, outCols).Ok? <==>
      && Distinct(fetchCols) && (forall t, c :: 1 <= t <= 30 && c in fetchCols ==> c in fetch(t).cols)
      && "key_fangraphs" in register.cols && "key_mlbam" in register.cols
      && Distinct(outCols) && "key_mlbam" in outCols
      && forall c :: c in outCols ==> c == "key_mlbam" || c == "key_fangraphs" || (c in TaggedCols(fetchCols) && c != "IDfg")
  {
    TeamsOk(fetch, fetchCols, TeamTag);
    var fs := TeamsFrom(Slicer(fetch, fetchCols, TeamTag), []);
    if fs.Ok? {
      FgStatsTable(fetch, register, fetchCols, outCols, fs.value);
      FgTableOk(Frame([], TaggedCols(fetchCols), Flatten(fs.value)), register, outCols);
    }
  }
}
