/**
 * The top-level dataimport.py: `genBatting` / `genPitching` (the thirty
 * per-team FanGraphs tables, tagged, stacked and indexed by
 * `key_fangraphs`), `genID` (inner join with the Chadwick register),
 * `genBio` (batting and pitching identities, deduplicated and left-joined
 * with the Lahman people table), `genbWARBatting` / `genbWARpitching` (one
 * season of Baseball-Reference WAR right-joined onto the identities),
 * `genFielding`, and `master`, which chains them. Every provider table is a
 * parameter.
 */
module DataImport {
  import opened Frames
  import opened Keys
  import opened Joins
  import opened Catalogs
  import opened Teams
  import FgStats

  const FgKey: seq<string> := ["key_fangraphs"]
  const Mlbam: seq<string> := ["key_mlbam"]
  const Bbref: seq<string> := ["key_bbref"]

  /** The columns `genBatting` takes from each team's table, and the ones it keeps. */
  const BattingFetch: seq<string> := ["IDfg", "Name", "G"] + HittingCols
  const BattingOut: seq<string> := ["Name", "Team", "G"] + HittingCols

  /** The columns `genPitching` takes from each team's table, and the ones it keeps. */
  const PitchingFetch: seq<string> := ["IDfg", "Name", "G", "GS"] + PitchingCols
  const PitchingOut: seq<string> := ["Name", "Team", "G", "GS"] + PitchingCols

  // ---------------------------------------------------------------------
  // genBatting / genPitching

  /** The stacked table with `IDfg` renamed to `key_fangraphs`, moved to the index, cut to `outCols`. */
  function BasicTable(stacked: Frame, outCols: seq<string>): (r: Result<Frame>)
    requires stacked.Valid()
    ensures r.Ok? ==> r.value.Valid() && r.value.index == FgKey && r.value.cols == outCols
    ensures r.Ok? ==> |r.value.rows| == |stacked.rows|
  {
    var renamed :- Rename(stacked, FgStats.FgIds);
    var indexed :- SetIndex(renamed, "key_fangraphs");
    Project(indexed, outCols)
  }

  /** The whole of `genBatting` / `genPitching`, the per-team fetch and both column lists as parameters. */
  function BasicOf(fetch: int -> Frame, fetchCols: seq<string>, outCols: seq<string>): (r: Result<Frame>)
    requires TeamProvider(fetch)
  {
    var fs :- TeamsFrom(Slicer(fetch, fetchCols, TeamTag), []);
    TeamsConcat(fetch, fetchCols, TeamTag, fs);
    var stacked :- Concat(fs, false);
    BasicTable(stacked, outCols)
  }

  /** The loop over `fgteams`, then the stacking, renaming, indexing and column selection. */
  method GenBasic(fetch: int -> Frame, fetchCols: seq<string>, outCols: seq<string>) returns (r: Result<Frame>)
    requires TeamProvider(fetch)
    ensures r == BasicOf(fetch, fetchCols, outCols)
    ensures r.Ok? ==> r.value.index == FgKey && r.value.cols == outCols
  {
    var teamDfs := CollectTeams(fetch, fetchCols);
    if teamDfs.Err? {
      return Err(teamDfs.error);
    }
    TeamsConcat(fetch, fetchCols, TeamTag, teamDfs.value);
    var stacked := Concat(teamDfs.value, false);
    r := BasicTable(stacked.value, outCols);
  }

  /** `genBatting(year)`, the season folded into `fetch`: indexed by `key_fangraphs`, columns `Name, Team, G` and the hitting columns. */
  method GenBatting(fetch: int -> Frame) returns (r: Result<Frame>)
    requires TeamProvider(fetch)
    ensures r == BasicOf(fetch, BattingFetch, BattingOut)
    ensures r.Ok? ==> r.value.index == ["key_fangraphs"] && r.value.cols == ["Name", "Team", "G"] + HittingCols
  {
    r := GenBasic(fetch, BattingFetch, BattingOut);
  }

  /** `genPitching(year)`, the season folded into `fetch`: indexed by `key_fangraphs`, columns `Name, Team, G, GS` and the pitching columns. */
  method GenPitching(fetch: int -> Frame) returns (r: Result<Frame>)
    requires TeamProvider(fetch)
    ensures r == BasicOf(fetch, PitchingFetch, PitchingOut)
    ensures r.Ok? ==> r.value.index == ["key_fangraphs"] && r.value.cols == ["Name", "Team", "G", "GS"] + PitchingCols
  {
    r := GenBasic(fetch, PitchingFetch, PitchingOut);
  }

  /**
   * Row `p` of `out` is stacked row `p`: the same cell under every kept
   * column, and its `IDfg` as the `key_fangraphs` index.
   */
  predicate BasicFrom(out: seq<Row>, stacked: seq<Row>, outCols: seq<string>) {
    && |out| == |stacked|
    && (forall p, c :: 0 <= p < |out| && c in outCols ==> Get(out[p], c) == Get(stacked[p], c))
    && (forall p :: 0 <= p < |out| ==> Get(out[p], "key_fangraphs") == Get(stacked[p], "IDfg"))
  }

  /** The renaming and indexing move `IDfg` to the index and keep every selected cell; no row is lost or reordered. */
  lemma BasicRows(stacked: Frame, outCols: seq<string>, out: Frame)
    requires stacked.Valid() && stacked.index == [] && "IDfg" in stacked.cols
    requires BasicTable(stacked, outCols) == Ok(out)
    ensures "key_fangraphs" !in stacked.cols
    ensures forall c :: c in outCols ==> c in stacked.cols && c != "IDfg"
    ensures BasicFrom(out.rows, stacked.rows, outCols)
  {
    var renamed := Rename(stacked, FgStats.FgIds).value;
    var indexed := SetIndex(renamed, "key_fangraphs").value;
    FgStats.NoIndex(stacked.cols);
    FgStats.RelabelDistinct(stacked.cols);
    FgStats.NoIndex(RelabelAll(FgStats.FgIds, stacked.cols));
    FgStats.FgRenamed(stacked, renamed);
    forall c | c in outCols ensures c in stacked.cols && c != "IDfg" && Relabel(FgStats.FgIds, c) == c {
      assert c in indexed.cols;
    }
    forall c | c in outCols ensures forall p :: 0 <= p < |out.rows| ==> Get(out.rows[p], c) == Get(stacked.rows[p], c) {
      SetIndexCell(renamed, "key_fangraphs", indexed, c);
      ProjectCell(indexed, outCols, out, c);
    }
    assert Relabel(FgStats.FgIds, "IDfg") == "key_fangraphs";
    SetIndexCell(renamed, "key_fangraphs", indexed, "key_fangraphs");
    ProjectCell(indexed, outCols, out, "key_fangraphs");
  }

  /**
   * The renaming, indexing and selection succeed exactly when
   * `key_fangraphs` is not a column yet and `outCols` are distinct columns
   * of the stacked table other than `IDfg`.
   */
  lemma BasicTableOk(stacked: Frame, outCols: seq<string>)
    requires stacked.Valid() && stacked.index == [] && "IDfg" in stacked.cols
    ensures BasicTable(stacked, outCols).Ok? <==>
      "key_fangraphs" !in stacked.cols && Distinct(outCols) && forall c :: c in outCols ==> c in stacked.cols && c != "IDfg"
  {
    FgStats.NoIndex(stacked.cols);
    FgStats.RelabelDistinct(stacked.cols);
    FgStats.NoIndex(RelabelAll(FgStats.FgIds, stacked.cols));
  }

  /** Once the thirty slices are in, the result is `BasicTable` of their stacked rows. */
  lemma BasicOfTable(fetch: int -> Frame, fetchCols: seq<string>, outCols: seq<string>, fs: seq<Frame>)
    requires TeamProvider(fetch) && TeamsFrom(Slicer(fetch, fetchCols, TeamTag), []) == Ok(fs)
    ensures Frame([], TaggedCols(fetchCols), Flatten(fs)).Valid()
    ensures BasicOf(fetch, fetchCols, outCols) == BasicTable(Frame([], TaggedCols(fetchCols), Flatten(fs)), outCols)
  {
    TeamsConcat(fetch, fetchCols, TeamTag, fs);
  }

  /**
   * `genBatting` / `genPitching` succeed exactly when every team's table
   * has the wanted columns and `outCols` are distinct wanted columns (or
   * `Team`) other than `IDfg`.
   */
  lemma BasicOk(fetch: int -> Frame, fetchCols: seq<string>, outCols: seq<string>)
    requires TeamProvider(fetch) && "IDfg" in fetchCols && "key_fangraphs" !in fetchCols
    ensures BasicOf(fetch, fetchCols, outCols).Ok? <==>
      && Distinct(fetchCols) && (forall t, c :: 1 <= t <= 30 && c in fetchCols ==> c in fetch(t).cols)
      && Distinct(outCols) && forall c :: c in outCols ==> c in TaggedCols(fetchCols) && c != "IDfg"
  {
    TeamsOk(fetch, fetchCols, TeamTag);
    var fs := TeamsFrom(Slicer(fetch, fetchCols, TeamTag), []);
    if fs.Ok? {
      BasicOfTable(fetch, fetchCols, outCols, fs.value);
      BasicTableOk(Frame([], TaggedCols(fetchCols), Flatten(fs.value)), outCols);
    }
  }

  /** Row `p` of `out` carries the code of the team that stacked row `p` was fetched for. */
  predicate RowsTagged(out: seq<Row>, fs: seq<Frame>, tag: int -> Cell) {
    forall p :: 0 <= p < |out| && p < TotalRows(fs) ==> Get(out[p], "Team") == tag(Origin(fs, p).0 + 1)
  }

  /**
   * `genBatting` / `genPitching` keep every stacked row, in team-key order:
   * row `p` is stacked row `p` (`BasicFrom`), and when `Team` is kept it
   * holds `fgteams` of the team that row was fetched for.
   */
  lemma BasicStatsRows(fetch: int -> Frame, fetchCols: seq<string>, outCols: seq<string>, fs: seq<Frame>, out: Frame)
    requires TeamProvider(fetch) && "IDfg" in fetchCols
    requires TeamsFrom(Slicer(fetch, fetchCols, TeamTag), []) == Ok(fs)
    requires BasicOf(fetch, fetchCols, outCols) == Ok(out)
    ensures BasicFrom(out.rows, Flatten(fs), outCols)
    ensures StackOrdered(fs, TeamTag)
    ensures "Team" in outCols ==> RowsTagged(out.rows, fs, TeamTag)
  {
    BasicOfTable(fetch, fetchCols, outCols, fs);
    BasicRows(Frame([], TaggedCols(fetchCols), Flatten(fs)), outCols, out);
    TeamOrder(fetch, fetchCols, TeamTag, fs);
    BasicTags(out.rows, fs, outCols, TeamTag);
  }

  /** The team tags of the stacked rows carry over to the rows that copy them. */
  lemma BasicTags(out: seq<Row>, fs: seq<Frame>, outCols: seq<string>, tag: int -> Cell)
    requires BasicFrom(out, Flatten(fs), outCols) && StackOrdered(fs, tag)
    ensures "Team" in outCols ==> RowsTagged(out, fs, tag)
  {
    if "Team" in outCols {
      forall p | 0 <= p < |out| && p < TotalRows(fs) ensures Get(out[p], "Team") == tag(Origin(fs, p).0 + 1) {
        assert Get(out[p], "Team") == Get(Flatten(fs)[p], "Team");
      }
    }
  }

  // ---------------------------------------------------------------------
  // genID

  /** The register's name columns that `genID` drops. */
  const NameCols: seq<string> := ["name_last", "name_first"]

  /** `df['Name'].reset_index()`: the FanGraphs id and the name of every row, as two columns. */
  function NameTable(df: Frame): (r: Result<Frame>)
    requires df.Valid()
    ensures r.Ok? ==> r.value.Valid() && r.value.index == [] && |r.value.rows| == |df.rows|
  {
    var names :- Project(df, ["Name"]);
    ResetIndex(names)
  }

  /**
   * `genID(df)`: the names inner-joined with the Chadwick register on
   * `key_fangraphs` (the default `how`), without the register's two name
   * columns.
   */
  function GenID(df: Frame, register: Frame): (r: Result<Frame>)
    requires df.Valid() && register.Valid()
    ensures r.Ok? ==> r.value.Valid() && r.value.index == []
    ensures r.Ok? ==> forall c :: c in NameCols ==> c !in r.value.Names()
  {
    var flat :- NameTable(df);
    var joined :- Merge(flat, register, FgKey, Inner);
    Drop(joined, NameCols)
  }

  /** The columns of `genID`'s table: those of the name table and the register's non-key columns, less the two name columns. */
  lemma GenIDCols(df: Frame, register: Frame, out: Frame)
    requires df.Valid() && register.Valid() && GenID(df, register) == Ok(out)
    ensures NameTable(df).Ok? && out.cols == Without(NameTable(df).value.cols + Without(register.cols, FgKey), NameCols)
  {
    var flat := NameTable(df).value;
    var joined := Merge(flat, register, FgKey, Inner).value;
    assert Carried(flat, FgKey) == flat.cols;
  }

  /** On a table indexed by `key_fangraphs`, the name table holds each row's id and name, in order. */
  lemma NameRows(df: Frame, flat: Frame)
    requires df.Valid() && df.index == FgKey && NameTable(df) == Ok(flat)
    ensures flat.cols == ["key_fangraphs", "Name"]
    ensures forall i :: 0 <= i < |df.rows| ==> Get(flat.rows[i], "key_fangraphs") == Get(df.rows[i], "key_fangraphs")
    ensures forall i :: 0 <= i < |df.rows| ==> Get(flat.rows[i], "Name") == Get(df.rows[i], "Name")
  {
    var names := Project(df, ["Name"]).value;
    ProjectCell(df, ["Name"], names, "key_fangraphs");
    ProjectCell(df, ["Name"], names, "Name");
  }

  /**
   * `genID` keeps the FanGraphs ids found both in `df` and in the register:
   * a player the register does not know is dropped.
   */
  lemma GenIDKeys(df: Frame, register: Frame, out: Frame)
    requires df.Valid() && register.Valid() && df.index == FgKey && GenID(df, register) == Ok(out)
    ensures KeySet(out.rows, FgKey) == KeySet(df.rows, FgKey) * KeySet(register.rows, FgKey)
  {
    var flat := NameTable(df).value;
    var joined := Merge(flat, register, FgKey, Inner).value;
    IdKeys(df, register, flat, joined, out);
  }

  /** The three steps of `GenIDKeys`: naming, joining, dropping the name columns. */
  lemma IdKeys(df: Frame, register: Frame, flat: Frame, joined: Frame, out: Frame)
    requires df.Valid() && register.Valid() && df.index == FgKey && NameTable(df) == Ok(flat)
    requires Merge(flat, register, FgKey, Inner) == Ok(joined) && Drop(joined, NameCols) == Ok(out)
    ensures KeySet(out.rows, FgKey) == KeySet(df.rows, FgKey) * KeySet(register.rows, FgKey)
  {
    NameKeys(df, flat);
    MergeInnerKeys(flat, register, FgKey, joined);
    KeyNotName();
    DropKeys(joined, NameCols, out, FgKey);
  }

  /** The FanGraphs id is not one of the name columns. */
  lemma KeyNotName()
    ensures forall k :: k in FgKey ==> k !in NameCols
  {
    assert "key_fangraphs"[0] == 'k' && "name_last"[0] == 'n' && "name_first"[0] == 'n';
  }

  /** The name table has the FanGraphs ids of `df`. */
  lemma NameKeys(df: Frame, flat: Frame)
    requires df.Valid() && df.index == FgKey && NameTable(df) == Ok(flat)
    ensures KeySet(flat.rows, FgKey) == KeySet(df.rows, FgKey)
  {
    NameRows(df, flat);
    KeyColumnMoved(df.rows, flat.rows, "key_fangraphs", "key_fangraphs");
  }

  /**
   * The rows of `df` whose FanGraphs id the register knows, in order, one
   * output row each: its id and name, and under every other register
   * column that is kept the cell of the register row with that id.
   */
  predicate IdJoined(out: seq<Row>, df: seq<Row>, register: seq<Row>, regCols: seq<string>) {
    var h := Hits(df, FgKey, KeySet(register, FgKey), 0);
    && |out| == |h|
    && (forall j :: 0 <= j < |h| ==>
          Get(out[j], "key_fangraphs") == Get(df[h[j]], "key_fangraphs") && Get(out[j], "Name") == Get(df[h[j]], "Name"))
    && (forall j, c :: 0 <= j < |h| && c in regCols && c != "key_fangraphs" && c !in NameCols ==>
          Get(out[j], c) == MatchCell(register, FgKey, KeyOf(df[h[j]], FgKey), c))
  }

  /** Against a register with one row per FanGraphs id, `genID` is `IdJoined`. */
  lemma GenIDRows(df: Frame, register: Frame, out: Frame)
    requires df.Valid() && register.Valid() && df.index == FgKey && GenID(df, register) == Ok(out)
    requires UniqueOn(register.rows, FgKey)
    ensures IdJoined(out.rows, df.rows, register.rows, register.cols)
  {
    var flat := NameTable(df).value;
    var joined := Merge(flat, register, FgKey, Inner).value;
    GenIDJoin(df, register, flat, joined);
    DropKeeps(joined, NameCols, out);
    IdDropped(joined.rows, out.rows, df.rows, register.rows, register.cols);
  }

  /** The join of `GenIDRows`, before the name columns are dropped. */
  lemma GenIDJoin(df: Frame, register: Frame, flat: Frame, joined: Frame)
    requires df.Valid() && register.Valid() && df.index == FgKey && NameTable(df) == Ok(flat)
    requires Merge(flat, register, FgKey, Inner) == Ok(joined) && UniqueOn(register.rows, FgKey)
    ensures IdJoined(joined.rows, df.rows, register.rows, register.cols)
  {
    NameRows(df, flat);
    KeyColumnMoved(df.rows, flat.rows, "key_fangraphs", "key_fangraphs");
    MergeInnerUnique(flat, register, FgKey, joined);
    IdJoinCore(df.rows, flat, register, joined.rows);
  }

  /** Dropping columns keeps every cell of every other label, row by row. */
  lemma DropKeeps(f: Frame, cs: seq<string>, g: Frame)
    requires f.Valid() && Drop(f, cs) == Ok(g)
    ensures |g.rows| == |f.rows|
    ensures forall i, c :: 0 <= i < |f.rows| && c !in cs ==> Get(g.rows[i], c) == Get(f.rows[i], c)
  {
    forall c | c !in cs ensures forall i :: 0 <= i < |f.rows| ==> Get(g.rows[i], c) == Get(f.rows[i], c) {
      DropCell(f, cs, g, c);
    }
  }

  /** Rows that keep every cell outside the name columns keep `IdJoined`. */
  lemma IdDropped(joined: seq<Row>, out: seq<Row>, df: seq<Row>, register: seq<Row>, regCols: seq<string>)
    requires |out| == |joined| && forall i, c :: 0 <= i < |joined| && c !in NameCols ==> Get(out[i], c) == Get(joined[i], c)
    requires IdJoined(joined, df, register, regCols)
    ensures IdJoined(out, df, register, regCols)
  {
    assert "key_fangraphs" !in NameCols && "Name" !in NameCols;
  }

  /** `GenIDRows` before the name columns are dropped, once the join is reduced to facts about rows. */
  lemma IdJoinCore(df: seq<Row>, flat: Frame, register: Frame, joined: seq<Row>)
    requires flat.Valid() && flat.index == [] && flat.cols == ["key_fangraphs", "Name"] && |flat.rows| == |df|
    requires forall i :: 0 <= i < |df| ==> Get(flat.rows[i], "key_fangraphs") == Get(df[i], "key_fangraphs")
    requires forall i :: 0 <= i < |df| ==> Get(flat.rows[i], "Name") == Get(df[i], "Name")
    requires forall i :: 0 <= i < |df| ==> KeyOf(flat.rows[i], FgKey) == KeyOf(df[i], FgKey)
    requires var kept := Matched(flat.rows, register.rows, FgKey);
      && |joined| == |kept|
      && (forall j :: 0 <= j < |kept| ==> Extends(joined[j], Restrict(kept[j], Carried(flat, FgKey))))
      && (forall j, c :: 0 <= j < |kept| && c in Without(register.cols, FgKey) ==>
            c in joined[j] && joined[j][c] == MatchCell(register.rows, FgKey, KeyOf(kept[j], FgKey), c))
    ensures IdJoined(joined, df, register.rows, register.cols)
  {
    var keys := KeySet(register.rows, FgKey);
    IdKept(df, flat.rows, register.rows);
    var h := Hits(df, FgKey, keys, 0);
    var kept := Matched(flat.rows, register.rows, FgKey);
    assert Carried(flat, FgKey) == flat.cols;
    forall j | 0 <= j < |h|
      ensures Get(joined[j], "key_fangraphs") == Get(df[h[j]], "key_fangraphs") && Get(joined[j], "Name") == Get(df[h[j]], "Name")
    {
      assert flat.rows[h[j]].Keys == Labels(flat.index + flat.cols);
      ExtendsRestrict(joined[j], kept[j], flat.cols, "key_fangraphs");
      ExtendsRestrict(joined[j], kept[j], flat.cols, "Name");
    }
    forall j, c | 0 <= j < |h| && c in register.cols && c != "key_fangraphs" && c !in NameCols
      ensures Get(joined[j], c) == MatchCell(register.rows, FgKey, KeyOf(df[h[j]], FgKey), c)
    {
      assert c in Without(register.cols, FgKey);
    }
  }

  /** The rows the inner join keeps sit at the positions of `df` whose FanGraphs id the register knows. */
  lemma IdKept(df: seq<Row>, flatRows: seq<Row>, register: seq<Row>)
    requires |flatRows| == |df| && forall i :: 0 <= i < |df| ==> KeyOf(flatRows[i], FgKey) == KeyOf(df[i], FgKey)
    ensures var h := Hits(df, FgKey, KeySet(register, FgKey), 0);
      var kept := Matched(flatRows, register, FgKey);
      |kept| == |h| && forall j :: 0 <= j < |h| ==> kept[j] == flatRows[h[j]]
  {
    MatchedHits(flatRows, register, FgKey, 0);
    assert flatRows[0..] == flatRows;
    HitsMoved(df, flatRows, FgKey, FgKey, KeySet(register, FgKey), 0);
  }

  // ---------------------------------------------------------------------
  // genBio

  datatype Option<T> = None | Some(value: T)

  /** The renames `genBio` applies to the people table after dropping the `drop_bio` columns. */
  const PeopleRenames: map<string, string> :=
    map["playerID" := "key_bbref", "mlb_played_first" := "debut", "mlb_played_last" := "most_recent_season"]

  /** `pd.concat([battingID, pitchingID], ignore_index=True).drop_duplicates(subset=["key_fangraphs"])`. */
  function IdUnion(b: Frame, p: Frame): (r: Result<Frame>)
    requires b.Valid() && p.Valid()
  {
    var both :- Concat([b, p], true);
    DropDuplicates(both, FgKey)
  }

  /** `people.drop(columns=drop_bio).rename(columns=renames)`. */
  function PeopleTable(people: Frame, drops: seq<string>, renames: map<string, string>): (r: Result<Frame>)
    requires people.Valid()
    ensures r.Ok? ==> r.value.Valid() && r.value.index == people.index && |r.value.rows| == |people.rows|
    ensures r.Ok? ==> r.value.cols == RelabelAll(renames, Without(people.cols, drops))
  {
    var kept :- Drop(people, drops);
    Rename(kept, renames)
  }

  /** The body of `genBio`: the deduplicated identities left-joined on `key_bbref` with the people table. */
  function GenBio(b: Frame, p: Frame, people: Frame): (r: Result<Frame>)
    requires b.Valid() && p.Valid() && people.Valid()
    ensures r.Ok? ==> r.value.Valid() && r.value.index == []
    ensures r.Ok? ==> IdUnion(b, p).Ok? && PeopleTable(people, DropBio, PeopleRenames).Ok?
    ensures r.Ok? ==> Merge(IdUnion(b, p).value, PeopleTable(people, DropBio, PeopleRenames).value, Bbref, Left) == r
  {
    var ids :- IdUnion(b, p);
    var bio :- PeopleTable(people, DropBio, PeopleRenames);
    Merge(ids, bio, Bbref, Left)
  }

  /** `genBio` as written: the table is computed (and its errors raised), but the function has no `return`. */
  function GenBioAsWritten(b: Frame, p: Frame, people: Frame): (r: Result<Option<Frame>>)
    requires b.Valid() && p.Valid() && people.Valid()
    ensures r.Ok? <==> GenBio(b, p, people).Ok?
    ensures r.Ok? ==> r.value.None?
    ensures r.Err? ==> r.error == GenBio(b, p, people).error
  {
    var bio :- GenBio(b, p, people);
    Ok(None)
  }

  /** Whenever the biography table can be built, the caller of `genBio` as written gets `None` instead of it. */
  lemma GenBioDiscards(b: Frame, p: Frame, people: Frame, bio: Frame)
    requires b.Valid() && p.Valid() && people.Valid() && GenBio(b, p, people) == Ok(bio)
    ensures GenBioAsWritten(b, p, people) == Ok(None) && GenBioAsWritten(b, p, people) != Ok(Some(bio))
  {
  }

  /** The identity union is a well-formed table with a fresh index. */
  lemma IdUnionShape(b: Frame, p: Frame, ids: Frame)
    requires b.Valid() && p.Valid() && IdUnion(b, p) == Ok(ids)
    ensures ids.Valid() && ids.index == []
  {
    assert AllValid([b, p]);
    var both := Concat([b, p], true).value;
    assert DropDuplicates(both, FgKey) == Ok(ids);
  }

  /** Two identity tables of the same columns stack, with a fresh index, into the batting rows followed by the pitching rows. */
  lemma IdStack(b: Frame, p: Frame)
    requires b.Valid() && p.Valid() && b.index == [] && p.index == [] && b.cols == p.cols
    ensures Concat([b, p], true) == Ok(Frame([], b.cols, b.rows + p.rows))
  {
    ConcatUniformIgnore([b, p], b.cols);
    assert [b, p][1..] == [p] && [p][1..] == [];
    assert Flatten([p]) == p.rows + [] == p.rows;
    assert Flatten([b, p]) == b.rows + p.rows;
  }

  /**
   * Before the join, `genBio` has one identity row per FanGraphs id of
   * either table: a two-way player keeps his first batting row, a pitcher
   * who never batted his first pitching row.
   */
  lemma IdUnionRows(b: Frame, p: Frame, ids: Frame)
    requires b.Valid() && p.Valid() && b.index == [] && p.index == [] && b.cols == p.cols
    requires IdUnion(b, p) == Ok(ids)
    ensures ids.index == [] && ids.cols == b.cols
    ensures UniqueOn(ids.rows, FgKey)
    ensures KeySet(ids.rows, FgKey) == KeySet(b.rows, FgKey) + KeySet(p.rows, FgKey)
    ensures |ids.rows| == |KeySet(b.rows, FgKey) + KeySet(p.rows, FgKey)|
    ensures forall j :: 0 <= j < |ids.rows| && KeyOf(ids.rows[j], FgKey) in KeySet(b.rows, FgKey) ==>
              ids.rows[j] == FirstWith(b.rows, FgKey, KeyOf(ids.rows[j], FgKey))
    ensures forall j :: 0 <= j < |ids.rows| && KeyOf(ids.rows[j], FgKey) !in KeySet(b.rows, FgKey) ==>
              KeyOf(ids.rows[j], FgKey) in KeySet(p.rows, FgKey) && ids.rows[j] == FirstWith(p.rows, FgKey, KeyOf(ids.rows[j], FgKey))
  {
    IdStack(b, p);
    DedupPrefersFirstPart(b.rows, p.rows, FgKey);
  }

  /** The labels that `drop_bio` removes are not among the labels the people renames produce, `debut` aside. */
  lemma DropBioApart()
    ensures "playerID" !in DropBio && "key_bbref" !in DropBio
    ensures forall c :: c in DropBio && c != "debut" ==> c !in PeopleRenames.Values
  {
    assert PeopleRenames.Keys == {"playerID", "mlb_played_first", "mlb_played_last"};
    forall v | v in PeopleRenames.Values ensures v == "key_bbref" || v == "debut" || v == "most_recent_season" {
      var k :| k in PeopleRenames && PeopleRenames[k] == v;
    }
  }

  /** A renamed label is either an old label or one of the new names. */
  lemma RelabelSource(m: map<string, string>, cs: seq<string>, c: string)
    requires c in RelabelAll(m, cs)
    ensures c in cs || c in m.Values
  {
    var j :| 0 <= j < |cs| && RelabelAll(m, cs)[j] == c;
    if cs[j] in m {
      assert c == m[cs[j]];
    } else {
      assert c == cs[j];
    }
  }

  /** The people table's `key_bbref` holds its `playerID`, row for row. */
  lemma PeopleKey(people: Frame, bio: Frame)
    requires people.Valid() && "playerID" in people.cols && PeopleTable(people, DropBio, PeopleRenames) == Ok(bio)
    ensures forall i :: 0 <= i < |people.rows| ==> Get(bio.rows[i], "key_bbref") == Get(people.rows[i], "playerID")
  {
    var kept := Drop(people, DropBio).value;
    PeopleMoves(people, kept, bio);
  }

  /** The two steps of `PeopleKey`: dropping the `drop_bio` columns keeps `playerID`, and the rename moves it. */
  lemma PeopleMoves(people: Frame, kept: Frame, bio: Frame)
    requires people.Valid() && "playerID" in people.cols
    requires Drop(people, DropBio) == Ok(kept) && Rename(kept, PeopleRenames) == Ok(bio)
    ensures forall i :: 0 <= i < |people.rows| ==> Get(bio.rows[i], "key_bbref") == Get(people.rows[i], "playerID")
  {
    DropBioApart();
    DropCell(people, DropBio, kept, "playerID");
    assert "playerID" in kept.cols;
    RenameMoves(kept, PeopleRenames, bio, "playerID");
  }

  /**
   * A `drop_bio` column other than `debut` (which the rename of
   * `mlb_played_first` may bring back) is in the `genBio` table exactly
   * when an identity table has it: none comes from the people table.
   */
  lemma GenBioColumns(b: Frame, p: Frame, people: Frame, out: Frame)
    requires b.Valid() && p.Valid() && people.Valid() && b.index == [] && p.index == [] && b.cols == p.cols
    requires GenBio(b, p, people) == Ok(out)
    ensures forall c :: c in DropBio && c != "debut" ==> (c in out.cols <==> c in b.cols)
  {
    var ids := IdUnion(b, p).value;
    var bio := PeopleTable(people, DropBio, PeopleRenames).value;
    IdUnionRows(b, p, ids);
    DropBioApart();
    forall c | c in DropBio && c != "debut" ensures c in out.cols <==> c in b.cols {
      if c in Without(bio.cols, Bbref) {
        RelabelSource(PeopleRenames, Without(people.cols, DropBio), c);
      }
    }
  }

  /** No identity row is lost by the join: each reappears with all its cells, and the `key_bbref` ids stay the same. */
  lemma GenBioKeeps(b: Frame, p: Frame, people: Frame, ids: Frame, out: Frame)
    requires b.Valid() && p.Valid() && people.Valid() && IdUnion(b, p) == Ok(ids)
    requires GenBio(b, p, people) == Ok(out)
    ensures |out.rows| >= |ids.rows|
    ensures KeySet(out.rows, Bbref) == KeySet(ids.rows, Bbref)
    ensures Covers(out.rows, ids.rows)
  {
    IdUnionShape(b, p, ids);
    JoinKeepsIds(ids, PeopleTable(people, DropBio, PeopleRenames).value, out);
  }

  /** A left join on `key_bbref` of a table without a named index keeps each of its rows whole. */
  lemma JoinKeepsIds(ids: Frame, bio: Frame, out: Frame)
    requires ids.Valid() && bio.Valid() && ids.index == [] && Merge(ids, bio, Bbref, Left) == Ok(out)
    ensures |out.rows| >= |ids.rows|
    ensures KeySet(out.rows, Bbref) == KeySet(ids.rows, Bbref)
    ensures Covers(out.rows, ids.rows)
  {
    MergeLeftKeeps(ids, bio, Bbref, out);
    assert Carried(ids, Bbref) == [] + ids.cols == ids.cols;
    CutWhole(out.rows, ids.rows, ids.cols);
  }

  /** Rows that carry exactly `cs` are covered whole when their cuts to `cs` are. */
  lemma CutWhole(out: seq<Row>, rs: seq<Row>, cs: seq<string>)
    requires CoversCut(out, rs, cs) && forall i :: 0 <= i < |rs| ==> rs[i].Keys == Labels(cs)
    ensures Covers(out, rs)
  {
    forall i | 0 <= i < |rs| ensures exists j :: 0 <= j < |out| && Extends(out[j], rs[i]) {
      var j :| 0 <= j < |out| && Extends(out[j], Restrict(rs[i], cs));
      RestrictWhole(rs[i], cs);
      assert Extends(out[j], rs[i]);
    }
  }

  /** Cutting a row to all of its labels gives the row back. */
  lemma RestrictWhole(r: Row, cs: seq<string>)
    requires r.Keys == Labels(cs)
    ensures Restrict(r, cs) == r
  {
    assert Restrict(r, cs).Keys == r.Keys;
  }

  /**
   * Against a people table with one row per `playerID`, the join keeps the
   * identity rows one for one: `genBio` has exactly one row per FanGraphs
   * id of either table.
   */
  lemma GenBioUnique(b: Frame, p: Frame, people: Frame, out: Frame)
    requires b.Valid() && p.Valid() && people.Valid() && b.index == [] && p.index == [] && b.cols == p.cols
    requires GenBio(b, p, people) == Ok(out)
    requires "playerID" in people.cols && UniqueOn(people.rows, ["playerID"])
    ensures |out.rows| == |KeySet(b.rows, FgKey) + KeySet(p.rows, FgKey)|
    ensures UniqueOn(out.rows, FgKey) && KeySet(out.rows, FgKey) == KeySet(b.rows, FgKey) + KeySet(p.rows, FgKey)
  {
    var ids := IdUnion(b, p).value;
    var bio := PeopleTable(people, DropBio, PeopleRenames).value;
    IdUnionRows(b, p, ids);
    PeopleKey(people, bio);
    KeyColumnMoved(people.rows, bio.rows, "playerID", "key_bbref");
    MergeLeftUnique(ids, bio, Bbref, out);
    BioKeyRows(ids, out.rows);
  }

  /** Rows extending the identity rows one for one keep their FanGraphs ids and their uniqueness. */
  lemma BioKeyRows(ids: Frame, out: seq<Row>)
    requires ids.Valid() && ids.index == [] && "key_fangraphs" in ids.cols
    requires |out| == |ids.rows| && forall i :: 0 <= i < |ids.rows| ==> Extends(out[i], Restrict(ids.rows[i], Carried(ids, Bbref)))
    ensures KeySet(out, FgKey) == KeySet(ids.rows, FgKey)
    ensures UniqueOn(out, FgKey) <==> UniqueOn(ids.rows, FgKey)
  {
    assert [] + ids.cols == ids.cols;
    forall i | 0 <= i < |ids.rows| ensures Get(out[i], "key_fangraphs") == Get(ids.rows[i], "key_fangraphs") {
      assert ids.rows[i].Keys == Labels(ids.index + ids.cols);
      ExtendsRestrict(out[i], ids.rows[i], Carried(ids, Bbref), "key_fangraphs");
    }
    KeyColumnMoved(ids.rows, out, "key_fangraphs", "key_fangraphs");
  }

  // ---------------------------------------------------------------------
  // genbWARBatting / genbWARpitching, genFielding

  /** `rename(columns={"mlb_ID": "key_mlbam"})`. */
  const WarIds: map<string, string> := map["mlb_ID" := "key_mlbam"]

  /**
   * `genbWARBatting(battingID, year)` / `genbWARpitching(pitchingID, year)`:
   * the season's Baseball-Reference WAR rows right-joined onto the MLBAM ids
   * of the identity table, then without exact duplicate rows.
   */
  function GenBWar(war: Frame, ids: Frame, year: int): (r: Result<Frame>)
    requires war.Valid() && ids.Valid()
    ensures r.Ok? ==> r.value.Valid() && r.value.index == []
  {
    var season :- WarSeason(war, year);
    var keys :- Project(ids, Mlbam);
    var joined :- Merge(season, keys, Mlbam, Right);
    Ok(DropExactDuplicates(joined))
  }

  /**
   * Every MLBAM id of the identity table survives, no other id appears,
   * and no two rows are equal.
   */
  lemma GenBWarKeys(war: Frame, ids: Frame, year: int, out: Frame)
    requires war.Valid() && ids.Valid() && ids.index == [] && GenBWar(war, ids, year) == Ok(out)
    ensures KeySet(out.rows, Mlbam) == KeySet(ids.rows, Mlbam)
    ensures UniqueOn(out.rows, out.cols)
  {
    var season := WarSeason(war, year).value;
    var keys := Project(ids, Mlbam).value;
    var joined := Merge(season, keys, Mlbam, Right).value;
    RightOntoIds(season, ids, Mlbam, keys, joined);
  }

  /**
   * The rows of the season's WAR table: exactly an identity row's MLBAM id
   * with the cells of a season WAR row for that id, or with NaN under the
   * WAR columns when the season has no row for it.
   */
  lemma GenBWarRows(war: Frame, ids: Frame, year: int, out: Frame)
    requires war.Valid() && ids.Valid() && GenBWar(war, ids, year) == Ok(out)
    ensures WarSeason(war, year).Ok?
    ensures forall o :: o in out.rows <==>
              exists i :: 0 <= i < |ids.rows| && OntoIdRow(o, WarSeason(war, year).value, ids.rows[i], Mlbam, Mlbam)
  {
    var season := WarSeason(war, year).value;
    var keys := Project(ids, Mlbam).value;
    var joined := Merge(season, keys, Mlbam, Right).value;
    RightOntoIdRows(season, ids, Mlbam, Mlbam, keys, joined);
    DropExactSameRows(joined);
  }

  /**
   * With WAR tables on a plain positional index: the rows are exactly the
   * season's WAR rows whose MLBAM id is an identity's, and, for each
   * identity id the season lacks, a row that is NaN but for that id.
   */
  lemma GenBWarSeasonRows(war: Frame, ids: Frame, year: int, out: Frame)
    requires war.Valid() && war.index == [] && ids.Valid() && GenBWar(war, ids, year) == Ok(out)
    ensures WarSeason(war, year).Ok?
    ensures forall o :: o in out.rows <==> SeasonOrMissing(o, WarSeason(war, year).value, ids)
  {
    var season := WarSeason(war, year).value;
    var keys := Project(ids, Mlbam).value;
    GenBWarRows(war, ids, year, out);
    assert Merge(season, keys, Mlbam, Right).Ok?;
    forall o | o in out.rows ensures SeasonOrMissing(o, season, ids) {
      var i :| 0 <= i < |ids.rows| && OntoIdRow(o, season, ids.rows[i], Mlbam, Mlbam);
      OntoSeason(o, season, ids, i);
    }
    forall o | SeasonOrMissing(o, season, ids) ensures o in out.rows {
      SeasonOnto(o, season, ids);
    }
  }

  /**
   * `o` is a season WAR row of an identity's MLBAM id, or the row that is
   * NaN but for an identity id the season lacks.
   */
  predicate SeasonOrMissing(o: Row, season: Frame, ids: Frame) {
    || (o in season.rows && KeyOf(o, Mlbam) in KeySet(ids.rows, Mlbam))
    || (exists i :: 0 <= i < |ids.rows| && KeyOf(ids.rows[i], Mlbam) !in KeySet(season.rows, Mlbam) &&
          o == NullRow(Without(season.cols, Mlbam)) + Restrict(ids.rows[i], Mlbam))
  }

  /** A row the join makes of identity row `i` is a season row or a missing-id row. */
  lemma OntoSeason(o: Row, season: Frame, ids: Frame, i: int)
    requires season.Valid() && season.index == [] && ids.Valid()
    requires "key_mlbam" in season.cols && "key_mlbam" in ids.cols
    requires 0 <= i < |ids.rows| && OntoIdRow(o, season, ids.rows[i], Mlbam, Mlbam)
    ensures SeasonOrMissing(o, season, ids)
  {
    assert Carried(season, Mlbam) == season.cols;
    if j :| 0 <= j < |season.rows| && KeyOf(season.rows[j], Mlbam) == KeyOf(ids.rows[i], Mlbam) &&
            o == Strip(Restrict(season.rows[j], season.cols), Mlbam) + Restrict(ids.rows[i], Mlbam) {
      SeasonRowRejoins(season, ids, j, i);
    }
  }

  /** A season row or a missing-id row is a row the join makes of some identity row. */
  lemma SeasonOnto(o: Row, season: Frame, ids: Frame)
    requires season.Valid() && season.index == [] && ids.Valid()
    requires "key_mlbam" in season.cols && "key_mlbam" in ids.cols
    requires SeasonOrMissing(o, season, ids)
    ensures exists i :: 0 <= i < |ids.rows| && OntoIdRow(o, season, ids.rows[i], Mlbam, Mlbam)
  {
    assert Carried(season, Mlbam) == season.cols;
    if o in season.rows && KeyOf(o, Mlbam) in KeySet(ids.rows, Mlbam) {
      var j :| 0 <= j < |season.rows| && season.rows[j] == o;
      var i :| 0 <= i < |ids.rows| && KeyOf(ids.rows[i], Mlbam) == KeyOf(o, Mlbam);
      SeasonRowRejoins(season, ids, j, i);
      assert OntoIdRow(o, season, ids.rows[i], Mlbam, Mlbam);
    } else {
      var i :| 0 <= i < |ids.rows| && KeyOf(ids.rows[i], Mlbam) !in KeySet(season.rows, Mlbam) &&
          o == NullRow(Without(season.cols, Mlbam)) + Restrict(ids.rows[i], Mlbam);
      assert OntoIdRow(o, season, ids.rows[i], Mlbam, Mlbam);
    }
  }

  /** A season row joined with an identity row of the same MLBAM id is the season row itself. */
  lemma SeasonRowRejoins(season: Frame, ids: Frame, j: int, i: int)
    requires season.Valid() && season.index == [] && ids.Valid()
    requires "key_mlbam" in season.cols && "key_mlbam" in ids.cols
    requires 0 <= j < |season.rows| && 0 <= i < |ids.rows| && KeyOf(season.rows[j], Mlbam) == KeyOf(ids.rows[i], Mlbam)
    ensures Strip(Restrict(season.rows[j], season.cols), Mlbam) + Restrict(ids.rows[i], Mlbam) == season.rows[j]
  {
    var l := season.rows[j];
    assert l.Keys == Labels(season.cols);
    assert Restrict(l, season.cols) == l;
    assert ids.rows[i].Keys == Labels(ids.index + ids.cols);
    KeyRejoin(l, ids.rows[i], Mlbam);
  }

  /**
   * `o` is a row of a right join of `left` on `on` onto the id columns `cs`
   * of the identity row `id`: those ids with the cells `left` carries, other
   * than `on`, from a row with the same `on` ids, or with NaN under those
   * labels when `left` has no such row.
   */
  predicate OntoIdRow(o: Row, left: Frame, id: Row, on: seq<string>, cs: seq<string>) {
    var p := Restrict(id, cs);
    var lc := Carried(left, on);
    || (exists j :: 0 <= j < |left.rows| && KeyOf(left.rows[j], on) == KeyOf(id, on) && o == Strip(Restrict(left.rows[j], lc), on) + p)
    || (KeyOf(id, on) !in KeySet(left.rows, on) && o == NullRow(Without(lc, on)) + p)
  }

  /** A right join of `left` onto the id columns `cs` of `ids` holds exactly the rows `OntoIdRow` describes. */
  lemma RightOntoIdRows(left: Frame, ids: Frame, on: seq<string>, cs: seq<string>, keys: Frame, joined: Frame)
    requires left.Valid() && ids.Valid() && forall c :: c in on ==> c in cs
    requires Project(ids, cs) == Ok(keys) && Merge(left, keys, on, Right) == Ok(joined)
    ensures forall o :: o in joined.rows <==> exists i :: 0 <= i < |ids.rows| && OntoIdRow(o, left, ids.rows[i], on, cs)
  {
    MergeRightRows(left, keys, on, joined);
    forall o | o in joined.rows ensures exists i :: 0 <= i < |ids.rows| && OntoIdRow(o, left, ids.rows[i], on, cs) {
      var i :| 0 <= i < |keys.rows| && RightJoined(o, keys.rows[i], left, keys, on);
      OntoIdJoined(o, left, ids, on, cs, keys, i);
    }
    forall o | exists i :: 0 <= i < |ids.rows| && OntoIdRow(o, left, ids.rows[i], on, cs) ensures o in joined.rows {
      var i :| 0 <= i < |ids.rows| && OntoIdRow(o, left, ids.rows[i], on, cs);
      OntoIdJoined(o, left, ids, on, cs, keys, i);
    }
  }

  /** For one id row, the rows the merge makes of its cut are the rows `OntoIdRow` describes. */
  lemma OntoIdJoined(o: Row, left: Frame, ids: Frame, on: seq<string>, cs: seq<string>, keys: Frame, i: int)
    requires ids.Valid() && Project(ids, cs) == Ok(keys) && 0 <= i < |ids.rows| && forall c :: c in on ==> c in cs
    ensures RightJoined(o, keys.rows[i], left, keys, on) <==> OntoIdRow(o, left, ids.rows[i], on, cs)
  {
    IdRowCut(ids, cs, keys, on, i);
  }

  /** The `i`th id row, cut to the labels a merge on `on` keeps of it, is the identity row cut to `cs`. */
  lemma IdRowCut(ids: Frame, cs: seq<string>, keys: Frame, on: seq<string>, i: int)
    requires ids.Valid() && Project(ids, cs) == Ok(keys) && 0 <= i < |ids.rows| && forall c :: c in on ==> c in cs
    ensures Restrict(keys.rows[i], on + Without(keys.cols, on)) == Restrict(ids.rows[i], cs)
    ensures KeyOf(keys.rows[i], on) == KeyOf(ids.rows[i], on)
  {
    var r := ids.rows[i];
    LabelsAppend(on, Without(cs, on));
    assert Labels(on + Without(cs, on)) == Labels(cs);
    assert Restrict(keys.rows[i], on + Without(keys.cols, on)).Keys == Restrict(r, cs).Keys;
    RestrictKey(r, ids.index + cs, on);
  }

  /** A right join onto one id column of `ids`, without exact duplicates, has exactly the ids of `ids`. */
  lemma RightOntoIds(left: Frame, ids: Frame, ks: seq<string>, keys: Frame, joined: Frame)
    requires left.Valid() && ids.Valid()
    requires Project(ids, ks) == Ok(keys) && Merge(left, keys, ks, Right) == Ok(joined)
    ensures KeySet(DropExactDuplicates(joined).rows, ks) == KeySet(ids.rows, ks)
    ensures UniqueOn(DropExactDuplicates(joined).rows, joined.cols)
  {
    RightJoinIds(left, ids, ks, keys, joined);
    DedupExact(joined, ks);
  }

  /** A right join onto one id column of `ids` has exactly the ids of `ids`, in a column. */
  lemma RightJoinIds(left: Frame, ids: Frame, ks: seq<string>, keys: Frame, joined: Frame)
    requires left.Valid() && ids.Valid()
    requires Project(ids, ks) == Ok(keys) && Merge(left, keys, ks, Right) == Ok(joined)
    ensures KeySet(joined.rows, ks) == KeySet(ids.rows, ks)
    ensures forall c :: c in ks ==> c in joined.cols
  {
    ProjectKeys(ids, ks, keys, ks);
    MergeRightKeeps(left, keys, ks, joined);
    MergeKeyColumns(left, keys, ks, Right, joined);
  }

  /** Dropping exact duplicates leaves no two equal rows and keeps every key on columns of the frame. */
  lemma DedupExact(f: Frame, ks: seq<string>)
    requires f.Valid() && forall c :: c in ks ==> c in f.cols
    ensures KeySet(DropExactDuplicates(f).rows, ks) == KeySet(f.rows, ks)
    ensures UniqueOn(DropExactDuplicates(f).rows, f.cols)
  {
    DedupCoarserKeys(f.rows, f.cols, ks);
    DedupFromKeys(f.rows, f.cols, {});
  }

  /**
   * `war.rename(columns={"mlb_ID": "key_mlbam"}).groupby("year_ID").get_group(year)`:
   * the WAR rows of one season, with the MLBAM id column named as in the
   * identity table.
   */
  function WarSeason(war: Frame, year: int): (r: Result<Frame>)
    requires war.Valid()
    ensures r.Ok? ==> r.value.Valid()
  {
    var renamed :- Rename(war, WarIds);
    GetGroup(renamed, "year_ID", Int(year))
  }

  /** The season's group holds exactly the renamed WAR rows of that season. */
  lemma GenBWarSeason(war: Frame, year: int, season: Frame)
    requires war.Valid() && WarSeason(war, year) == Ok(season)
    ensures Rename(war, WarIds).Ok?
    ensures forall r :: r in season.rows <==> r in Rename(war, WarIds).value.rows && Get(r, "year_ID") == Int(year)
  {
    var renamed := Rename(war, WarIds).value;
    forall r | r in renamed.rows && Get(r, "year_ID") == Int(year) ensures r in season.rows {
      var i :| 0 <= i < |renamed.rows| && renamed.rows[i] == r;
      SelectHas(renamed.rows, "year_ID", Int(year), i);
    }
  }

  /**
   * `genFielding(bio, year)`: the season's FanGraphs fielding table, its
   * `IDfg` renamed to `key_fangraphs` and moved to the index, without
   * `Name`, right-joined onto the FanGraphs ids of `bio`.
   */
  function GenFielding(fielding: Frame, bio: Frame): (r: Result<Frame>)
    requires fielding.Valid() && bio.Valid()
    ensures r.Ok? ==> r.value.Valid() && r.value.index == []
  {
    var dropped :- FieldingTable(fielding);
    var keys :- Project(bio, FgKey);
    Merge(dropped, keys, FgKey, Right)
  }

  /** Every player of `bio` has a fielding row, and no other player has one. */
  lemma GenFieldingKeys(fielding: Frame, bio: Frame, out: Frame)
    requires fielding.Valid() && bio.Valid() && GenFielding(fielding, bio) == Ok(out)
    ensures KeySet(out.rows, FgKey) == KeySet(bio.rows, FgKey)
    ensures |out.rows| >= |bio.rows|
  {
    var dropped := FieldingTable(fielding).value;
    var keys := Project(bio, FgKey).value;
    ProjectCell(bio, FgKey, keys, "key_fangraphs");
    KeyColumnMoved(bio.rows, keys.rows, "key_fangraphs", "key_fangraphs");
    MergeRightKeeps(dropped, keys, FgKey, out);
  }

  /**
   * `rename(columns={"IDfg": "key_fangraphs"}).set_index("key_fangraphs").drop(columns=["Name"])`:
   * the season's fielding rows keyed by FanGraphs id, without the name.
   */
  function FieldingTable(fielding: Frame): (r: Result<Frame>)
    requires fielding.Valid()
    ensures r.Ok? ==> r.value.Valid() && r.value.index == ["key_fangraphs"]
  {
    var renamed :- Rename(fielding, FgStats.FgIds);
    var indexed :- SetIndex(renamed, "key_fangraphs");
    Drop(indexed, ["Name"])
  }

  /**
   * The keyed fielding table has a row for each fielding row, holding its
   * `IDfg` as `key_fangraphs`, every other statistic as it was, and no `Name`.
   */
  lemma FieldingCells(fielding: Frame, t: Frame)
    requires fielding.Valid() && FieldingTable(fielding) == Ok(t)
    ensures |t.rows| == |fielding.rows| && "Name" !in t.Names()
    ensures "IDfg" in fielding.cols ==>
              forall i :: 0 <= i < |fielding.rows| ==> Get(t.rows[i], "key_fangraphs") == Get(fielding.rows[i], "IDfg")
    ensures forall i, c :: 0 <= i < |fielding.rows| && c in fielding.cols && c !in ["IDfg", "key_fangraphs", "Name"] ==>
              Get(t.rows[i], c) == Get(fielding.rows[i], c)
  {
    var renamed := Rename(fielding, FgStats.FgIds).value;
    var indexed := SetIndex(renamed, "key_fangraphs").value;
    if "IDfg" in fielding.cols {
      RenameMoves(fielding, FgStats.FgIds, renamed, "IDfg");
      assert "key_fangraphs" !in indexed.cols;
      DropCell(indexed, ["Name"], t, "key_fangraphs");
      forall i | 0 <= i < |fielding.rows| ensures Get(indexed.rows[i], "key_fangraphs") == Get(renamed.rows[i], "key_fangraphs") {
        assert indexed.rows[i] == Restrict(renamed.rows[i], indexed.Names());
      }
    }
    forall c | c in fielding.cols && c !in ["IDfg", "key_fangraphs", "Name"]
      ensures forall i :: 0 <= i < |fielding.rows| ==> Get(t.rows[i], c) == Get(fielding.rows[i], c)
    {
      KeptCell(fielding, renamed, indexed, t, c);
    }
  }

  /** A fielding column other than the id and the name keeps its cells through the three steps. */
  lemma KeptCell(fielding: Frame, renamed: Frame, indexed: Frame, t: Frame, c: string)
    requires fielding.Valid() && Rename(fielding, FgStats.FgIds) == Ok(renamed)
    requires SetIndex(renamed, "key_fangraphs") == Ok(indexed) && Drop(indexed, ["Name"]) == Ok(t)
    requires c in fielding.cols && c !in ["IDfg", "key_fangraphs", "Name"]
    ensures forall i :: 0 <= i < |fielding.rows| ==> Get(t.rows[i], c) == Get(fielding.rows[i], c)
  {
    assert c !in FgStats.FgIds && c !in FgStats.FgIds.Values;
    RenameCell(fielding, FgStats.FgIds, renamed, c);
    var j :| 0 <= j < |fielding.cols| && fielding.cols[j] == c;
    assert renamed.cols[j] == c;
    SetIndexCell(renamed, "key_fangraphs", indexed, c);
    DropCell(indexed, ["Name"], t, c);
  }

  /**
   * The rows of the fielding table: exactly a `bio` row's FanGraphs id with
   * the cells of a keyed fielding row for that id, or with NaN under the
   * fielding columns when the season has no fielding row for it.
   */
  lemma GenFieldingRows(fielding: Frame, bio: Frame, out: Frame)
    requires fielding.Valid() && bio.Valid() && GenFielding(fielding, bio) == Ok(out)
    ensures FieldingTable(fielding).Ok?
    ensures forall o :: o in out.rows <==>
              exists i :: 0 <= i < |bio.rows| && OntoIdRow(o, FieldingTable(fielding).value, bio.rows[i], FgKey, FgKey)
  {
    var dropped := FieldingTable(fielding).value;
    var keys := Project(bio, FgKey).value;
    RightOntoIdRows(dropped, bio, FgKey, FgKey, keys, out);
  }

  // ---------------------------------------------------------------------
  // master, lines 135-136: the basic tables onto the id pairs

  /** The two id columns `master` takes from each identity table. */
  const IdPair: seq<string> := ["key_fangraphs", "key_mlbam"]

  /**
   * `basic.merge(ids[['key_fangraphs', 'key_mlbam']], on='key_fangraphs',
   * how='right').drop_duplicates()`: the basic table's rows laid onto the
   * identity table's id pairs.
   */
  function WithIds(basic: Frame, ids: Frame): (r: Result<Frame>)
    requires basic.Valid() && ids.Valid()
    ensures r.Ok? ==> r.value.Valid() && r.value.index == []
  {
    var pair :- Project(ids, IdPair);
    var joined :- Merge(basic, pair, FgKey, Right);
    Ok(DropExactDuplicates(joined))
  }

  /**
   * Every identity row is kept: its FanGraphs / MLBAM id pair is the pair
   * of some output row, no FanGraphs id outside the identity table
   * appears, and no two output rows are equal.
   */
  lemma WithIdsKeeps(basic: Frame, ids: Frame, out: Frame)
    requires basic.Valid() && ids.Valid() && ids.index == [] && WithIds(basic, ids) == Ok(out)
    ensures KeySet(out.rows, FgKey) == KeySet(ids.rows, FgKey)
    ensures forall i :: 0 <= i < |ids.rows| ==> KeyOf(ids.rows[i], IdPair) in KeySet(out.rows, IdPair)
    ensures UniqueOn(out.rows, out.cols)
  {
    var pair := Project(ids, IdPair).value;
    var joined := Merge(basic, pair, FgKey, Right).value;
    WithIdsCore(basic, ids, pair, joined);
  }

  /**
   * The rows laid onto the id pairs: exactly an identity row's FanGraphs /
   * MLBAM pair with the cells of a basic row for that FanGraphs id, or with
   * NaN under the basic columns when the basic table has no row for it.
   */
  lemma WithIdsRows(basic: Frame, ids: Frame, out: Frame)
    requires basic.Valid() && ids.Valid() && WithIds(basic, ids) == Ok(out)
    ensures forall o :: o in out.rows <==> exists i :: 0 <= i < |ids.rows| && OntoIdRow(o, basic, ids.rows[i], FgKey, IdPair)
  {
    var pair := Project(ids, IdPair).value;
    var joined := Merge(basic, pair, FgKey, Right).value;
    RightOntoIdRows(basic, ids, FgKey, IdPair, pair, joined);
    DropExactSameRows(joined);
  }

  /** The facts of `WithIdsKeeps`, from the two steps of `WithIds`. */
  lemma WithIdsCore(basic: Frame, ids: Frame, pair: Frame, joined: Frame)
    requires basic.Valid() && ids.Valid() && ids.index == []
    requires Project(ids, IdPair) == Ok(pair) && Merge(basic, pair, FgKey, Right) == Ok(joined)
    ensures KeySet(DropExactDuplicates(joined).rows, FgKey) == KeySet(ids.rows, FgKey)
    ensures forall i :: 0 <= i < |ids.rows| ==> KeyOf(ids.rows[i], IdPair) in KeySet(DropExactDuplicates(joined).rows, IdPair)
    ensures UniqueOn(DropExactDuplicates(joined).rows, joined.cols)
  {
    WithIdsJoin(basic, ids, pair, joined);
    DedupExact(joined, FgKey);
    DedupExact(joined, IdPair);
  }

  /** Before duplicates are dropped: the right join has the identity table's ids, in columns. */
  lemma WithIdsJoin(basic: Frame, ids: Frame, pair: Frame, joined: Frame)
    requires basic.Valid() && ids.Valid() && ids.index == []
    requires Project(ids, IdPair) == Ok(pair) && Merge(basic, pair, FgKey, Right) == Ok(joined)
    ensures KeySet(joined.rows, FgKey) == KeySet(ids.rows, FgKey)
    ensures forall i :: 0 <= i < |ids.rows| ==> KeyOf(ids.rows[i], IdPair) in KeySet(joined.rows, IdPair)
    ensures forall c :: c in IdPair ==> c in joined.cols
  {
    ProjectKeys(ids, IdPair, pair, FgKey);
    MergeRightKeeps(basic, pair, FgKey, joined);
    MergeKeyColumns(basic, pair, FgKey, Right, joined);
    assert "key_mlbam" in joined.cols;
    WithIdsPairs(basic, ids, pair, joined);
  }

  /** Before duplicates are dropped: every identity row's id pair is the pair of a joined row. */
  lemma WithIdsPairs(basic: Frame, ids: Frame, pair: Frame, joined: Frame)
    requires basic.Valid() && ids.Valid() && ids.index == []
    requires Project(ids, IdPair) == Ok(pair) && Merge(basic, pair, FgKey, Right) == Ok(joined)
    ensures forall i :: 0 <= i < |ids.rows| ==> KeyOf(ids.rows[i], IdPair) in KeySet(joined.rows, IdPair)
  {
    PairRows(ids, pair);
    var cs := FgKey + Without(pair.cols, FgKey);
    assert "key_fangraphs" in cs && "key_mlbam" in cs;
    MergeRightKeeps(basic, pair, FgKey, joined);
    PairKept(ids.rows, pair.rows, joined.rows, cs);
  }

  /** The id pair table holds each identity row's pair, row for row. */
  lemma PairRows(ids: Frame, pair: Frame)
    requires ids.Valid() && ids.index == [] && Project(ids, IdPair) == Ok(pair)
    ensures |pair.rows| == |ids.rows| && pair.cols == IdPair
    ensures forall i :: 0 <= i < |ids.rows| ==> KeyOf(pair.rows[i], IdPair) == KeyOf(ids.rows[i], IdPair)
    ensures forall i :: 0 <= i < |ids.rows| ==> Get(pair.rows[i], "key_fangraphs") == Get(ids.rows[i], "key_fangraphs")
    ensures forall i :: 0 <= i < |ids.rows| ==> "key_fangraphs" in pair.rows[i] && "key_mlbam" in pair.rows[i]
  {
    PairCells(ids, pair);
    ProjectKeys(ids, IdPair, pair, IdPair);
  }

  /** Each id pair row agrees with its identity row on both ids, and holds both. */
  lemma PairCells(ids: Frame, pair: Frame)
    requires ids.Valid() && ids.index == [] && Project(ids, IdPair) == Ok(pair)
    ensures |pair.rows| == |ids.rows| && pair.cols == IdPair
    ensures forall i, c :: 0 <= i < |ids.rows| && c in IdPair ==> Get(pair.rows[i], c) == Get(ids.rows[i], c)
    ensures forall i :: 0 <= i < |ids.rows| ==> "key_fangraphs" in pair.rows[i] && "key_mlbam" in pair.rows[i]
  {
    assert pair.index + pair.cols == IdPair;
    ProjectCell(ids, IdPair, pair, "key_fangraphs");
    ProjectCell(ids, IdPair, pair, "key_mlbam");
  }

  /** Rows that each extend one id-pair row (cut to labels holding both ids) carry every pair. */
  lemma PairKept(idRows: seq<Row>, pairRows: seq<Row>, joined: seq<Row>, cs: seq<string>)
    requires "key_fangraphs" in cs && "key_mlbam" in cs
    requires |pairRows| == |idRows| && forall i :: 0 <= i < |idRows| ==> KeyOf(pairRows[i], IdPair) == KeyOf(idRows[i], IdPair)
    requires forall i :: 0 <= i < |pairRows| ==> "key_fangraphs" in pairRows[i] && "key_mlbam" in pairRows[i]
    requires CoversCut(joined, pairRows, cs)
    ensures forall i :: 0 <= i < |idRows| ==> KeyOf(idRows[i], IdPair) in KeySet(joined, IdPair)
  {
    forall i | 0 <= i < |idRows| ensures KeyOf(idRows[i], IdPair) in KeySet(joined, IdPair) {
      var j :| 0 <= j < |joined| && Extends(joined[j], Restrict(pairRows[i], cs));
      forall c | c in IdPair ensures Get(joined[j], c) == Get(pairRows[i], c) {
        ExtendsRestrict(joined[j], pairRows[i], cs, c);
      }
      AgreeKey(joined[j], pairRows[i], IdPair);
      assert KeyOf(joined[j], IdPair) in KeySet(joined, IdPair);
    }
  }

  // ---------------------------------------------------------------------
  // master

  /**
   * The provider tables `master(year)` reads, the season already applied:
   * per-team FanGraphs batting and pitching tables, the Chadwick register,
   * the Lahman people table, the Baseball-Reference WAR tables of all
   * seasons, and the season's FanGraphs fielding table.
   */
  datatype Providers = Providers(
    batting: int -> Frame, pitching: int -> Frame, register: Frame, people: Frame,
    warBatting: Frame, warPitching: Frame, fielding: Frame)

  ghost predicate ProvidersValid(src: Providers) {
    && TeamProvider(src.batting) && TeamProvider(src.pitching)
    && src.register.Valid() && src.people.Valid()
    && src.warBatting.Valid() && src.warPitching.Valid() && src.fielding.Valid()
  }

  /** The tables of `master`'s return tuple that the model builds, in its order. */
  datatype MasterTables = MasterTables(
    batting: Frame, pitching: Frame, fielding: Frame, bio: Frame, bwarBatting: Frame, bwarPitching: Frame)

  /** The first four tables `master` builds: the basic batting and pitching tables and their identities. */
  datatype Identities = Identities(battingBasic: Frame, pitchingBasic: Frame, battingID: Frame, pitchingID: Frame)

  ghost predicate IdentitiesValid(ids: Identities) {
    && ids.battingBasic.Valid() && ids.pitchingBasic.Valid()
    && ids.battingBasic.index == FgKey && ids.pitchingBasic.index == FgKey
    && ids.battingID.Valid() && ids.pitchingID.Valid()
    && ids.battingID.index == [] && ids.pitchingID.index == []
  }

  /** A basic table is indexed by `key_fangraphs`. */
  lemma BasicIndex(fetch: int -> Frame, fetchCols: seq<string>, outCols: seq<string>, out: Frame)
    requires TeamProvider(fetch) && BasicOf(fetch, fetchCols, outCols) == Ok(out)
    ensures out.Valid() && out.index == FgKey && out.cols == outCols
  {
    var fs := TeamsFrom(Slicer(fetch, fetchCols, TeamTag), []).value;
    TeamsConcat(fetch, fetchCols, TeamTag, fs);
  }

  /**
   * Lines 130-135 of `master`: `genBatting`, `genPitching` and `genID` of
   * each. Both identity tables get the same columns, and each holds the
   * players of its basic table that the register knows.
   */
  function IdentitiesOf(src: Providers): (r: Result<Identities>)
    requires ProvidersValid(src)
    ensures r.Ok? ==> IdentitiesValid(r.value)
    ensures r.Ok? ==> BasicOf(src.batting, BattingFetch, BattingOut) == Ok(r.value.battingBasic)
    ensures r.Ok? ==> BasicOf(src.pitching, PitchingFetch, PitchingOut) == Ok(r.value.pitchingBasic)
    ensures r.Ok? ==> GenID(r.value.battingBasic, src.register) == Ok(r.value.battingID)
    ensures r.Ok? ==> GenID(r.value.pitchingBasic, src.register) == Ok(r.value.pitchingID)
    ensures r.Ok? ==> r.value.battingID.cols == r.value.pitchingID.cols
  {
    var battingBasic :- BasicOf(src.batting, BattingFetch, BattingOut);
    BasicIndex(src.batting, BattingFetch, BattingOut, battingBasic);
    var pitchingBasic :- BasicOf(src.pitching, PitchingFetch, PitchingOut);
    BasicIndex(src.pitching, PitchingFetch, PitchingOut, pitchingBasic);
    var battingID :- GenID(battingBasic, src.register);
    GenIDCols(battingBasic, src.register, battingID);
    NameRows(battingBasic, NameTable(battingBasic).value);
    var pitchingID :- GenID(pitchingBasic, src.register);
    GenIDCols(pitchingBasic, src.register, pitchingID);
    NameRows(pitchingBasic, NameTable(pitchingBasic).value);
    Ok(Identities(battingBasic, pitchingBasic, battingID, pitchingID))
  }

  /** The steps of the rest of `master`, each with the table it produced. */
  ghost predicate MasterBuilt(src: Providers, year: int, ids: Identities, m: MasterTables)
    requires ProvidersValid(src) && IdentitiesValid(ids)
  {
    && WithIds(ids.battingBasic, ids.battingID) == Ok(m.batting)
    && WithIds(ids.pitchingBasic, ids.pitchingID) == Ok(m.pitching)
    && GenBio(ids.battingID, ids.pitchingID, src.people) == Ok(m.bio)
    && GenBWar(src.warBatting, ids.battingID, year) == Ok(m.bwarBatting)
    && GenBWar(src.warPitching, ids.pitchingID, year) == Ok(m.bwarPitching)
    && m.bio.Valid() && GenFielding(src.fielding, m.bio) == Ok(m.fielding)
  }

  /** The rest of `master` as evidently intended: `genBio` returns its table and `genFielding` is given it and the season. */
  function MasterFrom(src: Providers, year: int, ids: Identities): (r: Result<MasterTables>)
    requires ProvidersValid(src) && IdentitiesValid(ids)
    ensures r.Ok? ==> MasterBuilt(src, year, ids, r.value)
  {
    var batting :- WithIds(ids.battingBasic, ids.battingID);
    var pitching :- WithIds(ids.pitchingBasic, ids.pitchingID);
    var bio :- GenBio(ids.battingID, ids.pitchingID, src.people);
    var bwarBatting :- GenBWar(src.warBatting, ids.battingID, year);
    var bwarPitching :- GenBWar(src.warPitching, ids.pitchingID, year);
    var fielding :- GenFielding(src.fielding, bio);
    Ok(MasterTables(batting, pitching, fielding, bio, bwarBatting, bwarPitching))
  }

  /** `master(year)` as evidently intended. */
  function MasterOf(src: Providers, year: int): (r: Result<MasterTables>)
    requires ProvidersValid(src)
    ensures r.Ok? ==> IdentitiesOf(src).Ok? && MasterFrom(src, year, IdentitiesOf(src).value) == r
  {
    var ids :- IdentitiesOf(src);
    MasterFrom(src, year, ids)
  }

  /** `master(year)` step by step, stopping at the first exception. */
  method Master(src: Providers, year: int) returns (r: Result<MasterTables>)
    requires ProvidersValid(src)
    ensures r == MasterOf(src, year)
  {
    var battingBasic := GenBatting(src.batting);
    if battingBasic.Err? {
      return Err(battingBasic.error);
    }
    BasicIndex(src.batting, BattingFetch, BattingOut, battingBasic.value);
    var pitchingBasic := GenPitching(src.pitching);
    if pitchingBasic.Err? {
      return Err(pitchingBasic.error);
    }
    BasicIndex(src.pitching, PitchingFetch, PitchingOut, pitchingBasic.value);
    var battingID := GenID(battingBasic.value, src.register);
    if battingID.Err? {
      return Err(battingID.error);
    }
    var pitchingID := GenID(pitchingBasic.value, src.register);
    if pitchingID.Err? {
      return Err(pitchingID.error);
    }
    ghost var ids := Identities(battingBasic.value, pitchingBasic.value, battingID.value, pitchingID.value);
    assert IdentitiesOf(src) == Ok(ids);
    var batting := WithIds(battingBasic.value, battingID.value);
    if batting.Err? {
      return Err(batting.error);
    }
    var pitching := WithIds(pitchingBasic.value, pitchingID.value);
    if pitching.Err? {
      return Err(pitching.error);
    }
    var bio := GenBio(battingID.value, pitchingID.value, src.people);
    if bio.Err? {
      return Err(bio.error);
    }
    var bwarBatting := GenBWar(src.warBatting, battingID.value, year);
    if bwarBatting.Err? {
      return Err(bwarBatting.error);
    }
    var bwarPitching := GenBWar(src.warPitching, pitchingID.value, year);
    if bwarPitching.Err? {
      return Err(bwarPitching.error);
    }
    var fielding := GenFielding(src.fielding, bio.value);
    if fielding.Err? {
      return Err(fielding.error);
    }
    r := Ok(MasterTables(batting.value, pitching.value, fielding.value, bio.value, bwarBatting.value, bwarPitching.value));
  }

  /**
   * The rest of `master(year)` as written: `genBio` hands back `None`, and
   * `genFielding(bio)` is called without its `year` argument, which raises
   * a `TypeError` before its body runs.
   */
  function MasterFromAsWritten(src: Providers, year: int, ids: Identities): (r: Result<MasterTables>)
    requires ProvidersValid(src) && IdentitiesValid(ids)
    ensures r.Err?
    ensures WithIds(ids.battingBasic, ids.battingID).Ok? && WithIds(ids.pitchingBasic, ids.pitchingID).Ok?
         && GenBioAsWritten(ids.battingID, ids.pitchingID, src.people).Ok?
         && GenBWar(src.warBatting, ids.battingID, year).Ok? && GenBWar(src.warPitching, ids.pitchingID, year).Ok?
         ==> r == Err(MissingArgument("year"))
  {
    var batting :- WithIds(ids.battingBasic, ids.battingID);
    var pitching :- WithIds(ids.pitchingBasic, ids.pitchingID);
    var bio :- GenBioAsWritten(ids.battingID, ids.pitchingID, src.people);
    var bwarBatting :- GenBWar(src.warBatting, ids.battingID, year);
    var bwarPitching :- GenBWar(src.warPitching, ids.pitchingID, year);
    Err(MissingArgument("year"))
  }

  /** `master(year)` as written. */
  function MasterAsWritten(src: Providers, year: int): (r: Result<MasterTables>)
    requires ProvidersValid(src)
    ensures r.Err?
    ensures IdentitiesOf(src).Ok? ==> r == MasterFromAsWritten(src, year, IdentitiesOf(src).value)
  {
    var ids :- IdentitiesOf(src);
    MasterFromAsWritten(src, year, ids)
  }

  /** As written, `master` never returns its tables: whenever the intended pipeline succeeds, it raises at `genFielding`. */
  lemma MasterAsWrittenFails(src: Providers, year: int)
    requires ProvidersValid(src)
    ensures MasterAsWritten(src, year).Err?
    ensures MasterOf(src, year).Ok? ==> MasterAsWritten(src, year) == Err(MissingArgument("year"))
  {
    var m := MasterOf(src, year);
    if m.Ok? {
      var ids := IdentitiesOf(src).value;
      GenBioDiscards(ids.battingID, ids.pitchingID, src.people, m.value.bio);
    }
  }

  /**
   * What `master` promises about its players: a basic table holds exactly
   * the fetched players the register knows, each with its id pair; the
   * WAR tables have a row for every MLBAM id of the identities and no
   * other; the fielding table has a row for exactly the players of `bio`.
   */
  lemma MasterKeys(src: Providers, year: int, ids: Identities, m: MasterTables)
    requires ProvidersValid(src) && IdentitiesOf(src) == Ok(ids) && MasterOf(src, year) == Ok(m)
    ensures KeySet(m.batting.rows, FgKey) == KeySet(ids.battingBasic.rows, FgKey) * KeySet(src.register.rows, FgKey)
    ensures KeySet(m.pitching.rows, FgKey) == KeySet(ids.pitchingBasic.rows, FgKey) * KeySet(src.register.rows, FgKey)
    ensures forall i :: 0 <= i < |ids.battingID.rows| ==> KeyOf(ids.battingID.rows[i], IdPair) in KeySet(m.batting.rows, IdPair)
    ensures forall i :: 0 <= i < |ids.pitchingID.rows| ==> KeyOf(ids.pitchingID.rows[i], IdPair) in KeySet(m.pitching.rows, IdPair)
    ensures KeySet(m.bwarBatting.rows, Mlbam) == KeySet(ids.battingID.rows, Mlbam)
    ensures KeySet(m.bwarPitching.rows, Mlbam) == KeySet(ids.pitchingID.rows, Mlbam)
    ensures KeySet(m.fielding.rows, FgKey) == KeySet(m.bio.rows, FgKey)
  {
    assert MasterBuilt(src, year, ids, m);
    GenIDKeys(ids.battingBasic, src.register, ids.battingID);
    GenIDKeys(ids.pitchingBasic, src.register, ids.pitchingID);
    WithIdsKeeps(ids.battingBasic, ids.battingID, m.batting);
    WithIdsKeeps(ids.pitchingBasic, ids.pitchingID, m.pitching);
    GenBWarKeys(src.warBatting, ids.battingID, year, m.bwarBatting);
    GenBWarKeys(src.warPitching, ids.pitchingID, year, m.bwarPitching);
    GenFieldingKeys(src.fielding, m.bio, m.fielding);
  }

  /**
   * Against a people table with one row per `playerID`, `bio` has exactly
   * one row per player of the batting or the pitching table.
   */
  lemma MasterBio(src: Providers, year: int, ids: Identities, m: MasterTables)
    requires ProvidersValid(src) && IdentitiesOf(src) == Ok(ids) && MasterOf(src, year) == Ok(m)
    requires "playerID" in src.people.cols && UniqueOn(src.people.rows, ["playerID"])
    ensures UniqueOn(m.bio.rows, FgKey)
    ensures KeySet(m.bio.rows, FgKey) == KeySet(m.batting.rows, FgKey) + KeySet(m.pitching.rows, FgKey)
  {
    assert MasterBuilt(src, year, ids, m);
    GenBioUnique(ids.battingID, ids.pitchingID, src.people, m.bio);
    WithIdsKeeps(ids.battingBasic, ids.battingID, m.batting);
    WithIdsKeeps(ids.pitchingBasic, ids.pitchingID, m.pitching);
  }
}
