/**
 * The player tables of docs/dataimport.py: `genID` (one identity row per
 * MLBAM id, joined with the Chadwick register), `genBio` (the identity rows
 * joined with the Lahman people table) and the deduplication in `master`
 * that merges the batting and pitching tables. The register and the people
 * table are parameters.
 */
module DocsImport {
  import opened Frames
  import opened Keys
  import opened Joins
  import opened Catalogs

  const Mlbam: seq<string> := ["key_mlbam"]
  const Bbref: seq<string> := ["key_bbref"]

  /** The identity columns `genID` keeps from the statistics table. */
  const IdCols: seq<string> := ["key_mlbam", "Name", "Team"]

  /** The renames `genID` applies to the Chadwick register. */
  const RegisterRenames: map<string, string> :=
    map["playerID" := "key_bbref", "mlb_played_first" := "debut", "mlb_played_last" := "recent_season"]

  /** The columns `genBio` removes after the join. */
  const BioDrops: seq<string> := ["index", "key_fangraphs", "key_retro", "key_bbref"]

  /** `df.reset_index()[['key_mlbam','Name','Team']].drop_duplicates(subset=['key_mlbam'])`. */
  function FirstIds(df: Frame): (r: Result<Frame>)
    requires df.Valid()
    ensures r.Ok? ==> r.value.Valid() && r.value.index == [] && r.value.cols == IdCols
  {
    var flat :- ResetIndex(df);
    var ids :- Project(flat, IdCols);
    DropDuplicates(ids, Mlbam)
  }

  /** The register as `genID` joins it: renamed, without the two name columns. */
  function RegisterTable(register: Frame, renames: map<string, string>): (r: Result<Frame>)
    requires register.Valid()
    ensures r.Ok? ==> r.value.Valid() && r.value.index == register.index
    ensures r.Ok? ==> |r.value.rows| == |register.rows|
  {
    var renamed :- Rename(register, renames);
    Drop(renamed, ["name_last", "name_first"])
  }

  /** The register renames leave the MLBAM id column alone. */
  lemma RenamesSpareIds()
    ensures "key_mlbam" !in RegisterRenames && "key_mlbam" !in RegisterRenames.Values
  {
    assert RegisterRenames.Keys == {"playerID", "mlb_played_first", "mlb_played_last"};
    forall k | k in RegisterRenames ensures RegisterRenames[k] != "key_mlbam" {
    }
  }

  /** `genID(df)`: the first identity row of every MLBAM id, left-joined with the register on `key_mlbam`. */
  function GenID(df: Frame, register: Frame): (r: Result<Frame>)
    requires df.Valid() && register.Valid()
    ensures r.Ok? ==> r.value.Valid() && r.value.index == []
  {
    var firsts :- FirstIds(df);
    var reg :- RegisterTable(register, RegisterRenames);
    Merge(firsts, reg, Mlbam, Left)
  }

  /**
   * Each MLBAM id of `df` keeps one identity row, and that row holds the
   * id, name and team of the id's first row in `df`.
   */
  lemma FirstIdsFacts(df: Frame, firsts: Frame)
    requires df.Valid() && FirstIds(df) == Ok(firsts)
    ensures UniqueOn(firsts.rows, Mlbam)
    ensures KeySet(firsts.rows, Mlbam) == KeySet(df.rows, Mlbam)
    ensures forall j :: 0 <= j < |firsts.rows| ==> KeyOf(firsts.rows[j], Mlbam) in KeySet(df.rows, Mlbam)
    ensures forall j, c :: 0 <= j < |firsts.rows| && c in IdCols ==>
              Get(firsts.rows[j], c) == Get(FirstWith(df.rows, Mlbam, KeyOf(firsts.rows[j], Mlbam)), c)
  {
    var flat := ResetIndex(df).value;
    var ids := Project(flat, IdCols).value;
    assert firsts.rows == Dedup(ids.rows, Mlbam);
    IdCells(df, flat, ids);
    DedupMovedFirst(df.rows, ids.rows, "key_mlbam", IdCols);
  }

  /** The identity columns keep their cells through `reset_index` and the column selection. */
  lemma IdCells(df: Frame, flat: Frame, ids: Frame)
    requires df.Valid() && ResetIndex(df) == Ok(flat) && Project(flat, IdCols) == Ok(ids)
    ensures |ids.rows| == |df.rows|
    ensures forall i :: 0 <= i < |df.rows| ==> Get(ids.rows[i], "key_mlbam") == Get(df.rows[i], "key_mlbam")
    ensures forall i, c :: 0 <= i < |df.rows| && c in IdCols ==> Get(ids.rows[i], c) == Get(df.rows[i], c)
  {
    forall c | c in IdCols ensures forall i :: 0 <= i < |df.rows| ==> Get(ids.rows[i], c) == Get(df.rows[i], c) {
      ResetIndexCell(df, flat, c);
      ProjectCell(flat, IdCols, ids, c);
    }
  }

  /** The register keeps its MLBAM ids through the renaming and dropping. */
  lemma RegisterIds(register: Frame, renames: map<string, string>, reg: Frame)
    requires register.Valid() && RegisterTable(register, renames) == Ok(reg)
    requires "key_mlbam" !in renames && "key_mlbam" !in renames.Values
    ensures forall i :: 0 <= i < |register.rows| ==> Get(reg.rows[i], "key_mlbam") == Get(register.rows[i], "key_mlbam")
  {
    var renamed := Rename(register, renames).value;
    RenameCell(register, renames, renamed, "key_mlbam");
    DropCell(renamed, ["name_last", "name_first"], reg, "key_mlbam");
  }

  /** `genID` keeps exactly the MLBAM ids of its input. */
  lemma GenIDKeys(df: Frame, register: Frame, out: Frame)
    requires df.Valid() && register.Valid() && GenID(df, register) == Ok(out)
    ensures KeySet(out.rows, Mlbam) == KeySet(df.rows, Mlbam)
  {
    var firsts := FirstIds(df).value;
    var reg := RegisterTable(register, RegisterRenames).value;
    FirstIdsFacts(df, firsts);
    MergeLeftKeeps(firsts, reg, Mlbam, out);
  }

  /**
   * With a register that has at most one row per MLBAM id, `genID` has
   * exactly one row per MLBAM id of its input, holding the id, name and
   * team of that id's first row.
   */
  lemma GenIDUnique(df: Frame, register: Frame, out: Frame)
    requires df.Valid() && register.Valid() && GenID(df, register) == Ok(out)
    requires UniqueOn(register.rows, Mlbam)
    ensures UniqueOn(out.rows, Mlbam)
    ensures |out.rows| == |KeySet(df.rows, Mlbam)|
    ensures forall j :: 0 <= j < |out.rows| ==> KeyOf(out.rows[j], Mlbam) in KeySet(df.rows, Mlbam)
    ensures forall j, c :: 0 <= j < |out.rows| && c in IdCols ==>
              Get(out.rows[j], c) == Get(FirstWith(df.rows, Mlbam, KeyOf(out.rows[j], Mlbam)), c)
  {
    var firsts := FirstIds(df).value;
    var reg := RegisterTable(register, RegisterRenames).value;
    FirstIdsFacts(df, firsts);
    RenamesSpareIds();
    RegisterIds(register, RegisterRenames, reg);
    KeyColumnMoved(register.rows, reg.rows, "key_mlbam", "key_mlbam");
    JoinIds(firsts, reg, out);
    UniqueCount(firsts.rows, Mlbam);
  }

  /** Against a register unique on the MLBAM id, the left join keeps the identity rows one for one. */
  lemma JoinIds(firsts: Frame, reg: Frame, out: Frame)
    requires firsts.Valid() && reg.Valid() && Merge(firsts, reg, Mlbam, Left) == Ok(out)
    requires firsts.index == [] && firsts.cols == IdCols && UniqueOn(reg.rows, Mlbam)
    ensures |out.rows| == |firsts.rows|
    ensures forall j, c :: 0 <= j < |out.rows| && c in IdCols ==> Get(out.rows[j], c) == Get(firsts.rows[j], c)
    ensures forall j :: 0 <= j < |out.rows| ==> KeyOf(out.rows[j], Mlbam) == KeyOf(firsts.rows[j], Mlbam)
    ensures UniqueOn(out.rows, Mlbam) <==> UniqueOn(firsts.rows, Mlbam)
  {
    MergeLeftUnique(firsts, reg, Mlbam, out);
    assert Carried(firsts, Mlbam) == IdCols;
    forall j, c | 0 <= j < |out.rows| && c in IdCols ensures Get(out.rows[j], c) == Get(firsts.rows[j], c) {
      assert firsts.rows[j].Keys == Labels(IdCols);
      ExtendsRestrict(out.rows[j], firsts.rows[j], IdCols, c);
    }
    KeyColumnMoved(firsts.rows, out.rows, "key_mlbam", "key_mlbam");
  }

  /** The rename `genBio` applies to the people table. */
  const PeopleRenames: map<string, string> := map["playerID" := "key_bbref"]

  /** `people.reset_index().rename(columns=renames).drop(columns=drops)`. */
  function PeopleTable(people: Frame, renames: map<string, string>, drops: seq<string>): (r: Result<Frame>)
    requires people.Valid()
    ensures r.Ok? ==> r.value.Valid() && r.value.index == [] && |r.value.rows| == |people.rows|
    ensures r.Ok? ==> forall c :: c in drops ==> c !in r.value.Names()
  {
    var flat :- ResetIndex(people);
    var renamed :- Rename(flat, renames);
    Drop(renamed, drops)
  }

  /**
   * `genBio(IDdf)`: the identity rows left-joined on `key_bbref` with the
   * people table (its `playerID` renamed, the `drop_bio` columns gone), then
   * without the index and the three alternative key columns.
   */
  function GenBio(ids: Frame, people: Frame): (r: Result<Frame>)
    requires ids.Valid() && people.Valid()
    ensures r.Ok? ==> r.value.Valid() && r.value.index == []
  {
    var bio :- PeopleTable(people, PeopleRenames, DropBio);
    var joined :- Merge(ids, bio, Bbref, Left);
    Drop(joined, BioDrops)
  }

  /** The people table's `key_bbref` is its former `playerID`. */
  lemma PeopleKey(people: Frame, renames: map<string, string>, drops: seq<string>, bio: Frame)
    requires people.Valid() && PeopleTable(people, renames, drops) == Ok(bio)
    requires "playerID" in people.Names() && "playerID" in renames && renames["playerID"] == "key_bbref"
    requires "key_bbref" !in drops
    ensures forall i :: 0 <= i < |people.rows| ==> Get(bio.rows[i], "key_bbref") == Get(people.rows[i], "playerID")
  {
    var flat := ResetIndex(people).value;
    var renamed := Rename(flat, renames).value;
    ResetIndexCell(people, flat, "playerID");
    assert "playerID" in flat.cols;
    RenameMoves(flat, renames, renamed, "playerID");
    DropCell(renamed, drops, bio, "key_bbref");
  }

  /** The people columns that are neither renamed nor dropped keep their cells in the biography table. */
  lemma PeopleCells(people: Frame, renames: map<string, string>, drops: seq<string>, bio: Frame)
    requires people.Valid() && PeopleTable(people, renames, drops) == Ok(bio)
    ensures forall c :: c in people.cols && c !in renames && c !in renames.Values && c !in drops ==> c in bio.cols
    ensures forall i, c :: 0 <= i < |people.rows| && c in people.cols && c !in renames && c !in renames.Values && c !in drops ==>
              Get(bio.rows[i], c) == Get(people.rows[i], c)
  {
    var flat := ResetIndex(people).value;
    var renamed := Rename(flat, renames).value;
    forall c | c in people.cols && c !in renames && c !in renames.Values && c !in drops
      ensures c in bio.cols && forall i :: 0 <= i < |people.rows| ==> Get(bio.rows[i], c) == Get(people.rows[i], c)
    {
      ResetIndexCell(people, flat, c);
      RenameCell(flat, renames, renamed, c);
      DropCell(renamed, drops, bio, c);
      PeopleColumn(people, flat, renames, renamed, drops, bio, c);
    }
  }

  /** A people column that is neither renamed nor dropped is still a column of the biography table. */
  lemma PeopleColumn(people: Frame, flat: Frame, renames: map<string, string>, renamed: Frame, drops: seq<string>, bio: Frame, c: string)
    requires people.Valid() && ResetIndex(people) == Ok(flat)
    requires flat.Valid() && Rename(flat, renames) == Ok(renamed)
    requires renamed.Valid() && Drop(renamed, drops) == Ok(bio)
    requires c in people.cols && c !in renames && c !in drops
    ensures c in bio.cols
  {
    assert c in flat.cols;
    var j :| 0 <= j < |flat.cols| && flat.cols[j] == c;
    assert renamed.cols[j] == c;
  }

  /** A label the joined table does not bring in, and that is not dropped afterwards, is an output column exactly when it is an identity column. */
  lemma JoinDropColumn(ids: Frame, bioCols: seq<string>, after: seq<string>, outCols: seq<string>, c: string)
    requires |ids.index| <= 1 && outCols == Without(Carried(ids, Bbref) + Without(bioCols, Bbref), after)
    requires c !in bioCols && c !in after && c != "key_bbref"
    ensures c in outCols <==> c in ids.cols
  {
    var w := Without(bioCols, Bbref);
    assert c !in w;
    CarriedNonKey(ids, c);
  }

  /** Apart from `key_bbref`, the labels a join on `key_bbref` carries over from `ids` are its columns. */
  lemma CarriedNonKey(ids: Frame, c: string)
    requires |ids.index| <= 1 && c != "key_bbref"
    ensures c in Carried(ids, Bbref) <==> c in ids.cols
  {
    if ids.index != [] && ids.index[0] in Bbref {
      assert ids.index == [ids.index[0]];
    }
  }

  /** No identity row is lost by the join: each reappears with its cells under every identity column that is kept. */
  lemma JoinDropKeeps(ids: Frame, bio: Frame, joined: Frame, after: seq<string>, out: Frame)
    requires ids.Valid() && bio.Valid() && Merge(ids, bio, Bbref, Left) == Ok(joined)
    requires joined.Valid() && Drop(joined, after) == Ok(out)
    ensures |out.rows| >= |ids.rows|
    ensures forall i :: 0 <= i < |ids.rows| ==> KeptIn(out.rows, ids.rows[i], Without(ids.cols, after))
  {
    MergeLeftKeeps(ids, bio, Bbref, joined);
    KeptLabels(ids, bio, joined, after, out);
    CoveredKept(ids, joined, after, out, Carried(ids, Bbref), Without(ids.cols, after));
  }

  /** Identity rows covered by the join on `lc` are kept, on the labels `kept`, by the drop. */
  lemma CoveredKept(ids: Frame, joined: Frame, after: seq<string>, out: Frame, lc: seq<string>, kept: seq<string>)
    requires ids.Valid() && joined.Valid() && Drop(joined, after) == Ok(out)
    requires CoversCut(joined.rows, ids.rows, lc)
    requires forall c :: c in kept ==> c in lc && c in out.Names() && c in ids.cols
    ensures forall i :: 0 <= i < |ids.rows| ==> KeptIn(out.rows, ids.rows[i], kept)
  {
    forall i | 0 <= i < |ids.rows| ensures KeptIn(out.rows, ids.rows[i], kept) {
      assert Covered(joined.rows, Restrict(ids.rows[i], lc));
      assert ids.rows[i].Keys == Labels(ids.index + ids.cols);
      KeptRow(joined, out, after, ids.rows[i], lc, kept);
    }
  }

  /** The identity columns that are not dropped afterwards are carried by the join and survive the drop. */
  lemma KeptLabels(ids: Frame, bio: Frame, joined: Frame, after: seq<string>, out: Frame)
    requires ids.Valid() && bio.Valid() && Merge(ids, bio, Bbref, Left) == Ok(joined)
    requires joined.Valid() && Drop(joined, after) == Ok(out)
    ensures forall c :: c in Without(ids.cols, after) ==> c in Carried(ids, Bbref) && c in out.Names()
  {
    assert joined.cols == Carried(ids, Bbref) + Without(bio.cols, Bbref);
    assert out.cols == Without(joined.cols, after);
  }

  /** Some row of `rows` agrees with `r` on the labels `cs`. */
  predicate KeptIn(rows: seq<Row>, r: Row, cs: seq<string>) {
    exists j :: 0 <= j < |rows| && Agrees(rows[j], r, cs)
  }

  /** A row covered on `lc` by the join is still there, on the labels `kept`, once `after` is dropped. */
  lemma KeptRow(joined: Frame, out: Frame, after: seq<string>, r: Row, lc: seq<string>, kept: seq<string>)
    requires joined.Valid() && Drop(joined, after) == Ok(out) && Covered(joined.rows, Restrict(r, lc))
    requires forall c :: c in kept ==> c in lc && c in out.Names() && c in r
    ensures KeptIn(out.rows, r, kept)
  {
    var j :| 0 <= j < |joined.rows| && Extends(joined.rows[j], Restrict(r, lc));
    KeptCells(joined.rows[j], out.rows[j], r, lc, out.Names(), kept);
  }

  /**
   * Against a people table unique on `key_bbref`, the join keeps the
   * identity rows one for one, and each column brought in holds the cell of
   * the matching people row, or NaN.
   */
  lemma JoinDropUnique(ids: Frame, bio: Frame, joined: Frame, after: seq<string>, out: Frame)
    requires ids.Valid() && bio.Valid() && Merge(ids, bio, Bbref, Left) == Ok(joined)
    requires joined.Valid() && Drop(joined, after) == Ok(out)
    requires UniqueOn(bio.rows, Bbref)
    ensures |out.rows| == |ids.rows|
    ensures forall i :: 0 <= i < |ids.rows| ==> Agrees(out.rows[i], ids.rows[i], Without(ids.cols, after))
    ensures forall i, c :: 0 <= i < |ids.rows| && c in bio.cols && c != "key_bbref" && c !in after ==>
              Get(out.rows[i], c) == MatchCell(bio.rows, Bbref, KeyOf(ids.rows[i], Bbref), c)
  {
    MergeLeftUnique(ids, bio, Bbref, joined);
    var kept := Without(ids.cols, after);
    forall i | 0 <= i < |ids.rows| ensures Agrees(out.rows[i], ids.rows[i], kept) {
      forall c | c in kept ensures Get(out.rows[i], c) == Get(ids.rows[i], c) {
        assert ids.rows[i].Keys == Labels(ids.index + ids.cols);
        ExtendsRestrict(joined.rows[i], ids.rows[i], Carried(ids, Bbref), c);
        assert c in out.Names();
      }
    }
    forall i, c | 0 <= i < |ids.rows| && c in bio.cols && c != "key_bbref" && c !in after
      ensures Get(out.rows[i], c) == MatchCell(bio.rows, Bbref, KeyOf(ids.rows[i], Bbref), c)
    {
      assert c in Without(bio.cols, Bbref);
      assert c in out.Names();
    }
  }

  /** A joined row extending `r` on `lc`, then cut to `names`, agrees with `r` on the labels of `kept`. */
  lemma KeptCells(big: Row, small: Row, r: Row, lc: seq<string>, names: seq<string>, kept: seq<string>)
    requires Extends(big, Restrict(r, lc)) && small == Restrict(big, names)
    requires forall c :: c in kept ==> c in lc && c in names && c in r
    ensures Agrees(small, r, kept)
  {
    forall c | c in kept ensures Get(small, c) == Get(r, c) {
      ExtendsRestrict(big, r, lc, c);
    }
  }

  /** The people columns `genBio` leaves out and the columns it drops after the join have no label in common. */
  lemma BioDropsApart()
    ensures forall c :: c in DropBio ==> c !in BioDrops && c != "key_bbref" && c != "playerID"
  {
  }

  /**
   * `genBio` has none of the four dropped columns; a `drop_bio` column
   * (`debut`, say) is in its output exactly when the identity table has it,
   * since the people table no longer does.
   */
  lemma GenBioColumns(ids: Frame, people: Frame, out: Frame)
    requires ids.Valid() && people.Valid() && GenBio(ids, people) == Ok(out) && |ids.index| <= 1
    ensures forall c :: c in BioDrops ==> c !in out.Names()
    ensures forall c :: c in DropBio ==> (c in out.cols <==> c in ids.cols)
  {
    var bio := PeopleTable(people, PeopleRenames, DropBio).value;
    var joined := Merge(ids, bio, Bbref, Left).value;
    BioDropsApart();
    forall c | c in DropBio ensures c in out.cols <==> c in ids.cols {
      JoinDropColumn(ids, bio.cols, BioDrops, out.cols, c);
    }
  }

  /** No identity row is lost: each reappears in `genBio` with its cells under every kept identity column. */
  lemma GenBioKeeps(ids: Frame, people: Frame, out: Frame)
    requires ids.Valid() && people.Valid() && GenBio(ids, people) == Ok(out)
    ensures |out.rows| >= |ids.rows|
    ensures forall i :: 0 <= i < |ids.rows| ==> KeptIn(out.rows, ids.rows[i], Without(ids.cols, BioDrops))
  {
    var bio := PeopleTable(people, PeopleRenames, DropBio).value;
    var joined := Merge(ids, bio, Bbref, Left).value;
    JoinDropKeeps(ids, bio, joined, BioDrops, out);
  }

  /**
   * Against a people table with one row per `playerID`, `genBio` keeps the
   * identity rows one for one, and each biography column holds the cell of
   * the people row whose `playerID` is the row's `key_bbref`, or NaN.
   */
  lemma GenBioUnique(ids: Frame, people: Frame, out: Frame)
    requires ids.Valid() && people.Valid() && GenBio(ids, people) == Ok(out)
    requires "playerID" in people.Names() && UniqueOn(people.rows, ["playerID"])
    ensures |out.rows| == |ids.rows|
    ensures forall i :: 0 <= i < |ids.rows| ==> Agrees(out.rows[i], ids.rows[i], Without(ids.cols, BioDrops))
    ensures forall i, c :: 0 <= i < |ids.rows| && c in people.cols && c !in DropBio && c !in BioDrops && c != "playerID" ==>
              Get(out.rows[i], c) == MatchCell(people.rows, ["playerID"], KeyOf(ids.rows[i], Bbref), c)
  {
    var bio := PeopleTable(people, PeopleRenames, DropBio).value;
    var joined := Merge(ids, bio, Bbref, Left).value;
    PeopleRenamesOnly();
    PeopleKey(people, PeopleRenames, DropBio, bio);
    PeopleCells(people, PeopleRenames, DropBio, bio);
    KeyColumnMoved(people.rows, bio.rows, "playerID", "key_bbref");
    JoinDropUnique(ids, bio, joined, BioDrops, out);
    BioMatches(people, bio, ids, out);
  }

  /**
   * Rows matched on `key_bbref` against the biography table pick, under
   * each biography column, the cell of the people row with that `playerID`.
   */
  lemma BioMatches(people: Frame, bio: Frame, ids: Frame, out: Frame)
    requires |bio.rows| == |people.rows| && |out.rows| == |ids.rows|
    requires forall i :: 0 <= i < |people.rows| ==> Get(bio.rows[i], "key_bbref") == Get(people.rows[i], "playerID")
    requires forall c :: c in people.cols && c !in PeopleRenames && c !in PeopleRenames.Values && c !in DropBio ==> c in bio.cols
    requires forall i, c :: 0 <= i < |people.rows| && c in people.cols && c !in PeopleRenames && c !in PeopleRenames.Values && c !in DropBio ==>
               Get(bio.rows[i], c) == Get(people.rows[i], c)
    requires forall i, c :: 0 <= i < |ids.rows| && c in bio.cols && c != "key_bbref" && c !in BioDrops ==>
               Get(out.rows[i], c) == MatchCell(bio.rows, Bbref, KeyOf(ids.rows[i], Bbref), c)
    ensures forall i, c :: 0 <= i < |ids.rows| && c in people.cols && c !in DropBio && c !in BioDrops && c != "playerID" ==>
              Get(out.rows[i], c) == MatchCell(people.rows, ["playerID"], KeyOf(ids.rows[i], Bbref), c)
  {
    PeopleRenamesOnly();
    forall i, c | 0 <= i < |ids.rows| && c in people.cols && c !in DropBio && c !in BioDrops && c != "playerID"
      ensures Get(out.rows[i], c) == MatchCell(people.rows, ["playerID"], KeyOf(ids.rows[i], Bbref), c)
    {
      MatchCellMoved(people.rows, bio.rows, "playerID", "key_bbref", c, KeyOf(ids.rows[i], Bbref));
    }
  }

  /** The people rename only touches `playerID`. */
  lemma PeopleRenamesOnly()
    ensures PeopleRenames.Keys == {"playerID"} && PeopleRenames.Values == {"key_bbref"}
  {
  }

  /** `pd.concat([b, p]).drop_duplicates(subset=['key_mlbam'])`: how `master` combines the batting and pitching `bio` and `id` tables. */
  function MasterCombine(b: Frame, p: Frame): (r: Result<Frame>)
    requires b.Valid() && p.Valid()
  {
    var both :- Concat([b, p], false);
    DropDuplicates(both, Mlbam)
  }

  /** Two tables of the same shape stack into the batting rows followed by the pitching rows. */
  lemma MasterStack(b: Frame, p: Frame)
    requires b.Valid() && p.Valid() && b.index == p.index && b.cols == p.cols
    ensures Concat([b, p], false) == Ok(Frame(b.index, b.cols, b.rows + p.rows))
  {
    ConcatUniform([b, p], b.index, b.cols);
    assert [b, p][1..] == [p] && [p][1..] == [];
    assert Flatten([p]) == p.rows + [] == p.rows;
    assert Flatten([b, p]) == b.rows + p.rows;
  }

  /** Combining succeeds exactly when the tables have a `key_mlbam` column; the result keeps their shape. */
  lemma MasterCombineOk(b: Frame, p: Frame)
    requires b.Valid() && p.Valid() && b.index == p.index && b.cols == p.cols
    ensures MasterCombine(b, p).Ok? <==> "key_mlbam" in b.cols
    ensures MasterCombine(b, p).Ok? ==> MasterCombine(b, p).value.index == b.index && MasterCombine(b, p).value.cols == b.cols
  {
    MasterStack(b, p);
  }

  /**
   * `master`'s combined table has one row per MLBAM id of either table. A
   * two-way player keeps the batting row (the first one for that id); a
   * pitcher who never batted keeps the first pitching row.
   */
  lemma MasterTwoWay(b: Frame, p: Frame, out: Frame)
    requires b.Valid() && p.Valid() && b.index == p.index && b.cols == p.cols
    requires MasterCombine(b, p) == Ok(out)
    ensures UniqueOn(out.rows, Mlbam)
    ensures KeySet(out.rows, Mlbam) == KeySet(b.rows, Mlbam) + KeySet(p.rows, Mlbam)
    ensures |out.rows| == |KeySet(b.rows, Mlbam) + KeySet(p.rows, Mlbam)|
    ensures forall j :: 0 <= j < |out.rows| && KeyOf(out.rows[j], Mlbam) in KeySet(b.rows, Mlbam) ==>
              out.rows[j] == FirstWith(b.rows, Mlbam, KeyOf(out.rows[j], Mlbam))
    ensures forall j :: 0 <= j < |out.rows| && KeyOf(out.rows[j], Mlbam) !in KeySet(b.rows, Mlbam) ==>
              KeyOf(out.rows[j], Mlbam) in KeySet(p.rows, Mlbam) && out.rows[j] == FirstWith(p.rows, Mlbam, KeyOf(out.rows[j], Mlbam))
  {
    MasterStack(b, p);
    DedupPrefersFirstPart(b.rows, p.rows, Mlbam);
  }
}
