/**
 * The per-team fetch loop of the FanGraphs imports. For each of the thirty
 * FanGraphs team numbers in turn (the order of the `fgteams` dict), the
 * table the provider returns for that team is cut down to the wanted
 * columns and every one of its rows gets the team's code in column `Team`;
 * the thirty slices are then stacked with `pd.concat`.
 */
module Teams {
  import opened Frames
  import opened Catalogs

  /** A per-team provider: every table it returns is well formed and has pandas' default integer index. */
  ghost predicate TeamProvider(fetch: int -> Frame) {
    forall t :: fetch(t).Valid() && fetch(t).index == []
  }

  /** The code `fgteams[t]` as a cell (NaN off the numbering). */
  function TeamTag(t: int): Cell {
    if t in FgTeams then Str(FgTeams[t]) else Null
  }

  /** No two team numbers share a tag. */
  ghost predicate DistinctTags(tag: int -> Cell) {
    forall a, b :: 1 <= a <= 30 && 1 <= b <= 30 && a != b ==> tag(a) != tag(b)
  }

  /** The thirty codes of `fgteams` are different. */
  lemma TeamTagsDistinct()
    ensures DistinctTags(TeamTag)
  {
    FgTeamsDomain();
    FgTeamsInjective();
  }

  /** The columns of a slice: the fetched columns, then `Team` (unless it was already one of them). */
  function TaggedCols(cols: seq<string>): (r: seq<string>)
    ensures forall c :: c in r <==> c in cols || c == "Team"
  {
    if "Team" in cols then cols else cols + ["Team"]
  }

  /**
   * One pass of the loop body: `fetch(t)[cols]`, then `['Team'] = fgteams[t]`.
   * Selecting a column the table lacks raises KeyError.
   */
  function TeamSlice(fetch: int -> Frame, cols: seq<string>, tag: int -> Cell, t: int): (r: Result<Frame>)
    requires TeamProvider(fetch) && 1 <= t <= 30
    ensures r.Ok? <==> (forall c :: c in cols ==> c in fetch(t).cols) && Distinct(cols)
    ensures r.Ok? ==> r.value.Valid() && r.value.index == [] && r.value.cols == TaggedCols(cols)
    ensures r.Ok? ==> |r.value.rows| == |fetch(t).rows|
    ensures r.Ok? ==> forall i :: 0 <= i < |fetch(t).rows| ==>
              r.value.rows[i] == Restrict(fetch(t).rows[i], cols)["Team" := tag(t)]
  {
    var temp :- Project(fetch(t), cols);
    assert [] + cols == cols;
    var tagged := Stamp(temp, "Team", tag(t));
    assert forall i :: 0 <= i < |fetch(t).rows| ==>
      tagged.value.rows[i] == Restrict(fetch(t).rows[i], cols)["Team" := tag(t)] by {
      forall i | 0 <= i < |fetch(t).rows|
        ensures tagged.value.rows[i] == Restrict(fetch(t).rows[i], cols)["Team" := tag(t)]
      {
        assert temp.rows[i].Keys == Labels(cols);
        assert tagged.value.rows[i].Keys == Labels(TaggedCols(cols));
      }
    }
    tagged
  }

  /** The loop body as a function of the team number: `TeamSlice` for 1 to 30. */
  function Slicer(fetch: int -> Frame, cols: seq<string>, tag: int -> Cell): (slice: int -> Result<Frame>)
    requires TeamProvider(fetch)
    ensures forall t :: 1 <= t <= 30 ==> slice(t) == TeamSlice(fetch, cols, tag, t)
  {
    t => if 1 <= t <= 30 then TeamSlice(fetch, cols, tag, t) else Err(BadIndex)
  }

  /** `fs` holds, in order, the slices of the teams numbered 1 to `|fs|`. */
  ghost predicate SlicesOf(slice: int -> Result<Frame>, fs: seq<Frame>) {
    |fs| <= 30 && forall k :: 0 <= k < |fs| ==> slice(k + 1) == Ok(fs[k])
  }

  lemma SlicesAppend(slice: int -> Result<Frame>, fs: seq<Frame>, last: Frame)
    requires SlicesOf(slice, fs) && |fs| < 30 && slice(|fs| + 1) == Ok(last)
    ensures SlicesOf(slice, fs + [last])
  {
    forall k | 0 <= k < |fs| + 1 ensures slice(k + 1) == Ok((fs + [last])[k]) {
      if k < |fs| {
        assert (fs + [last])[k] == fs[k];
      }
    }
  }

  /**
   * The list `team_dfs` the loop builds, given the slices `acc` of the teams
   * already visited: the first team whose slice raises ends the loop with
   * that exception.
   */
  function TeamsFrom(slice: int -> Result<Frame>, acc: seq<Frame>): (r: Result<seq<Frame>>)
    requires SlicesOf(slice, acc)
    ensures r.Ok? <==> forall t :: |acc| < t <= 30 ==> slice(t).Ok?
    ensures r.Ok? ==> |r.value| == 30 && SlicesOf(slice, r.value)
    decreases 30 - |acc|
  {
    if |acc| == 30 then Ok(acc)
    else
      var next := slice(|acc| + 1);
      if next.Err? then Err(next.error)
      else
        SlicesAppend(slice, acc, next.value);
        TeamsFrom(slice, acc + [next.value])
  }

  /** The loop runs to the end exactly when the wanted columns are distinct and every team's table has them all. */
  lemma TeamsOk(fetch: int -> Frame, cols: seq<string>, tag: int -> Cell)
    requires TeamProvider(fetch)
    ensures TeamsFrom(Slicer(fetch, cols, tag), []).Ok? <==>
      Distinct(cols) && forall t, c :: 1 <= t <= 30 && c in cols ==> c in fetch(t).cols
  {
    var slice := Slicer(fetch, cols, tag);
    var r := TeamsFrom(slice, []);
    var want := forall t, c :: 1 <= t <= 30 && c in cols ==> c in fetch(t).cols;
    if r.Ok? {
      assert slice(1).Ok?;
      forall t, c | 1 <= t <= 30 && c in cols ensures c in fetch(t).cols {
        assert slice(t).Ok?;
      }
    } else {
      var t :| 0 < t <= 30 && !slice(t).Ok?;
      assert !(Distinct(cols) && want) by {
        assert TeamSlice(fetch, cols, tag, t).Err?;
      }
    }
  }

  /** One more slice that does not raise leaves the outcome of the loop as it was. */
  lemma TeamsStep(slice: int -> Result<Frame>, acc: seq<Frame>, next: Frame)
    requires SlicesOf(slice, acc) && |acc| < 30 && slice(|acc| + 1) == Ok(next)
    ensures SlicesOf(slice, acc + [next])
    ensures TeamsFrom(slice, acc + [next]) == TeamsFrom(slice, acc)
  {
    SlicesAppend(slice, acc, next);
  }

  /** The loop over `fgteams`: one tagged slice per team number, 1 to 30. */
  method CollectTeams(fetch: int -> Frame, cols: seq<string>) returns (r: Result<seq<Frame>>)
    requires TeamProvider(fetch)
    ensures r == TeamsFrom(Slicer(fetch, cols, TeamTag), [])
  {
    ghost var slice := Slicer(fetch, cols, TeamTag);
    var teamDfs: seq<Frame> := [];
    var team := 1;
    while team <= 30
      invariant 1 <= team <= 31 && |teamDfs| == team - 1
      invariant SlicesOf(slice, teamDfs)
      invariant TeamsFrom(slice, teamDfs) == TeamsFrom(slice, [])
      decreases 31 - team
    {
      var temp := TeamSlice(fetch, cols, TeamTag, team);
      assert slice(team) == temp;
      if temp.Err? {
        return Err(temp.error);
      }
      TeamsStep(slice, teamDfs, temp.value);
      teamDfs := teamDfs + [temp.value];
      team := team + 1;
    }
    return Ok(teamDfs);
  }

  /** The thirty slices share their columns and index, so `pd.concat` just stacks their rows in team order. */
  lemma TeamsConcat(fetch: int -> Frame, cols: seq<string>, tag: int -> Cell, fs: seq<Frame>)
    requires TeamProvider(fetch) && TeamsFrom(Slicer(fetch, cols, tag), []) == Ok(fs)
    ensures AllValid(fs)
    ensures Concat(fs, false) == Ok(Frame([], TaggedCols(cols), Flatten(fs)))
  {
    forall k | 0 <= k < |fs| ensures fs[k].Valid() && fs[k].index == [] && fs[k].cols == TaggedCols(cols) {
      assert TeamSlice(fetch, cols, tag, k + 1) == Ok(fs[k]);
    }
    ConcatUniform(fs, [], TaggedCols(cols));
  }

  /** Every row of slice `k` carries the code of team `start + k`. */
  predicate TaggedFrom(fs: seq<Frame>, start: int, tag: int -> Cell) {
    forall k :: 0 <= k < |fs| ==> Tagged(fs[k].rows, tag(start + k))
  }

  /** Every row holds `v` in column `Team`. */
  predicate Tagged(rows: seq<Row>, v: Cell) {
    forall i :: 0 <= i < |rows| ==> Get(rows[i], "Team") == v
  }

  lemma SlicesTagged(fetch: int -> Frame, cols: seq<string>, tag: int -> Cell, fs: seq<Frame>)
    requires TeamProvider(fetch) && SlicesOf(Slicer(fetch, cols, tag), fs)
    ensures TaggedFrom(fs, 1, tag)
  {
    forall k | 0 <= k < |fs| ensures Tagged(fs[k].rows, tag(1 + k)) {
      assert TeamSlice(fetch, cols, tag, k + 1) == Ok(fs[k]);
    }
  }

  /** Rows that all hold `v` in `c` are all selected. */
  lemma {:induction false} SelectAll(rows: seq<Row>, c: string, v: Cell)
    requires forall i :: 0 <= i < |rows| ==> Get(rows[i], c) == v
    ensures Select(rows, c, v) == rows
  {
    if rows != [] {
      SelectAll(rows[1..], c, v);
      assert rows == [rows[0]] + rows[1..];
    }
  }

  lemma TaggedTail(fs: seq<Frame>, start: int, tag: int -> Cell)
    requires fs != [] && TaggedFrom(fs, start, tag)
    ensures TaggedFrom(fs[1..], start + 1, tag)
  {
    forall k | 0 <= k < |fs[1..]| ensures Tagged(fs[1..][k].rows, tag(start + 1 + k)) {
      assert fs[1..][k] == fs[k + 1];
    }
  }

  /** The rows of one slice, all tagged `start`, are selected whole for team `start` and not at all for another team. */
  lemma SelectHead(rows: seq<Row>, tag: int -> Cell, start: int, t: int)
    requires Tagged(rows, tag(start)) && DistinctTags(tag) && 1 <= start <= 30 && 1 <= t <= 30
    ensures Select(rows, "Team", tag(t)) == if start == t then rows else []
  {
    if start == t {
      SelectAll(rows, "Team", tag(t));
    } else {
      assert tag(start) != tag(t);
    }
  }

  /**
   * Selecting the rows tagged with team `t` from the stacked slices gives
   * back exactly the slice of team `t`, and nothing when `t` is not among them.
   */
  lemma {:induction false} SelectTeam(fs: seq<Frame>, start: int, tag: int -> Cell, t: int)
    requires TaggedFrom(fs, start, tag) && DistinctTags(tag) && 1 <= t <= 30
    requires 1 <= start && start + |fs| <= 31
    ensures Select(Flatten(fs), "Team", tag(t)) == if start <= t < start + |fs| then fs[t - start].rows else []
  {
    if fs != [] {
      TaggedTail(fs, start, tag);
      SelectTeam(fs[1..], start + 1, tag, t);
      SelectAppend(fs[0].rows, Flatten(fs[1..]), "Team", tag(t));
      SelectHead(fs[0].rows, tag, start, t);
      if start < t < start + |fs| {
        assert fs[1..][t - (start + 1)] == fs[t - start];
      }
    }
  }

  /**
   * After the loop and `pd.concat`, the rows tagged `fgteams[t]` are exactly
   * the rows fetched for team `t`, cut to the wanted columns.
   */
  lemma TeamRows(fetch: int -> Frame, cols: seq<string>, tag: int -> Cell, fs: seq<Frame>, t: int)
    requires TeamProvider(fetch) && TeamsFrom(Slicer(fetch, cols, tag), []) == Ok(fs)
    requires DistinctTags(tag) && 1 <= t <= 30
    ensures var picked := Select(Flatten(fs), "Team", tag(t));
      && |picked| == |fetch(t).rows|
      && forall i :: 0 <= i < |fetch(t).rows| ==> picked[i] == Restrict(fetch(t).rows[i], cols)["Team" := tag(t)]
  {
    SlicesTagged(fetch, cols, tag, fs);
    SelectTeam(fs, 1, tag, t);
    assert Slicer(fetch, cols, tag)(t) == Ok(fs[t - 1]);
  }

  /** Every stacked row carries the code of the team it was fetched for; the teams come in key order. */
  predicate StackOrdered(fs: seq<Frame>, tag: int -> Cell) {
    && (forall p :: 0 <= p < TotalRows(fs) ==> Get(Flatten(fs)[p], "Team") == tag(Origin(fs, p).0 + 1))
    && (forall p, q :: 0 <= p <= q < TotalRows(fs) ==> Origin(fs, p).0 <= Origin(fs, q).0)
  }

  /** The loop stacks the teams in key order and tags each row with its team. */
  lemma TeamOrder(fetch: int -> Frame, cols: seq<string>, tag: int -> Cell, fs: seq<Frame>)
    requires TeamProvider(fetch) && TeamsFrom(Slicer(fetch, cols, tag), []) == Ok(fs)
    ensures StackOrdered(fs, tag)
  {
    SlicesTagged(fetch, cols, tag, fs);
    StackTags(fs, tag);
  }

  lemma StackTags(fs: seq<Frame>, tag: int -> Cell)
    requires TaggedFrom(fs, 1, tag)
    ensures StackOrdered(fs, tag)
  {
    forall p | 0 <= p < TotalRows(fs) ensures Get(Flatten(fs)[p], "Team") == tag(Origin(fs, p).0 + 1) {
      var o := Origin(fs, p);
      assert Tagged(fs[o.0].rows, tag(1 + o.0));
      assert Get(fs[o.0].rows[o.1], "Team") == tag(1 + o.0);
    }
    forall p, q | 0 <= p <= q < TotalRows(fs) ensures Origin(fs, p).0 <= Origin(fs, q).0 {
      OriginOrdered(fs, p, q);
    }
  }

  /** Every stacked row is a fetched row of the team it comes from, cut to the wanted columns and tagged. */
  lemma StackedRow(fetch: int -> Frame, cols: seq<string>, tag: int -> Cell, fs: seq<Frame>, p: int)
    requires TeamProvider(fetch) && TeamsFrom(Slicer(fetch, cols, tag), []) == Ok(fs) && 0 <= p < TotalRows(fs)
    ensures var o := Origin(fs, p);
      && o.1 < |fetch(o.0 + 1).rows|
      && Flatten(fs)[p] == Restrict(RowAt(fetch(o.0 + 1), o.1), cols)["Team" := tag(o.0 + 1)]
  {
    StackedSlices(fetch, cols, tag, fs);
    StackedRowOf(fetch, cols, tag, fs, p);
  }

  /** `fs` holds the slices of the thirty teams, in order. */
  ghost predicate TeamSlices(fetch: int -> Frame, cols: seq<string>, tag: int -> Cell, fs: seq<Frame>)
    requires TeamProvider(fetch)
  {
    |fs| == 30 && forall k :: 0 <= k < |fs| ==> TeamSlice(fetch, cols, tag, k + 1) == Ok(fs[k])
  }

  /** What the loop returns holds the slices of the thirty teams. */
  lemma StackedSlices(fetch: int -> Frame, cols: seq<string>, tag: int -> Cell, fs: seq<Frame>)
    requires TeamProvider(fetch) && TeamsFrom(Slicer(fetch, cols, tag), []) == Ok(fs)
    ensures TeamSlices(fetch, cols, tag, fs)
  {
    forall k | 0 <= k < |fs| ensures TeamSlice(fetch, cols, tag, k + 1) == Ok(fs[k]) {
      StackedSlice(fetch, cols, tag, fs, k);
    }
  }

  /** `StackedRow` for any list holding the thirty slices. */
  lemma StackedRowOf(fetch: int -> Frame, cols: seq<string>, tag: int -> Cell, fs: seq<Frame>, p: int)
    requires TeamProvider(fetch) && TeamSlices(fetch, cols, tag, fs) && 0 <= p < TotalRows(fs)
    ensures var o := Origin(fs, p);
      && o.1 < |fetch(o.0 + 1).rows|
      && Flatten(fs)[p] == Restrict(RowAt(fetch(o.0 + 1), o.1), cols)["Team" := tag(o.0 + 1)]
  {
    var o := Origin(fs, p);
    SliceRow(fetch, cols, tag, o.0 + 1, fs[o.0], o.1);
    assert RowAt(fetch(o.0 + 1), o.1) == fetch(o.0 + 1).rows[o.1];
  }

  /** The `k`th stacked frame is the slice of team `k + 1`. */
  lemma StackedSlice(fetch: int -> Frame, cols: seq<string>, tag: int -> Cell, fs: seq<Frame>, k: int)
    requires TeamProvider(fetch) && TeamsFrom(Slicer(fetch, cols, tag), []) == Ok(fs) && 0 <= k < |fs|
    ensures 1 <= k + 1 <= 30 && TeamSlice(fetch, cols, tag, k + 1) == Ok(fs[k])
  {
    var slice := Slicer(fetch, cols, tag);
    assert SlicesOf(slice, fs);
    assert slice(k + 1) == Ok(fs[k]);
  }

  /** Row `i` of the slice of team `t` is row `i` of the table fetched for `t`, cut and tagged. */
  lemma SliceRow(fetch: int -> Frame, cols: seq<string>, tag: int -> Cell, t: int, f: Frame, i: int)
    requires TeamProvider(fetch) && 1 <= t <= 30 && TeamSlice(fetch, cols, tag, t) == Ok(f) && 0 <= i < |f.rows|
    ensures i < |fetch(t).rows| && f.rows[i] == Restrict(fetch(t).rows[i], cols)["Team" := tag(t)]
  {
  }
}
