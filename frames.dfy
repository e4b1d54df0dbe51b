/**
 * Tables as the pipeline's pandas code sees them: an optional named index
 * level, an ordered list of column labels and a sequence of rows. A row maps
 * every label (index level and columns) to a cell.
 *
 * Statistic values reported by the data providers are opaque (`Val`); the
 * pipeline only reads team codes, seasons, identifiers, dates and run counts.
 */
module Frames {

  /**
   * One cell. `Null` stands for pandas' NaN/None, `Val` for any provider
   * payload, `EmptyDict` for the empty dictionary `{}` held as a value.
   */
  datatype Cell = Null | Int(i: int) | Str(s: string) | Val(id: nat) | EmptyDict

  type Row = map<string, Cell>

  /** The exceptions that the modelled pandas and Python operations raise. */
  datatype Error =
    | MissingColumn(name: string)    // KeyError: a label that is not a column
    | DuplicateLabels                // a frame would hold one label twice
    | ColumnClash(name: string)      // merge: a non-key label on both sides
    | NoCommonColumns                // MergeError: no `on` and no shared column
    | NoObjectsToConcatenate         // ValueError raised by pd.concat([])
    | MissingGroup(key: Cell)        // KeyError raised by GroupBy.get_group
    | BadLiteral(text: string)       // ValueError raised by int(text)
    | BadIndex                       // IndexError: list subscript out of range
    | BadType                        // TypeError/AttributeError on a cell value
    | NotPairs(text: string)         // ValueError raised by dict(text): characters are not key-value pairs
    | MissingArgument(name: string)  // TypeError: missing positional argument

  datatype Result<+T> = Ok(value: T) | Err(error: Error) {
    predicate IsFailure() { Err? }
    function PropagateFailure<U>(): Result<U> requires Err? { Err(error) }
    function Extract(): T requires Ok? { value }
  }

  predicate Distinct<T(==)>(s: seq<T>) {
    forall i, j :: 0 <= i < j < |s| ==> s[i] != s[j]
  }

  function Labels(s: seq<string>): set<string> {
    set c | c in s
  }

  /** The elements of `s` that are not in `drop`, in their order in `s`. */
  function Without(s: seq<string>, drop: seq<string>): (r: seq<string>)
    ensures forall x :: x in r <==> x in s && x !in drop
    ensures Distinct(s) ==> Distinct(r)
  {
    if s == [] then [] else (if s[0] in drop then [] else [s[0]]) + Without(s[1..], drop)
  }

  lemma DistinctAppend<T>(a: seq<T>, b: seq<T>)
    requires Distinct(a) && Distinct(b)
    requires forall x :: x in a ==> x !in b
    ensures Distinct(a + b)
  {
    forall i, j | 0 <= i < j < |a + b| ensures (a + b)[i] != (a + b)[j] {
      if j >= |a| && i < |a| {
        assert (a + b)[i] in a && (a + b)[j] in b;
      }
    }
  }

  lemma DistinctParts<T>(a: seq<T>, b: seq<T>)
    requires Distinct(a + b)
    ensures Distinct(a) && Distinct(b)
    ensures forall x :: x in a ==> x !in b
  {
    assert forall i :: 0 <= i < |a| ==> (a + b)[i] == a[i];
    assert forall j :: 0 <= j < |b| ==> (a + b)[|a| + j] == b[j];
  }

  function Get(r: Row, c: string): Cell {
    if c in r then r[c] else Null
  }

  /** The cells of `r` under the labels `cs`. */
  function Restrict(r: Row, cs: seq<string>): (t: Row)
    ensures t.Keys == r.Keys * Labels(cs)
    ensures forall c :: c in t ==> t[c] == r[c]
  {
    map c | c in r.Keys * Labels(cs) :: r[c]
  }

  /** `r` widened to the labels `cs`: a label `r` lacks gets `Null` (pandas' NaN). */
  function Fill(r: Row, cs: seq<string>): (t: Row)
    ensures t.Keys == Labels(cs)
    ensures forall c :: c in t ==> t[c] == Get(r, c)
  {
    map c | c in Labels(cs) :: Get(r, c)
  }

  datatype Frame = Frame(index: seq<string>, cols: seq<string>, rows: seq<Row>) {

    /** Every label a row carries: the named index level first, then the columns. */
    function Names(): seq<string> {
      index + cols
    }

    predicate Valid() {
      && |index| <= 1
      && Distinct(index + cols)
      && forall i :: 0 <= i < |rows| ==> rows[i].Keys == Labels(index + cols)
    }
  }

  /** `df[cs]`: the columns `cs` in that order, the index kept. */
  function Project(f: Frame, cs: seq<string>): (r: Result<Frame>)
    requires f.Valid()
    ensures r.Ok? <==> (forall c :: c in cs ==> c in f.cols) && Distinct(cs)
    ensures r.Ok? ==> r.value.Valid() && r.value.index == f.index && r.value.cols == cs
    ensures r.Ok? ==> |r.value.rows| == |f.rows|
    ensures r.Ok? ==> forall i :: 0 <= i < |f.rows| ==> r.value.rows[i] == Restrict(f.rows[i], f.index + cs)
  {
    var missing := Without(cs, f.cols);
    if missing != [] then
      assert missing[0] in missing;
      Err(MissingColumn(missing[0]))
    else if !Distinct(cs) then
      Err(DuplicateLabels)
    else
      assert Distinct(f.index + cs) by {
        DistinctParts(f.index, f.cols);
        DistinctAppend(f.index, cs);
      }
      Ok(Frame(f.index, cs, seq(|f.rows|, i requires 0 <= i < |f.rows| => Restrict(f.rows[i], f.index + cs))))
  }

  /** `df.drop(columns=cs)`: pandas raises KeyError unless every label is a column. */
  function Drop(f: Frame, cs: seq<string>): (r: Result<Frame>)
    requires f.Valid()
    ensures r.Ok? <==> forall c :: c in cs ==> c in f.cols
    ensures r.Ok? ==> r.value.Valid() && r.value.index == f.index && r.value.cols == Without(f.cols, cs)
    ensures r.Ok? ==> forall c :: c in cs ==> c !in r.value.Names()
    ensures r.Ok? ==> |r.value.rows| == |f.rows|
    ensures r.Ok? ==> forall i :: 0 <= i < |f.rows| ==> r.value.rows[i] == Restrict(f.rows[i], r.value.Names())
  {
    var missing := Without(cs, f.cols);
    if missing != [] then
      assert missing[0] in missing;
      Err(MissingColumn(missing[0]))
    else
      var keep := Without(f.cols, cs);
      DistinctParts(f.index, f.cols);
      assert Distinct(f.index + keep) by {
        DistinctAppend(f.index, keep);
      }
      Ok(Frame(f.index, keep, seq(|f.rows|, i requires 0 <= i < |f.rows| => Restrict(f.rows[i], f.index + keep))))
  }

  /** The label that `df.rename(columns=m)` gives to column `c`. */
  function Relabel(m: map<string, string>, c: string): string {
    if c in m then m[c] else c
  }

  /** The labels of the columns `cs` after `df.rename(columns=m)`. */
  function RelabelAll(m: map<string, string>, cs: seq<string>): (r: seq<string>)
    ensures |r| == |cs|
    ensures forall i :: 0 <= i < |cs| ==> r[i] == Relabel(m, cs[i])
  {
    seq(|cs|, i requires 0 <= i < |cs| => Relabel(m, cs[i]))
  }

  /** The cells of `r` under the columns `cs`, each moved to its new label. */
  function RenameCells(r: Row, cs: seq<string>, m: map<string, string>): (t: Row)
    ensures t.Keys == Labels(RelabelAll(m, cs))
  {
    if cs == [] then map[] else RenameCells(r, cs[1..], m)[Relabel(m, cs[0]) := Get(r, cs[0])]
  }

  lemma {:induction false} RenameCellsAt(r: Row, cs: seq<string>, m: map<string, string>, j: int)
    requires Distinct(RelabelAll(m, cs)) && 0 <= j < |cs|
    ensures RenameCells(r, cs, m)[Relabel(m, cs[j])] == Get(r, cs[j])
  {
    if j > 0 {
      var all := RelabelAll(m, cs);
      assert Distinct(RelabelAll(m, cs[1..])) by {
        assert RelabelAll(m, cs[1..]) == all[1..];
        DistinctParts(all[..1], all[1..]);
        assert all[..1] + all[1..] == all;
      }
      RenameCellsAt(r, cs[1..], m, j - 1);
      assert all[0] != all[j];
    }
  }

  lemma LabelsAppend(a: seq<string>, b: seq<string>)
    ensures Labels(a + b) == Labels(a) + Labels(b)
  {
  }

  /** One row of `df.rename(columns=m)`. */
  function RenameRow(r: Row, index: seq<string>, cols: seq<string>, m: map<string, string>): (t: Row)
    requires Distinct(index + RelabelAll(m, cols))
    requires r.Keys == Labels(index + cols)
    ensures t.Keys == Labels(index + RelabelAll(m, cols))
    ensures forall j :: 0 <= j < |cols| ==> t[Relabel(m, cols[j])] == r[cols[j]]
    ensures forall c :: c in index ==> t[c] == r[c]
  {
    RenameRowFacts(r, index, cols, m);
    Restrict(r, index) + RenameCells(r, cols, m)
  }

  lemma RenameRowFacts(r: Row, index: seq<string>, cols: seq<string>, m: map<string, string>)
    requires Distinct(index + RelabelAll(m, cols))
    requires r.Keys == Labels(index + cols)
    ensures var t := Restrict(r, index) + RenameCells(r, cols, m);
      && t.Keys == Labels(index + RelabelAll(m, cols))
      && (forall j :: 0 <= j < |cols| ==> t[Relabel(m, cols[j])] == r[cols[j]])
      && (forall c :: c in index ==> t[c] == r[c])
  {
    var t := Restrict(r, index) + RenameCells(r, cols, m);
    var rel := RelabelAll(m, cols);
    LabelsAppend(index, cols);
    LabelsAppend(index, rel);
    assert Restrict(r, index).Keys == Labels(index);
    DistinctParts(index, rel);
    forall j | 0 <= j < |cols| ensures t[Relabel(m, cols[j])] == r[cols[j]] {
      RenameCellsAt(r, cols, m, j);
      assert Relabel(m, cols[j]) == rel[j];
      assert rel[j] in RenameCells(r, cols, m);
      assert cols[j] in r;
    }
    forall c | c in index ensures t[c] == r[c] {
      assert c !in Labels(rel);
    }
  }

  /** `df.rename(columns=m)`: columns not named in `m` keep their label; the index is untouched. */
  function Rename(f: Frame, m: map<string, string>): (r: Result<Frame>)
    requires f.Valid()
    ensures r.Ok? <==> Distinct(f.index + RelabelAll(m, f.cols))
    ensures r.Ok? ==> r.value.Valid() && r.value.index == f.index && r.value.cols == RelabelAll(m, f.cols)
    ensures r.Ok? ==> |r.value.rows| == |f.rows|
    ensures r.Ok? ==> forall i, j :: 0 <= i < |f.rows| && 0 <= j < |f.cols| ==>
                        r.value.rows[i][Relabel(m, f.cols[j])] == f.rows[i][f.cols[j]]
    ensures r.Ok? ==> forall i, c :: 0 <= i < |f.rows| && c in f.index ==> r.value.rows[i][c] == f.rows[i][c]
  {
    var cols := RelabelAll(m, f.cols);
    if !Distinct(f.index + cols) then
      Err(DuplicateLabels)
    else
      Ok(Frame(f.index, cols, seq(|f.rows|, i requires 0 <= i < |f.rows| => RenameRow(f.rows[i], f.index, f.cols, m))))
  }

  /** `df[c] = vals`, aligned by position: column `c` is overwritten where it stands, or appended. */
  function SetColumn(f: Frame, c: string, vals: seq<Cell>): (r: Result<Frame>)
    requires f.Valid() && |vals| == |f.rows|
    ensures r.Ok? <==> c !in f.index
    ensures r.Ok? ==> r.value.Valid() && r.value.index == f.index
    ensures r.Ok? ==> r.value.cols == if c in f.cols then f.cols else f.cols + [c]
    ensures r.Ok? ==> |r.value.rows| == |f.rows|
    ensures r.Ok? ==> forall i :: 0 <= i < |f.rows| ==> r.value.rows[i] == f.rows[i][c := vals[i]]
  {
    if c in f.index then
      Err(DuplicateLabels)
    else
      var cols := if c in f.cols then f.cols else f.cols + [c];
      assert Distinct(f.index + cols) by {
        if c !in f.cols {
          DistinctParts(f.index, f.cols);
          DistinctAppend(f.cols, [c]);
          DistinctAppend(f.index, cols);
        }
      }
      Ok(Frame(f.index, cols, seq(|f.rows|, i requires 0 <= i < |f.rows| => f.rows[i][c := vals[i]])))
  }

  /** `df[c] = v` for a scalar `v`: every row gets `v` in column `c`, nothing else changes. */
  function Stamp(f: Frame, c: string, v: Cell): (r: Result<Frame>)
    requires f.Valid()
    ensures r.Ok? <==> c !in f.index
    ensures r.Ok? ==> r.value.Valid() && r.value.index == f.index
    ensures r.Ok? ==> r.value.cols == if c in f.cols then f.cols else f.cols + [c]
    ensures r.Ok? ==> |r.value.rows| == |f.rows|
    ensures r.Ok? ==> forall i :: 0 <= i < |f.rows| ==> r.value.rows[i][c] == v
    ensures r.Ok? ==> forall i, d :: 0 <= i < |f.rows| && d in f.rows[i] && d != c ==> r.value.rows[i][d] == f.rows[i][d]
  {
    SetColumn(f, c, seq(|f.rows|, _ => v))
  }

  /** `df.set_index(k)`: column `k` becomes the index level; an earlier named level is discarded. */
  function SetIndex(f: Frame, k: string): (r: Result<Frame>)
    requires f.Valid()
    ensures r.Ok? <==> k in f.cols
    ensures r.Ok? ==> r.value.Valid() && r.value.index == [k] && r.value.cols == Without(f.cols, [k])
    ensures r.Ok? ==> |r.value.rows| == |f.rows|
    ensures r.Ok? ==> forall i :: 0 <= i < |f.rows| ==> r.value.rows[i] == Restrict(f.rows[i], r.value.Names())
  {
    if k !in f.cols then
      Err(MissingColumn(k))
    else
      var cols := Without(f.cols, [k]);
      assert Distinct([k] + cols) by {
        DistinctParts(f.index, f.cols);
        DistinctAppend([k], cols);
      }
      Ok(Frame([k], cols, seq(|f.rows|, i requires 0 <= i < |f.rows| => Restrict(f.rows[i], [k] + cols))))
  }

  /** The label `reset_index()` gives the default integer index: "index", or "level_0" when "index" is taken. */
  function DefaultIndexLabel(cols: seq<string>): string {
    if "index" in cols then "level_0" else "index"
  }

  /**
   * `df.reset_index()`: a named index level becomes the first column; the default
   * integer index becomes a first column holding the row positions 0, 1, ...
   * pandas raises ValueError when the label it would insert is already a column.
   */
  function ResetIndex(f: Frame): (r: Result<Frame>)
    requires f.Valid()
    ensures r.Ok? <==> f.index != [] || DefaultIndexLabel(f.cols) !in f.cols
    ensures r.Ok? ==> r.value.Valid() && r.value.index == []
    ensures r.Ok? && f.index != [] ==> r.value.cols == f.index + f.cols && r.value.rows == f.rows
    ensures r.Ok? && f.index == [] ==> r.value.cols == [DefaultIndexLabel(f.cols)] + f.cols
    ensures r.Ok? ==> |r.value.rows| == |f.rows|
    ensures r.Ok? && f.index == [] ==> forall i :: 0 <= i < |f.rows| ==>
              r.value.rows[i] == f.rows[i][DefaultIndexLabel(f.cols) := Int(i)]
  {
    if f.index != [] then
      Ok(Frame([], f.index + f.cols, f.rows))
    else
      var name := DefaultIndexLabel(f.cols);
      if name in f.cols then
        Err(DuplicateLabels)
      else
        assert [] + f.cols == f.cols;
        assert Distinct([name] + f.cols) by {
          DistinctAppend([name], f.cols);
        }
        Ok(Frame([], [name] + f.cols, seq(|f.rows|, i requires 0 <= i < |f.rows| => f.rows[i][name := Int(i)])))
  }

  /** `big` holds the same cell as `small` under each label of `cs` (`Null` where a row lacks the label). */
  predicate Agrees(big: Row, small: Row, cs: seq<string>) {
    forall c :: c in cs ==> Get(big, c) == Get(small, c)
  }

  predicate AllValid(fs: seq<Frame>) {
    forall i :: 0 <= i < |fs| ==> fs[i].Valid()
  }

  function TotalRows(fs: seq<Frame>): nat {
    if fs == [] then 0 else |fs[0].rows| + TotalRows(fs[1..])
  }

  /** The rows of the frames `fs`, stacked in list order. */
  function Flatten(fs: seq<Frame>): (rows: seq<Row>)
    ensures |rows| == TotalRows(fs)
  {
    if fs == [] then [] else fs[0].rows + Flatten(fs[1..])
  }

  /** The columns of `pd.concat(fs)`: the labels of each frame in turn, each kept where it first appears. */
  function UnionCols(fs: seq<Frame>): (u: seq<string>)
    requires AllValid(fs)
    ensures Distinct(u)
    ensures forall c :: c in u <==> exists i :: 0 <= i < |fs| && c in fs[i].cols
    decreases |fs|
  {
    if fs == [] then [] else
      var init := fs[..|fs| - 1];
      var last := fs[|fs| - 1];
      var u := UnionCols(init);
      var extra := Without(last.cols, u);
      DistinctParts(last.index, last.cols);
      DistinctAppend(u, extra);
      assert forall c :: c in u + extra <==> exists i :: 0 <= i < |fs| && c in fs[i].cols by {
        forall c ensures c in u + extra <==> exists i :: 0 <= i < |fs| && c in fs[i].cols {
          if c in u {
            var i :| 0 <= i < |init| && c in init[i].cols;
            assert fs[i] == init[i];
          }
          if exists i :: 0 <= i < |fs| && c in fs[i].cols {
            var i :| 0 <= i < |fs| && c in fs[i].cols;
            if i < |init| {
              assert init[i] == fs[i];
            }
          }
        }
      }
      u + extra
  }

  /** Each frame's rows in turn, cut down to `names`: the index level is kept only on `idx`, an absent column is `Null`. */
  function StackRows(fs: seq<Frame>, idx: seq<string>, names: seq<string>): (rows: seq<Row>)
    ensures |rows| == TotalRows(fs)
    ensures forall i :: 0 <= i < |rows| ==> rows[i].Keys == Labels(names)
  {
    if fs == [] then [] else FrameRows(fs[0], idx, names) + StackRows(fs[1..], idx, names)
  }

  /** The rows of one frame as `pd.concat` stacks them: cut down to `idx` and its columns, then filled out to `names`. */
  function FrameRows(f: Frame, idx: seq<string>, names: seq<string>): seq<Row> {
    seq(|f.rows|, j requires 0 <= j < |f.rows| => Fill(Restrict(f.rows[j], idx + f.cols), names))
  }

  /** A frame whose labels are exactly `idx` and `cs` is stacked as it stands. */
  lemma FrameRowsUniform(f: Frame, idx: seq<string>, cs: seq<string>)
    requires f.Valid() && f.index == idx && f.cols == cs
    ensures FrameRows(f, idx, idx + cs) == f.rows
  {
    forall j | 0 <= j < |f.rows| ensures FrameRows(f, idx, idx + cs)[j] == f.rows[j] {
      FillRestrictOfRow(f.rows[j], idx + cs);
    }
  }

  /** A column of the frame that is among `names` keeps its cells when the frame is stacked. */
  lemma FrameRowsCell(f: Frame, idx: seq<string>, names: seq<string>, c: string)
    requires f.Valid() && c in f.cols && c in names
    ensures forall j :: 0 <= j < |f.rows| ==>
              c in f.rows[j] && c in FrameRows(f, idx, names)[j] && FrameRows(f, idx, names)[j][c] == f.rows[j][c]
  {
    forall j | 0 <= j < |f.rows| ensures c in f.rows[j] && c in FrameRows(f, idx, names)[j] && FrameRows(f, idx, names)[j][c] == f.rows[j][c] {
      assert c in f.rows[j];
      FillKeepsCell(f.rows[j], idx + f.cols, names, c);
    }
  }

  predicate SharedIndex(fs: seq<Frame>)
    requires fs != []
  {
    forall i :: 0 <= i < |fs| ==> fs[i].index == fs[0].index
  }

  /**
   * `pd.concat(fs)`, or `pd.concat(fs, ignore_index=True)` when `ignoreIndex`:
   * the rows of each frame in list order; the columns are the union of the
   * frames' columns in order of first appearance, a cell a frame lacks is
   * `Null`. A named index level survives only when every frame has the same
   * one. An empty list raises ValueError.
   */
  function Concat(fs: seq<Frame>, ignoreIndex: bool): (r: Result<Frame>)
    requires AllValid(fs)
    ensures r.Ok? <==> fs != []
    ensures r.Ok? ==> r.value.Valid() && r.value.cols == UnionCols(fs) && |r.value.rows| == TotalRows(fs)
    ensures r.Ok? ==> r.value.index == if !ignoreIndex && SharedIndex(fs) then fs[0].index else []
  {
    if fs == [] then
      Err(NoObjectsToConcatenate)
    else
      var idx := if !ignoreIndex && SharedIndex(fs) then fs[0].index else [];
      var u := UnionCols(fs);
      assert Distinct(idx + u) by {
        forall c | c in idx ensures c !in u {
          forall i | 0 <= i < |fs| ensures c !in fs[i].cols {
            DistinctParts(fs[i].index, fs[i].cols);
          }
        }
        DistinctAppend(idx, u);
      }
      Ok(Frame(idx, u, StackRows(fs, idx, idx + u)))
  }

  lemma {:induction false} UnionUniform(fs: seq<Frame>, cs: seq<string>)
    requires fs != [] && AllValid(fs)
    requires forall i :: 0 <= i < |fs| ==> fs[i].cols == cs
    ensures UnionCols(fs) == cs
    decreases |fs|
  {
    var init := fs[..|fs| - 1];
    AllValidSlice(fs, 0, |fs| - 1);
    UnionColsStep(fs);
    if init == [] {
      WithoutNothing(cs);
    } else {
      assert forall i :: 0 <= i < |init| ==> init[i].cols == cs by {
        forall i | 0 <= i < |init| ensures init[i].cols == cs {
          assert init[i] == fs[i];
        }
      }
      UnionUniform(init, cs);
      WithoutCovered(cs, cs);
    }
  }

  /** The union grows by the labels of the last frame that it did not have yet. */
  lemma UnionColsStep(fs: seq<Frame>)
    requires fs != [] && AllValid(fs) && AllValid(fs[..|fs| - 1])
    ensures UnionCols(fs) == UnionCols(fs[..|fs| - 1]) + Without(fs[|fs| - 1].cols, UnionCols(fs[..|fs| - 1]))
  {
  }

  /** Any slice of valid frames is valid frames. */
  lemma AllValidSlice(fs: seq<Frame>, lo: int, hi: int)
    requires AllValid(fs) && 0 <= lo <= hi <= |fs|
    ensures AllValid(fs[lo..hi])
  {
    forall i | 0 <= i < hi - lo ensures fs[lo..hi][i].Valid() {
      assert fs[lo..hi][i] == fs[lo + i];
    }
  }

  lemma {:induction false} WithoutNothing(s: seq<string>)
    ensures Without(s, []) == s
  {
    if s != [] {
      WithoutNothing(s[1..]);
      assert s == [s[0]] + s[1..];
    }
  }

  lemma {:induction false} WithoutCovered(s: seq<string>, d: seq<string>)
    requires forall x :: x in s ==> x in d
    ensures Without(s, d) == []
  {
    if s != [] {
      WithoutCovered(s[1..], d);
    }
  }

  lemma FillRestrictOfRow(r: Row, names: seq<string>)
    requires r.Keys == Labels(names)
    ensures Fill(Restrict(r, names), names) == r
  {
  }

  lemma {:induction false} StackUniform(fs: seq<Frame>, idx: seq<string>, cs: seq<string>)
    requires AllValid(fs)
    requires forall i :: 0 <= i < |fs| ==> fs[i].index == idx && fs[i].cols == cs
    ensures StackRows(fs, idx, idx + cs) == Flatten(fs)
  {
    if fs != [] {
      AllValidSlice(fs, 1, |fs|);
      assert forall i :: 0 <= i < |fs[1..]| ==> fs[1..][i].index == idx && fs[1..][i].cols == cs by {
        forall i | 0 <= i < |fs[1..]| ensures fs[1..][i].index == idx && fs[1..][i].cols == cs {
          assert fs[1..][i] == fs[i + 1];
        }
      }
      StackUniform(fs[1..], idx, cs);
      FrameRowsUniform(fs[0], idx, cs);
    }
  }

  /** Frames that share index level and columns concatenate to their rows stacked in list order. */
  lemma ConcatUniform(fs: seq<Frame>, idx: seq<string>, cs: seq<string>)
    requires fs != [] && AllValid(fs)
    requires forall i :: 0 <= i < |fs| ==> fs[i].index == idx && fs[i].cols == cs
    ensures Concat(fs, false) == Ok(Frame(idx, cs, Flatten(fs)))
  {
    UnionUniform(fs, cs);
    StackUniform(fs, idx, cs);
  }

  /** The rows whose cell in `c` is `v`, in their order. */
  function Select(rows: seq<Row>, c: string, v: Cell): (t: seq<Row>)
    ensures |t| <= |rows|
    ensures forall i :: 0 <= i < |t| ==> Get(t[i], c) == v && t[i] in rows
    ensures t == [] <==> forall i :: 0 <= i < |rows| ==> Get(rows[i], c) != v
  {
    if rows == [] then []
    else
      var rest := Select(rows[1..], c, v);
      assert forall i :: 1 <= i < |rows| ==> rows[i] == rows[1..][i - 1];
      (if Get(rows[0], c) == v then [rows[0]] else []) + rest
  }

  lemma {:induction false} SelectAppend(a: seq<Row>, b: seq<Row>, c: string, v: Cell)
    ensures Select(a + b, c, v) == Select(a, c, v) + Select(b, c, v)
  {
    if a != [] {
      assert (a + b)[1..] == a[1..] + b;
      assert (a + b)[0] == a[0];
      var h := if Get(a[0], c) == v then [a[0]] else [];
      SelectAppend(a[1..], b, c, v);
      SelectCons(a + b, c, v);
      SelectCons(a, c, v);
      calc {
        Select(a + b, c, v);
        h + Select(a[1..] + b, c, v);
        h + (Select(a[1..], c, v) + Select(b, c, v));
        (h + Select(a[1..], c, v)) + Select(b, c, v);
      }
    } else {
      assert a + b == b;
    }
  }

  /** A row whose `c` is `v` is selected. */
  lemma {:induction false} SelectHas(rows: seq<Row>, c: string, v: Cell, i: int)
    requires 0 <= i < |rows| && Get(rows[i], c) == v
    ensures rows[i] in Select(rows, c, v)
  {
    SelectCons(rows, c, v);
    if i > 0 {
      assert rows[1..][i - 1] == rows[i];
      SelectHas(rows[1..], c, v, i - 1);
      var h := if Get(rows[0], c) == v then [rows[0]] else [];
      var rest := Select(rows[1..], c, v);
      var k :| 0 <= k < |rest| && rest[k] == rows[i];
      assert (h + rest)[|h| + k] == rows[i];
    }
  }

  /** The first row is selected or not, then the rest are. */
  lemma SelectCons(rows: seq<Row>, c: string, v: Cell)
    requires rows != []
    ensures Select(rows, c, v) == (if Get(rows[0], c) == v then [rows[0]] else []) + Select(rows[1..], c, v)
  {
  }

  /**
   * `df.groupby(c).get_group(v)`: the rows whose `c` is `v`, in frame order.
   * pandas leaves NaN keys out of the groups and raises KeyError for a key
   * that has no group.
   */
  function GetGroup(f: Frame, c: string, v: Cell): (r: Result<Frame>)
    requires f.Valid()
    ensures r.Ok? <==> c in f.cols && v != Null && exists i :: 0 <= i < |f.rows| && f.rows[i][c] == v
    ensures r.Ok? ==> r.value.Valid() && r.value.index == f.index && r.value.cols == f.cols
    ensures r.Ok? ==> r.value.rows == Select(f.rows, c, v)
  {
    if c !in f.cols then
      Err(MissingColumn(c))
    else if v == Null then
      Err(MissingGroup(v))
    else
      var rows := Select(f.rows, c, v);
      assert (exists i :: 0 <= i < |f.rows| && f.rows[i][c] == v) <==> rows != [] by {
        assert forall i :: 0 <= i < |f.rows| ==> Get(f.rows[i], c) == f.rows[i][c];
      }
      if rows == [] then Err(MissingGroup(v)) else Ok(Frame(f.index, f.cols, rows))
  }

  /** `df[c]` as a list of values, one per row. */
  function ColumnValues(f: Frame, c: string): (r: Result<seq<Cell>>)
    requires f.Valid()
    ensures r.Ok? <==> c in f.cols
    ensures r.Ok? ==> |r.value| == |f.rows| && forall i :: 0 <= i < |f.rows| ==> r.value[i] == f.rows[i][c]
  {
    if c !in f.cols then Err(MissingColumn(c))
    else Ok(seq(|f.rows|, i requires 0 <= i < |f.rows| => f.rows[i][c]))
  }

  /** What `Series.map(m)` gives a value: its image under the dict `m`, NaN when `m` lacks it. */
  function Lookup(m: map<Cell, Cell>, v: Cell): Cell {
    if v in m then m[v] else Null
  }

  /** `df[c] = df[c].map(m)`. */
  function MapValues(f: Frame, c: string, m: map<Cell, Cell>): (r: Result<Frame>)
    requires f.Valid()
    ensures r.Ok? <==> c in f.cols
    ensures r.Ok? ==> r.value.Valid() && r.value.index == f.index && r.value.cols == f.cols
    ensures r.Ok? ==> |r.value.rows| == |f.rows|
    ensures r.Ok? ==> forall i :: 0 <= i < |f.rows| ==> r.value.rows[i] == f.rows[i][c := Lookup(m, f.rows[i][c])]
  {
    if c !in f.cols then
      Err(MissingColumn(c))
    else
      DistinctParts(f.index, f.cols);
      SetColumn(f, c, seq(|f.rows|, i requires 0 <= i < |f.rows| => Lookup(m, f.rows[i][c])))
  }

  /** A column every frame has keeps, through `pd.concat`, the cells it had in each frame. */
  lemma {:induction false} StackKeepsCell(fs: seq<Frame>, idx: seq<string>, names: seq<string>, c: string)
    requires AllValid(fs) && c in names
    requires forall k :: 0 <= k < |fs| ==> c in fs[k].cols
    ensures forall p :: 0 <= p < TotalRows(fs) ==>
              c in Flatten(fs)[p] && StackRows(fs, idx, names)[p][c] == Flatten(fs)[p][c]
  {
    if fs != [] {
      var tail := fs[1..];
      AllValidSlice(fs, 1, |fs|);
      assert forall k :: 0 <= k < |tail| ==> c in tail[k].cols by {
        forall k | 0 <= k < |tail| ensures c in tail[k].cols {
          assert tail[k] == fs[k + 1];
        }
      }
      StackKeepsCell(tail, idx, names, c);
      FrameRowsCell(fs[0], idx, names, c);
      CellsAppend(FrameRows(fs[0], idx, names), StackRows(tail, idx, names), fs[0].rows, Flatten(tail), c);
    }
  }

  /** Two pairs of row lists that agree on `c` position by position still agree once each pair is joined. */
  lemma CellsAppend(a: seq<Row>, b: seq<Row>, a': seq<Row>, b': seq<Row>, c: string)
    requires |a| == |a'| && |b| == |b'|
    requires forall j :: 0 <= j < |a'| ==> c in a'[j] && c in a[j] && a[j][c] == a'[j][c]
    requires forall j :: 0 <= j < |b'| ==> c in b'[j] && c in b[j] && b[j][c] == b'[j][c]
    ensures forall p :: 0 <= p < |a' + b'| ==> c in (a' + b')[p] && (a + b)[p][c] == (a' + b')[p][c]
  {
    forall p | 0 <= p < |a' + b'| ensures c in (a' + b')[p] && (a + b)[p][c] == (a' + b')[p][c] {
      if p >= |a'| {
        assert (a' + b')[p] == b'[p - |a'|] && (a + b)[p] == b[p - |a|];
      }
    }
  }

  /** A column every frame has keeps, through `pd.concat`, the cells it had in each frame. */
  lemma ConcatKeepsCell(fs: seq<Frame>, ignoreIndex: bool, c: string, g: Frame)
    requires AllValid(fs) && Concat(fs, ignoreIndex) == Ok(g)
    requires forall k :: 0 <= k < |fs| ==> c in fs[k].cols
    ensures forall p :: 0 <= p < TotalRows(fs) ==> c in Flatten(fs)[p] && c in g.rows[p] && g.rows[p][c] == Flatten(fs)[p][c]
  {
    var idx := if !ignoreIndex && SharedIndex(fs) then fs[0].index else [];
    var u := UnionCols(fs);
    assert c in fs[0].cols;
    assert c in idx + u;
    StackKeepsCell(fs, idx, idx + u, c);
  }

  /** Row `i` of `f`, or the empty row past its end. */
  function RowAt(f: Frame, i: int): Row {
    if 0 <= i < |f.rows| then f.rows[i] else map[]
  }

  /** Where row `p` of the stacked rows of `fs` comes from: which frame, and which of its rows. */
  function Origin(fs: seq<Frame>, p: int): (o: (nat, nat))
    requires 0 <= p < TotalRows(fs)
    ensures o.0 < |fs| && o.1 < |fs[o.0].rows| && Flatten(fs)[p] == fs[o.0].rows[o.1]
  {
    if p < |fs[0].rows| then
      assert Flatten(fs)[p] == fs[0].rows[p];
      (0, p)
    else
      var o := Origin(fs[1..], p - |fs[0].rows|);
      assert Flatten(fs)[p] == Flatten(fs[1..])[p - |fs[0].rows|];
      assert fs[1..][o.0] == fs[o.0 + 1];
      (o.0 + 1, o.1)
  }

  /** Stacking keeps the frames in list order: a later row never comes from an earlier frame. */
  lemma {:induction false} OriginOrdered(fs: seq<Frame>, p: int, q: int)
    requires 0 <= p <= q < TotalRows(fs)
    ensures Origin(fs, p).0 <= Origin(fs, q).0
  {
    if p >= |fs[0].rows| {
      OriginOrdered(fs[1..], p - |fs[0].rows|, q - |fs[0].rows|);
    }
  }

  lemma FillKeepsCell(r: Row, keep: seq<string>, names: seq<string>, c: string)
    requires c in keep && c in names && c in r
    ensures Fill(Restrict(r, keep), names)[c] == r[c]
  {
  }

  /** `series.apply(fn)` on a list of cells: every image, or the exception of the first cell that raises. */
  function ApplyCells(cells: seq<Cell>, fn: Cell -> Result<Cell>): (r: Result<seq<Cell>>)
    ensures r.Ok? <==> forall i :: 0 <= i < |cells| ==> fn(cells[i]).Ok?
    ensures r.Ok? ==> |r.value| == |cells| && forall i :: 0 <= i < |cells| ==> r.value[i] == fn(cells[i]).value
    ensures r.Err? ==> exists i :: 0 <= i < |cells| && fn(cells[i]).Err? && r.error == fn(cells[i]).error &&
                          forall j :: 0 <= j < i ==> fn(cells[j]).Ok?
  {
    if cells == [] then Ok([])
    else
      var head := fn(cells[0]);
      if head.Err? then Err(head.error)
      else
        var rest := ApplyCells(cells[1..], fn);
        assert forall i :: 1 <= i < |cells| ==> cells[i] == cells[1..][i - 1];
        if rest.Err? then
          var i :| 0 <= i < |cells[1..]| && fn(cells[1..][i]).Err? && rest.error == fn(cells[1..][i]).error &&
                   forall j :: 0 <= j < i ==> fn(cells[1..][j]).Ok?;
          assert cells[1..][i] == cells[i + 1];
          assert forall j :: 1 <= j < i + 1 ==> cells[j] == cells[1..][j - 1];
          Err(rest.error)
        else
          Ok([head.value] + rest.value)
  }

  /** `df[dst] = df[src].apply(fn)`. */
  function Apply(f: Frame, src: string, dst: string, fn: Cell -> Result<Cell>): (r: Result<Frame>)
    requires f.Valid()
    ensures r.Ok? <==> src in f.cols && dst !in f.index && forall i :: 0 <= i < |f.rows| ==> fn(f.rows[i][src]).Ok?
    ensures r.Ok? ==> r.value.Valid() && r.value.index == f.index
    ensures r.Ok? ==> r.value.cols == if dst in f.cols then f.cols else f.cols + [dst]
    ensures r.Ok? ==> |r.value.rows| == |f.rows|
    ensures r.Ok? ==> forall i :: 0 <= i < |f.rows| ==> r.value.rows[i] == f.rows[i][dst := fn(f.rows[i][src]).value]
  {
    var cells :- ColumnValues(f, src);
    var images :- ApplyCells(cells, fn);
    SetColumn(f, dst, images)
  }

  /** When `apply` raises, it raises the exception of the first cell that does. */
  lemma ApplyError(f: Frame, src: string, dst: string, fn: Cell -> Result<Cell>)
    requires f.Valid() && src in f.cols && dst !in f.index && Apply(f, src, dst, fn).Err?
    ensures exists i :: 0 <= i < |f.rows| && fn(f.rows[i][src]).Err? &&
              Apply(f, src, dst, fn).error == fn(f.rows[i][src]).error &&
              forall j :: 0 <= j < i ==> fn(f.rows[j][src]).Ok?
  {
    var cells := ColumnValues(f, src).value;
    assert ApplyCells(cells, fn).Err?;
  }

  /** `df[dst] = fn(df[a], df[b])`, computed row by row. */
  function Combine(f: Frame, a: string, b: string, dst: string, fn: (Cell, Cell) -> Cell): (r: Result<Frame>)
    requires f.Valid()
    ensures r.Ok? <==> a in f.cols && b in f.cols && dst !in f.index
    ensures r.Ok? ==> r.value.Valid() && r.value.index == f.index
    ensures r.Ok? ==> r.value.cols == if dst in f.cols then f.cols else f.cols + [dst]
    ensures r.Ok? ==> |r.value.rows| == |f.rows|
    ensures r.Ok? ==> forall i :: 0 <= i < |f.rows| ==> r.value.rows[i] == f.rows[i][dst := fn(f.rows[i][a], f.rows[i][b])]
  {
    var xs :- ColumnValues(f, a);
    var ys :- ColumnValues(f, b);
    SetColumn(f, dst, seq(|f.rows|, i requires 0 <= i < |f.rows| => fn(xs[i], ys[i])))
  }

  /** `reset_index()` keeps every cell outside the label it inserts. */
  lemma ResetIndexCell(f: Frame, g: Frame, c: string)
    requires f.Valid() && ResetIndex(f) == Ok(g) && ((c != "index" && c != "level_0") || c in f.Names())
    ensures |g.rows| == |f.rows| && forall i :: 0 <= i < |f.rows| ==> Get(g.rows[i], c) == Get(f.rows[i], c)
  {
  }

  /** Selecting columns keeps the cells of the index level and of the selected columns. */
  lemma ProjectCell(f: Frame, cs: seq<string>, g: Frame, c: string)
    requires f.Valid() && Project(f, cs) == Ok(g) && (c in f.index || c in cs)
    ensures |g.rows| == |f.rows| && forall i :: 0 <= i < |f.rows| ==> Get(g.rows[i], c) == Get(f.rows[i], c)
  {
    forall i | 0 <= i < |f.rows| ensures Get(g.rows[i], c) == Get(f.rows[i], c) {
      assert f.rows[i].Keys == Labels(f.index + f.cols);
    }
  }

  /** Dropping columns keeps the cells of every other label. */
  lemma DropCell(f: Frame, cs: seq<string>, g: Frame, c: string)
    requires f.Valid() && Drop(f, cs) == Ok(g) && c !in cs
    ensures |g.rows| == |f.rows| && forall i :: 0 <= i < |f.rows| ==> Get(g.rows[i], c) == Get(f.rows[i], c)
  {
    forall i | 0 <= i < |f.rows| ensures Get(g.rows[i], c) == Get(f.rows[i], c) {
      assert f.rows[i].Keys == Labels(f.index + f.cols);
      if c in f.rows[i] {
        assert c in g.Names();
      }
    }
  }

  /** Moving a column to the index keeps the cells of that column and of the other columns. */
  lemma SetIndexCell(f: Frame, k: string, g: Frame, c: string)
    requires f.Valid() && SetIndex(f, k) == Ok(g) && c in f.cols
    ensures |g.rows| == |f.rows| && forall i :: 0 <= i < |f.rows| ==> Get(g.rows[i], c) == Get(f.rows[i], c)
  {
    assert c in g.Names();
    forall i | 0 <= i < |f.rows| ensures Get(g.rows[i], c) == Get(f.rows[i], c) {
      assert f.rows[i].Keys == Labels(f.index + f.cols);
    }
  }

  /** Renaming keeps the cells of a label that is neither renamed nor a new name. */
  lemma RenameCell(f: Frame, m: map<string, string>, g: Frame, c: string)
    requires f.Valid() && Rename(f, m) == Ok(g) && c !in m && c !in m.Values
    ensures |g.rows| == |f.rows| && forall i :: 0 <= i < |f.rows| ==> Get(g.rows[i], c) == Get(f.rows[i], c)
  {
    var rel := RelabelAll(m, f.cols);
    forall i | 0 <= i < |f.rows| ensures Get(g.rows[i], c) == Get(f.rows[i], c) {
      assert f.rows[i].Keys == Labels(f.index + f.cols);
      assert g.rows[i].Keys == Labels(f.index + rel);
      if c in f.index {
      } else if c in f.cols {
        var j :| 0 <= j < |f.cols| && f.cols[j] == c;
        assert Relabel(m, f.cols[j]) == c;
      } else {
        forall j | 0 <= j < |f.cols| ensures rel[j] != c {
          if f.cols[j] in m {
            assert m[f.cols[j]] in m.Values;
          }
        }
        assert c !in g.rows[i];
      }
    }
  }

  /** Renaming moves the cells of column `a` to its new label. */
  lemma RenameMoves(f: Frame, m: map<string, string>, g: Frame, a: string)
    requires f.Valid() && Rename(f, m) == Ok(g) && a in f.cols
    ensures |g.rows| == |f.rows| && forall i :: 0 <= i < |f.rows| ==> Get(g.rows[i], Relabel(m, a)) == Get(f.rows[i], a)
  {
    var j :| 0 <= j < |f.cols| && f.cols[j] == a;
    forall i | 0 <= i < |f.rows| ensures Get(g.rows[i], Relabel(m, a)) == Get(f.rows[i], a) {
      assert f.rows[i].Keys == Labels(f.index + f.cols);
      assert g.rows[i].Keys == Labels(f.index + RelabelAll(m, f.cols));
      assert RelabelAll(m, f.cols)[j] == Relabel(m, a);
    }
  }

  /** With `ignore_index=True`, frames without a named index level that share their columns stack their rows in list order. */
  lemma ConcatUniformIgnore(fs: seq<Frame>, cs: seq<string>)
    requires fs != [] && AllValid(fs)
    requires forall i :: 0 <= i < |fs| ==> fs[i].index == [] && fs[i].cols == cs
    ensures Concat(fs, true) == Ok(Frame([], cs, Flatten(fs)))
  {
    UnionUniform(fs, cs);
    StackUniform(fs, [], cs);
  }
}
