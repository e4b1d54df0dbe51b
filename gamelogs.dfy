/**
 * The game-log table: one row per team-game from the season schedules,
 * with combined runs, run differential, day and month read off the
 * schedule's date text, and the length of the game in minutes.
 */
module GameLogs {
  import opened Frames
  import opened Text
  import opened Catalogs

  function Abs(x: int): nat {
    if x < 0 then -x else x
  }

  /** `R + RA`: the runs both sides scored; NaN when either score is missing (a game not yet played). */
  function RunsTotal(r: Cell, ra: Cell): Cell {
    if r.Int? && ra.Int? then Int(r.i + ra.i) else Null
  }

  /** The run-differential lambda: the larger score minus the smaller; a comparison with NaN is false, which gives NaN. */
  function RunDiff(r: Cell, ra: Cell): Cell {
    if r.Int? && ra.Int? then (if r.i > ra.i then Int(r.i - ra.i) else Int(ra.i - r.i)) else Null
  }

  /**
   * The run differential is the distance between the two scores: never
   * negative, the same from either side's point of view, and of the same
   * parity as the total; 7 and 3 give a total of 10 and a differential of 4.
   */
  lemma RunsFacts(r: int, ra: int)
    ensures RunsTotal(Int(r), Int(ra)) == Int(r + ra)
    ensures RunDiff(Int(r), Int(ra)) == Int(Abs(r - ra))
    ensures RunDiff(Int(r), Int(ra)) == RunDiff(Int(ra), Int(r))
    ensures r >= 0 && ra >= 0 ==> Abs(r - ra) <= r + ra && (r + ra - Abs(r - ra)) % 2 == 0
    ensures RunsTotal(Int(7), Int(3)) == Int(10) && RunDiff(Int(7), Int(3)) == Int(4)
  {
  }

  /** A missing score on either side leaves both derived columns NaN. */
  lemma RunsMissing(r: Cell, ra: Cell)
    requires !r.Int? || !ra.Int?
    ensures RunsTotal(r, ra) == Null && RunDiff(r, ra) == Null
  {
  }

  /** The text of a cell; `.split` on anything but a string (NaN, a number) raises AttributeError. */
  function TextOf(c: Cell): (r: Result<string>)
    ensures r.Ok? <==> c.Str?
  {
    if c.Str? then Ok(c.s) else Err(BadType)
  }

  /** `x.split(',')[1]`: the part of "Thursday, Apr 7" after the weekday. */
  function DatePart(c: Cell): Result<Cell> {
    var s :- TextOf(c);
    var p :- Piece(Split(s, ','), 1);
    Ok(Str(p))
  }

  /** `x.split(' ')[2]`: the day of the month in " Apr 7". */
  function DayField(c: Cell): Result<Cell> {
    var s :- TextOf(c);
    var p :- Piece(Split(s, ' '), 2);
    Ok(Str(p))
  }

  /** `x.split(' ')[1]`: the month abbreviation in " Apr 7". */
  function MonthField(c: Cell): Result<Cell> {
    var s :- TextOf(c);
    var p :- Piece(Split(s, ' '), 1);
    Ok(Str(p))
  }

  /** `'0' + x if int(x) < 10 else x`. */
  function PadDay(c: Cell): Result<Cell> {
    var s :- TextOf(c);
    var n :- ParseInt(s);
    Ok(Str(if n < 10 then "0" + s else s))
  }

  /** `int(x.split(':')[0]) * 60 + int(x.split(':')[1])`: a game length "H:MM" in minutes. */
  function TimeMinutes(c: Cell): Result<Cell> {
    var s :- TextOf(c);
    var ps := Split(s, ':');
    var h :- ParseInt(ps[0]);
    var m :- Piece(ps, 1);
    var mm :- ParseInt(m);
    Ok(Int(h * 60 + mm))
  }

  /** The corrected month step, `Series.map(month)`: the table's number, NaN for an abbreviation it lacks. */
  function MonthNumber(c: Cell): Result<Cell> {
    Ok(Lookup(CellMap(Month), c))
  }

  /**
   * The month step as written, `Series.map(dict)`: `dict` is a class, not a
   * mapping, so pandas calls the builtin on each value. `dict("")` is the
   * empty dictionary, and so is `dict({})`; a non-empty string raises
   * ValueError (its characters are not key-value pairs), and NaN or a number
   * raises TypeError (not iterable).
   */
  function DictCall(c: Cell): (r: Result<Cell>)
    ensures r.Ok? <==> c == Str("") || c == EmptyDict
    ensures r.Ok? ==> r.value == EmptyDict
    ensures c.Str? && c.s != "" ==> r == Err(NotPairs(c.s))
    ensures !c.Str? && c != EmptyDict ==> r == Err(BadType)
  {
    if c == Str("") || c == EmptyDict then Ok(EmptyDict)
    else if c.Str? then Err(NotPairs(c.s))
    else Err(BadType)
  }

  /** The decimal digits of a minute count, padded to two: "05" for 5. */
  function TwoDigits(m: nat): string {
    if m < 10 then "0" + Show(m) else Show(m)
  }

  /** A game length as the schedule writes it: "3:05". */
  function Clock(h: nat, m: nat): string {
    Show(h) + ":" + TwoDigits(m)
  }

  lemma TwoDigitsValue(m: nat)
    ensures IsDigits(TwoDigits(m)) && DigitsValue(TwoDigits(m)) == m
  {
    ShowValue(m);
    if m < 10 {
      LeadingZero(Show(m));
    }
  }

  /** Digits never contain a separator. */
  lemma DigitsFree(s: string, sep: char)
    requires IsDigits(s) && !IsDigit(sep)
    ensures sep !in s
  {
  }

  /**
   * A game length "H:MM" becomes H * 60 + MM minutes, and when MM is below 60
   * dividing by 60 gives the hour and the remainder the minutes back.
   */
  lemma TimeRoundTrip(h: nat, m: nat)
    requires m < 60
    ensures TimeMinutes(Str(Clock(h, m))) == Ok(Int(h * 60 + m))
    ensures (h * 60 + m) / 60 == h && (h * 60 + m) % 60 == m
  {
    ClockSplit(h, m);
    TwoDigitsValue(m);
    ShowValue(h);
    var ps := Split(Clock(h, m), ':');
    assert ps[0] == Show(h) && ps[1] == TwoDigits(m);
    assert Piece(ps, 1) == Ok(TwoDigits(m));
  }

  /** Split on the colon, "H:MM" gives the hour digits and the two minute digits. */
  lemma ClockSplit(h: nat, m: nat)
    requires m < 60
    ensures Split(Clock(h, m), ':') == [Show(h), TwoDigits(m)]
  {
    DigitsFree(Show(h), ':');
    DigitsFree(TwoDigits(m), ':');
    SplitJoin([Show(h), TwoDigits(m)], ':');
    assert Join([Show(h), TwoDigits(m)], ':') == Clock(h, m);
  }

  /** A time without a colon has no minutes part: `x.split(':')[1]` raises, unless the hour part already did. */
  lemma TimeNeedsColon(s: string)
    requires ':' !in s
    ensures TimeMinutes(Str(s)).Err?
  {
    SplitPiece(s, [], ':');
  }

  /**
   * A schedule date "Weekday, Mon D": the comma part is " Mon D"; split on
   * spaces its first piece is the empty string before the leading space, the
   * month is piece 1 and the day piece 2 (further pieces, such as the
   * double-header mark "(1)", do not matter).
   */
  lemma DateFields(w: string, mon: string, d: nat, more: seq<string>)
    requires ',' !in w && ',' !in mon && ' ' !in mon
    requires forall i :: 0 <= i < |more| ==> ',' !in more[i] && ' ' !in more[i]
    ensures var tail := Join(["", mon, Show(d)] + more, ' ');
      && DatePart(Str(w + "," + tail)) == Ok(Str(tail))
      && Split(tail, ' ')[0] == ""
      && DayField(Str(tail)) == Ok(Str(Show(d)))
      && MonthField(Str(tail)) == Ok(Str(mon))
  {
    var ps := ["", mon, Show(d)] + more;
    DateTail(mon, d, more);
    AfterComma(w, Join(ps, ' '));
    FieldsOf(ps);
  }

  lemma AfterComma(w: string, tail: string)
    requires ',' !in w && ',' !in tail
    ensures DatePart(Str(w + "," + tail)) == Ok(Str(tail))
  {
    SplitJoin([w, tail], ',');
    assert Join([w, tail], ',') == w + "," + tail;
  }

  lemma FieldsOf(ps: seq<string>)
    requires |ps| >= 3 && Split(Join(ps, ' '), ' ') == ps
    ensures DayField(Str(Join(ps, ' '))) == Ok(Str(ps[2]))
    ensures MonthField(Str(Join(ps, ' '))) == Ok(Str(ps[1]))
  {
  }

  /** The part after the comma splits on spaces into exactly its pieces, and holds no comma. */
  lemma DateTail(mon: string, d: nat, more: seq<string>)
    requires ',' !in mon && ' ' !in mon
    requires forall i :: 0 <= i < |more| ==> ',' !in more[i] && ' ' !in more[i]
    ensures var ps := ["", mon, Show(d)] + more;
      Split(Join(ps, ' '), ' ') == ps && ',' !in Join(ps, ' ')
  {
    var ps := ["", mon, Show(d)] + more;
    DigitsFree(Show(d), ' ');
    DigitsFree(Show(d), ',');
    assert forall i :: 3 <= i < |ps| ==> ps[i] == more[i - 3];
    SplitJoin(ps, ' ');
    JoinFree(ps, ' ', ',');
  }

  /** Joining pieces free of a character with a different separator leaves that character out. */
  lemma {:induction false} JoinFree(ps: seq<string>, sep: char, c: char)
    requires |ps| >= 1 && c != sep && forall i :: 0 <= i < |ps| ==> c !in ps[i]
    ensures c !in Join(ps, sep)
  {
    if |ps| > 1 {
      JoinFree(ps[1..], sep, c);
      assert ps[0] == ps[0];
    }
  }

  /** Days one to nine gain a leading zero and become two characters long. */
  lemma PadSingleDigit(d: nat)
    requires d < 10
    ensures PadDay(Str(Show(d))) == Ok(Str("0" + Show(d))) && |"0" + Show(d)| == 2
  {
    ParseShow(d);
    ShowLength(d);
  }

  /** Days ten and above are left as they are. */
  lemma PadTwoDigits(d: nat)
    requires d >= 10
    ensures PadDay(Str(Show(d))) == Ok(Str(Show(d)))
  {
    ParseShow(d);
  }

  /** Padding a run of digits never changes the number it reads as. */
  lemma PadKeepsValue(s: string)
    requires IsDigits(s)
    ensures PadDay(Str(s)).Ok? && PadDay(Str(s)).value.Str?
    ensures ParseInt(PadDay(Str(s)).value.s) == ParseInt(s)
  {
    LeadingZero(s);
  }

  /** Padding is not idempotent: "5" becomes "05", and "05" becomes "005". */
  lemma PadNotIdempotent()
    ensures PadDay(Str("5")) == Ok(Str("05"))
    ensures PadDay(Str("05")) == Ok(Str("005"))
  {
    assert Show(5) == "5";
    PadSingleDigit(5);
    LeadingZero("5");
    ParseShow(5);
    assert "0" + "5" == "05" && "0" + "05" == "005";
  }

  /** The columns the game-log table keeps, in order; the run columns computed on the way are not among them. */
  const GameLogCols: seq<string> := ["Day", "Month", "Season", "Tm", "Opp", "Time", "D/N", "Attendance"]

  /**
   * The column assignments on the concatenated schedules, in the order the
   * source makes them, then the final selection; `monthStep` is what the
   * month abbreviations are mapped with.
   */
  function Derive(gl: Frame, monthStep: Cell -> Result<Cell>): (r: Result<Frame>)
    requires gl.Valid()
    ensures r.Ok? ==> r.value.Valid() && r.value.index == gl.index && r.value.cols == GameLogCols
    ensures r.Ok? ==> |r.value.rows| == |gl.rows|
  {
    var g6 :- DateSteps(gl);
    MonthTime(g6, monthStep)
  }

  /** The first six column assignments: the two run columns, then the day and the month field read off the date. */
  function DateSteps(gl: Frame): (r: Result<Frame>)
    requires gl.Valid()
    ensures r.Ok? ==> r.value.Valid() && r.value.index == gl.index && |r.value.rows| == |gl.rows|
    ensures r.Ok? ==> "Month" in r.value.cols && "Month" !in r.value.index
  {
    var g1 :- Combine(gl, "R", "RA", "R_tot", RunsTotal);
    var g2 :- Combine(g1, "R", "RA", "R_diff", RunDiff);
    var g3 :- Apply(g2, "Date", "Date_split", DatePart);
    var g4 :- Apply(g3, "Date_split", "Day", DayField);
    var g5 :- Apply(g4, "Day", "Day", PadDay);
    Apply(g5, "Date_split", "Month", MonthField)
  }

  /** The last steps: the month step, the game length in minutes, and the final selection. */
  function MonthTime(g6: Frame, monthStep: Cell -> Result<Cell>): (r: Result<Frame>)
    requires g6.Valid()
    ensures r.Ok? ==> r.value.Valid() && r.value.index == g6.index && r.value.cols == GameLogCols
    ensures r.Ok? ==> |r.value.rows| == |g6.rows|
  {
    var g7 :- Apply(g6, "Month", "Month", monthStep);
    var g8 :- Apply(g7, "Time", "Time", TimeMinutes);
    Project(g8, GameLogCols)
  }

  /**
   * The game-log row one schedule row becomes, worked out on its own: the
   * padded day and the month number from the date text, the season, the
   * teams, the game length in minutes, day or night and the attendance.
   */
  function GameRow(row: Row, monthStep: Cell -> Result<Cell>): Result<Row> {
    var ds :- DatePart(Get(row, "Date"));
    var padded :- DayOf(ds);
    var month :- MonthOf(ds, monthStep);
    var time :- TimeMinutes(Get(row, "Time"));
    Ok(GameCells(row, padded, month, time))
  }

  /** The padded day of the month of the date text after the weekday. */
  function DayOf(ds: Cell): Result<Cell> {
    var day :- DayField(ds);
    PadDay(day)
  }

  /** The month step applied to the month abbreviation of the date text after the weekday. */
  function MonthOf(ds: Cell, monthStep: Cell -> Result<Cell>): Result<Cell> {
    var mon :- MonthField(ds);
    monthStep(mon)
  }

  /** The eight output cells of a row: three derived, five carried over. */
  function GameCells(row: Row, day: Cell, month: Cell, time: Cell): Row {
    map["Day" := day, "Month" := month, "Season" := Get(row, "Season"), "Tm" := Get(row, "Tm"),
        "Opp" := Get(row, "Opp"), "Time" := time, "D/N" := Get(row, "D/N"), "Attendance" := Get(row, "Attendance")]
  }

  /** The labels of the output columns, as a set. */
  lemma GameLabels()
    ensures Labels(GameLogCols) == {"Day", "Month", "Season", "Tm", "Opp", "Time", "D/N", "Attendance"}
  {
  }

  /** A row holding every output column, cut down to them, is `GameCells` of its cells. */
  lemma RestrictGame(r0: Row, r8: Row)
    requires "Day" in r8 && "Month" in r8 && "Time" in r8
    requires "Season" in r0 && "Season" in r8 && r8["Season"] == r0["Season"]
    requires "Tm" in r0 && "Tm" in r8 && r8["Tm"] == r0["Tm"]
    requires "Opp" in r0 && "Opp" in r8 && r8["Opp"] == r0["Opp"]
    requires "D/N" in r0 && "D/N" in r8 && r8["D/N"] == r0["D/N"]
    requires "Attendance" in r0 && "Attendance" in r8 && r8["Attendance"] == r0["Attendance"]
    ensures Restrict(r8, GameLogCols) == GameCells(r0, r8["Day"], r8["Month"], r8["Time"])
  {
    var t := Restrict(r8, GameLogCols);
    var g := GameCells(r0, r8["Day"], r8["Month"], r8["Time"]);
    GameKeys(r0, r8);
    assert t.Keys == g.Keys;
  }

  /** Cut down to the game-log columns, a row holding all of them keeps exactly those. */
  lemma GameKeys(r0: Row, r8: Row)
    requires "Day" in r8 && "Month" in r8 && "Time" in r8
    requires "Season" in r8 && "Tm" in r8 && "Opp" in r8 && "D/N" in r8 && "Attendance" in r8
    ensures Restrict(r8, GameLogCols).Keys == GameCells(r0, r8["Day"], r8["Month"], r8["Time"]).Keys
  {
    GameLabels();
  }

  /** One row through the eight column assignments, step by step, agrees with `GameRow`. */
  lemma RowChain(r0: Row, r1: Row, r2: Row, r3: Row, r4: Row, r5: Row, r6: Row, r7: Row, r8: Row,
                 monthStep: Cell -> Result<Cell>)
    requires "R" in r0 && "RA" in r0
    requires r1 == r0["R_tot" := RunsTotal(r0["R"], r0["RA"])]
    requires "R" in r1 && "RA" in r1 && r2 == r1["R_diff" := RunDiff(r1["R"], r1["RA"])]
    requires "Date" in r2 && DatePart(r2["Date"]).Ok? && r3 == r2["Date_split" := DatePart(r2["Date"]).value]
    requires DayField(r3["Date_split"]).Ok? && r4 == r3["Day" := DayField(r3["Date_split"]).value]
    requires PadDay(r4["Day"]).Ok? && r5 == r4["Day" := PadDay(r4["Day"]).value]
    requires "Date_split" in r5 && MonthField(r5["Date_split"]).Ok? && r6 == r5["Month" := MonthField(r5["Date_split"]).value]
    requires monthStep(r6["Month"]).Ok? && r7 == r6["Month" := monthStep(r6["Month"]).value]
    requires "Time" in r7 && TimeMinutes(r7["Time"]).Ok? && r8 == r7["Time" := TimeMinutes(r7["Time"]).value]
    requires "Season" in r8 && "Tm" in r8 && "Opp" in r8 && "D/N" in r8 && "Attendance" in r8
    ensures GameRow(r0, monthStep) == Ok(Restrict(r8, GameLogCols))
  {
    var ds := DatePart(r0["Date"]).value;
    assert r3["Date_split"] == ds && r5["Date_split"] == ds;
    var day := DayField(ds).value;
    assert r4["Day"] == day;
    var padded := PadDay(day).value;
    assert r8["Day"] == padded && DayOf(ds) == Ok(padded);
    var mon := MonthField(ds).value;
    assert r6["Month"] == mon;
    var month := monthStep(mon).value;
    assert r8["Month"] == month && MonthOf(ds, monthStep) == Ok(month);
    assert r7["Time"] == r0["Time"];
    var time := TimeMinutes(r0["Time"]).value;
    assert r8["Time"] == time;
    RestrictGame(r0, r8);
  }

  /** Row `i` of one `Apply` step. */
  lemma ApplyRow(f: Frame, g: Frame, src: string, dst: string, fn: Cell -> Result<Cell>, i: int)
    requires f.Valid() && Apply(f, src, dst, fn) == Ok(g) && 0 <= i < |f.rows|
    ensures g.Valid() && i < |g.rows| && src in f.rows[i] && fn(f.rows[i][src]).Ok?
    ensures g.rows[i] == f.rows[i][dst := fn(f.rows[i][src]).value]
  {
    assert f.rows[i].Keys == Labels(f.index + f.cols);
  }

  /** Row `i` of one `Combine` step. */
  lemma CombineRow(f: Frame, g: Frame, a: string, b: string, dst: string, fn: (Cell, Cell) -> Cell, i: int)
    requires f.Valid() && Combine(f, a, b, dst, fn) == Ok(g) && 0 <= i < |f.rows|
    ensures g.Valid() && i < |g.rows| && a in f.rows[i] && b in f.rows[i]
    ensures g.rows[i] == f.rows[i][dst := fn(f.rows[i][a], f.rows[i][b])]
  {
    assert f.rows[i].Keys == Labels(f.index + f.cols);
  }

  /** Row `i` of the final projection onto the game-log columns. */
  lemma ProjectRow(f: Frame, g: Frame, i: int)
    requires f.Valid() && f.index == [] && Project(f, GameLogCols) == Ok(g) && 0 <= i < |f.rows|
    ensures i < |g.rows| && g.rows[i] == Restrict(f.rows[i], GameLogCols)
    ensures "Season" in f.rows[i] && "Tm" in f.rows[i] && "Opp" in f.rows[i] && "D/N" in f.rows[i] && "Attendance" in f.rows[i]
  {
    assert [] + GameLogCols == GameLogCols;
    ProjectHas(f, g, i);
  }

  /** Every game-log column is a cell of each row the projection reads. */
  lemma ProjectHas(f: Frame, g: Frame, i: int)
    requires f.Valid() && f.index == [] && Project(f, GameLogCols) == Ok(g) && 0 <= i < |f.rows|
    ensures "Season" in f.rows[i] && "Tm" in f.rows[i] && "Opp" in f.rows[i] && "D/N" in f.rows[i] && "Attendance" in f.rows[i]
  {
    assert f.rows[i].Keys == Labels(f.index + f.cols);
    assert "Season" in GameLogCols && "Tm" in GameLogCols && "Opp" in GameLogCols;
    assert "D/N" in GameLogCols && "Attendance" in GameLogCols;
  }

  /**
   * Column by column, the derivation makes each schedule row into what
   * `GameRow` makes of it on its own: the two agree on every row.
   */
  lemma DeriveByRow(gl: Frame, monthStep: Cell -> Result<Cell>)
    requires gl.Valid() && gl.index == [] && Derive(gl, monthStep).Ok?
    ensures forall i :: 0 <= i < |gl.rows| ==> GameRow(gl.rows[i], monthStep) == Ok(Derive(gl, monthStep).value.rows[i])
  {
    var g1 := Combine(gl, "R", "RA", "R_tot", RunsTotal).value;
    var g2 := Combine(g1, "R", "RA", "R_diff", RunDiff).value;
    var g3 := Apply(g2, "Date", "Date_split", DatePart).value;
    var g4 := Apply(g3, "Date_split", "Day", DayField).value;
    var g5 := Apply(g4, "Day", "Day", PadDay).value;
    var g6 := Apply(g5, "Date_split", "Month", MonthField).value;
    var g7 := Apply(g6, "Month", "Month", monthStep).value;
    var g8 := Apply(g7, "Time", "Time", TimeMinutes).value;
    var out := Project(g8, GameLogCols).value;
    assert out == Derive(gl, monthStep).value;
    forall i | 0 <= i < |gl.rows| ensures GameRow(gl.rows[i], monthStep) == Ok(out.rows[i]) {
      CombineRow(gl, g1, "R", "RA", "R_tot", RunsTotal, i);
      CombineRow(g1, g2, "R", "RA", "R_diff", RunDiff, i);
      ApplyRow(g2, g3, "Date", "Date_split", DatePart, i);
      ApplyRow(g3, g4, "Date_split", "Day", DayField, i);
      ApplyRow(g4, g5, "Day", "Day", PadDay, i);
      ApplyRow(g5, g6, "Date_split", "Month", MonthField, i);
      ApplyRow(g6, g7, "Month", "Month", monthStep, i);
      ApplyRow(g7, g8, "Time", "Time", TimeMinutes, i);
      ProjectRow(g8, out, i);
      RowChain(gl.rows[i], g1.rows[i], g2.rows[i], g3.rows[i], g4.rows[i], g5.rows[i], g6.rows[i], g7.rows[i], g8.rows[i], monthStep);
    }
  }

  /**
   * A schedule provider: the frame `schedule_and_record(year, team)` would
   * fetch, for every year and team, indexed by position.
   */
  ghost predicate Provider(schedule: (int, Cell) -> Frame) {
    forall y, t :: schedule(y, t).Valid() && schedule(y, t).index == []
  }

  /**
   * One year of the loop: the year's group of the Lahman team table, every
   * team's schedule for that year stacked in the group's order, and the year
   * stamped in a `Season` column. A year the table does not have raises
   * KeyError.
   */
  function YearSlice(teamsCore: Frame, schedule: (int, Cell) -> Frame, year: int): (r: Result<Frame>)
    requires teamsCore.Valid() && Provider(schedule)
    ensures r.Ok? ==> r.value.Valid() && r.value.index == [] && "Season" in r.value.cols && Stamped(r.value, Int(year))
  {
    var group :- GetGroup(teamsCore, "yearID", Int(year));
    var teams :- ColumnValues(group, "teamIDBR");
    var temp :- Concat(Schedules(schedule, year, teams), false);
    var stamped :- Stamp(temp, "Season", Int(year));
    StampSeason(temp, year, stamped);
    Ok(stamped)
  }

  /** Stamping the season column on an unindexed frame gives a frame stamped with that season. */
  lemma StampSeason(temp: Frame, year: int, stamped: Frame)
    requires temp.Valid() && temp.index == [] && Stamp(temp, "Season", Int(year)) == Ok(stamped)
    ensures stamped.Valid() && stamped.index == [] && "Season" in stamped.cols && Stamped(stamped, Int(year))
  {
  }

  /** `[schedule_and_record(year, team) for team in teams]`. */
  function Schedules(schedule: (int, Cell) -> Frame, year: int, teams: seq<Cell>): (fs: seq<Frame>)
    requires Provider(schedule)
    ensures |fs| == |teams| && AllValid(fs) && forall i :: 0 <= i < |fs| ==> fs[i].index == []
    ensures forall i :: 0 <= i < |teams| ==> fs[i] == schedule(year, teams[i])
  {
    seq(|teams|, i requires 0 <= i < |teams| => schedule(year, teams[i]))
  }

  /** How many years `range(start, end + 1)` runs through. */
  function YearCount(start: int, end: int): nat {
    if end < start then 0 else end - start + 1
  }

  /** What every year's slice is known to satisfy: valid, and each of its rows stamped with that year. */
  ghost predicate SeasonSlices(slice: int -> Result<Frame>) {
    forall y :: slice(y).Ok? ==>
      slice(y).value.Valid() && slice(y).value.index == [] && "Season" in slice(y).value.cols && Stamped(slice(y).value, Int(y))
  }

  /**
   * The loop from `year` on, with the frames `acc` already appended, up to
   * `end`: every further year's slice, or the error of the first year that
   * fails, after which no later year is tried.
   */
  function YearsFrom(slice: int -> Result<Frame>, acc: seq<Frame>, year: int, end: int): (r: Result<seq<Frame>>)
    requires SeasonSlices(slice) && AllValid(acc) && SeasonsFrom(acc, year - |acc|)
    ensures r.Ok? ==> |r.value| == |acc| + YearCount(year, end)
    ensures r.Ok? ==> AllValid(r.value) && SeasonsFrom(r.value, year - |acc|)
    decreases end - year
  {
    if year > end then Ok(acc)
    else
      var next :- slice(year);
      SeasonsAppend(acc, next, year - |acc|);
      YearsFrom(slice, acc + [next], year + 1, end)
  }

  /** The year slices of a teams table and a schedule provider. */
  function Seasons(teamsCore: Frame, schedule: (int, Cell) -> Frame): (slice: int -> Result<Frame>)
    requires teamsCore.Valid() && Provider(schedule)
    ensures SeasonSlices(slice)
    ensures forall y :: slice(y) == YearSlice(teamsCore, schedule, y)
  {
    y => YearSlice(teamsCore, schedule, y)
  }

  /** Slice `k` of `fs` holds the games of season `start + k`, each row stamped with it. */
  predicate SeasonsFrom(fs: seq<Frame>, start: int) {
    forall k :: 0 <= k < |fs| ==> fs[k].index == [] && "Season" in fs[k].cols && Stamped(fs[k], Int(start + k))
  }

  predicate Stamped(f: Frame, season: Cell) {
    forall j :: 0 <= j < |f.rows| ==> "Season" in f.rows[j] && f.rows[j]["Season"] == season
  }

  lemma SeasonsAppend(fs: seq<Frame>, last: Frame, start: int)
    requires AllValid(fs) && SeasonsFrom(fs, start) && last.Valid() && last.index == []
    requires "Season" in last.cols && Stamped(last, Int(start + |fs|))
    ensures AllValid(fs + [last]) && SeasonsFrom(fs + [last], start)
  {
    var all := fs + [last];
    assert forall k :: 0 <= k < |fs| ==> all[k] == fs[k];
    assert all[|fs|] == last;
  }

  /**
   * `gameLogs(start_year, end_year)` with the month column derived by `monthStep`:
   * every year's slice stacked in year order, then the derived columns.
   */
  function GameLogsOf(teamsCore: Frame, schedule: (int, Cell) -> Frame, start: int, end: int,
                      monthStep: Cell -> Result<Cell>): Result<Frame>
    requires teamsCore.Valid() && Provider(schedule)
  {
    var years :- YearsFrom(Seasons(teamsCore, schedule), [], start, end);
    var gl :- Concat(years, false);
    Derive(gl, monthStep)
  }

  /** The loop over `range(startYear, endYear + 1)`, appending each year's slice to `years`. */
  method CollectYears(teamsCore: Frame, schedule: (int, Cell) -> Frame, startYear: int, endYear: int)
    returns (r: Result<seq<Frame>>)
    requires teamsCore.Valid() && Provider(schedule)
    ensures r == YearsFrom(Seasons(teamsCore, schedule), [], startYear, endYear)
  {
    var years: seq<Frame> := [];
    var year := startYear;
    while year <= endYear
      invariant AllValid(years) && SeasonsFrom(years, startYear) && year - |years| == startYear
      invariant YearsFrom(Seasons(teamsCore, schedule), years, year, endYear) == YearsFrom(Seasons(teamsCore, schedule), [], startYear, endYear)
      decreases endYear - year
    {
      var temp := YearSlice(teamsCore, schedule, year);
      if temp.Err? {
        return Err(temp.error);
      }
      SeasonsAppend(years, temp.value, startYear);
      years := years + [temp.value];
      year := year + 1;
    }
    return Ok(years);
  }

  /**
   * The game logs, built as the source builds them: the loop over the
   * years, one concatenation, then the column assignments one after another.
   */
  method GameLogs(teamsCore: Frame, schedule: (int, Cell) -> Frame, startYear: int, endYear: int) returns (r: Result<Frame>)
    requires teamsCore.Valid() && Provider(schedule)
    ensures r == GameLogsOf(teamsCore, schedule, startYear, endYear, MonthNumber)
  {
    var years :- CollectYears(teamsCore, schedule, startYear, endYear);
    var gl :- Concat(years, false);
    gl :- Combine(gl, "R", "RA", "R_tot", RunsTotal);
    gl :- Combine(gl, "R", "RA", "R_diff", RunDiff);
    gl :- Apply(gl, "Date", "Date_split", DatePart);
    gl :- Apply(gl, "Date_split", "Day", DayField);
    gl :- Apply(gl, "Day", "Day", PadDay);
    gl :- Apply(gl, "Date_split", "Month", MonthField);
    gl :- Apply(gl, "Month", "Month", MonthNumber);
    gl :- Apply(gl, "Time", "Time", TimeMinutes);
    r := Project(gl, GameLogCols);
  }

  /** With no year in the range, `pd.concat([])` raises: there are no game logs to build. */
  lemma EmptyRange(teamsCore: Frame, schedule: (int, Cell) -> Frame, start: int, end: int, monthStep: Cell -> Result<Cell>)
    requires teamsCore.Valid() && Provider(schedule) && end < start
    ensures GameLogsOf(teamsCore, schedule, start, end, monthStep) == Err(NoObjectsToConcatenate)
  {
  }

  /** The derivation keeps each schedule row's season, row for row. */
  lemma DeriveKeepsSeason(gl: Frame, monthStep: Cell -> Result<Cell>)
    requires gl.Valid() && gl.index == [] && Derive(gl, monthStep).Ok?
    ensures |Derive(gl, monthStep).value.rows| == |gl.rows|
    ensures forall i :: 0 <= i < |gl.rows| ==>
              "Season" in Derive(gl, monthStep).value.rows[i] && Derive(gl, monthStep).value.rows[i]["Season"] == Get(gl.rows[i], "Season")
  {
    var out := Derive(gl, monthStep).value;
    DeriveByRow(gl, monthStep);
    forall i | 0 <= i < |gl.rows| ensures "Season" in out.rows[i] && out.rows[i]["Season"] == Get(gl.rows[i], "Season") {
      GameRowSeason(gl.rows[i], monthStep, out.rows[i]);
    }
  }

  lemma GameRowSeason(row: Row, monthStep: Cell -> Result<Cell>, out: Row)
    requires GameRow(row, monthStep) == Ok(out)
    ensures "Season" in out && out["Season"] == Get(row, "Season")
  {
  }

  /** Row `p` of `rows` holds the season of the slice of `years` that row `p` of their stack comes from. */
  predicate SeasonRows(rows: seq<Row>, years: seq<Frame>, start: int) {
    |rows| == TotalRows(years) &&
    forall p :: 0 <= p < |rows| ==> "Season" in rows[p] && rows[p]["Season"] == Int(start + Origin(years, p).0)
  }

  /** Slice `k` puts season `start + k` on every row it supplies to the stack. */
  lemma FlattenSeasons(years: seq<Frame>, start: int)
    requires AllValid(years) && SeasonsFrom(years, start)
    ensures SeasonRows(Flatten(years), years, start)
  {
    forall p | 0 <= p < TotalRows(years)
      ensures "Season" in Flatten(years)[p] && Flatten(years)[p]["Season"] == Int(start + Origin(years, p).0)
    {
      var o := Origin(years, p);
      assert Stamped(years[o.0], Int(start + o.0));
    }
  }

  /** Rows that agree with `flat` on the season carry the same seasons. */
  lemma SameSeasons(rows: seq<Row>, flat: seq<Row>, years: seq<Frame>, start: int)
    requires SeasonRows(flat, years, start) && |rows| == |flat|
    requires forall p :: 0 <= p < |flat| ==> "Season" in flat[p] && "Season" in rows[p] && rows[p]["Season"] == flat[p]["Season"]
    ensures SeasonRows(rows, years, start)
  {
  }

  /** Stacked, the year slices put season `start + k` on every row that slice `k` supplies. */
  lemma ConcatSeasons(years: seq<Frame>, start: int, gl: Frame)
    requires years != [] && AllValid(years) && Concat(years, false) == Ok(gl)
    requires forall k :: 0 <= k < |years| ==> years[k].index == [] && "Season" in years[k].cols
    requires SeasonRows(Flatten(years), years, start)
    ensures gl.index == [] && SeasonRows(gl.rows, years, start)
  {
    assert years[0].index == [];
    ConcatKeepsCell(years, false, "Season", gl);
    SameSeasons(gl.rows, Flatten(years), years, start);
  }

  /** The derivation carries the stacked rows' seasons over, row for row. */
  lemma DerivedSeasons(years: seq<Frame>, start: int, gl: Frame, monthStep: Cell -> Result<Cell>, out: Frame)
    requires gl.Valid() && gl.index == [] && SeasonRows(gl.rows, years, start)
    requires Derive(gl, monthStep) == Ok(out)
    ensures SeasonRows(out.rows, years, start)
  {
    DeriveKeepsSeason(gl, monthStep);
  }

  /**
   * Every game-log row carries a season of the requested range, and the
   * rows come season by season: all of one year before any of the next.
   */
  lemma GameLogSeasons(teamsCore: Frame, schedule: (int, Cell) -> Frame, start: int, end: int, monthStep: Cell -> Result<Cell>)
    requires teamsCore.Valid() && Provider(schedule)
    requires GameLogsOf(teamsCore, schedule, start, end, monthStep).Ok?
    ensures var out := GameLogsOf(teamsCore, schedule, start, end, monthStep).value;
            forall i :: 0 <= i < |out.rows| ==>
              "Season" in out.rows[i] && out.rows[i]["Season"].Int? && start <= out.rows[i]["Season"].i <= end
    ensures var out := GameLogsOf(teamsCore, schedule, start, end, monthStep).value;
            forall i, j :: 0 <= i <= j < |out.rows| ==>
              "Season" in out.rows[i] && "Season" in out.rows[j] && out.rows[i]["Season"].Int? && out.rows[j]["Season"].Int? &&
              out.rows[i]["Season"].i <= out.rows[j]["Season"].i
  {
    var years := YearsFrom(Seasons(teamsCore, schedule), [], start, end).value;
    assert |years| == YearCount(start, end);
    var gl := Concat(years, false).value;
    var out := Derive(gl, monthStep).value;
    assert out == GameLogsOf(teamsCore, schedule, start, end, monthStep).value;
    FlattenSeasons(years, start);
    ConcatSeasons(years, start, gl);
    DerivedSeasons(years, start, gl, monthStep, out);
    SeasonBounds(out.rows, years, start, end);
  }

  /** Rows carrying their slices' seasons carry seasons from `start` to `end`, in order. */
  lemma SeasonBounds(rows: seq<Row>, years: seq<Frame>, start: int, end: int)
    requires SeasonRows(rows, years, start) && |years| == YearCount(start, end)
    ensures forall i :: 0 <= i < |rows| ==> "Season" in rows[i] && rows[i]["Season"].Int? && start <= rows[i]["Season"].i <= end
    ensures forall i, j :: 0 <= i <= j < |rows| ==>
              "Season" in rows[i] && "Season" in rows[j] && rows[i]["Season"].Int? && rows[j]["Season"].Int? &&
              rows[i]["Season"].i <= rows[j]["Season"].i
  {
    forall i, j | 0 <= i <= j < |rows| ensures Origin(years, i).0 <= Origin(years, j).0 {
      OriginOrdered(years, i, j);
    }
  }

  /** The month field of a schedule row: piece 1 of its date text after the weekday, split on spaces. */
  function MonthText(row: Row): Result<Cell> {
    var ds :- DatePart(Get(row, "Date"));
    MonthField(ds)
  }

  /** After the first six steps, row `i` holds the month field of schedule row `i` under `Month`. */
  lemma DateStepsMonth(gl: Frame, g6: Frame, i: int)
    requires gl.Valid() && DateSteps(gl) == Ok(g6) && 0 <= i < |gl.rows|
    ensures "Month" in g6.cols && "Month" !in g6.index && i < |g6.rows| && "Month" in g6.rows[i]
    ensures g6.rows[i]["Month"].Str? && MonthText(gl.rows[i]) == Ok(g6.rows[i]["Month"])
  {
    var g1 := Combine(gl, "R", "RA", "R_tot", RunsTotal).value;
    var g2 := Combine(g1, "R", "RA", "R_diff", RunDiff).value;
    var g3 := Apply(g2, "Date", "Date_split", DatePart).value;
    var g4 := Apply(g3, "Date_split", "Day", DayField).value;
    var g5 := Apply(g4, "Day", "Day", PadDay).value;
    CombineRow(gl, g1, "R", "RA", "R_tot", RunsTotal, i);
    CombineRow(g1, g2, "R", "RA", "R_diff", RunDiff, i);
    ApplyRow(g2, g3, "Date", "Date_split", DatePart, i);
    ApplyRow(g3, g4, "Date_split", "Day", DayField, i);
    ApplyRow(g4, g5, "Day", "Day", PadDay, i);
    ApplyRow(g5, g6, "Date_split", "Month", MonthField, i);
    MonthChain(gl.rows[i], g1.rows[i], g2.rows[i], g3.rows[i], g4.rows[i], g5.rows[i], g6.rows[i]);
  }

  /** One row through the first six column assignments ends with its month field under `Month`. */
  lemma MonthChain(r0: Row, r1: Row, r2: Row, r3: Row, r4: Row, r5: Row, r6: Row)
    requires "R" in r0 && "RA" in r0 && r1 == r0["R_tot" := RunsTotal(r0["R"], r0["RA"])]
    requires "R" in r1 && "RA" in r1 && r2 == r1["R_diff" := RunDiff(r1["R"], r1["RA"])]
    requires "Date" in r2 && DatePart(r2["Date"]).Ok? && r3 == r2["Date_split" := DatePart(r2["Date"]).value]
    requires DayField(r3["Date_split"]).Ok? && r4 == r3["Day" := DayField(r3["Date_split"]).value]
    requires PadDay(r4["Day"]).Ok? && r5 == r4["Day" := PadDay(r4["Day"]).value]
    requires "Date_split" in r5 && MonthField(r5["Date_split"]).Ok? && r6 == r5["Month" := MonthField(r5["Date_split"]).value]
    ensures "Month" in r6 && r6["Month"].Str? && MonthText(r0) == Ok(r6["Month"])
  {
    assert Get(r0, "Date") == r2["Date"];
    assert r5["Date_split"] == r3["Date_split"];
  }

  /**
   * The month step touches only the month column, which the later steps do
   * not read: when one step lets the rest go through, so does any other
   * step that succeeds on every month cell.
   */
  lemma MonthStepSwap(g6: Frame, a: Cell -> Result<Cell>, b: Cell -> Result<Cell>)
    requires g6.Valid() && MonthTime(g6, a).Ok? && Apply(g6, "Month", "Month", b).Ok?
    ensures MonthTime(g6, b).Ok?
  {
    var g7a := Apply(g6, "Month", "Month", a).value;
    var g7b := Apply(g6, "Month", "Month", b).value;
    assert g7a.cols == g7b.cols && |g7a.rows| == |g7b.rows|;
    forall i | 0 <= i < |g7b.rows| ensures "Time" in g7b.rows[i] && TimeMinutes(g7b.rows[i]["Time"]).Ok? {
      ApplyRow(g7a, Apply(g7a, "Time", "Time", TimeMinutes).value, "Time", "Time", TimeMinutes, i);
      assert g7b.rows[i]["Time"] == g7a.rows[i]["Time"];
    }
    var g8a := Apply(g7a, "Time", "Time", TimeMinutes).value;
    var g8b := Apply(g7b, "Time", "Time", TimeMinutes).value;
    assert g8a.cols == g8b.cols;
  }

  /** What `GameRow` makes of a row with `dict` as the month step: an empty month field, and `{}` in `Month`. */
  lemma GameRowDict(row: Row, out: Row)
    requires GameRow(row, DictCall) == Ok(out)
    ensures MonthText(row) == Ok(Str("")) && Get(out, "Month") == EmptyDict
  {
    var ds := DatePart(Get(row, "Date")).value;
    var padded := DayOf(ds).value;
    var month := MonthOf(ds, DictCall).value;
    var time := TimeMinutes(Get(row, "Time")).value;
    assert out == GameCells(row, padded, month, time);
    GameCellsMonth(row, padded, month, time);
  }

  /**
   * As written, the derivation goes through only when the month field of
   * every schedule row is the empty string, and then every `Month` cell is
   * the empty dictionary.
   */
  lemma DictCallOnlyEmpty(gl: Frame)
    requires gl.Valid() && gl.index == [] && Derive(gl, DictCall).Ok?
    ensures forall i :: 0 <= i < |gl.rows| ==> MonthText(gl.rows[i]) == Ok(Str(""))
    ensures forall i :: 0 <= i < |gl.rows| ==> Get(Derive(gl, DictCall).value.rows[i], "Month") == EmptyDict
  {
    var out := Derive(gl, DictCall).value;
    DeriveByRow(gl, DictCall);
    forall i | 0 <= i < |gl.rows| ensures MonthText(gl.rows[i]) == Ok(Str("")) && Get(out.rows[i], "Month") == EmptyDict {
      GameRowDict(gl.rows[i], out.rows[i]);
    }
  }

  /** After the first six steps, every row holds its schedule row's month field under `Month`. */
  lemma MonthTexts(gl: Frame, g6: Frame)
    requires gl.Valid() && DateSteps(gl) == Ok(g6)
    ensures "Month" in g6.cols && "Month" !in g6.index && |g6.rows| == |gl.rows|
    ensures forall i :: 0 <= i < |g6.rows| ==>
              "Month" in g6.rows[i] && g6.rows[i]["Month"].Str? && MonthText(gl.rows[i]) == Ok(g6.rows[i]["Month"])
  {
    forall i | 0 <= i < |g6.rows|
      ensures "Month" in g6.rows[i] && g6.rows[i]["Month"].Str? && MonthText(gl.rows[i]) == Ok(g6.rows[i]["Month"])
    {
      DateStepsMonth(gl, g6, i);
    }
  }

  /** With an empty string in every month cell, `dict` succeeds on the month column and the rest goes through as before. */
  lemma EmptyMonthsOk(g6: Frame)
    requires g6.Valid() && MonthTime(g6, MonthNumber).Ok? && "Month" in g6.cols && "Month" !in g6.index
    requires forall i :: 0 <= i < |g6.rows| ==> "Month" in g6.rows[i] && g6.rows[i]["Month"] == Str("")
    ensures MonthTime(g6, DictCall).Ok?
  {
    assert Apply(g6, "Month", "Month", DictCall).Ok?;
    MonthStepSwap(g6, MonthNumber, DictCall);
  }

  /** Conversely, where the corrected derivation goes through and every month field is empty, so does the one as written. */
  lemma DictCallEmptyOk(gl: Frame)
    requires gl.Valid() && Derive(gl, MonthNumber).Ok?
    requires forall i :: 0 <= i < |gl.rows| ==> MonthText(gl.rows[i]) == Ok(Str(""))
    ensures Derive(gl, DictCall).Ok?
  {
    var g6 := DateSteps(gl).value;
    MonthTexts(gl, g6);
    forall i | 0 <= i < |g6.rows| ensures "Month" in g6.rows[i] && g6.rows[i]["Month"] == Str("") {
      assert MonthText(gl.rows[i]) == Ok(g6.rows[i]["Month"]);
    }
    EmptyMonthsOk(g6);
  }

  /** `dict` on the month column raises the ValueError of the first month cell that is not empty. */
  lemma FirstNotPairs(g6: Frame, i: int, s: string)
    requires g6.Valid() && "Month" in g6.cols && "Month" !in g6.index && 0 <= i < |g6.rows| && s != ""
    requires forall j :: 0 <= j < |g6.rows| ==> "Month" in g6.rows[j]
    requires g6.rows[i]["Month"] == Str(s) && forall j :: 0 <= j < i ==> g6.rows[j]["Month"] == Str("")
    ensures MonthTime(g6, DictCall) == Err(NotPairs(s))
  {
    var g7 := Apply(g6, "Month", "Month", DictCall);
    assert DictCall(g6.rows[i]["Month"]).Err?;
    ApplyError(g6, "Month", "Month", DictCall);
    var k :| 0 <= k < |g6.rows| && DictCall(g6.rows[k]["Month"]).Err? && g7.error == DictCall(g6.rows[k]["Month"]).error &&
             forall j :: 0 <= j < k ==> DictCall(g6.rows[j]["Month"]).Ok?;
    assert k == i;
  }

  /**
   * Where the corrected derivation goes through, the one as written raises
   * ValueError at the first schedule row whose month field is not empty,
   * with that field's text.
   */
  lemma DictCallFirstError(gl: Frame, i: int)
    requires gl.Valid() && Derive(gl, MonthNumber).Ok? && 0 <= i < |gl.rows|
    requires MonthText(gl.rows[i]) != Ok(Str(""))
    requires forall j :: 0 <= j < i ==> MonthText(gl.rows[j]) == Ok(Str(""))
    ensures MonthText(gl.rows[i]).Ok? && MonthText(gl.rows[i]).value.Str? && MonthText(gl.rows[i]).value.s != ""
    ensures Derive(gl, DictCall) == Err(NotPairs(MonthText(gl.rows[i]).value.s))
  {
    var g6 := DateSteps(gl).value;
    MonthTexts(gl, g6);
    FirstNotPairs(g6, i, MonthText(gl.rows[i]).value.s);
  }

  /** Where the corrected derivation goes through, any non-empty month field makes the one as written raise ValueError. */
  lemma DictCallRaises(gl: Frame, i: int)
    requires gl.Valid() && Derive(gl, MonthNumber).Ok? && 0 <= i < |gl.rows|
    requires MonthText(gl.rows[i]) != Ok(Str(""))
    ensures Derive(gl, DictCall).Err? && Derive(gl, DictCall).error.NotPairs?
    decreases i
  {
    if j :| 0 <= j < i && MonthText(gl.rows[j]) != Ok(Str("")) {
      DictCallRaises(gl, j);
    } else {
      DictCallFirstError(gl, i);
    }
  }

  /** A row whose corrected month is not NaN has a month field that is not empty. */
  lemma GameRowMonthText(row: Row, out: Row)
    requires GameRow(row, MonthNumber) == Ok(out) && Get(out, "Month") != Null
    ensures MonthText(row) != Ok(Str(""))
  {
    var ds := DatePart(Get(row, "Date")).value;
    var padded := DayOf(ds).value;
    var month := MonthOf(ds, MonthNumber).value;
    var time := TimeMinutes(Get(row, "Time")).value;
    assert out == GameCells(row, padded, month, time);
    GameCellsMonth(row, padded, month, time);
    if MonthText(row) == Ok(Str("")) {
      assert MonthField(ds) == Ok(Str(""));
      NoEmptyMonth();
    }
  }

  /** The month table has no entry for the empty string. */
  lemma NoEmptyMonth()
    ensures MonthNumber(Str("")) == Ok(Null)
  {
    assert "" !in Month;
    MonthNumberCell(Str(""));
  }

  /**
   * As written, the month step maps with the builtin `dict`: the game logs
   * come out only with the empty dictionary in every `Month` cell, and as
   * soon as the corrected game logs show a month anywhere, the code as
   * written raises ValueError instead.
   */
  lemma MonthAsWrittenFails(teamsCore: Frame, schedule: (int, Cell) -> Frame, start: int, end: int)
    requires teamsCore.Valid() && Provider(schedule)
    ensures var aw := GameLogsOf(teamsCore, schedule, start, end, DictCall);
            aw.Ok? ==> forall i :: 0 <= i < |aw.value.rows| ==> Get(aw.value.rows[i], "Month") == EmptyDict
    ensures var fixed := GameLogsOf(teamsCore, schedule, start, end, MonthNumber);
            fixed.Ok? && (exists i :: 0 <= i < |fixed.value.rows| && Get(fixed.value.rows[i], "Month") != Null) ==>
              var aw := GameLogsOf(teamsCore, schedule, start, end, DictCall);
              aw.Err? && aw.error.NotPairs?
  {
    var ys := YearsFrom(Seasons(teamsCore, schedule), [], start, end);
    if ys.Ok? && ys.value != [] {
      var gl := Concat(ys.value, false).value;
      assert ys.value[0].index == [];
      assert gl.index == [];
      if Derive(gl, DictCall).Ok? {
        DictCallOnlyEmpty(gl);
      }
      var fixed := Derive(gl, MonthNumber);
      if fixed.Ok? && exists i :: 0 <= i < |fixed.value.rows| && Get(fixed.value.rows[i], "Month") != Null {
        var i :| 0 <= i < |fixed.value.rows| && Get(fixed.value.rows[i], "Month") != Null;
        DeriveByRow(gl, MonthNumber);
        GameRowMonthText(gl.rows[i], fixed.value.rows[i]);
        DictCallRaises(gl, i);
      }
    }
  }

  /** A month cell of the game logs: NaN, or the two digits of a month from March to October. */
  predicate MonthCell(c: Cell) {
    c == Null || (c.Str? && |c.s| == 2 && IsDigits(c.s) && 3 <= DigitsValue(c.s) <= 10)
  }

  /** The month lookup gives a month number for an abbreviation of the table and NaN for anything else. */
  lemma MonthNumberCell(c: Cell)
    ensures MonthNumber(c).Ok? && MonthCell(MonthNumber(c).value)
    ensures c.Str? && c.s in Month ==> MonthNumber(c) == Ok(Str(Month[c.s]))
    ensures !(c.Str? && c.s in Month) ==> MonthNumber(c) == Ok(Null)
  {
    MonthNumbers();
  }

  lemma GameRowMonth(row: Row, out: Row)
    requires GameRow(row, MonthNumber) == Ok(out)
    ensures "Month" in out && MonthCell(out["Month"])
  {
    var ds := DatePart(Get(row, "Date"));
    var padded := DayOf(ds.value);
    var month := MonthOf(ds.value, MonthNumber);
    var time := TimeMinutes(Get(row, "Time"));
    assert ds.Ok? && padded.Ok? && month.Ok? && time.Ok?;
    assert out == GameCells(row, padded.value, month.value, time.value);
    GameCellsMonth(row, padded.value, month.value, time.value);
    MonthOfCell(ds.value);
  }

  lemma GameCellsMonth(row: Row, day: Cell, month: Cell, time: Cell)
    ensures "Month" in GameCells(row, day, month, time) && GameCells(row, day, month, time)["Month"] == month
  {
  }

  lemma MonthOfCell(ds: Cell)
    ensures MonthOf(ds, MonthNumber).Ok? ==> MonthCell(MonthOf(ds, MonthNumber).value)
  {
    var mon := MonthField(ds);
    if mon.Ok? {
      MonthNumberCell(mon.value);
    }
  }

  /** With the month table as the month step, every game-log month is NaN or a month number 03 to 10. */
  lemma DerivedMonths(gl: Frame, out: Frame)
    requires gl.Valid() && gl.index == [] && Derive(gl, MonthNumber) == Ok(out)
    ensures forall i :: 0 <= i < |out.rows| ==> "Month" in out.rows[i] && MonthCell(out.rows[i]["Month"])
  {
    DeriveByRow(gl, MonthNumber);
    forall i | 0 <= i < |out.rows| ensures "Month" in out.rows[i] && MonthCell(out.rows[i]["Month"]) {
      GameRowMonth(gl.rows[i], out.rows[i]);
    }
  }
}
