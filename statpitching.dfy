/**
 * The Statcast fetches of `statPitching` in docs/dataimport.py. For each
 * season from `start_year` to `end_year` it asks for four pitcher tables
 * (exit velocity and barrels, expected statistics, the average-speed
 * arsenal, the average-spin arsenal) and left-joins them on the player id.
 * The joins and the tables themselves are not modelled: only which season
 * each table is asked for.
 */
module StatPitching {

  /** One Statcast request: the table and the season it is asked for. */
  datatype Request = ExitVelo(year: int) | Expected(year: int) | Arsenal(kind: string, year: int)

  /** The number of seasons in `range(start, end + 1)`. */
  function Seasons(start: int, end: int): nat {
    if start <= end then end - start + 1 else 0
  }

  /** As written: the average-speed arsenal is asked for the 2022 season whatever `year` is. */
  function SeasonCallsAsWritten(year: int): seq<Request> {
    [ExitVelo(year), Expected(year), Arsenal("avg_speed", 2022), Arsenal("avg_spin", year)]
  }

  /** As evidently intended: all four tables of a season are asked for that season. */
  function SeasonCalls(year: int): seq<Request> {
    [ExitVelo(year), Expected(year), Arsenal("avg_speed", year), Arsenal("avg_spin", year)]
  }

  /** The requests of the list comprehension, season by season, as written. */
  function CallsAsWritten(start: int, end: int): (r: seq<Request>)
    ensures |r| == 4 * Seasons(start, end)
    decreases end - start
  {
    if start > end then [] else SeasonCallsAsWritten(start) + CallsAsWritten(start + 1, end)
  }

  /** The requests of the list comprehension, season by season, as evidently intended. */
  function Calls(start: int, end: int): (r: seq<Request>)
    ensures |r| == 4 * Seasons(start, end)
    decreases end - start
  {
    if start > end then [] else SeasonCalls(start) + Calls(start + 1, end)
  }

  /** Request `4k + t` is table `t` of season `start + k`. */
  lemma {:induction false} CallsAt(start: int, end: int, k: int, t: int)
    requires 0 <= k < Seasons(start, end) && 0 <= t < 4
    ensures Calls(start, end)[4 * k + t] == SeasonCalls(start + k)[t]
    ensures CallsAsWritten(start, end)[4 * k + t] == SeasonCallsAsWritten(start + k)[t]
    decreases end - start
  {
    if k > 0 {
      CallsAt(start + 1, end, k - 1, t);
    }
  }

  /** Every request of the `k`-th season group is for season `start + k`, so all lie in the range. */
  lemma CallsInRange(start: int, end: int)
    ensures forall i :: 0 <= i < |Calls(start, end)| ==> Calls(start, end)[i].year == start + i / 4
    ensures forall i :: 0 <= i < |Calls(start, end)| ==> start <= Calls(start, end)[i].year <= end
  {
    var r := Calls(start, end);
    forall i | 0 <= i < |r| ensures r[i].year == start + i / 4 {
      CallsAt(start, end, i / 4, i % 4);
    }
  }

  /** As written, the average-speed arsenal of every season is the 2022 table. */
  lemma CallsAsWrittenStale(start: int, end: int, k: int)
    requires 0 <= k < Seasons(start, end)
    ensures CallsAsWritten(start, end)[4 * k + 2] == Arsenal("avg_speed", 2022)
  {
    CallsAt(start, end, k, 2);
  }

  /** For the 2021 season alone, the speed arsenal is asked for 2022: a season outside the range. */
  lemma StaleArsenal2021()
    ensures CallsAsWritten(2021, 2021)[2] == Arsenal("avg_speed", 2022)
    ensures Calls(2021, 2021)[2] == Arsenal("avg_speed", 2021)
  {
    CallsAt(2021, 2021, 0, 2);
  }
}
