/**
 * The constant tables of the import scripts: FanGraphs's team numbering,
 * the statistic columns fetched for hitters and pitchers, the biography
 * columns dropped, the month-abbreviation table and the division names.
 */
module Catalogs {
  import opened Frames
  import opened Text

  /** FanGraphs's team filter numbers and the club code each one selects. */
  const FgTeams: map<int, string> := map[
    1 := "LAA", 2 := "BAL", 3 := "BOS", 4 := "CHW", 5 := "CLE", 6 := "DET", 7 := "KCR",
    8 := "MIN", 9 := "NYY", 10 := "OAK", 11 := "SEA", 12 := "TBR", 13 := "TEX", 14 := "TOR",
    15 := "ARI", 16 := "ATL", 17 := "CHC", 18 := "CIN", 19 := "COL", 20 := "MIA", 21 := "HOU",
    22 := "LAD", 23 := "MIL", 24 := "WSN", 25 := "NYM", 26 := "PHI", 27 := "PIT", 28 := "STL",
    29 := "SDP", 30 := "SFG"]

  /** The statistic columns fetched for hitters, after the identity columns. */
  const HittingCols: seq<string> := [
    "AB", "PA", "H", "1B", "2B", "3B", "HR", "R", "RBI",
    "BB", "IBB", "SO", "HBP", "SF", "SH", "GDP", "SB", "CS", "AVG", "GB", "FB", "LD", "IFFB",
    "IFH", "BU", "BUH", "BB%", "K%", "BB/K", "OBP", "SLG", "OPS", "ISO", "BABIP", "GB/FB", "LD%",
    "GB%", "FB%", "IFFB%", "HR/FB", "IFH%", "BUH%", "wOBA", "wRAA", "wRC", "WAR", "Spd", "wRC+",
    "WPA", "-WPA", "+WPA", "pLI", "phLI", "PH", "WPA/LI", "Clutch", "O-Swing%", "Z-Swing%",
    "Swing%", "O-Contact%", "Z-Contact%", "Contact%", "Zone%", "SwStr%", "Pace", "wSB", "UBR",
    "Off", "wGDP", "Pull%", "Cent%", "Oppo%", "Soft%", "Med%", "Hard%", "TTO%", "EV", "LA", "Barrels",
    "Barrel%", "maxEV", "HardHit", "HardHit%", "CStr%", "xBA", "xSLG", "xwOBA"]

  /** The statistic columns fetched for pitchers, after the identity columns. */
  const PitchingCols: seq<string> := [
    "W", "L", "ERA", "CG", "ShO", "SV", "BS", "IP", "TBF", "H", "R", "ER", "HR",
    "BB", "IBB", "BK", "SO", "GB", "FB", "LD", "IFFB", "Balls", "Strikes", "Pitches", "RS",
    "IFH", "BU", "BUH", "K/9", "BB/9", "K/BB", "H/9", "HR/9", "AVG", "WHIP", "BABIP", "LOB%",
    "FIP", "GB/FB", "LD%", "GB%", "FB%", "IFFB%", "HR/FB", "IFH%", "BUH%", "WAR", "tERA", "xFIP",
    "WPA", "-WPA", "+WPA", "pLI", "inLI", "exLI", "Clutch", "FBv", "SLv", "CTv", "CBv", "CHv", "SFv",
    "O-Swing%", "Z-Swing%", "Swing%", "O-Contact%", "Z-Contact%", "Contact%", "Zone%", "F-Strike%",
    "SwStr%", "SD", "MD", "HLD", "ERA-", "FIP-", "xFIP-", "K%", "BB%", "SIERA", "RS/9", "E-F", "K-BB%",
    "Pull%", "Cent%", "Oppo%", "Soft%", "Med%", "Hard%", "kwERA", "FRM", "Barrel%", "HardHit%", "CStr%",
    "CSW%", "xERA"]

  /** The columns of the Lahman people table left out of a player's biography. */
  const DropBio: seq<string> := [
    "deathYear", "deathMonth", "deathDay", "deathCountry", "deathState", "deathCity",
    "nameFirst", "nameLast", "nameGiven", "debut", "finalGame", "retroID", "bbrefID"]

  /** The team number of a club code, read off its three letters; 0 for a code FanGraphs does not number. */
  function TeamNumber(code: string): int {
    if |code| != 3 then 0
    else
      match (code[0], code[1], code[2])
      case ('L', 'A', 'A') => 1
      case ('B', 'A', 'L') => 2
      case ('B', 'O', 'S') => 3
      case ('C', 'H', 'W') => 4
      case ('C', 'L', 'E') => 5
      case ('D', 'E', 'T') => 6
      case ('K', 'C', 'R') => 7
      case ('M', 'I', 'N') => 8
      case ('N', 'Y', 'Y') => 9
      case ('O', 'A', 'K') => 10
      case ('S', 'E', 'A') => 11
      case ('T', 'B', 'R') => 12
      case ('T', 'E', 'X') => 13
      case ('T', 'O', 'R') => 14
      case ('A', 'R', 'I') => 15
      case ('A', 'T', 'L') => 16
      case ('C', 'H', 'C') => 17
      case ('C', 'I', 'N') => 18
      case ('C', 'O', 'L') => 19
      case ('M', 'I', 'A') => 20
      case ('H', 'O', 'U') => 21
      case ('L', 'A', 'D') => 22
      case ('M', 'I', 'L') => 23
      case ('W', 'S', 'N') => 24
      case ('N', 'Y', 'M') => 25
      case ('P', 'H', 'I') => 26
      case ('P', 'I', 'T') => 27
      case ('S', 'T', 'L') => 28
      case ('S', 'D', 'P') => 29
      case ('S', 'F', 'G') => 30
      case _ => 0
  }

  /** The numbering covers exactly the team numbers 1 to 30, each with a three-letter code. */
  lemma FgTeamsDomain()
    ensures forall t :: t in FgTeams <==> 1 <= t <= 30
    ensures forall t :: t in FgTeams ==> |FgTeams[t]| == 3
  {
  }

  /** `TeamNumber` undoes the numbering, so no two team numbers share a code. */
  lemma FgTeamsInjective()
    ensures forall t :: t in FgTeams ==> TeamNumber(FgTeams[t]) == t
    ensures forall a, b :: a in FgTeams && b in FgTeams && FgTeams[a] == FgTeams[b] ==> a == b
  {
    assert forall t :: t in FgTeams ==> TeamNumber(FgTeams[t]) == t;
  }

  /** Schedule month abbreviations, March to October, and their two-digit numbers. */
  const Month: map<string, string> := map[
    "Mar" := "03", "Apr" := "04", "May" := "05", "Jun" := "06",
    "Jul" := "07", "Aug" := "08", "Sep" := "09", "Oct" := "10"]

  /** Lahman's division letters and the names the team table shows for them. */
  const Div: map<string, string> := map["E" := "EAST", "C" := "CENTRAL", "W" := "WEST"]

  /** A string-to-string dict as pandas `Series.map` sees it, over cells. */
  function CellMap(m: map<string, string>): (cm: map<Cell, Cell>)
    ensures forall k :: k in m ==> Str(k) in cm && cm[Str(k)] == Str(m[k])
    ensures forall v :: v in cm ==> v.Str? && v.s in m
  {
    map k | k in m :: Str(k) := Str(m[k])
  }

  /** The abbreviation of a two-digit month number, read off its digits; "" for a number not in the table. */
  function MonthName(num: string): string {
    if |num| != 2 then ""
    else
      match (num[0], num[1])
      case ('0', '3') => "Mar"
      case ('0', '4') => "Apr"
      case ('0', '5') => "May"
      case ('0', '6') => "Jun"
      case ('0', '7') => "Jul"
      case ('0', '8') => "Aug"
      case ('0', '9') => "Sep"
      case ('1', '0') => "Oct"
      case _ => ""
  }

  /** `MonthName` undoes the table, so no two abbreviations share a number. */
  lemma MonthInjective()
    ensures forall m :: m in Month ==> MonthName(Month[m]) == m
    ensures forall a, b :: a in Month && b in Month && Month[a] == Month[b] ==> a == b
  {
    assert forall m :: m in Month ==> MonthName(Month[m]) == m;
  }

  /** Every number in the table is two decimal digits naming a month from March (3) to October (10). */
  lemma MonthNumbers()
    ensures forall m :: m in Month ==> |Month[m]| == 2 && IsDigits(Month[m]) && 3 <= DigitsValue(Month[m]) <= 10
  {
    forall m | m in Month ensures |Month[m]| == 2 && IsDigits(Month[m]) && 3 <= DigitsValue(Month[m]) <= 10 {
      var n := Month[m];
      assert n in Month.Values;
      assert n[..1] == [n[0]];
    }
  }

  /** The three division letters map to three different names; any other value maps to NaN. */
  lemma DivNames()
    ensures Div.Keys == {"E", "C", "W"}
    ensures forall a, b :: a in Div && b in Div && Div[a] == Div[b] ==> a == b
    ensures forall s :: s !in Div ==> Lookup(CellMap(Div), Str(s)) == Null
  {
  }
}
