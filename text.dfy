/**
 * The string operations the game-log derivations use: Python's
 * `str.split(sep)` with an explicit one-character separator, `int(x)` on a
 * decimal literal, and decimal rendering of naturals for stating results.
 */
module Text {
  import opened Frames

  /** `s.split(sep)`: the pieces between separators, empty pieces kept; `"".split(sep)` is `[""]`. */
  function Split(s: string, sep: char): (ps: seq<string>)
    ensures |ps| >= 1
    ensures forall i :: 0 <= i < |ps| ==> sep !in ps[i]
  {
    if s == [] then [[]]
    else
      var rest := Split(s[1..], sep);
      if s[0] == sep then [[]] + rest
      else [[s[0]] + rest[0]] + rest[1..]
  }

  /** `sep.join(ps)`. */
  function Join(ps: seq<string>, sep: char): string
    requires |ps| >= 1
  {
    if |ps| == 1 then ps[0] else ps[0] + [sep] + Join(ps[1..], sep)
  }

  /** Splitting and joining back gives the original string. */
  lemma {:induction false} JoinSplit(s: string, sep: char)
    ensures Join(Split(s, sep), sep) == s
  {
    if s != [] {
      var rest := Split(s[1..], sep);
      JoinSplit(s[1..], sep);
      if s[0] != sep {
        if |rest| == 1 {
          assert Split(s, sep) == [[s[0]] + rest[0]];
        } else {
          assert Split(s, sep)[1..] == rest[1..];
          assert Join(rest, sep) == rest[0] + [sep] + Join(rest[1..], sep);
        }
      }
    }
  }

  /** Joining pieces free of the separator and splitting again gives the pieces back. */
  lemma {:induction false} SplitJoin(ps: seq<string>, sep: char)
    requires |ps| >= 1 && forall i :: 0 <= i < |ps| ==> sep !in ps[i]
    ensures Split(Join(ps, sep), sep) == ps
  {
    if |ps| == 1 {
      SplitPiece(ps[0], [], sep);
    } else {
      SplitJoin(ps[1..], sep);
      SplitPiece(ps[0], Join(ps[1..], sep), sep);
      assert ps == [ps[0]] + ps[1..];
    }
  }

  /** A separator-free piece in front of the separator (or at the end) is the first piece. */
  lemma {:induction false} SplitPiece(p: string, t: string, sep: char)
    requires sep !in p
    ensures t == [] ==> Split(p, sep) == [p]
    ensures Split(p + [sep] + t, sep) == [p] + Split(t, sep)
  {
    if p == [] {
      assert [] + [sep] + t == [sep] + t;
      assert ([sep] + t)[1..] == t;
    } else {
      SplitPiece(p[1..], t, sep);
      assert (p + [sep] + t)[1..] == p[1..] + [sep] + t;
      assert [p[0]] + p[1..] == p;
    }
  }

  /** Python's indexing of a split result: `IndexError` past the end. */
  function Piece(ps: seq<string>, i: nat): (r: Result<string>)
    ensures r.Ok? <==> i < |ps|
    ensures r.Ok? ==> r.value == ps[i]
  {
    if i < |ps| then Ok(ps[i]) else Err(BadIndex)
  }

  predicate IsDigit(c: char) {
    '0' <= c <= '9'
  }

  /** A nonempty run of decimal digits. */
  predicate IsDigits(s: string) {
    |s| >= 1 && forall i :: 0 <= i < |s| ==> IsDigit(s[i])
  }

  /** The value of a run of decimal digits, read most significant first. */
  function DigitsValue(s: string): nat
    requires IsDigits(s)
  {
    var d := (s[|s| - 1] as int) - ('0' as int);
    if |s| == 1 then d else DigitsValue(s[..|s| - 1]) * 10 + d
  }

  /** Leading zeros do not change the value: `int("05") == 5`. */
  lemma {:induction false} LeadingZero(s: string)
    requires IsDigits(s)
    ensures IsDigits("0" + s) && DigitsValue("0" + s) == DigitsValue(s)
  {
    var z := "0" + s;
    assert z[..|z| - 1] == "0" + s[..|s| - 1];
    if |s| > 1 {
      LeadingZero(s[..|s| - 1]);
    }
  }

  /**
   * `int(s)` on a string: an optional sign and decimal digits, otherwise a
   * ValueError. Surrounding whitespace and digit-group underscores, which
   * Python also accepts, are not modelled.
   */
  function ParseInt(s: string): (r: Result<int>)
    ensures r.Ok? <==> IsDigits(s) || (|s| >= 2 && s[0] in "+-" && IsDigits(s[1..]))
    ensures r.Ok? && IsDigits(s) ==> r.value == DigitsValue(s) && r.value >= 0
  {
    if IsDigits(s) then Ok(DigitsValue(s))
    else if |s| >= 2 && s[0] == '-' && IsDigits(s[1..]) then Ok(-(DigitsValue(s[1..]) as int))
    else if |s| >= 2 && s[0] == '+' && IsDigits(s[1..]) then Ok(DigitsValue(s[1..]))
    else Err(BadLiteral(s))
  }

  /** The decimal digits of `n`, without leading zeros: Python's `str(n)`. */
  function Show(n: nat): (s: string)
    ensures IsDigits(s)
  {
    var d := [(('0' as int) + n % 10) as char];
    if n < 10 then d else Show(n / 10) + d
  }

  /** Reading back what `Show` writes gives the number. */
  lemma {:induction false} ShowValue(n: nat)
    ensures DigitsValue(Show(n)) == n
  {
    var s := Show(n);
    if n >= 10 {
      ShowValue(n / 10);
      assert s[..|s| - 1] == Show(n / 10);
    }
  }

  /** `int(str(n)) == n`. */
  lemma ParseShow(n: nat)
    ensures ParseInt(Show(n)) == Ok(n)
  {
    ShowValue(n);
  }

  /** One digit below ten, two digits from ten to ninety-nine. */
  lemma ShowLength(n: nat)
    ensures n < 10 ==> |Show(n)| == 1
    ensures 10 <= n < 100 ==> |Show(n)| == 2
  {
  }
}
