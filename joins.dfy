/**
 * pandas `merge` on key columns: inner, left and right joins. Rows are
 * matched on equal keys (a `Null` key matches a `Null` key, as pandas
 * matches NaN with NaN); the output follows the order of the preserved
 * side, each of its rows followed by its matches in the other side's order.
 */
module Joins {
  import opened Frames
  import opened Keys

  datatype How = Inner | Left | Right

  /** The rows whose key is `k`, in order. */
  function Matching(rows: seq<Row>, ks: seq<string>, k: Key): (t: seq<Row>)
    ensures |t| <= |rows|
    ensures forall i :: 0 <= i < |t| ==> KeyOf(t[i], ks) == k && t[i] in rows
    ensures t == [] <==> k !in KeySet(rows, ks)
  {
    if rows == [] then []
    else
      KeySetCons(rows, ks);
      var rest := Matching(rows[1..], ks, k);
      assert forall r :: r in rest ==> r in rows;
      (if KeyOf(rows[0], ks) == k then [rows[0]] else []) + rest
  }

  /** Against a table unique on the key, a present key matches exactly its one row. */
  lemma {:induction false} MatchingUnique(rows: seq<Row>, ks: seq<string>, k: Key)
    requires UniqueOn(rows, ks) && k in KeySet(rows, ks)
    ensures Matching(rows, ks, k) == [FirstWith(rows, ks, k)]
  {
    KeySetCons(rows, ks);
    assert UniqueOn(rows[1..], ks) by {
      forall i, j | 0 <= i < j < |rows[1..]| ensures KeyOf(rows[1..][i], ks) != KeyOf(rows[1..][j], ks) {
        assert rows[1..][i] == rows[i + 1] && rows[1..][j] == rows[j + 1];
      }
    }
    if KeyOf(rows[0], ks) == k {
      forall i | 0 <= i < |rows[1..]| ensures KeyOf(rows[1..][i], ks) != k {
        assert rows[1..][i] == rows[i + 1];
      }
      assert k !in KeySet(rows[1..], ks);
    } else {
      MatchingUnique(rows[1..], ks, k);
      FirstIndexTail(rows, ks, k);
      assert rows[1..][FirstIndex(rows[1..], ks, k)] == rows[FirstIndex(rows, ks, k)];
    }
  }

  /** The cells of `r` outside the key columns. */
  function Strip(r: Row, ks: seq<string>): (t: Row)
    ensures t.Keys == r.Keys - Labels(ks)
    ensures forall c :: c in t ==> t[c] == r[c]
  {
    map c | c in r.Keys - Labels(ks) :: r[c]
  }

  /** A row of NaN under the labels `cs`. */
  function NullRow(cs: seq<string>): (t: Row)
    ensures t.Keys == Labels(cs)
    ensures forall c :: c in t ==> t[c] == Null
  {
    map c | c in Labels(cs) :: Null
  }

  /** `big` carries every cell of `small` unchanged. */
  predicate Extends(big: Row, small: Row) {
    forall c :: c in small ==> c in big && big[c] == small[c]
  }

  /** A row extending `r` cut to `cs` holds the cell `r` has under each label of `cs`. */
  lemma ExtendsRestrict(big: Row, r: Row, cs: seq<string>, c: string)
    requires Extends(big, Restrict(r, cs)) && c in cs && c in r
    ensures Get(big, c) == Get(r, c)
  {
    assert c in Restrict(r, cs);
  }

  /** What one preserved row `l` contributes: one row per match, or (outer join) one row padded with NaN. */
  function Block(l: Row, rs: seq<Row>, ks: seq<string>, extra: seq<string>, outer: bool): (out: seq<Row>)
    ensures forall i :: 0 <= i < |out| ==> Extends(out[i], l) && KeyOf(out[i], ks) == KeyOf(l, ks)
    ensures out != [] <==> outer || KeyOf(l, ks) in KeySet(rs, ks)
  {
    var ms := Matching(rs, ks, KeyOf(l, ks));
    if ms == [] then
      (if outer then [NullRow(extra) + l] else [])
    else
      seq(|ms|, i requires 0 <= i < |ms| => Strip(ms[i], ks) + l)
  }

  /**
   * The rows of a merge that preserves the side `ls`: each row of `ls` in
   * order, followed by its matches in `rs`; with `outer`, a row without a
   * match is kept with NaN under `extra`. A left merge is this with `outer`,
   * an inner merge without it, and a right merge is this with the two sides
   * exchanged.
   */
  function JoinRows(ls: seq<Row>, rs: seq<Row>, ks: seq<string>, extra: seq<string>, outer: bool): seq<Row> {
    if ls == [] then [] else Block(ls[0], rs, ks, extra, outer) + JoinRows(ls[1..], rs, ks, extra, outer)
  }

  /** A row of `rows` with the key `k` is among the rows `Matching` picks. */
  lemma {:induction false} MatchingHas(rows: seq<Row>, ks: seq<string>, k: Key, j: int)
    requires 0 <= j < |rows| && KeyOf(rows[j], ks) == k
    ensures rows[j] in Matching(rows, ks, k)
  {
    if j > 0 {
      MatchingHas(rows[1..], ks, k, j - 1);
      assert rows[1..][j - 1] == rows[j];
    }
  }

  /** A row whose key cells agree with `id`'s is its non-key cells plus `id`'s key cells. */
  lemma KeyRejoin(l: Row, id: Row, ks: seq<string>)
    requires forall c :: c in ks ==> c in l && c in id
    requires KeyOf(l, ks) == KeyOf(id, ks)
    ensures Strip(l, ks) + Restrict(id, ks) == l
  {
    forall c | c in ks ensures l[c] == id[c] {
      var n :| 0 <= n < |ks| && ks[n] == c;
      assert KeyOf(l, ks)[n] == KeyOf(id, ks)[n];
    }
  }

  /**
   * `o` is a row the join makes of the preserved row `l`: `l` with the
   * non-key cells of a row of `rs` that has its key, or, in an outer join
   * where no row of `rs` has that key, `l` with NaN under `extra`.
   */
  predicate JoinedFrom(o: Row, l: Row, rs: seq<Row>, ks: seq<string>, extra: seq<string>, outer: bool) {
    || (exists j :: 0 <= j < |rs| && KeyOf(rs[j], ks) == KeyOf(l, ks) && o == Strip(rs[j], ks) + l)
    || (outer && KeyOf(l, ks) !in KeySet(rs, ks) && o == NullRow(extra) + l)
  }

  /** What one preserved row contributes: exactly its matches, or its NaN-padded self. */
  lemma BlockContent(l: Row, rs: seq<Row>, ks: seq<string>, extra: seq<string>, outer: bool)
    ensures forall o :: o in Block(l, rs, ks, extra, outer) ==> JoinedFrom(o, l, rs, ks, extra, outer)
    ensures forall j :: 0 <= j < |rs| && KeyOf(rs[j], ks) == KeyOf(l, ks) ==> Strip(rs[j], ks) + l in Block(l, rs, ks, extra, outer)
    ensures outer && KeyOf(l, ks) !in KeySet(rs, ks) ==> NullRow(extra) + l in Block(l, rs, ks, extra, outer)
  {
    var ms := Matching(rs, ks, KeyOf(l, ks));
    var b := Block(l, rs, ks, extra, outer);
    if ms != [] {
      forall o | o in b ensures JoinedFrom(o, l, rs, ks, extra, outer) {
        var i :| 0 <= i < |ms| && b[i] == o;
        assert ms[i] in rs;
        var j :| 0 <= j < |rs| && rs[j] == ms[i];
        assert KeyOf(rs[j], ks) == KeyOf(l, ks) && o == Strip(rs[j], ks) + l;
      }
      forall j | 0 <= j < |rs| && KeyOf(rs[j], ks) == KeyOf(l, ks) ensures Strip(rs[j], ks) + l in b {
        MatchingHas(rs, ks, KeyOf(l, ks), j);
        var i :| 0 <= i < |ms| && ms[i] == rs[j];
        assert b[i] == Strip(rs[j], ks) + l;
      }
    } else {
      forall j | 0 <= j < |rs| ensures KeyOf(rs[j], ks) != KeyOf(l, ks) {
        if KeyOf(rs[j], ks) == KeyOf(l, ks) {
          MatchingHas(rs, ks, KeyOf(l, ks), j);
        }
      }
    }
  }

  /**
   * The rows of a join, with no uniqueness on either side: each is a
   * preserved row joined with a row of `rs` that has its key, or (outer)
   * padded with NaN when none has; every matching pair gives a row, and in
   * an outer join so does every preserved row without a match.
   */
  lemma JoinRowsContent(ls: seq<Row>, rs: seq<Row>, ks: seq<string>, extra: seq<string>, outer: bool)
    ensures forall o :: o in JoinRows(ls, rs, ks, extra, outer) ==>
              exists i :: 0 <= i < |ls| && JoinedFrom(o, ls[i], rs, ks, extra, outer)
    ensures forall i, j :: 0 <= i < |ls| && 0 <= j < |rs| && KeyOf(rs[j], ks) == KeyOf(ls[i], ks) ==>
              Strip(rs[j], ks) + ls[i] in JoinRows(ls, rs, ks, extra, outer)
    ensures outer ==> forall i :: 0 <= i < |ls| && KeyOf(ls[i], ks) !in KeySet(rs, ks) ==>
              NullRow(extra) + ls[i] in JoinRows(ls, rs, ks, extra, outer)
  {
    JoinRowsFrom(ls, rs, ks, extra, outer);
    forall i, j | 0 <= i < |ls| && 0 <= j < |rs| && KeyOf(rs[j], ks) == KeyOf(ls[i], ks)
      ensures Strip(rs[j], ks) + ls[i] in JoinRows(ls, rs, ks, extra, outer)
    {
      BlockContent(ls[i], rs, ks, extra, outer);
      InBlockIn(ls, rs, ks, extra, outer, i, Strip(rs[j], ks) + ls[i]);
    }
    if outer {
      forall i | 0 <= i < |ls| && KeyOf(ls[i], ks) !in KeySet(rs, ks)
        ensures NullRow(extra) + ls[i] in JoinRows(ls, rs, ks, extra, outer)
      {
        BlockContent(ls[i], rs, ks, extra, outer);
        InBlockIn(ls, rs, ks, extra, outer, i, NullRow(extra) + ls[i]);
      }
    }
  }

  /** Each row of a join comes from some preserved row. */
  lemma {:induction false} JoinRowsFrom(ls: seq<Row>, rs: seq<Row>, ks: seq<string>, extra: seq<string>, outer: bool)
    ensures forall o :: o in JoinRows(ls, rs, ks, extra, outer) ==>
              exists i :: 0 <= i < |ls| && JoinedFrom(o, ls[i], rs, ks, extra, outer)
  {
    if ls != [] {
      var b := Block(ls[0], rs, ks, extra, outer);
      var rest := JoinRows(ls[1..], rs, ks, extra, outer);
      BlockContent(ls[0], rs, ks, extra, outer);
      JoinRowsFrom(ls[1..], rs, ks, extra, outer);
      forall o | o in b + rest ensures exists i :: 0 <= i < |ls| && JoinedFrom(o, ls[i], rs, ks, extra, outer) {
        if o in b {
          assert JoinedFrom(o, ls[0], rs, ks, extra, outer);
        } else {
          var i :| 0 <= i < |ls[1..]| && JoinedFrom(o, ls[1..][i], rs, ks, extra, outer);
          assert ls[1..][i] == ls[i + 1];
        }
      }
    }
  }

  /** A row of the block of preserved row `i` is a row of the join. */
  lemma {:induction false} InBlockIn(ls: seq<Row>, rs: seq<Row>, ks: seq<string>, extra: seq<string>, outer: bool, i: int, o: Row)
    requires 0 <= i < |ls| && o in Block(ls[i], rs, ks, extra, outer)
    ensures o in JoinRows(ls, rs, ks, extra, outer)
  {
    if i == 0 {
      InLeft(Block(ls[0], rs, ks, extra, outer), JoinRows(ls[1..], rs, ks, extra, outer), o);
    } else {
      var tl := ls[1..];
      assert tl[i - 1] == ls[i];
      InBlockIn(tl, rs, ks, extra, outer, i - 1, o);
      InTailIn(ls, rs, ks, extra, outer, o);
    }
  }

  /** A member of the first part of a concatenation is a member of the whole. */
  lemma InLeft(a: seq<Row>, b: seq<Row>, o: Row)
    requires o in a
    ensures o in a + b
  {
    var k :| 0 <= k < |a| && a[k] == o;
    assert (a + b)[k] == o;
  }

  /** A member of the second part of a concatenation is a member of the whole. */
  lemma InRight(a: seq<Row>, b: seq<Row>, o: Row)
    requires o in b
    ensures o in a + b
  {
    var k :| 0 <= k < |b| && b[k] == o;
    assert (a + b)[|a| + k] == o;
  }

  /** A row of the join of all but the first preserved row is a row of the whole join. */
  lemma {:induction false} InTailIn(ls: seq<Row>, rs: seq<Row>, ks: seq<string>, extra: seq<string>, outer: bool, o: Row)
    requires ls != [] && o in JoinRows(ls[1..], rs, ks, extra, outer)
    ensures o in JoinRows(ls, rs, ks, extra, outer)
  {
    InRight(Block(ls[0], rs, ks, extra, outer), JoinRows(ls[1..], rs, ks, extra, outer), o);
  }

  /** An outer join keeps exactly the keys of the preserved side; an inner join the keys on both sides. */
  lemma {:induction false} JoinKeys(ls: seq<Row>, rs: seq<Row>, ks: seq<string>, extra: seq<string>, outer: bool)
    ensures KeySet(JoinRows(ls, rs, ks, extra, outer), ks) ==
              if outer then KeySet(ls, ks) else KeySet(ls, ks) * KeySet(rs, ks)
  {
    if ls != [] {
      var b := Block(ls[0], rs, ks, extra, outer);
      var rest := JoinRows(ls[1..], rs, ks, extra, outer);
      JoinKeys(ls[1..], rs, ks, extra, outer);
      KeySetAppend(b, rest, ks);
      KeySetCons(ls, ks);
      var k := KeyOf(ls[0], ks);
      if b != [] {
        assert KeyOf(b[0], ks) == k;
        assert KeySet(b, ks) == {k};
      } else {
        assert KeySet(b, ks) == {};
      }
    }
  }

  /** Every row of `ls` reappears, extended, somewhere in `out`. */
  predicate Covers(out: seq<Row>, ls: seq<Row>) {
    forall i :: 0 <= i < |ls| ==> Covered(out, ls[i])
  }

  /** Some row of `out` extends `r`. */
  predicate Covered(out: seq<Row>, r: Row) {
    exists j :: 0 <= j < |out| && Extends(out[j], r)
  }

  lemma CoversCons(b: seq<Row>, rest: seq<Row>, ls: seq<Row>)
    requires ls != [] && b != [] && Extends(b[0], ls[0]) && Covers(rest, ls[1..])
    ensures Covers(b + rest, ls)
  {
    var out := b + rest;
    forall i | 0 <= i < |ls| ensures exists j :: 0 <= j < |out| && Extends(out[j], ls[i]) {
      if i == 0 {
        assert out[0] == b[0];
      } else {
        assert ls[i] == ls[1..][i - 1];
        var j :| 0 <= j < |rest| && Extends(rest[j], ls[1..][i - 1]);
        assert out[|b| + j] == rest[j];
      }
    }
  }

  /** With `outer`, every preserved row reappears, extended, in the output: no row is lost. */
  lemma {:induction false} JoinKeepsRows(ls: seq<Row>, rs: seq<Row>, ks: seq<string>, extra: seq<string>)
    ensures var out := JoinRows(ls, rs, ks, extra, true);
      |out| >= |ls| && Covers(out, ls)
  {
    if ls != [] {
      var b := Block(ls[0], rs, ks, extra, true);
      var rest := JoinRows(ls[1..], rs, ks, extra, true);
      JoinKeepsRows(ls[1..], rs, ks, extra);
      assert b != [] && Extends(b[0], ls[0]);
      CoversCons(b, rest, ls);
      assert JoinRows(ls, rs, ks, extra, true) == b + rest;
    }
  }

  /** The one output row of `l` against a side unique on the key: with its match's cells, or with NaN. */
  function Joined(l: Row, rs: seq<Row>, ks: seq<string>, extra: seq<string>): Row {
    var k := KeyOf(l, ks);
    if k in KeySet(rs, ks) then Strip(FirstWith(rs, ks, k), ks) + l else NullRow(extra) + l
  }

  /** Against a side unique on the key, a block is the one joined row, or nothing for an unmatched inner row. */
  lemma BlockUnique(l: Row, rs: seq<Row>, ks: seq<string>, extra: seq<string>, outer: bool)
    requires UniqueOn(rs, ks)
    ensures Block(l, rs, ks, extra, outer) ==
              if outer || KeyOf(l, ks) in KeySet(rs, ks) then [Joined(l, rs, ks, extra)] else []
  {
    if KeyOf(l, ks) in KeySet(rs, ks) {
      MatchingUnique(rs, ks, KeyOf(l, ks));
    }
  }

  /**
   * Against a side unique on the key, an outer join has one output row per
   * preserved row, in order: the preserved row with the cells of its match,
   * or with NaN when it has none.
   */
  lemma {:induction false} JoinUniqueOuter(ls: seq<Row>, rs: seq<Row>, ks: seq<string>, extra: seq<string>)
    requires UniqueOn(rs, ks)
    ensures var out := JoinRows(ls, rs, ks, extra, true);
      |out| == |ls| && forall i :: 0 <= i < |ls| ==> out[i] == Joined(ls[i], rs, ks, extra)
  {
    if ls != [] {
      BlockUnique(ls[0], rs, ks, extra, true);
      JoinUniqueOuter(ls[1..], rs, ks, extra);
      var rest := JoinRows(ls[1..], rs, ks, extra, true);
      var out := JoinRows(ls, rs, ks, extra, true);
      assert out == [Joined(ls[0], rs, ks, extra)] + rest;
      forall i | 1 <= i < |ls| ensures out[i] == Joined(ls[i], rs, ks, extra) {
        assert ls[i] == ls[1..][i - 1];
        assert out[i] == rest[i - 1];
      }
    }
  }

  /** The preserved rows whose key occurs in `rs`, in order: what an inner join keeps. */
  function Matched(ls: seq<Row>, rs: seq<Row>, ks: seq<string>): (t: seq<Row>)
    ensures |t| <= |ls|
    ensures forall i :: 0 <= i < |t| ==> t[i] in ls && KeyOf(t[i], ks) in KeySet(rs, ks)
  {
    if ls == [] then []
    else
      var rest := Matched(ls[1..], rs, ks);
      assert forall r :: r in rest ==> r in ls;
      (if KeyOf(ls[0], ks) in KeySet(rs, ks) then [ls[0]] else []) + rest
  }

  /** The positions from `from` on of the rows whose key is in `keys`, in increasing order. */
  function Hits(rows: seq<Row>, ks: seq<string>, keys: set<Key>, from: nat): (h: seq<nat>)
    requires from <= |rows|
    ensures forall j :: 0 <= j < |h| ==> from <= h[j] < |rows| && KeyOf(rows[h[j]], ks) in keys
    ensures forall j, j' :: 0 <= j < j' < |h| ==> h[j] < h[j']
    decreases |rows| - from
  {
    if from == |rows| then []
    else (if KeyOf(rows[from], ks) in keys then [from] else []) + Hits(rows, ks, keys, from + 1)
  }

  /** No position whose key is in `keys` is missed. */
  lemma {:induction false} HitsComplete(rows: seq<Row>, ks: seq<string>, keys: set<Key>, from: nat)
    requires from <= |rows|
    ensures forall i :: from <= i < |rows| && KeyOf(rows[i], ks) in keys ==> i in Hits(rows, ks, keys, from)
    decreases |rows| - from
  {
    if from < |rows| {
      HitsComplete(rows, ks, keys, from + 1);
    }
  }

  /** The rows an inner join keeps are the rows at the positions whose key has a match. */
  lemma {:induction false} MatchedHits(ls: seq<Row>, rs: seq<Row>, ks: seq<string>, from: nat)
    requires from <= |ls|
    ensures var h := Hits(ls, ks, KeySet(rs, ks), from);
      |Matched(ls[from..], rs, ks)| == |h| && forall j :: 0 <= j < |h| ==> Matched(ls[from..], rs, ks)[j] == ls[h[j]]
    decreases |ls| - from
  {
    if from < |ls| {
      MatchedHits(ls, rs, ks, from + 1);
      assert ls[from..][1..] == ls[from + 1..];
    }
  }

  /** Rows rewritten one by one without changing their keys are hit at the same positions. */
  lemma {:induction false} HitsMoved(rows: seq<Row>, rows': seq<Row>, ks: seq<string>, ks': seq<string>, keys: set<Key>, from: nat)
    requires from <= |rows| == |rows'| && forall i :: 0 <= i < |rows| ==> KeyOf(rows'[i], ks') == KeyOf(rows[i], ks)
    ensures Hits(rows', ks', keys, from) == Hits(rows, ks, keys, from)
    decreases |rows| - from
  {
    if from < |rows| {
      HitsMoved(rows, rows', ks, ks', keys, from + 1);
    }
  }

  /** `out` holds the joined rows of `kept`, one for one. */
  predicate JoinedAll(out: seq<Row>, kept: seq<Row>, rs: seq<Row>, ks: seq<string>, extra: seq<string>) {
    |out| == |kept| && forall i :: 0 <= i < |kept| ==> out[i] == Joined(kept[i], rs, ks, extra)
  }

  lemma JoinedCons(out: seq<Row>, kept: seq<Row>, rest: seq<Row>, restKept: seq<Row>,
                   rs: seq<Row>, ks: seq<string>, extra: seq<string>)
    requires JoinedAll(rest, restKept, rs, ks, extra)
    requires kept != [] && out == [Joined(kept[0], rs, ks, extra)] + rest && restKept == kept[1..]
    ensures JoinedAll(out, kept, rs, ks, extra)
  {
    forall i | 1 <= i < |kept| ensures out[i] == Joined(kept[i], rs, ks, extra) {
      assert out[i] == rest[i - 1] && kept[i] == restKept[i - 1];
    }
  }

  /**
   * Against a side unique on the key, an inner join keeps the preserved rows
   * that have a match, in order, each with the cells of its match; the rows
   * without a match are dropped.
   */
  lemma {:induction false} JoinUniqueInner(ls: seq<Row>, rs: seq<Row>, ks: seq<string>, extra: seq<string>)
    requires UniqueOn(rs, ks)
    ensures var out := JoinRows(ls, rs, ks, extra, false);
      JoinedAll(out, Matched(ls, rs, ks), rs, ks, extra)
  {
    if ls != [] {
      BlockUnique(ls[0], rs, ks, extra, false);
      JoinUniqueInner(ls[1..], rs, ks, extra);
      var rest := JoinRows(ls[1..], rs, ks, extra, false);
      var restKept := Matched(ls[1..], rs, ks);
      var out := JoinRows(ls, rs, ks, extra, false);
      var kept := Matched(ls, rs, ks);
      if KeyOf(ls[0], ks) in KeySet(rs, ks) {
        assert out == [Joined(ls[0], rs, ks, extra)] + rest;
        assert kept == [ls[0]] + restKept;
        JoinedCons(out, kept, rest, restKept, rs, ks, extra);
      } else {
        assert out == rest && kept == restKept;
      }
    }
  }

  /** Each row cut down to the labels `cs`. */
  function RestrictAll(rows: seq<Row>, cs: seq<string>): (t: seq<Row>)
    ensures |t| == |rows| && forall i :: 0 <= i < |rows| ==> t[i] == Restrict(rows[i], cs)
  {
    seq(|rows|, i requires 0 <= i < |rows| => Restrict(rows[i], cs))
  }

  /** Cutting rows down to labels that include the key changes neither keys nor first occurrences. */
  lemma RestrictAllKeys(rows: seq<Row>, cs: seq<string>, ks: seq<string>)
    requires forall k :: k in ks ==> k in cs
    ensures forall i :: 0 <= i < |rows| ==> KeyOf(RestrictAll(rows, cs)[i], ks) == KeyOf(rows[i], ks)
    ensures KeySet(RestrictAll(rows, cs), ks) == KeySet(rows, ks)
    ensures forall k :: k in KeySet(rows, ks) ==> FirstIndex(RestrictAll(rows, cs), ks, k) == FirstIndex(rows, ks, k)
    ensures UniqueOn(rows, ks) ==> UniqueOn(RestrictAll(rows, cs), ks)
  {
    var t := RestrictAll(rows, cs);
    forall i | 0 <= i < |rows| ensures KeyOf(t[i], ks) == KeyOf(rows[i], ks) {
      assert forall j :: 0 <= j < |ks| ==> ks[j] in cs;
    }
    KeyPreservingRewrite(rows, t, ks);
  }

  /** Projecting onto labels that include the key changes no row's key. */
  lemma ProjectKeys(f: Frame, cs: seq<string>, g: Frame, ks: seq<string>)
    requires f.Valid() && Project(f, cs) == Ok(g) && forall k :: k in ks ==> k in f.index + cs
    ensures |g.rows| == |f.rows| && forall i :: 0 <= i < |f.rows| ==> KeyOf(g.rows[i], ks) == KeyOf(f.rows[i], ks)
    ensures KeySet(g.rows, ks) == KeySet(f.rows, ks)
  {
    assert g.rows == RestrictAll(f.rows, f.index + cs);
    RestrictAllKeys(f.rows, f.index + cs, ks);
  }

  /** Every row of a block carries the labels of its preserved row and the extra labels. */
  lemma BlockLabels(l: Row, rs: seq<Row>, ks: seq<string>, extra: seq<string>, outer: bool)
    requires forall r :: r in rs ==> r.Keys - Labels(ks) == Labels(extra)
    ensures forall r :: r in Block(l, rs, ks, extra, outer) ==> r.Keys == l.Keys + Labels(extra)
  {
    var ms := Matching(rs, ks, KeyOf(l, ks));
    if ms != [] {
      var b := Block(l, rs, ks, extra, outer);
      forall r | r in b ensures r.Keys == l.Keys + Labels(extra) {
        var i :| 0 <= i < |b| && b[i] == r;
        assert ms[i] in rs;
      }
    }
  }

  /** Every output row carries the labels of its preserved row and the extra labels. */
  lemma {:induction false} JoinRowsLabels(ls: seq<Row>, rs: seq<Row>, ks: seq<string>, extra: seq<string>,
                                          outer: bool, names: set<string>)
    requires forall r :: r in ls ==> r.Keys == names
    requires forall r :: r in rs ==> r.Keys - Labels(ks) == Labels(extra)
    ensures forall r :: r in JoinRows(ls, rs, ks, extra, outer) ==> r.Keys == names + Labels(extra)
  {
    if ls != [] {
      assert ls[0] in ls;
      assert forall r :: r in ls[1..] ==> r in ls;
      JoinRowsLabels(ls[1..], rs, ks, extra, outer, names);
      BlockLabels(ls[0], rs, ks, extra, outer);
      var b := Block(ls[0], rs, ks, extra, outer);
      var rest := JoinRows(ls[1..], rs, ks, extra, outer);
      assert JoinRows(ls, rs, ks, extra, outer) == b + rest;
      assert forall r :: r in b + rest ==> r in b || r in rest;
    }
  }

  /** The cell `c` of the first row keyed `k`, or NaN when no row has that key. */
  function MatchCell(rows: seq<Row>, ks: seq<string>, k: Key, c: string): Cell {
    if k in KeySet(rows, ks) then Get(FirstWith(rows, ks, k), c) else Null
  }

  /** Rows whose column `b` mirrors column `a` of `rows`, and that agree with them on `c`, give the same matches. */
  lemma MatchCellMoved(rows: seq<Row>, rows': seq<Row>, a: string, b: string, c: string, k: Key)
    requires |rows| == |rows'|
    requires forall i :: 0 <= i < |rows| ==> Get(rows'[i], b) == Get(rows[i], a) && Get(rows'[i], c) == Get(rows[i], c)
    ensures MatchCell(rows', [b], k, c) == MatchCell(rows, [a], k, c)
  {
    KeyColumnMoved(rows, rows', a, b);
    if k in KeySet(rows', [b]) {
      FirstWithMoved(rows, rows', a, b, c, k);
    }
  }

  /**
   * An outer join of `ps` (cut to `pc`) against `os` (cut to `oc`), where
   * `os` is unique on the key: one output row per row of `ps`, carrying that
   * row's cells, and under each extra label the cell of its match, or NaN.
   */
  lemma OuterUnique(ps: seq<Row>, pc: seq<string>, os: seq<Row>, oc: seq<string>, ks: seq<string>, extra: seq<string>)
    requires forall k :: k in ks ==> k in pc && k in oc
    requires Labels(oc) == Labels(ks) + Labels(extra)
    requires forall c :: c in extra ==> c !in ks && c !in pc
    requires forall i :: 0 <= i < |os| ==> Labels(oc) <= os[i].Keys
    requires UniqueOn(os, ks)
    ensures var out := JoinRows(RestrictAll(ps, pc), RestrictAll(os, oc), ks, extra, true);
      && |out| == |ps|
      && (forall i :: 0 <= i < |ps| ==> Extends(out[i], Restrict(ps[i], pc)))
      && (forall i, c :: 0 <= i < |ps| && c in extra ==> c in out[i] && out[i][c] == MatchCell(os, ks, KeyOf(ps[i], ks), c))
  {
    var ls := RestrictAll(ps, pc);
    var rs := RestrictAll(os, oc);
    RestrictAllKeys(ps, pc, ks);
    RestrictAllKeys(os, oc, ks);
    JoinUniqueOuter(ls, rs, ks, extra);
    var out := JoinRows(ls, rs, ks, extra, true);
    forall i, c | 0 <= i < |ps| && c in extra ensures c in out[i] && out[i][c] == MatchCell(os, ks, KeyOf(ps[i], ks), c) {
      var k := KeyOf(ls[i], ks);
      assert c !in ls[i];
      if k in KeySet(rs, ks) {
        var j := FirstIndex(os, ks, k);
        assert FirstWith(rs, ks, k) == Restrict(os[j], oc);
        assert c in Labels(oc);
      }
    }
  }

  /**
   * An outer join of `ps` (cut to `pc`) keeps exactly the keys of `ps`, and
   * every row of `ps` reappears, extended, in the output.
   */
  lemma OuterKeeps(ps: seq<Row>, pc: seq<string>, os: seq<Row>, oc: seq<string>, ks: seq<string>, extra: seq<string>)
    requires forall k :: k in ks ==> k in pc && k in oc
    ensures var out := JoinRows(RestrictAll(ps, pc), RestrictAll(os, oc), ks, extra, true);
      && KeySet(out, ks) == KeySet(ps, ks)
      && |out| >= |ps|
      && CoversCut(out, ps, pc)
  {
    var ls := RestrictAll(ps, pc);
    var out := JoinRows(ls, RestrictAll(os, oc), ks, extra, true);
    RestrictAllKeys(ps, pc, ks);
    JoinKeys(ls, RestrictAll(os, oc), ks, extra, true);
    JoinKeepsRows(ls, RestrictAll(os, oc), ks, extra);
    CoversRestricted(out, ps, pc);
  }

  /** Covering the cut rows is covering each row's cut. */
  lemma CoversRestricted(out: seq<Row>, ps: seq<Row>, pc: seq<string>)
    requires Covers(out, RestrictAll(ps, pc))
    ensures CoversCut(out, ps, pc)
  {
    var ls := RestrictAll(ps, pc);
    forall i | 0 <= i < |ps| ensures Covered(out, Restrict(ps[i], pc)) {
      assert ls[i] == Restrict(ps[i], pc);
      assert Covered(out, ls[i]);
    }
  }

  /** The elements of `a` that also occur in `b`, in the order of `a`. */
  function Common(a: seq<string>, b: seq<string>): (r: seq<string>)
    ensures forall x :: x in r <==> x in a && x in b
    ensures Distinct(a) ==> Distinct(r)
  {
    Without(a, Without(a, b))
  }

  /** The labels of `f` a merge on `ks` carries over: its index level when that is a key, then its columns. */
  function Carried(f: Frame, ks: seq<string>): seq<string> {
    (if f.index != [] && f.index[0] in ks then f.index else []) + f.cols
  }

  lemma CarriedFacts(f: Frame, ks: seq<string>)
    requires f.Valid()
    ensures Distinct(Carried(f, ks))
    ensures forall c :: c in Carried(f, ks) ==> c in f.Names()
    ensures forall c :: c in ks && c in f.Names() ==> c in Carried(f, ks)
  {
    DistinctParts(f.index, f.cols);
  }

  /** The rows of `merge`: both sides cut to the labels they carry, then joined the way `how` says. */
  function MergeRows(left: Frame, right: Frame, ks: seq<string>, how: How): seq<Row> {
    var lc := Carried(left, ks);
    var extra := Without(right.cols, ks);
    var ls := RestrictAll(left.rows, lc);
    var rs := RestrictAll(right.rows, ks + extra);
    match how
    case Inner => JoinRows(ls, rs, ks, extra, false)
    case Left => JoinRows(ls, rs, ks, extra, true)
    case Right => JoinRows(rs, ls, ks, Without(lc, ks), true)
  }

  /** When pandas merges `left` with `right` on `ks` without suffixing a column. */
  predicate CanMerge(left: Frame, right: Frame, ks: seq<string>) {
    && ks != [] && Distinct(ks)
    && (forall k :: k in ks ==> k in left.Names() && k in right.Names())
    && (forall c :: c in right.cols && c !in ks ==> c !in Carried(left, ks))
  }

  /**
   * `left.merge(right, on=ks, how=how)`. A key may be a column or the named
   * index level of either side; the output has a fresh default index and the
   * columns of `left` (with its key index level, if any) followed by the
   * non-key columns of `right`. pandas raises a KeyError for a key missing on
   * either side; a non-key column on both sides gets a suffix in pandas and
   * is an error here.
   */
  function Merge(left: Frame, right: Frame, ks: seq<string>, how: How): (r: Result<Frame>)
    requires left.Valid() && right.Valid()
    ensures r.Ok? <==> CanMerge(left, right, ks)
    ensures r.Ok? ==> r.value.Valid() && r.value.index == []
    ensures r.Ok? ==> r.value.cols == Carried(left, ks) + Without(right.cols, ks)
    ensures r.Ok? ==> r.value.rows == MergeRows(left, right, ks, how)
  {
    var missingLeft := Without(ks, left.Names());
    var missingRight := Without(ks, right.Names());
    var clash := Common(Without(right.cols, ks), Carried(left, ks));
    MergeChecks(left, right, ks);
    if ks == [] then
      Err(NoCommonColumns)
    else if !Distinct(ks) then
      Err(DuplicateLabels)
    else if missingLeft != [] then
      Err(MissingColumn(missingLeft[0]))
    else if missingRight != [] then
      Err(MissingColumn(missingRight[0]))
    else if clash != [] then
      Err(ColumnClash(clash[0]))
    else
      MergeValid(left, right, ks, how);
      Ok(Frame([], Carried(left, ks) + Without(right.cols, ks), MergeRows(left, right, ks, how)))
  }

  /** The checks `Merge` makes, one by one, add up to `CanMerge`. */
  lemma MergeChecks(left: Frame, right: Frame, ks: seq<string>)
    ensures CanMerge(left, right, ks) <==>
      && ks != [] && Distinct(ks)
      && Without(ks, left.Names()) == [] && Without(ks, right.Names()) == []
      && Common(Without(right.cols, ks), Carried(left, ks)) == []
  {
    NoneLeft(Without(ks, left.Names()));
    NoneLeft(Without(ks, right.Names()));
    NoneLeft(Common(Without(right.cols, ks), Carried(left, ks)));
  }

  /** A sequence is empty exactly when nothing is in it. */
  lemma NoneLeft(s: seq<string>)
    ensures s == [] <==> forall x :: x !in s
  {
    if s != [] {
      assert s[0] in s;
    }
  }

  /** Rows that all carry the labels `cs`, cut down to `cs`, carry exactly `cs`. */
  lemma RestrictAllLabels(rows: seq<Row>, cs: seq<string>)
    requires forall i :: 0 <= i < |rows| ==> Labels(cs) <= rows[i].Keys
    ensures forall r :: r in RestrictAll(rows, cs) ==> r.Keys == Labels(cs)
  {
    var t := RestrictAll(rows, cs);
    forall r | r in t ensures r.Keys == Labels(cs) {
      var i :| 0 <= i < |t| && t[i] == r;
    }
  }

  /** The labels both sides of a permitted merge carry into the join. */
  lemma MergeSides(left: Frame, right: Frame, ks: seq<string>)
    requires left.Valid() && right.Valid() && CanMerge(left, right, ks)
    ensures Distinct(Carried(left, ks) + Without(right.cols, ks))
    ensures forall r :: r in RestrictAll(left.rows, Carried(left, ks)) ==> r.Keys == Labels(Carried(left, ks))
    ensures forall r :: r in RestrictAll(right.rows, ks + Without(right.cols, ks)) ==>
              r.Keys == Labels(ks + Without(right.cols, ks))
    ensures forall k :: k in ks ==> k in Carried(left, ks)
  {
    var lc := Carried(left, ks);
    var extra := Without(right.cols, ks);
    CarriedFacts(left, ks);
    DistinctParts(right.index, right.cols);
    DistinctAppend(lc, extra);
    forall i | 0 <= i < |left.rows| ensures Labels(lc) <= left.rows[i].Keys {
      assert left.rows[i].Keys == Labels(left.Names());
    }
    RestrictAllLabels(left.rows, lc);
    forall i | 0 <= i < |right.rows| ensures Labels(ks + extra) <= right.rows[i].Keys {
      assert right.rows[i].Keys == Labels(right.Names());
    }
    RestrictAllLabels(right.rows, ks + extra);
  }

  lemma MergeRowsLabels(left: Frame, right: Frame, ks: seq<string>, how: How)
    requires left.Valid() && right.Valid() && CanMerge(left, right, ks)
    ensures forall r :: r in MergeRows(left, right, ks, how) ==>
              r.Keys == Labels(Carried(left, ks) + Without(right.cols, ks))
  {
    var lc := Carried(left, ks);
    var extra := Without(right.cols, ks);
    MergeSides(left, right, ks);
    LabelsAppend(lc, extra);
    LabelsAppend(ks, extra);
    if how == Right {
      RightRowsLabels(RestrictAll(right.rows, ks + extra), RestrictAll(left.rows, lc), ks, extra, lc);
    } else {
      JoinRowsLabels(RestrictAll(left.rows, lc), RestrictAll(right.rows, ks + extra), ks, extra, how == Left, Labels(lc));
    }
  }

  /** A right merge joins the right rows with the left rows: their labels, in the other order. */
  lemma RightRowsLabels(rs: seq<Row>, ls: seq<Row>, ks: seq<string>, extra: seq<string>, lc: seq<string>)
    requires forall r :: r in rs ==> r.Keys == Labels(ks + extra)
    requires forall r :: r in ls ==> r.Keys == Labels(lc)
    requires forall k :: k in ks ==> k in lc
    requires Labels(ks + extra) == Labels(ks) + Labels(extra)
    requires Labels(lc + extra) == Labels(lc) + Labels(extra)
    ensures forall r :: r in JoinRows(rs, ls, ks, Without(lc, ks), true) ==> r.Keys == Labels(lc + extra)
  {
    JoinRowsLabels(rs, ls, ks, Without(lc, ks), true, Labels(ks + extra));
    assert Labels(ks + extra) + Labels(Without(lc, ks)) == Labels(lc + extra);
  }

  lemma MergeValid(left: Frame, right: Frame, ks: seq<string>, how: How)
    requires left.Valid() && right.Valid() && CanMerge(left, right, ks)
    ensures Frame([], Carried(left, ks) + Without(right.cols, ks), MergeRows(left, right, ks, how)).Valid()
  {
    var names := Carried(left, ks) + Without(right.cols, ks);
    var rows := MergeRows(left, right, ks, how);
    MergeSides(left, right, ks);
    MergeRowsLabels(left, right, ks, how);
    assert [] + names == names;
    forall i | 0 <= i < |rows| ensures rows[i].Keys == Labels(names) {
      assert rows[i] in rows;
    }
  }

  /** Every row of `rs`, cut to `cs`, is extended by some row of `out`. */
  predicate CoversCut(out: seq<Row>, rs: seq<Row>, cs: seq<string>) {
    forall i :: 0 <= i < |rs| ==> Covered(out, Restrict(rs[i], cs))
  }

  /** A left merge keeps exactly the keys of `left`, and no row of `left` is lost. */
  lemma MergeLeftKeeps(left: Frame, right: Frame, ks: seq<string>, out: Frame)
    requires left.Valid() && right.Valid() && Merge(left, right, ks, Left) == Ok(out)
    ensures var rows := out.rows;
      && KeySet(rows, ks) == KeySet(left.rows, ks)
      && |rows| >= |left.rows|
      && CoversCut(rows, left.rows, Carried(left, ks))
  {
    assert CanMerge(left, right, ks) && out.rows == MergeRows(left, right, ks, Left);
    MergeLeftKeepsRows(left, right, ks);
  }

  lemma MergeLeftKeepsRows(left: Frame, right: Frame, ks: seq<string>)
    requires left.Valid() && right.Valid() && CanMerge(left, right, ks)
    ensures var rows := MergeRows(left, right, ks, Left);
      && KeySet(rows, ks) == KeySet(left.rows, ks)
      && |rows| >= |left.rows|
      && CoversCut(rows, left.rows, Carried(left, ks))
  {
    var extra := Without(right.cols, ks);
    var lc := Carried(left, ks);
    assert MergeRows(left, right, ks, Left) == JoinRows(RestrictAll(left.rows, lc), RestrictAll(right.rows, ks + extra), ks, extra, true);
    CarriedFacts(left, ks);
    OuterKeeps(left.rows, lc, right.rows, ks + extra, ks, extra);
  }

  /**
   * Against a `right` unique on the key, a left merge has one row per row of
   * `left`, in order: that row's cells, and under each column brought in
   * from `right` the cell of the matching row, or NaN when there is none.
   */
  lemma MergeLeftUnique(left: Frame, right: Frame, ks: seq<string>, out: Frame)
    requires left.Valid() && right.Valid() && Merge(left, right, ks, Left) == Ok(out)
    requires UniqueOn(right.rows, ks)
    ensures var rows := out.rows;
      && |rows| == |left.rows|
      && (forall i :: 0 <= i < |left.rows| ==> Extends(rows[i], Restrict(left.rows[i], Carried(left, ks))))
      && (forall i, c :: 0 <= i < |left.rows| && c in Without(right.cols, ks) ==>
            c in rows[i] && rows[i][c] == MatchCell(right.rows, ks, KeyOf(left.rows[i], ks), c))
  {
    assert CanMerge(left, right, ks) && out.rows == MergeRows(left, right, ks, Left);
    MergeLeftUniqueRows(left, right, ks);
  }

  lemma MergeLeftUniqueRows(left: Frame, right: Frame, ks: seq<string>)
    requires left.Valid() && right.Valid() && CanMerge(left, right, ks)
    requires UniqueOn(right.rows, ks)
    ensures var rows := MergeRows(left, right, ks, Left);
      && |rows| == |left.rows|
      && (forall i :: 0 <= i < |left.rows| ==> Extends(rows[i], Restrict(left.rows[i], Carried(left, ks))))
      && (forall i, c :: 0 <= i < |left.rows| && c in Without(right.cols, ks) ==>
            c in rows[i] && rows[i][c] == MatchCell(right.rows, ks, KeyOf(left.rows[i], ks), c))
  {
    var extra := Without(right.cols, ks);
    MergeSides(left, right, ks);
    LabelsAppend(ks, extra);
    forall i | 0 <= i < |right.rows| ensures Labels(ks + extra) <= right.rows[i].Keys {
      assert right.rows[i].Keys == Labels(right.Names());
    }
    OuterUnique(left.rows, Carried(left, ks), right.rows, ks + extra, ks, extra);
  }

  /** An inner merge keeps the keys found on both sides and drops every other key. */
  lemma MergeInnerKeys(left: Frame, right: Frame, ks: seq<string>, out: Frame)
    requires left.Valid() && right.Valid() && Merge(left, right, ks, Inner) == Ok(out)
    ensures KeySet(out.rows, ks) == KeySet(left.rows, ks) * KeySet(right.rows, ks)
  {
    assert CanMerge(left, right, ks) && out.rows == MergeRows(left, right, ks, Inner);
    MergeInnerKeysRows(left, right, ks);
  }

  lemma MergeInnerKeysRows(left: Frame, right: Frame, ks: seq<string>)
    requires left.Valid() && right.Valid() && CanMerge(left, right, ks)
    ensures KeySet(MergeRows(left, right, ks, Inner), ks) == KeySet(left.rows, ks) * KeySet(right.rows, ks)
  {
    var extra := Without(right.cols, ks);
    MergeSides(left, right, ks);
    RestrictAllKeys(left.rows, Carried(left, ks), ks);
    RestrictAllKeys(right.rows, ks + extra, ks);
    JoinKeys(RestrictAll(left.rows, Carried(left, ks)), RestrictAll(right.rows, ks + extra), ks, extra, false);
  }

  /** Cutting the rows down to labels that include the key does not change which of them find a match. */
  lemma MatchedRestrict(ps: seq<Row>, pc: seq<string>, os: seq<Row>, oc: seq<string>, ks: seq<string>)
    requires forall k :: k in ks ==> k in pc && k in oc
    ensures Matched(RestrictAll(ps, pc), RestrictAll(os, oc), ks) == RestrictAll(Matched(ps, os, ks), pc)
  {
    RestrictAllKeys(os, oc, ks);
    MatchedCut(ps, pc, os, RestrictAll(os, oc), ks);
  }

  /** `MatchedRestrict` against any rows with the same keys as `os`. */
  lemma {:induction false} MatchedCut(ps: seq<Row>, pc: seq<string>, os: seq<Row>, os': seq<Row>, ks: seq<string>)
    requires forall k :: k in ks ==> k in pc
    requires KeySet(os', ks) == KeySet(os, ks)
    ensures Matched(RestrictAll(ps, pc), os', ks) == RestrictAll(Matched(ps, os, ks), pc)
  {
    if ps != [] {
      MatchedCut(ps[1..], pc, os, os', ks);
      RestrictKey(ps[0], pc, ks);
      var head := if KeyOf(ps[0], ks) in KeySet(os, ks) then [ps[0]] else [];
      assert Matched(ps, os, ks) == head + Matched(ps[1..], os, ks);
      RestrictAllAppend(head, Matched(ps[1..], os, ks), pc);
      assert ps == [ps[0]] + ps[1..];
      RestrictAllAppend([ps[0]], ps[1..], pc);
    }
  }

  /** Cutting rows down distributes over concatenation. */
  lemma RestrictAllAppend(a: seq<Row>, b: seq<Row>, cs: seq<string>)
    ensures RestrictAll(a + b, cs) == RestrictAll(a, cs) + RestrictAll(b, cs)
  {
  }

  /** Cutting one row down to labels that include the key keeps its key. */
  lemma RestrictKey(r: Row, cs: seq<string>, ks: seq<string>)
    requires forall k :: k in ks ==> k in cs
    ensures KeyOf(Restrict(r, cs), ks) == KeyOf(r, ks)
  {
    AgreeKey(Restrict(r, cs), r, ks);
  }

  /**
   * An inner join of `ps` (cut to `pc`) against `os` (cut to `oc`), where
   * `os` is unique on the key: the rows of `ps` that have a match, in order,
   * each carrying its own cells and, under each extra label, the cell of its match.
   */
  lemma InnerUnique(ps: seq<Row>, pc: seq<string>, os: seq<Row>, oc: seq<string>, ks: seq<string>, extra: seq<string>)
    requires forall k :: k in ks ==> k in pc && k in oc
    requires Labels(oc) == Labels(ks) + Labels(extra)
    requires forall c :: c in extra ==> c !in ks && c !in pc
    requires forall i :: 0 <= i < |os| ==> Labels(oc) <= os[i].Keys
    requires UniqueOn(os, ks)
    ensures var out := JoinRows(RestrictAll(ps, pc), RestrictAll(os, oc), ks, extra, false);
      var kept := Matched(ps, os, ks);
      && |out| == |kept|
      && (forall j :: 0 <= j < |kept| ==> Extends(out[j], Restrict(kept[j], pc)))
      && (forall j, c :: 0 <= j < |kept| && c in extra ==> c in out[j] && out[j][c] == MatchCell(os, ks, KeyOf(kept[j], ks), c))
  {
    var ls := RestrictAll(ps, pc);
    var rs := RestrictAll(os, oc);
    var kept := Matched(ps, os, ks);
    RestrictAllKeys(ps, pc, ks);
    RestrictAllKeys(os, oc, ks);
    RestrictAllKeys(kept, pc, ks);
    MatchedRestrict(ps, pc, os, oc, ks);
    JoinUniqueInner(ls, rs, ks, extra);
    var out := JoinRows(ls, rs, ks, extra, false);
    var kept' := Matched(ls, rs, ks);
    assert kept' == RestrictAll(kept, pc);
    forall j | 0 <= j < |kept|
      ensures Extends(out[j], Restrict(kept[j], pc))
      ensures forall c :: c in extra ==> c in out[j] && out[j][c] == MatchCell(os, ks, KeyOf(kept[j], ks), c)
    {
      JoinedRow(kept'[j], kept[j], rs, os, pc, oc, ks, extra);
    }
  }

  /** The joined row of a row that has a match: its own cells, and under each extra label the cell of its match. */
  lemma JoinedRow(l: Row, p: Row, rs: seq<Row>, os: seq<Row>, pc: seq<string>, oc: seq<string>, ks: seq<string>, extra: seq<string>)
    requires l == Restrict(p, pc) && KeyOf(l, ks) == KeyOf(p, ks) && KeyOf(p, ks) in KeySet(os, ks)
    requires rs == RestrictAll(os, oc) && KeySet(rs, ks) == KeySet(os, ks)
    requires FirstIndex(rs, ks, KeyOf(p, ks)) == FirstIndex(os, ks, KeyOf(p, ks))
    requires forall i :: 0 <= i < |os| ==> Labels(oc) <= os[i].Keys
    requires forall c :: c in extra ==> c !in ks && c !in pc
    requires Labels(oc) == Labels(ks) + Labels(extra)
    ensures Extends(Joined(l, rs, ks, extra), l)
    ensures forall c :: c in extra ==> c in Joined(l, rs, ks, extra) && Joined(l, rs, ks, extra)[c] == MatchCell(os, ks, KeyOf(p, ks), c)
  {
    forall c | c in extra
      ensures c in Joined(l, rs, ks, extra) && Joined(l, rs, ks, extra)[c] == MatchCell(os, ks, KeyOf(p, ks), c)
    {
      JoinedCell(l, p, rs, os, pc, oc, ks, extra, c);
    }
  }

  /** The cell an extra label gets in the joined row of a row that has a match. */
  lemma JoinedCell(l: Row, p: Row, rs: seq<Row>, os: seq<Row>, pc: seq<string>, oc: seq<string>, ks: seq<string>, extra: seq<string>, c: string)
    requires l == Restrict(p, pc) && KeyOf(l, ks) == KeyOf(p, ks) && KeyOf(p, ks) in KeySet(os, ks)
    requires rs == RestrictAll(os, oc) && KeySet(rs, ks) == KeySet(os, ks)
    requires FirstIndex(rs, ks, KeyOf(p, ks)) == FirstIndex(os, ks, KeyOf(p, ks))
    requires forall i :: 0 <= i < |os| ==> Labels(oc) <= os[i].Keys
    requires c in extra && c !in ks && c !in pc && Labels(oc) == Labels(ks) + Labels(extra)
    ensures c in Joined(l, rs, ks, extra) && Joined(l, rs, ks, extra)[c] == MatchCell(os, ks, KeyOf(p, ks), c)
  {
    var k := KeyOf(p, ks);
    var i := FirstIndex(os, ks, k);
    assert FirstWith(rs, ks, k) == Restrict(os[i], oc);
    assert c in Labels(oc);
    assert c !in l;
  }

  /**
   * Against a `right` unique on the key, an inner merge keeps the rows of
   * `left` whose key `right` has, in order, one output row each: that row's
   * cells, and under each column brought in from `right` the cell of its match.
   */
  lemma MergeInnerUnique(left: Frame, right: Frame, ks: seq<string>, out: Frame)
    requires left.Valid() && right.Valid() && Merge(left, right, ks, Inner) == Ok(out)
    requires UniqueOn(right.rows, ks)
    ensures var rows := out.rows;
      var kept := Matched(left.rows, right.rows, ks);
      && |rows| == |kept|
      && (forall j :: 0 <= j < |kept| ==> Extends(rows[j], Restrict(kept[j], Carried(left, ks))))
      && (forall j, c :: 0 <= j < |kept| && c in Without(right.cols, ks) ==>
            c in rows[j] && rows[j][c] == MatchCell(right.rows, ks, KeyOf(kept[j], ks), c))
  {
    assert CanMerge(left, right, ks) && out.rows == MergeRows(left, right, ks, Inner);
    MergeInnerUniqueRows(left, right, ks);
  }

  lemma MergeInnerUniqueRows(left: Frame, right: Frame, ks: seq<string>)
    requires left.Valid() && right.Valid() && CanMerge(left, right, ks)
    requires UniqueOn(right.rows, ks)
    ensures var rows := MergeRows(left, right, ks, Inner);
      var kept := Matched(left.rows, right.rows, ks);
      && |rows| == |kept|
      && (forall j :: 0 <= j < |kept| ==> Extends(rows[j], Restrict(kept[j], Carried(left, ks))))
      && (forall j, c :: 0 <= j < |kept| && c in Without(right.cols, ks) ==>
            c in rows[j] && rows[j][c] == MatchCell(right.rows, ks, KeyOf(kept[j], ks), c))
  {
    var extra := Without(right.cols, ks);
    MergeSides(left, right, ks);
    LabelsAppend(ks, extra);
    forall i | 0 <= i < |right.rows| ensures Labels(ks + extra) <= right.rows[i].Keys {
      assert right.rows[i].Keys == Labels(right.Names());
    }
    InnerUnique(left.rows, Carried(left, ks), right.rows, ks + extra, ks, extra);
  }

  /** Every key label is a column of the merged frame. */
  lemma MergeKeyColumns(left: Frame, right: Frame, ks: seq<string>, how: How, out: Frame)
    requires left.Valid() && right.Valid() && Merge(left, right, ks, how) == Ok(out)
    ensures forall c :: c in ks ==> c in out.cols
  {
    assert CanMerge(left, right, ks) && out.cols == Carried(left, ks) + Without(right.cols, ks);
    CarriedFacts(left, ks);
  }

  /** A right merge keeps exactly the keys of `right`, and no row of `right` is lost. */
  lemma MergeRightKeeps(left: Frame, right: Frame, ks: seq<string>, out: Frame)
    requires left.Valid() && right.Valid() && Merge(left, right, ks, Right) == Ok(out)
    ensures var rows := out.rows;
      && KeySet(rows, ks) == KeySet(right.rows, ks)
      && |rows| >= |right.rows|
      && CoversCut(rows, right.rows, ks + Without(right.cols, ks))
  {
    assert CanMerge(left, right, ks) && out.rows == MergeRows(left, right, ks, Right);
    MergeRightKeepsRows(left, right, ks);
  }

  lemma MergeRightKeepsRows(left: Frame, right: Frame, ks: seq<string>)
    requires left.Valid() && right.Valid() && CanMerge(left, right, ks)
    ensures var rows := MergeRows(left, right, ks, Right);
      && KeySet(rows, ks) == KeySet(right.rows, ks)
      && |rows| >= |right.rows|
      && CoversCut(rows, right.rows, ks + Without(right.cols, ks))
  {
    var extra := Without(right.cols, ks);
    var lc := Carried(left, ks);
    assert MergeRows(left, right, ks, Right) == JoinRows(RestrictAll(right.rows, ks + extra), RestrictAll(left.rows, lc), ks, Without(lc, ks), true);
    CarriedFacts(left, ks);
    OuterKeeps(right.rows, ks + extra, left.rows, lc, ks, Without(lc, ks));
  }

  /**
   * Against a `left` unique on the key, a right merge has one row per row of
   * `right`, in order: that row's cells, and under each column of `left`
   * the cell of the matching row, or NaN when there is none.
   */
  lemma MergeRightUnique(left: Frame, right: Frame, ks: seq<string>, out: Frame)
    requires left.Valid() && right.Valid() && Merge(left, right, ks, Right) == Ok(out)
    requires UniqueOn(left.rows, ks)
    ensures var rows := out.rows;
      && |rows| == |right.rows|
      && (forall i :: 0 <= i < |right.rows| ==> Extends(rows[i], Restrict(right.rows[i], ks + Without(right.cols, ks))))
      && (forall i, c :: 0 <= i < |right.rows| && c in Carried(left, ks) && c !in ks ==>
            c in rows[i] && rows[i][c] == MatchCell(left.rows, ks, KeyOf(right.rows[i], ks), c))
  {
    assert CanMerge(left, right, ks) && out.rows == MergeRows(left, right, ks, Right);
    MergeRightUniqueRows(left, right, ks);
  }

  lemma MergeRightUniqueRows(left: Frame, right: Frame, ks: seq<string>)
    requires left.Valid() && right.Valid() && CanMerge(left, right, ks)
    requires UniqueOn(left.rows, ks)
    ensures var rows := MergeRows(left, right, ks, Right);
      && |rows| == |right.rows|
      && (forall i :: 0 <= i < |right.rows| ==> Extends(rows[i], Restrict(right.rows[i], ks + Without(right.cols, ks))))
      && (forall i, c :: 0 <= i < |right.rows| && c in Carried(left, ks) && c !in ks ==>
            c in rows[i] && rows[i][c] == MatchCell(left.rows, ks, KeyOf(right.rows[i], ks), c))
  {
    var lc := Carried(left, ks);
    var extra := Without(right.cols, ks);
    MergeSides(left, right, ks);
    CarriedFacts(left, ks);
    LabelsAppend(ks, extra);
    assert Labels(lc) == Labels(ks) + Labels(Without(lc, ks));
    forall i | 0 <= i < |left.rows| ensures Labels(lc) <= left.rows[i].Keys {
      assert left.rows[i].Keys == Labels(left.Names());
    }
    OuterUnique(right.rows, ks + extra, left.rows, lc, ks, Without(lc, ks));
  }

  /**
   * `o` is a row a right merge of `left` onto `right` on `ks` makes of the
   * row `r` of `right`: `r` cut to the merge's labels, with the non-key
   * cells `left` carries from a row that has `r`'s key, or with NaN under
   * those labels when no row of `left` has that key.
   */
  predicate RightJoined(o: Row, r: Row, left: Frame, right: Frame, ks: seq<string>) {
    var p := Restrict(r, ks + Without(right.cols, ks));
    var lc := Carried(left, ks);
    || (exists j :: 0 <= j < |left.rows| && KeyOf(left.rows[j], ks) == KeyOf(r, ks) && o == Strip(Restrict(left.rows[j], lc), ks) + p)
    || (KeyOf(r, ks) !in KeySet(left.rows, ks) && o == NullRow(Without(lc, ks)) + p)
  }

  /**
   * The rows of a right merge, with no uniqueness on either side: exactly
   * the rows made of a row of `right` and either a row of `left` with its
   * key or, when there is none, NaN.
   */
  lemma MergeRightRows(left: Frame, right: Frame, ks: seq<string>, out: Frame)
    requires left.Valid() && right.Valid() && Merge(left, right, ks, Right) == Ok(out)
    ensures forall o :: o in out.rows <==> exists i :: 0 <= i < |right.rows| && RightJoined(o, right.rows[i], left, right, ks)
  {
    assert CanMerge(left, right, ks) && out.rows == MergeRows(left, right, ks, Right);
    var lc := Carried(left, ks);
    var extra := Without(right.cols, ks);
    var ls := RestrictAll(right.rows, ks + extra);
    var rs := RestrictAll(left.rows, lc);
    assert out.rows == JoinRows(ls, rs, ks, Without(lc, ks), true);
    MergeSides(left, right, ks);
    RestrictAllKeys(right.rows, ks + extra, ks);
    RestrictAllKeys(left.rows, lc, ks);
    JoinRowsContent(ls, rs, ks, Without(lc, ks), true);
    forall o | o in out.rows ensures exists i :: 0 <= i < |right.rows| && RightJoined(o, right.rows[i], left, right, ks) {
      var i :| 0 <= i < |ls| && JoinedFrom(o, ls[i], rs, ks, Without(lc, ks), true);
      JoinedRight(o, i, left, right, ks);
    }
    forall o | exists i :: 0 <= i < |right.rows| && RightJoined(o, right.rows[i], left, right, ks) ensures o in out.rows {
      var i :| 0 <= i < |right.rows| && RightJoined(o, right.rows[i], left, right, ks);
      RightJoinedIn(o, i, left, right, ks);
    }
  }

  /** A row joined from the `i`th row of `right` is a row the right merge makes of it. */
  lemma JoinedRight(o: Row, i: int, left: Frame, right: Frame, ks: seq<string>)
    requires left.Valid() && right.Valid() && CanMerge(left, right, ks) && 0 <= i < |right.rows|
    requires var lc := Carried(left, ks);
      JoinedFrom(o, RestrictAll(right.rows, ks + Without(right.cols, ks))[i], RestrictAll(left.rows, lc), ks, Without(lc, ks), true)
    ensures RightJoined(o, right.rows[i], left, right, ks)
  {
    var lc := Carried(left, ks);
    var extra := Without(right.cols, ks);
    var rs := RestrictAll(left.rows, lc);
    var p := Restrict(right.rows[i], ks + extra);
    MergeSides(left, right, ks);
    RestrictKey(right.rows[i], ks + extra, ks);
    RestrictAllKeys(left.rows, lc, ks);
    if j :| 0 <= j < |rs| && KeyOf(rs[j], ks) == KeyOf(p, ks) && o == Strip(rs[j], ks) + p {
      assert KeyOf(left.rows[j], ks) == KeyOf(right.rows[i], ks);
    }
  }

  /** A row the right merge makes of the `i`th row of `right` is a row of the merge. */
  lemma RightJoinedIn(o: Row, i: int, left: Frame, right: Frame, ks: seq<string>)
    requires left.Valid() && right.Valid() && CanMerge(left, right, ks) && 0 <= i < |right.rows|
    requires RightJoined(o, right.rows[i], left, right, ks)
    ensures o in MergeRows(left, right, ks, Right)
  {
    var lc := Carried(left, ks);
    var extra := Without(right.cols, ks);
    var ls := RestrictAll(right.rows, ks + extra);
    var rs := RestrictAll(left.rows, lc);
    assert MergeRows(left, right, ks, Right) == JoinRows(ls, rs, ks, Without(lc, ks), true);
    MergeSides(left, right, ks);
    RestrictAllKeys(right.rows, ks + extra, ks);
    RestrictAllKeys(left.rows, lc, ks);
    JoinRowsContent(ls, rs, ks, Without(lc, ks), true);
    if j :| 0 <= j < |left.rows| && KeyOf(left.rows[j], ks) == KeyOf(right.rows[i], ks) && o == Strip(Restrict(left.rows[j], lc), ks) + ls[i] {
      assert KeyOf(rs[j], ks) == KeyOf(ls[i], ks);
    }
  }

  /** `left.merge(right, how=how)` with no `on`: pandas joins on the columns the two frames share. */
  function MergeOnCommon(left: Frame, right: Frame, how: How): (r: Result<Frame>)
    requires left.Valid() && right.Valid()
    ensures r.Ok? <==> Common(left.cols, right.cols) != []
    ensures r.Ok? ==> r == Merge(left, right, Common(left.cols, right.cols), how)
  {
    var ks := Common(left.cols, right.cols);
    if ks == [] then Err(NoCommonColumns)
    else
      DistinctParts(left.index, left.cols);
      DistinctParts(right.index, right.cols);
      assert forall c :: c in ks ==> c !in left.index;
      assert CanMerge(left, right, ks);
      Merge(left, right, ks, how)
  }
}
