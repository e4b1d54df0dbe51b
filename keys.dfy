/**
 * Keys of rows and pandas' `drop_duplicates`: which rows survive, which row
 * wins for a key, and what is left unique afterwards.
 */
module Keys {
  import opened Frames

  type Key = seq<Cell>

  /** The cells of `r` under the key columns `ks`, in order. */
  function KeyOf(r: Row, ks: seq<string>): (k: Key)
    ensures |k| == |ks| && forall i :: 0 <= i < |ks| ==> k[i] == Get(r, ks[i])
  {
    seq(|ks|, i requires 0 <= i < |ks| => Get(r, ks[i]))
  }

  function KeySet(rows: seq<Row>, ks: seq<string>): set<Key> {
    set i | 0 <= i < |rows| :: KeyOf(rows[i], ks)
  }

  /** No two rows share a key. */
  predicate UniqueOn(rows: seq<Row>, ks: seq<string>) {
    forall i, j :: 0 <= i < j < |rows| ==> KeyOf(rows[i], ks) != KeyOf(rows[j], ks)
  }

  lemma KeySetCons(rows: seq<Row>, ks: seq<string>)
    requires rows != []
    ensures KeySet(rows, ks) == {KeyOf(rows[0], ks)} + KeySet(rows[1..], ks)
  {
    forall k | k in KeySet(rows, ks) ensures k in {KeyOf(rows[0], ks)} + KeySet(rows[1..], ks) {
      var i :| 0 <= i < |rows| && KeyOf(rows[i], ks) == k;
      if i > 0 {
        assert rows[1..][i - 1] == rows[i];
      }
    }
    forall k | k in KeySet(rows[1..], ks) ensures k in KeySet(rows, ks) {
      var i :| 0 <= i < |rows[1..]| && KeyOf(rows[1..][i], ks) == k;
      assert rows[i + 1] == rows[1..][i];
    }
  }

  lemma KeySetAppend(a: seq<Row>, b: seq<Row>, ks: seq<string>)
    ensures KeySet(a + b, ks) == KeySet(a, ks) + KeySet(b, ks)
  {
    forall k | k in KeySet(a + b, ks) ensures k in KeySet(a, ks) + KeySet(b, ks) {
      var i :| 0 <= i < |a + b| && KeyOf((a + b)[i], ks) == k;
      if i >= |a| {
        assert (a + b)[i] == b[i - |a|];
      } else {
        assert (a + b)[i] == a[i];
      }
    }
    forall k | k in KeySet(a, ks) + KeySet(b, ks) ensures k in KeySet(a + b, ks) {
      if k in KeySet(a, ks) {
        var i :| 0 <= i < |a| && KeyOf(a[i], ks) == k;
        assert (a + b)[i] == a[i];
      } else {
        var i :| 0 <= i < |b| && KeyOf(b[i], ks) == k;
        assert (a + b)[|a| + i] == b[i];
      }
    }
  }

  /** A table unique on its key has exactly one row per distinct key. */
  lemma {:induction false} UniqueCount(rows: seq<Row>, ks: seq<string>)
    requires UniqueOn(rows, ks)
    ensures |KeySet(rows, ks)| == |rows|
  {
    if rows != [] {
      KeySetCons(rows, ks);
      assert UniqueOn(rows[1..], ks) by {
        forall i, j | 0 <= i < j < |rows[1..]| ensures KeyOf(rows[1..][i], ks) != KeyOf(rows[1..][j], ks) {
          assert rows[1..][i] == rows[i + 1] && rows[1..][j] == rows[j + 1];
        }
      }
      UniqueCount(rows[1..], ks);
      forall i | 0 <= i < |rows[1..]| ensures KeyOf(rows[1..][i], ks) != KeyOf(rows[0], ks) {
        assert rows[1..][i] == rows[i + 1];
      }
    }
  }

  /** The position of the first row whose key is `k`. */
  function FirstIndex(rows: seq<Row>, ks: seq<string>, k: Key): (i: nat)
    requires k in KeySet(rows, ks)
    ensures i < |rows| && KeyOf(rows[i], ks) == k
    ensures forall j :: 0 <= j < i ==> KeyOf(rows[j], ks) != k
  {
    if KeyOf(rows[0], ks) == k then 0
    else
      KeySetCons(rows, ks);
      var i := FirstIndex(rows[1..], ks, k);
      assert forall j :: 1 <= j <= i ==> rows[j] == rows[1..][j - 1];
      i + 1
  }

  /** The first row whose key is `k`: the row `drop_duplicates` keeps for `k`. */
  function FirstWith(rows: seq<Row>, ks: seq<string>, k: Key): Row
    requires k in KeySet(rows, ks)
  {
    rows[FirstIndex(rows, ks, k)]
  }

  /** A key present in `a` has its first occurrence in `a + b` inside `a`; otherwise inside `b`. */
  lemma FirstWithAppend(a: seq<Row>, b: seq<Row>, ks: seq<string>, k: Key)
    requires k in KeySet(a, ks) + KeySet(b, ks)
    ensures k in KeySet(a + b, ks)
    ensures k in KeySet(a, ks) ==> FirstWith(a + b, ks, k) == FirstWith(a, ks, k)
    ensures k !in KeySet(a, ks) ==> FirstWith(a + b, ks, k) == FirstWith(b, ks, k)
  {
    KeySetAppend(a, b, ks);
    var n := FirstIndex(a + b, ks, k);
    if k in KeySet(a, ks) {
      var m := FirstIndex(a, ks, k);
      assert (a + b)[m] == a[m];
      assert n <= m;
      assert (a + b)[n] == a[n];
      assert n == m;
    } else {
      var m := FirstIndex(b, ks, k);
      assert (a + b)[|a| + m] == b[m];
      assert forall i :: 0 <= i < |a| ==> (a + b)[i] == a[i];
      assert (a + b)[n] == b[n - |a|];
      assert n == |a| + m;
    }
  }

  /** pandas `drop_duplicates(subset=ks)` (keep='first') on `rows`, with the keys in `seen` already taken. */
  function DedupFrom(rows: seq<Row>, ks: seq<string>, seen: set<Key>): (out: seq<Row>)
    ensures |out| <= |rows|
    ensures forall r :: r in out ==> r in rows
  {
    if rows == [] then []
    else
      var k := KeyOf(rows[0], ks);
      if k in seen then DedupFrom(rows[1..], ks, seen)
      else [rows[0]] + DedupFrom(rows[1..], ks, seen + {k})
  }

  function Dedup(rows: seq<Row>, ks: seq<string>): seq<Row> {
    DedupFrom(rows, ks, {})
  }

  /** Deduplication leaves one row per key not already taken, and nothing else. */
  lemma {:induction false} DedupFromKeys(rows: seq<Row>, ks: seq<string>, seen: set<Key>)
    ensures UniqueOn(DedupFrom(rows, ks, seen), ks)
    ensures KeySet(DedupFrom(rows, ks, seen), ks) == KeySet(rows, ks) - seen
  {
    if rows != [] {
      var k := KeyOf(rows[0], ks);
      KeySetCons(rows, ks);
      var seen' := if k in seen then seen else seen + {k};
      var rest := DedupFrom(rows[1..], ks, seen');
      DedupFromKeys(rows[1..], ks, seen');
      var out := DedupFrom(rows, ks, seen);
      if k !in seen {
        assert out == [rows[0]] + rest;
        assert forall j :: 1 <= j < |out| ==> out[j] == rest[j - 1];
        KeySetCons(out, ks);
        forall i, j | 0 <= i < j < |out| ensures KeyOf(out[i], ks) != KeyOf(out[j], ks) {
          assert KeyOf(rest[j - 1], ks) in KeySet(rest, ks);
        }
      }
    }
  }

  /** In `rows`, a key other than that of the first row first occurs one place later than in `rows[1..]`. */
  lemma FirstIndexTail(rows: seq<Row>, ks: seq<string>, k: Key)
    requires rows != [] && k in KeySet(rows[1..], ks) && k != KeyOf(rows[0], ks)
    ensures k in KeySet(rows, ks)
    ensures FirstIndex(rows, ks, k) == 1 + FirstIndex(rows[1..], ks, k)
  {
    KeySetCons(rows, ks);
  }

  /** Each kept row is the first row of its key. */
  lemma {:induction false} DedupFromFirst(rows: seq<Row>, ks: seq<string>, seen: set<Key>)
    ensures KeySet(DedupFrom(rows, ks, seen), ks) <= KeySet(rows, ks)
    ensures var out := DedupFrom(rows, ks, seen);
      forall j :: 0 <= j < |out| ==> out[j] == FirstWith(rows, ks, KeyOf(out[j], ks))
  {
    DedupFromKeys(rows, ks, seen);
    var out := DedupFrom(rows, ks, seen);
    if rows != [] {
      var k := KeyOf(rows[0], ks);
      KeySetCons(rows, ks);
      var seen' := if k in seen then seen else seen + {k};
      var rest := DedupFrom(rows[1..], ks, seen');
      DedupFromKeys(rows[1..], ks, seen');
      DedupFromFirst(rows[1..], ks, seen');
      forall j | 0 <= j < |out| ensures out[j] == FirstWith(rows, ks, KeyOf(out[j], ks)) {
        if k !in seen && j == 0 {
          assert out[0] == rows[0];
        } else {
          var j' := if k !in seen then j - 1 else j;
          assert out[j] == rest[j'];
          assert KeyOf(rest[j'], ks) in KeySet(rest, ks);
          FirstIndexTail(rows, ks, KeyOf(rest[j'], ks));
          assert rows[1..][FirstIndex(rows[1..], ks, KeyOf(rest[j'], ks))] == rows[FirstIndex(rows, ks, KeyOf(rest[j'], ks))];
        }
      }
    }
  }

  /** The kept rows stand in the order of their keys' first occurrences. */
  lemma {:induction false} DedupFromOrder(rows: seq<Row>, ks: seq<string>, seen: set<Key>)
    ensures KeySet(DedupFrom(rows, ks, seen), ks) <= KeySet(rows, ks)
    ensures var out := DedupFrom(rows, ks, seen);
      forall i, j :: 0 <= i < j < |out| ==>
        FirstIndex(rows, ks, KeyOf(out[i], ks)) < FirstIndex(rows, ks, KeyOf(out[j], ks))
  {
    var out := DedupFrom(rows, ks, seen);
    if rows != [] {
      var k := KeyOf(rows[0], ks);
      var seen' := if k in seen then seen else seen + {k};
      var rest := DedupFrom(rows[1..], ks, seen');
      DedupFromOrder(rows[1..], ks, seen');
      RestKeys(rows, ks, seen', rest);
      ShiftOrdered(rows, ks, rest);
      if k !in seen {
        assert out == [rows[0]] + rest;
        FirstIndexHead(rows, ks);
        OrderedCons(rows, ks, out, rest);
      } else {
        assert out == rest;
      }
      KeysWithin(out, rows, ks);
    }
  }

  /** Rows whose every key is a key of `rows` have no other keys. */
  lemma KeysWithin(out: seq<Row>, rows: seq<Row>, ks: seq<string>)
    requires forall j :: 0 <= j < |out| ==> KeyOf(out[j], ks) in KeySet(rows, ks)
    ensures KeySet(out, ks) <= KeySet(rows, ks)
  {
  }

  /** Once the first row's key is taken, the rows kept from the tail have keys of the tail other than it. */
  lemma RestKeys(rows: seq<Row>, ks: seq<string>, seen: set<Key>, rest: seq<Row>)
    requires rows != [] && KeyOf(rows[0], ks) in seen && rest == DedupFrom(rows[1..], ks, seen)
    ensures forall j :: 0 <= j < |rest| ==> KeyOf(rest[j], ks) in KeySet(rows[1..], ks) && KeyOf(rest[j], ks) != KeyOf(rows[0], ks)
  {
    DedupFromKeys(rows[1..], ks, seen);
    forall j | 0 <= j < |rest| ensures KeyOf(rest[j], ks) in KeySet(rows[1..], ks) && KeyOf(rest[j], ks) != KeyOf(rows[0], ks) {
      assert KeyOf(rest[j], ks) in KeySet(rest, ks);
    }
  }

  /** The key of the first row first occurs at position 0. */
  lemma FirstIndexHead(rows: seq<Row>, ks: seq<string>)
    requires rows != []
    ensures KeyOf(rows[0], ks) in KeySet(rows, ks) && FirstIndex(rows, ks, KeyOf(rows[0], ks)) == 0
  {
    KeySetCons(rows, ks);
  }

  /** Rows ordered by first occurrence in `rows[1..]`, none with the key of `rows[0]`, stay ordered in `rows`, after position 0. */
  lemma ShiftOrdered(rows: seq<Row>, ks: seq<string>, rest: seq<Row>)
    requires rows != []
    requires forall j :: 0 <= j < |rest| ==> KeyOf(rest[j], ks) in KeySet(rows[1..], ks) && KeyOf(rest[j], ks) != KeyOf(rows[0], ks)
    requires forall i, j :: 0 <= i < j < |rest| ==>
      FirstIndex(rows[1..], ks, KeyOf(rest[i], ks)) < FirstIndex(rows[1..], ks, KeyOf(rest[j], ks))
    ensures forall j :: 0 <= j < |rest| ==> KeyOf(rest[j], ks) in KeySet(rows, ks) && FirstIndex(rows, ks, KeyOf(rest[j], ks)) > 0
    ensures forall i, j :: 0 <= i < j < |rest| ==>
      FirstIndex(rows, ks, KeyOf(rest[i], ks)) < FirstIndex(rows, ks, KeyOf(rest[j], ks))
  {
    forall j | 0 <= j < |rest|
      ensures KeyOf(rest[j], ks) in KeySet(rows, ks)
      ensures FirstIndex(rows, ks, KeyOf(rest[j], ks)) == 1 + FirstIndex(rows[1..], ks, KeyOf(rest[j], ks))
    {
      FirstIndexTail(rows, ks, KeyOf(rest[j], ks));
    }
  }

  /** A row whose key occurs first in `rows`, put before rows whose keys first occur later and in order, keeps that order. */
  lemma OrderedCons(rows: seq<Row>, ks: seq<string>, out: seq<Row>, rest: seq<Row>)
    requires |out| == |rest| + 1 && forall j :: 0 <= j < |rest| ==> out[j + 1] == rest[j]
    requires KeyOf(out[0], ks) in KeySet(rows, ks) && FirstIndex(rows, ks, KeyOf(out[0], ks)) == 0
    requires forall j :: 0 <= j < |rest| ==> KeyOf(rest[j], ks) in KeySet(rows, ks) && FirstIndex(rows, ks, KeyOf(rest[j], ks)) > 0
    requires forall i, j :: 0 <= i < j < |rest| ==>
      FirstIndex(rows, ks, KeyOf(rest[i], ks)) < FirstIndex(rows, ks, KeyOf(rest[j], ks))
    ensures forall j :: 0 <= j < |out| ==> KeyOf(out[j], ks) in KeySet(rows, ks)
    ensures forall i, j :: 0 <= i < j < |out| ==>
      FirstIndex(rows, ks, KeyOf(out[i], ks)) < FirstIndex(rows, ks, KeyOf(out[j], ks))
  {
    forall j | 0 <= j < |out| ensures KeyOf(out[j], ks) in KeySet(rows, ks) {
      if j > 0 {
        assert out[j] == rest[j - 1];
      }
    }
    forall i, j | 0 <= i < j < |out|
      ensures FirstIndex(rows, ks, KeyOf(out[i], ks)) < FirstIndex(rows, ks, KeyOf(out[j], ks))
    {
      assert out[j] == rest[j - 1];
      if i > 0 {
        assert out[i] == rest[i - 1];
      }
    }
  }

  /** Rows already unique on the key, with no key taken, survive deduplication unchanged. */
  lemma {:induction false} DedupUniqueNoop(rows: seq<Row>, ks: seq<string>, seen: set<Key>)
    requires UniqueOn(rows, ks)
    requires KeySet(rows, ks) * seen == {}
    ensures DedupFrom(rows, ks, seen) == rows
  {
    if rows != [] {
      var k := KeyOf(rows[0], ks);
      KeySetCons(rows, ks);
      assert k in KeySet(rows, ks);
      assert k in seen ==> k in KeySet(rows, ks) * seen;
      assert UniqueOn(rows[1..], ks) by {
        forall i, j | 0 <= i < j < |rows[1..]| ensures KeyOf(rows[1..][i], ks) != KeyOf(rows[1..][j], ks) {
          assert rows[1..][i] == rows[i + 1] && rows[1..][j] == rows[j + 1];
        }
      }
      forall i | 0 <= i < |rows[1..]| ensures KeyOf(rows[1..][i], ks) != k {
        assert rows[1..][i] == rows[i + 1];
      }
      DedupUniqueNoop(rows[1..], ks, seen + {k});
    }
  }

  /** Deduplicating twice is deduplicating once. */
  lemma DedupIdempotent(rows: seq<Row>, ks: seq<string>)
    ensures Dedup(Dedup(rows, ks), ks) == Dedup(rows, ks)
  {
    DedupFromKeys(rows, ks, {});
    DedupUniqueNoop(Dedup(rows, ks), ks, {});
  }

  /**
   * Deduplicating `a + b` keeps one row per key of either part; a key that
   * occurs in `a` keeps its first row from `a`, any other key its first row
   * from `b`.
   */
  lemma DedupPrefersFirstPart(a: seq<Row>, b: seq<Row>, ks: seq<string>)
    ensures var out := Dedup(a + b, ks);
      && UniqueOn(out, ks)
      && KeySet(out, ks) == KeySet(a, ks) + KeySet(b, ks)
      && |out| == |KeySet(a, ks) + KeySet(b, ks)|
      && (forall j :: 0 <= j < |out| && KeyOf(out[j], ks) in KeySet(a, ks) ==>
            out[j] == FirstWith(a, ks, KeyOf(out[j], ks)))
      && (forall j :: 0 <= j < |out| && KeyOf(out[j], ks) !in KeySet(a, ks) ==>
            KeyOf(out[j], ks) in KeySet(b, ks) && out[j] == FirstWith(b, ks, KeyOf(out[j], ks)))
  {
    var out := Dedup(a + b, ks);
    DedupFromKeys(a + b, ks, {});
    DedupFromFirst(a + b, ks, {});
    KeySetAppend(a, b, ks);
    UniqueCount(out, ks);
    forall j | 0 <= j < |out| ensures
      && (KeyOf(out[j], ks) in KeySet(a, ks) ==> out[j] == FirstWith(a, ks, KeyOf(out[j], ks)))
      && (KeyOf(out[j], ks) !in KeySet(a, ks) ==> KeyOf(out[j], ks) in KeySet(b, ks) && out[j] == FirstWith(b, ks, KeyOf(out[j], ks)))
    {
      assert KeyOf(out[j], ks) in KeySet(out, ks);
      FirstWithAppend(a, b, ks, KeyOf(out[j], ks));
    }
  }

  /** A frame keeps its shape when its rows are replaced by some of its own rows. */
  lemma SubsetOfRowsValid(f: Frame, rows: seq<Row>)
    requires f.Valid()
    requires forall r :: r in rows ==> r in f.rows
    ensures Frame(f.index, f.cols, rows).Valid()
  {
    forall i | 0 <= i < |rows| ensures rows[i].Keys == Labels(f.index + f.cols) {
      assert rows[i] in rows;
    }
  }

  /** `df.drop_duplicates(subset=ks)`: pandas raises KeyError unless every key label is a column. */
  function DropDuplicates(f: Frame, ks: seq<string>): (r: Result<Frame>)
    requires f.Valid()
    ensures r.Ok? <==> forall c :: c in ks ==> c in f.cols
    ensures r.Ok? ==> r.value.Valid() && r.value.index == f.index && r.value.cols == f.cols
    ensures r.Ok? ==> r.value.rows == Dedup(f.rows, ks)
  {
    var missing := Without(ks, f.cols);
    if missing != [] then
      assert missing[0] in missing;
      Err(MissingColumn(missing[0]))
    else
      SubsetOfRowsValid(f, Dedup(f.rows, ks));
      Ok(Frame(f.index, f.cols, Dedup(f.rows, ks)))
  }

  /** `df.drop_duplicates()`: rows equal in every column (the index is not compared). */
  function DropExactDuplicates(f: Frame): (r: Frame)
    requires f.Valid()
    ensures r.Valid() && r.index == f.index && r.cols == f.cols
    ensures r.rows == Dedup(f.rows, f.cols)
  {
    SubsetOfRowsValid(f, Dedup(f.rows, f.cols));
    Frame(f.index, f.cols, Dedup(f.rows, f.cols))
  }

  /** Rows that agree on every key label have the same key. */
  lemma AgreeKey(a: Row, b: Row, ks: seq<string>)
    requires forall c :: c in ks ==> Get(a, c) == Get(b, c)
    ensures KeyOf(a, ks) == KeyOf(b, ks)
  {
    assert forall i :: 0 <= i < |ks| ==> ks[i] in ks;
  }

  /** Dropping columns that are not key labels changes no key. */
  lemma DropKeys(f: Frame, cs: seq<string>, g: Frame, ks: seq<string>)
    requires f.Valid() && Drop(f, cs) == Ok(g) && forall k :: k in ks ==> k !in cs
    ensures |g.rows| == |f.rows| && KeySet(g.rows, ks) == KeySet(f.rows, ks)
  {
    forall i | 0 <= i < |f.rows| ensures KeyOf(g.rows[i], ks) == KeyOf(f.rows[i], ks) {
      forall c | c in ks ensures Get(g.rows[i], c) == Get(f.rows[i], c) {
        DropCell(f, cs, g, c);
      }
      AgreeKey(g.rows[i], f.rows[i], ks);
    }
    KeyPreservingRewrite(f.rows, g.rows, ks);
  }

  /** Rows rewritten one by one without touching their keys have the same keys and first occurrences. */
  lemma KeyPreservingRewrite(rows: seq<Row>, rows': seq<Row>, ks: seq<string>)
    requires |rows| == |rows'|
    requires forall i :: 0 <= i < |rows| ==> KeyOf(rows'[i], ks) == KeyOf(rows[i], ks)
    ensures KeySet(rows', ks) == KeySet(rows, ks)
    ensures forall k :: k in KeySet(rows, ks) ==> FirstIndex(rows', ks, k) == FirstIndex(rows, ks, k)
  {
    assert KeySet(rows', ks) == KeySet(rows, ks);
    forall k | k in KeySet(rows, ks) ensures FirstIndex(rows', ks, k) == FirstIndex(rows, ks, k) {
      var a := FirstIndex(rows', ks, k);
      var b := FirstIndex(rows, ks, k);
      assert !(a < b) && !(b < a);
    }
  }

  /**
   * Rows rewritten one by one so that column `b` of the new rows holds what
   * column `a` of the old rows held: the keys, first occurrences and
   * uniqueness on `[a]` carry over to `[b]`.
   */
  lemma KeyColumnMoved(rows: seq<Row>, rows': seq<Row>, a: string, b: string)
    requires |rows| == |rows'| && forall i :: 0 <= i < |rows| ==> Get(rows'[i], b) == Get(rows[i], a)
    ensures forall i :: 0 <= i < |rows| ==> KeyOf(rows'[i], [b]) == KeyOf(rows[i], [a])
    ensures KeySet(rows', [b]) == KeySet(rows, [a])
    ensures forall k :: k in KeySet(rows, [a]) ==> FirstIndex(rows', [b], k) == FirstIndex(rows, [a], k)
    ensures UniqueOn(rows, [a]) <==> UniqueOn(rows', [b])
  {
    forall i | 0 <= i < |rows| ensures KeyOf(rows'[i], [b]) == KeyOf(rows[i], [a]) {
      assert KeyOf(rows'[i], [b])[0] == KeyOf(rows[i], [a])[0];
    }
    assert KeySet(rows', [b]) == KeySet(rows, [a]);
    forall k | k in KeySet(rows, [a]) ensures FirstIndex(rows', [b], k) == FirstIndex(rows, [a], k) {
      var x := FirstIndex(rows', [b], k);
      var y := FirstIndex(rows, [a], k);
      assert !(x < y) && !(y < x);
    }
  }

  /** Dropping exact duplicates on `cols` keeps every key on labels among `cols`. */
  lemma DedupCoarserKeys(rows: seq<Row>, cols: seq<string>, ks: seq<string>)
    requires forall c :: c in ks ==> c in cols
    ensures KeySet(Dedup(rows, cols), ks) == KeySet(rows, ks)
  {
    var out := Dedup(rows, cols);
    DedupFromKeys(rows, cols, {});
    forall k | k in KeySet(out, ks) ensures k in KeySet(rows, ks) {
      var j :| 0 <= j < |out| && KeyOf(out[j], ks) == k;
      assert out[j] in rows;
      var i :| 0 <= i < |rows| && rows[i] == out[j];
    }
    forall k | k in KeySet(rows, ks) ensures k in KeySet(out, ks) {
      var i :| 0 <= i < |rows| && KeyOf(rows[i], ks) == k;
      assert KeyOf(rows[i], cols) in KeySet(out, cols);
      var j :| 0 <= j < |out| && KeyOf(out[j], cols) == KeyOf(rows[i], cols);
      forall n | 0 <= n < |ks| ensures Get(out[j], ks[n]) == Get(rows[i], ks[n]) {
        assert ks[n] in ks;
        var m :| 0 <= m < |cols| && cols[m] == ks[n];
        assert KeyOf(out[j], cols)[m] == KeyOf(rows[i], cols)[m];
      }
      assert KeyOf(out[j], ks) == k;
    }
  }

  /**
   * Without an index, dropping exact duplicates keeps every distinct row of
   * the frame and adds none: only repeats go.
   */
  lemma DropExactSameRows(f: Frame)
    requires f.Valid() && f.index == []
    ensures forall o :: o in DropExactDuplicates(f).rows <==> o in f.rows
  {
    var out := Dedup(f.rows, f.cols);
    DedupFromKeys(f.rows, f.cols, {});
    forall o | o in f.rows ensures o in out {
      var i :| 0 <= i < |f.rows| && f.rows[i] == o;
      assert KeyOf(o, f.cols) in KeySet(out, f.cols);
      var j :| 0 <= j < |out| && KeyOf(out[j], f.cols) == KeyOf(o, f.cols);
      assert out[j] in f.rows;
      var m :| 0 <= m < |f.rows| && f.rows[m] == out[j];
      SameKeySameRow(out[j], o, f.cols);
    }
  }

  /** Two rows on exactly the labels `cs` with the same key on `cs` are equal. */
  lemma SameKeySameRow(a: Row, b: Row, cs: seq<string>)
    requires a.Keys == Labels(cs) && b.Keys == Labels(cs) && KeyOf(a, cs) == KeyOf(b, cs)
    ensures a == b
  {
    forall c | c in a ensures a[c] == b[c] {
      var n :| 0 <= n < |cs| && cs[n] == c;
      assert KeyOf(a, cs)[n] == KeyOf(b, cs)[n];
    }
  }

  /**
   * Rows whose column `b` holds what column `a` of `rows` held, and whose
   * column `c` agrees with that of `rows`, have for every key a first row
   * with the same `c`.
   */
  lemma FirstWithMoved(rows: seq<Row>, rows': seq<Row>, a: string, b: string, c: string, k: Key)
    requires |rows| == |rows'| && k in KeySet(rows', [b])
    requires forall i :: 0 <= i < |rows| ==> Get(rows'[i], b) == Get(rows[i], a) && Get(rows'[i], c) == Get(rows[i], c)
    ensures k in KeySet(rows, [a]) && Get(FirstWith(rows', [b], k), c) == Get(FirstWith(rows, [a], k), c)
  {
    KeyColumnMoved(rows, rows', a, b);
  }

  /**
   * Deduplicating on `a` rows that agree with `rows` on `a` and on every
   * label of `cs` leaves one row per key of `rows`, holding under `cs` the
   * cells of that key's first row in `rows`.
   */
  lemma DedupMovedFirst(rows: seq<Row>, rows': seq<Row>, a: string, cs: seq<string>)
    requires |rows| == |rows'|
    requires forall i :: 0 <= i < |rows| ==> Get(rows'[i], a) == Get(rows[i], a)
    requires forall i, c :: 0 <= i < |rows| && c in cs ==> Get(rows'[i], c) == Get(rows[i], c)
    ensures var out := Dedup(rows', [a]);
      && UniqueOn(out, [a])
      && KeySet(out, [a]) == KeySet(rows, [a])
      && (forall j :: 0 <= j < |out| ==> KeyOf(out[j], [a]) in KeySet(rows, [a]))
      && (forall j, c :: 0 <= j < |out| && c in cs ==> Get(out[j], c) == Get(FirstWith(rows, [a], KeyOf(out[j], [a])), c))
  {
    var out := Dedup(rows', [a]);
    KeyColumnMoved(rows, rows', a, a);
    DedupFromKeys(rows', [a], {});
    DedupFromFirst(rows', [a], {});
    forall j | 0 <= j < |out| ensures KeyOf(out[j], [a]) in KeySet(rows, [a]) {
      assert KeyOf(out[j], [a]) in KeySet(out, [a]);
    }
    forall j, c | 0 <= j < |out| && c in cs
      ensures Get(out[j], c) == Get(FirstWith(rows, [a], KeyOf(out[j], [a])), c)
    {
      FirstWithMoved(rows, rows', a, a, c, KeyOf(out[j], [a]));
    }
  }
}
