/** What conditions mean for the cells of a row: which rows of a table a query answers with. */
module Conditions {
  import opened Entries
  import opened Records
  import opened Tables
  import opened Execution

  // ---- The order of strings -------------------------------------------------------------------------

  /** At the first difference a has the smaller byte, or a has ended. */
  ghost predicate Before(a: Bytes, b: Bytes) {
    exists n: nat :: Differ(a, b, n)
  }

  ghost predicate Differ(a: Bytes, b: Bytes, n: nat) {
    n <= |a| && n < |b| && a[..n] == b[..n] && (n == |a| || a[n] < b[n])
  }

  lemma {:induction false} LessIff(a: Bytes, b: Bytes)
    ensures BytesLess(a, b) <==> Before(a, b)
    decreases |a|
  {
    if a == [] || b == [] {
      if b != [] {
        assert Differ(a, b, 0);
      }
    } else {
      LessIff(a[1..], b[1..]);
      if a[0] < b[0] {
        assert Differ(a, b, 0);
      }
      if a[0] == b[0] && Before(a[1..], b[1..]) {
        var n: nat :| Differ(a[1..], b[1..], n);
        Longer(a, b, n);
      }
      if Before(a, b) {
        var n: nat :| Differ(a, b, n);
        if n > 0 {
          Shorter(a, b, n);
        }
      }
    }
  }

  lemma Longer(a: Bytes, b: Bytes, n: nat)
    requires a != [] && b != [] && a[0] == b[0] && Differ(a[1..], b[1..], n)
    ensures Differ(a, b, n + 1)
  {
    assert a[..n + 1] == [a[0]] + a[1..][..n] && b[..n + 1] == [b[0]] + b[1..][..n];
  }

  lemma Shorter(a: Bytes, b: Bytes, n: nat)
    requires n > 0 && Differ(a, b, n)
    ensures a[0] == b[0] && Differ(a[1..], b[1..], n - 1)
  {
    assert a[0] == a[..n][0] && b[0] == b[..n][0];
    assert a[1..][..n - 1] == a[..n][1..] && b[1..][..n - 1] == b[..n][1..];
  }

  /** Of two strings exactly one comes first, unless they are the same. */
  lemma {:induction false} OneFirst(a: Bytes, b: Bytes)
    ensures a == b ==> !Before(a, b)
    ensures a != b ==> (Before(a, b) <==> !Before(b, a))
    decreases |a|
  {
    LessIff(a, b);
    LessIff(b, a);
    if a != [] && b != [] {
      OneFirst(a[1..], b[1..]);
      LessIff(a[1..], b[1..]);
      LessIff(b[1..], a[1..]);
      assert a == [a[0]] + a[1..] && b == [b[0]] + b[1..];
    }
  }

  lemma {:induction false} FirstOfThree(a: Bytes, b: Bytes, c: Bytes)
    requires Before(a, b) && Before(b, c)
    ensures Before(a, c)
  {
    var m: nat :| Differ(a, b, m);
    var n: nat :| Differ(b, c, n);
    var d := if m < n then m else n;
    assert a[..d] == a[..m][..d] && b[..d] == b[..m][..d] && b[..d] == b[..n][..d] && c[..d] == c[..n][..d];
    if m < n {
      assert b[m] == b[..n][m] && c[m] == c[..n][m];
    }
    if n < m {
      assert a[n] == a[..m][n] && b[n] == b[..m][n];
    }
    assert Differ(a, c, d);
  }

  // ---- Conditions on one row ----------------------------------------------------------------------------

  /** Comparing a named value with an integer. */
  lemma EvalInt(d: Dict, n: Name, v: int)
    ensures Eval(Compare(n, Less, Int(v)), d) <==> n in d && d[n].Int? && d[n].i < v
    ensures Eval(Compare(n, Greater, Int(v)), d) <==> n in d && d[n].Int? && d[n].i > v
    ensures Eval(Compare(n, LessEq, Int(v)), d) <==> n in d && d[n].Int? && d[n].i <= v
    ensures Eval(Compare(n, GreaterEq, Int(v)), d) <==> n in d && d[n].Int? && d[n].i >= v
    ensures Eval(Compare(n, NotEq, Int(v)), d) <==> n in d && d[n] != Null && d[n] != Int(v)
  {
  }

  /** And with a string. */
  lemma EvalStr(d: Dict, n: Name, v: Bytes)
    ensures Eval(Compare(n, Less, Str(v)), d) <==> n in d && d[n].Str? && Before(d[n].bytes, v)
    ensures Eval(Compare(n, Greater, Str(v)), d) <==> n in d && d[n].Str? && Before(v, d[n].bytes)
    ensures Eval(Compare(n, LessEq, Str(v)), d) <==> n in d && d[n].Str? && !Before(v, d[n].bytes)
    ensures Eval(Compare(n, GreaterEq, Str(v)), d) <==> n in d && d[n].Str? && !Before(d[n].bytes, v)
    ensures Eval(Compare(n, NotEq, Str(v)), d) <==> n in d && d[n] != Null && d[n] != Str(v)
  {
    if n in d && d[n].Str? {
      LessIff(d[n].bytes, v);
      LessIff(v, d[n].bytes);
      OneFirst(d[n].bytes, v);
    }
  }

  /** Equality, which takes a missing name for NULL, and ranges with both ends. */
  lemma EvalEqual(d: Dict, n: Name, v: Value, low: int, high: int, from: Bytes, to: Bytes)
    ensures Eval(Eq(n, v), d) <==> if n in d then d[n] == v else v == Null
    ensures Eval(Between(n, Int(low), Int(high)), d) <==> n in d && d[n].Int? && low <= d[n].i <= high
    ensures Eval(Between(n, Str(from), Str(to)), d) <==>
            n in d && d[n].Str? && !Before(d[n].bytes, from) && !Before(to, d[n].bytes)
  {
    if n in d && d[n].Str? {
      LessIff(from, d[n].bytes);
      LessIff(d[n].bytes, to);
      OneFirst(d[n].bytes, from);
      OneFirst(d[n].bytes, to);
    }
  }

  /** Inequality with any value. */
  lemma EvalNotEqual(d: Dict, n: Name, v: Value)
    ensures Eval(Compare(n, NotEq, v), d) <==> n in d && d[n] != Null && d[n] != v
  {
  }

  // ---- Conditions on the rows of a table ------------------------------------------------------------------

  /** The rows that a comparison of a column with an integer finds. */
  lemma CompareInt(t: Table, s: Schema, c: nat, v: int)
    requires SchemaOk(s) && TableOk(t, s) && c < |s.columns|
    ensures Matching(t, s, Some(Compare(Plain(s.columns[c]), Less, Int(v)))) ==
            set k | k in t && t[k][c].Int? && t[k][c].i < v
    ensures Matching(t, s, Some(Compare(Plain(s.columns[c]), Greater, Int(v)))) ==
            set k | k in t && t[k][c].Int? && t[k][c].i > v
    ensures Matching(t, s, Some(Compare(Plain(s.columns[c]), LessEq, Int(v)))) ==
            set k | k in t && t[k][c].Int? && t[k][c].i <= v
    ensures Matching(t, s, Some(Compare(Plain(s.columns[c]), GreaterEq, Int(v)))) ==
            set k | k in t && t[k][c].Int? && t[k][c].i >= v
    ensures Matching(t, s, Some(Compare(Plain(s.columns[c]), NotEq, Int(v)))) ==
            set k | k in t && t[k][c] != Null && t[k][c] != Int(v)
  {
    forall k | k in t ensures InDict(s, t[k], c) {
      DictHas(s.columns, t[k], c);
    }
    forall k | k in t {
      EvalInt(ToDict(s.columns, t[k]), Plain(s.columns[c]), v);
    }
  }

  ghost predicate InDict(s: Schema, row: Row, c: nat)
    requires c < |s.columns| && c < |row|
  {
    Plain(s.columns[c]) in ToDict(s.columns, row) && ToDict(s.columns, row)[Plain(s.columns[c])] == row[c]
  }

  /** And of one with a string. */
  lemma CompareStr(t: Table, s: Schema, c: nat, v: Bytes)
    requires SchemaOk(s) && TableOk(t, s) && c < |s.columns|
    ensures Matching(t, s, Some(Compare(Plain(s.columns[c]), Less, Str(v)))) ==
            set k | k in t && t[k][c].Str? && Before(t[k][c].bytes, v)
    ensures Matching(t, s, Some(Compare(Plain(s.columns[c]), Greater, Str(v)))) ==
            set k | k in t && t[k][c].Str? && Before(v, t[k][c].bytes)
    ensures Matching(t, s, Some(Compare(Plain(s.columns[c]), LessEq, Str(v)))) ==
            set k | k in t && t[k][c].Str? && !Before(v, t[k][c].bytes)
    ensures Matching(t, s, Some(Compare(Plain(s.columns[c]), GreaterEq, Str(v)))) ==
            set k | k in t && t[k][c].Str? && !Before(t[k][c].bytes, v)
    ensures Matching(t, s, Some(Compare(Plain(s.columns[c]), NotEq, Str(v)))) ==
            set k | k in t && t[k][c] != Null && t[k][c] != Str(v)
  {
    forall k | k in t ensures InDict(s, t[k], c) {
      DictHas(s.columns, t[k], c);
    }
    forall k | k in t {
      EvalStr(ToDict(s.columns, t[k]), Plain(s.columns[c]), v);
    }
  }

  /** The rows that equality with any value finds, and a range with both ends. */
  lemma EqualOrBetween(t: Table, s: Schema, c: nat, v: Value, low: int, high: int, from: Bytes, to: Bytes)
    requires SchemaOk(s) && TableOk(t, s) && c < |s.columns|
    ensures Matching(t, s, Some(Eq(Plain(s.columns[c]), v))) == set k | k in t && t[k][c] == v
    ensures Matching(t, s, Some(Between(Plain(s.columns[c]), Int(low), Int(high)))) ==
            set k | k in t && t[k][c].Int? && low <= t[k][c].i <= high
    ensures Matching(t, s, Some(Between(Plain(s.columns[c]), Str(from), Str(to)))) ==
            set k | k in t && t[k][c].Str? && !Before(t[k][c].bytes, from) && !Before(to, t[k][c].bytes)
  {
    forall k | k in t ensures InDict(s, t[k], c) {
      DictHas(s.columns, t[k], c);
    }
    forall k | k in t {
      EvalEqual(ToDict(s.columns, t[k]), Plain(s.columns[c]), v, low, high, from, to);
    }
  }

  // ---- Conditions made of others ---------------------------------------------------------------------

  /** Both, either, and no condition at all. */
  lemma EvalBoth(d: Dict, a: Expr, b: Expr)
    ensures Eval(And(a, b), d) <==> Eval(a, d) && Eval(b, d)
    ensures Eval(Or(a, b), d) <==> Eval(a, d) || Eval(b, d)
  {
  }

  lemma Combined(t: Table, s: Schema, a: Expr, b: Expr)
    ensures Matching(t, s, Some(And(a, b))) == Matching(t, s, Some(a)) * Matching(t, s, Some(b))
    ensures Matching(t, s, Some(Or(a, b))) == Matching(t, s, Some(a)) + Matching(t, s, Some(b))
    ensures Matching(t, s, None) == t.Keys
  {
  }

  /** A column that the table has not is NULL in every row. */
  lemma {:induction false} UnknownColumn(t: Table, s: Schema, col: Name, op: Op, v: Value, low: Value, high: Value)
    requires col.Qual? || col.col !in s.columns
    ensures Matching(t, s, Some(Eq(col, v))) == if v == Null then t.Keys else {}
    ensures Matching(t, s, Some(Compare(col, op, v))) == {}
    ensures Matching(t, s, Some(Between(col, low, high))) == {}
  {
    forall k | k in t ensures col !in ToDict(s.columns, t[k]) {
      NotInDict(s.columns, t[k], col);
    }
  }

  lemma {:induction false} NotInDict(columns: seq<string>, row: Row, col: Name)
    requires col.Qual? || col.col !in columns
    ensures col !in ToDict(columns, row)
    decreases |columns|
  {
    if columns != [] && row != [] {
      var n := (if |columns| <= |row| then |columns| else |row|) - 1;
      assert columns[n] in columns;
      NotInDict(columns[..n], row, col);
    }
  }

  // ---- References ----------------------------------------------------------------------------------------

  /** A key is referenced by a column of a table exactly when the query for it finds a row. */
  lemma ReferencesIff(pk: Key, t: Table, s: Schema, c: nat)
    requires SchemaOk(s) && TableOk(t, s) && c < |s.columns|
    ensures References(pk, c, t) <==> Matching(t, s, Some(Eq(Plain(s.columns[c]), Int(pk)))) != {}
  {
    ColumnEqual(t, s, c, pk);
    if References(pk, c, t) {
      var k :| k in t && c < |t[k]| && t[k][c] == Int(pk);
      assert k in Matching(t, s, Some(Eq(Plain(s.columns[c]), Int(pk))));
    }
    if k :| k in Matching(t, s, Some(Eq(Plain(s.columns[c]), Int(pk)))) {
      assert k in t && t[k][c] == Int(pk);
    }
  }
}
