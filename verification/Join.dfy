/** Joins: whatever path finds the right rows, the result is that of the nested loop over both tables, up to order. */
module Joins {
  import opened Entries
  import opened Records
  import opened Tables
  import opened Indexes
  import opened Execution

  // ---- Merged rows -----------------------------------------------------------------------------

  /** The columns of a row under their qualified names. */
  function Qualified(table: string, columns: seq<string>, row: Row): Dict
    decreases |columns|
  {
    if columns == [] || row == [] then map[]
    else
      var n := (if |columns| <= |row| then |columns| else |row|) - 1;
      Qualified(table, columns[..n], row)[Qual(table, columns[n]) := row[n]]
  }

  /** Both rows under qualified names; a plain name means the left row's column when both have it. */
  function Merge(ls: Schema, l: Row, rs: Schema, r: Row): Dict {
    var left := Qualified(ls.table, ls.columns, l) + ToDict(ls.columns, l);
    var right := ToDict(rs.columns, r);
    left + Qualified(rs.table, rs.columns, r) + (map n | n in right && n !in left :: right[n])
  }

  /** What a merged row has under a name: qualified by the right table the right row's cell, by the left table the left
      row's; under a plain name the left row's cell, or if the left table has no such column the right row's; and
      nothing else. */
  ghost predicate CellOk(d: Dict, n: Name, ls: Schema, l: Row, rs: Schema, r: Row) {
    if n.Qual? && n.table == rs.table && n.col in rs.columns then n in d && HasUnder(rs.columns, r, n.col, d[n])
    else if (n.Qual? ==> n.table == ls.table) && n.col in ls.columns then n in d && HasUnder(ls.columns, l, n.col, d[n])
    else if n.Plain? && n.col in rs.columns then n in d && HasUnder(rs.columns, r, n.col, d[n])
    else n !in d
  }

  ghost predicate HasUnder(columns: seq<string>, row: Row, col: string, v: Value) {
    exists i :: 0 <= i < |columns| && i < |row| && columns[i] == col && row[i] == v
  }

  ghost predicate MergedRow(d: Dict, ls: Schema, l: Row, rs: Schema, r: Row) {
    forall n :: CellOk(d, n, ls, l, rs, r)
  }

  lemma {:induction false} QualifiedHas(table: string, columns: seq<string>, row: Row, i: nat)
    requires (forall a, b :: 0 <= a < b < |columns| ==> columns[a] != columns[b]) && |row| >= |columns| && i < |columns|
    ensures Qual(table, columns[i]) in Qualified(table, columns, row)
            && Qualified(table, columns, row)[Qual(table, columns[i])] == row[i]
    decreases |columns|
  {
    var n := |columns| - 1;
    if i < n {
      QualifiedHas(table, columns[..n], row, i);
      assert columns[i] != columns[n];
    }
  }

  lemma {:induction false} QualifiedOnly(table: string, columns: seq<string>, row: Row, n: Name)
    requires n in Qualified(table, columns, row)
    ensures n.Qual? && n.table == table && n.col in columns
    decreases |columns|
  {
    var m := (if |columns| <= |row| then |columns| else |row|) - 1;
    if n != Qual(table, columns[m]) {
      QualifiedOnly(table, columns[..m], row, n);
    }
  }

  lemma {:induction false} DictOnly(columns: seq<string>, row: Row, n: Name)
    requires n in ToDict(columns, row)
    ensures n.Plain? && n.col in columns
    decreases |columns|
  {
    var m := (if |columns| <= |row| then |columns| else |row|) - 1;
    if n != Plain(columns[m]) {
      DictOnly(columns[..m], row, n);
    }
  }

  /** The names that a row has, and what it has under them. */
  lemma {:induction false} NamesOf(s: Schema, row: Row, n: Name)
    requires SchemaOk(s) && |row| == |s.columns|
    ensures n in ToDict(s.columns, row) <==> n.Plain? && n.col in s.columns
    ensures n in ToDict(s.columns, row) ==> HasUnder(s.columns, row, n.col, ToDict(s.columns, row)[n])
    ensures n in Qualified(s.table, s.columns, row) <==> n.Qual? && n.table == s.table && n.col in s.columns
    ensures n in Qualified(s.table, s.columns, row) ==>
              HasUnder(s.columns, row, n.col, Qualified(s.table, s.columns, row)[n])
  {
    if n in ToDict(s.columns, row) {
      DictOnly(s.columns, row, n);
    }
    if n in Qualified(s.table, s.columns, row) {
      QualifiedOnly(s.table, s.columns, row, n);
    }
    if n.col in s.columns {
      var i :| 0 <= i < |s.columns| && s.columns[i] == n.col;
      DictHas(s.columns, row, i);
      QualifiedHas(s.table, s.columns, row, i);
    }
  }

  lemma {:induction false} MergeIs(ls: Schema, l: Row, rs: Schema, r: Row)
    requires SchemaOk(ls) && SchemaOk(rs) && |l| == |ls.columns| && |r| == |rs.columns|
    ensures MergedRow(Merge(ls, l, rs, r), ls, l, rs, r)
  {
    forall n ensures CellOk(Merge(ls, l, rs, r), n, ls, l, rs, r) {
      NamesOf(ls, l, n);
      NamesOf(rs, r, n);
    }
  }

  /** There is only one such row. */
  lemma {:induction false} MergedOnce(d: Dict, e: Dict, ls: Schema, l: Row, rs: Schema, r: Row)
    requires SchemaOk(ls) && SchemaOk(rs) && MergedRow(d, ls, l, rs, r) && MergedRow(e, ls, l, rs, r)
    ensures d == e
  {
    forall n ensures (n in d <==> n in e) && (n in d ==> d[n] == e[n]) {
      assert CellOk(d, n, ls, l, rs, r) && CellOk(e, n, ls, l, rs, r);
    }
    assert d.Keys == e.Keys;
  }

  /** One left row against its right rows. */
  function JoinRows(ls: Schema, l: Row, rs: Schema, rights: seq<Row>, where: Option<Expr>): seq<Dict>
    decreases |rights|
  {
    if rights == [] then []
    else
      var m := Merge(ls, l, rs, rights[|rights| - 1]);
      JoinRows(ls, l, rs, rights[..|rights| - 1], where) + if where == None || Eval(where.value, m) then [m] else []
  }

  /** The rows of a list with a value in a column. */
  function WithValue(s: Schema, rows: seq<Row>, col: string, v: Value): seq<Row>
    decreases |rows|
  {
    if rows == [] then []
    else
      WithValue(s, rows[..|rows| - 1], col, v)
      + if Lookup(ToDict(s.columns, rows[|rows| - 1]), Plain(col)) == v then [rows[|rows| - 1]] else []
  }

  /** The nested loop: every left row against every right row; NULL joins nothing. */
  function NestedLoop(ls: Schema, lefts: seq<Row>, lcol: string, rs: Schema, rights: seq<Row>, rcol: string,
      where: Option<Expr>): seq<Dict>
    decreases |lefts|
  {
    if lefts == [] then []
    else
      var l := lefts[|lefts| - 1];
      var v := Lookup(ToDict(ls.columns, l), Plain(lcol));
      NestedLoop(ls, lefts[..|lefts| - 1], lcol, rs, rights, rcol, where)
      + if v == Null then [] else JoinRows(ls, l, rs, WithValue(rs, rights, rcol, v), where)
  }

  // ---- Order does not matter -----------------------------------------------------------------------

  lemma {:induction false} JoinRowsAppend(ls: Schema, l: Row, rs: Schema, a: seq<Row>, b: seq<Row>, where: Option<Expr>)
    ensures JoinRows(ls, l, rs, a + b, where) == JoinRows(ls, l, rs, a, where) + JoinRows(ls, l, rs, b, where)
    decreases |b|
  {
    if b == [] {
      assert a + b == a;
    } else {
      assert (a + b)[..|a + b| - 1] == a + b[..|b| - 1];
      JoinRowsAppend(ls, l, rs, a, b[..|b| - 1], where);
    }
  }

  /** Right rows in another order join to the same rows in another order. */
  lemma {:induction false} JoinRowsBag(ls: Schema, l: Row, rs: Schema, a: seq<Row>, b: seq<Row>, where: Option<Expr>)
    requires multiset(a) == multiset(b)
    ensures multiset(JoinRows(ls, l, rs, a, where)) == multiset(JoinRows(ls, l, rs, b, where))
    decreases |a|
  {
    if a == [] {
      assert |multiset(b)| == 0;
      assert b == [];
    } else {
      var n := |a| - 1;
      assert a[n] in multiset(a);
      assert a[n] in b;
      var i :| 0 <= i < |b| && b[i] == a[n];
      var c := b[..i] + b[i + 1..];
      RowAway(a, n);
      RowAway(b, i);
      assert a[..n] + a[n + 1..] == a[..n];
      CancelRow(multiset(a[..n]), multiset(c), a[n]);
      JoinRowsBag(ls, l, rs, a[..n], c, where);
      JoinAway(ls, l, rs, a, n, where);
      JoinAway(ls, l, rs, b, i, where);
    }
  }

  lemma CancelRow<T>(m: multiset<T>, n: multiset<T>, r: T)
    requires m + multiset{r} == n + multiset{r}
    ensures m == n
  {
    assert m == (m + multiset{r}) - multiset{r};
    assert n == (n + multiset{r}) - multiset{r};
  }

  lemma RowAway<T>(b: seq<T>, i: nat)
    requires i < |b|
    ensures multiset(b) == multiset(b[..i] + b[i + 1..]) + multiset{b[i]}
  {
    assert b == b[..i] + [b[i]] + b[i + 1..];
  }

  lemma {:induction false} JoinAway(ls: Schema, l: Row, rs: Schema, b: seq<Row>, i: nat, where: Option<Expr>)
    requires i < |b|
    ensures multiset(JoinRows(ls, l, rs, b, where)) ==
            multiset(JoinRows(ls, l, rs, b[..i] + b[i + 1..], where)) + multiset(JoinRows(ls, l, rs, [b[i]], where))
  {
    assert b == (b[..i] + [b[i]]) + b[i + 1..];
    JoinRowsAppend(ls, l, rs, b[..i] + [b[i]], b[i + 1..], where);
    JoinRowsAppend(ls, l, rs, b[..i], [b[i]], where);
    JoinRowsAppend(ls, l, rs, b[..i], b[i + 1..], where);
  }

  // ---- The filter of a full scan ----------------------------------------------------------------------

  function Equals(col: string, v: Value): Option<Expr> {
    Some(Eq(Plain(col), v))
  }

  /** Filtering the scanned rows by a value is the list answer to that condition. */
  lemma {:induction false} FilterIsAnswer(t: Table, s: Schema, ks: seq<Key>, col: string, v: Value)
    returns (qs: seq<Key>)
    requires Increasing(ks) && forall k :: k in ks ==> k in t
    ensures Lists(qs, Kept(ks, t, s, Equals(col, v))) && WithValue(s, RowsFor(ks, t), col, v) == RowsFor(qs, t)
    decreases |ks|
  {
    if ks == [] {
      qs := [];
    } else {
      var n := |ks| - 1;
      assert ks[n] in ks;
      var before := FilterIsAnswer(t, s, ks[..n], col, v);
      ScanStep(ks, n, before, t, s, Equals(col, v));
      assert ks[..n + 1] == ks;
      qs := if Holds(Equals(col, v), s, t[ks[n]]) then before + [ks[n]] else before;
      FilterStep(t, s, ks, col, v, before);
    }
  }

  lemma FilterStep(t: Table, s: Schema, ks: seq<Key>, col: string, v: Value, before: seq<Key>)
    requires ks != [] && ks[|ks| - 1] in t
    requires WithValue(s, RowsFor(ks[..|ks| - 1], t), col, v) == RowsFor(before, t)
    ensures var k := ks[|ks| - 1];
            WithValue(s, RowsFor(ks, t), col, v) ==
            RowsFor(if Holds(Equals(col, v), s, t[k]) then before + [k] else before, t)
  {
    var k, rows, early := ks[|ks| - 1], RowsFor(ks, t), RowsFor(ks[..|ks| - 1], t);
    assert rows == early + [t[k]];
    ValueSnoc(s, early, t[k], col, v);
    if Holds(Equals(col, v), s, t[k]) {
      assert (before + [k])[..|before|] == before;
    }
  }

  lemma ValueSnoc(s: Schema, rows: seq<Row>, row: Row, col: string, v: Value)
    ensures WithValue(s, rows + [row], col, v) ==
            if Holds(Equals(col, v), s, row) then WithValue(s, rows, col, v) + [row] else WithValue(s, rows, col, v)
  {
    assert (rows + [row])[..|rows|] == rows;
    assert WithValue(s, rows, col, v) + [] == WithValue(s, rows, col, v);
  }

  lemma ScanFilter(t: Table, s: Schema, rights: seq<Row>, col: string, v: Value)
    requires ListAnswer(rights, t, s, None)
    ensures ListAnswer(WithValue(s, rights, col, v), t, s, Equals(col, v))
  {
    var ks :| Lists(ks, Matching(t, s, None)) && rights == RowsFor(ks, t);
    forall k | k in ks ensures k in t {
      assert k in SetOf(ks);
    }
    var _ := FilterIsAnswer(t, s, ks, col, v);
    assert Kept(ks, t, s, Equals(col, v)) == Matching(t, s, Equals(col, v));
  }

  // ---- The join -------------------------------------------------------------------------------------------

  /** Values joined with the right key or an indexed right column are integers. */
  ghost predicate Joinable(left: Executor, right: Executor, lcol: string, rcol: string)
    reads left, left.engine, right, right.engine, right.indexes
    requires right.schema.pk < |right.schema.columns|
  {
    forall k :: k in left.engine.rows ==>
      var v := Lookup(ToDict(left.schema.columns, left.engine.rows[k]), Plain(lcol));
      v != Null ==> right.Asks(Equals(rcol, v))
  }

  // ---- The selected columns --------------------------------------------------------------------------

  /** A merged row with the selected columns; without a selection, all qualified names. None when a column is
      unknown. */
  function Project(d: Dict, columns: Option<seq<Name>>): Option<Dict> {
    match columns
    case None => Some(map n | n in d && n.Qual? :: d[n])
    case Some(names) => if forall n :: n in names ==> n in d then Some(map n | n in names :: d[n]) else None
  }

  /** All rows projected; an unknown column in any of them is an error. */
  function ProjectAll(ds: seq<Dict>, columns: Option<seq<Name>>): Option<seq<Dict>>
    decreases |ds|
  {
    if ds == [] then Some([])
    else
      var before, last := ProjectAll(ds[..|ds| - 1], columns), Project(ds[|ds| - 1], columns);
      if before == None || last == None then None else Some(before.value + [last.value])
  }

  lemma {:induction false} ProjectAppend(a: seq<Dict>, b: seq<Dict>, columns: Option<seq<Name>>)
    ensures var x, y := ProjectAll(a, columns), ProjectAll(b, columns);
            ProjectAll(a + b, columns) == if x == None || y == None then None else Some(x.value + y.value)
    decreases |b|
  {
    if b == [] {
      assert a + b == a;
      var x := ProjectAll(a, columns);
      if x.Some? {
        assert x.value + [] == x.value;
      }
    } else {
      var n := |b| - 1;
      assert (a + b)[..|a + b| - 1] == a + b[..n] && (a + b)[|a + b| - 1] == b[n];
      ProjectAppend(a, b[..n], columns);
      var x, y, z := ProjectAll(a, columns), ProjectAll(b[..n], columns), Project(b[n], columns);
      if x.Some? && y.Some? && z.Some? {
        assert x.value + y.value + [z.value] == x.value + (y.value + [z.value]);
      }
    }
  }

  /** The same rows up to order. */
  ghost predicate SameBag(x: Option<seq<Dict>>, y: Option<seq<Dict>>) {
    x.Some? == y.Some? && (x.Some? ==> multiset(x.value) == multiset(y.value))
  }

  /** Rows in another order project to the same rows in another order. */
  lemma {:induction false} ProjectBag(a: seq<Dict>, b: seq<Dict>, columns: Option<seq<Name>>)
    requires multiset(a) == multiset(b)
    ensures SameBag(ProjectAll(a, columns), ProjectAll(b, columns))
    decreases |a|
  {
    if a == [] {
      assert |multiset(b)| == 0;
      assert b == [];
    } else {
      var n := |a| - 1;
      assert a == a[..n] + [a[n]] && a[n] in multiset(b);
      var i :| 0 <= i < |b| && b[i] == a[n];
      var rest := b[..i] + b[i + 1..];
      assert b == b[..i] + [b[i]] + b[i + 1..];
      RowAway(b, i);
      CancelRow(multiset(a[..n]), multiset(rest), a[n]);
      ProjectBag(a[..n], rest, columns);
      ProjectMoved(b[..i], b[i], b[i + 1..], columns);
      OneProjected(a[..n], rest, b[i], columns);
      assert SameBag(ProjectAll(a, columns), ProjectAll(rest + [b[i]], columns));
      assert SameBag(ProjectAll(b, columns), ProjectAll(rest + [b[i]], columns));
      assert a[..n] + [b[i]] == a;
    }
  }

  lemma {:induction false} OneProjected(a: seq<Dict>, b: seq<Dict>, d: Dict, columns: Option<seq<Name>>)
    requires SameBag(ProjectAll(a, columns), ProjectAll(b, columns))
    ensures SameBag(ProjectAll(a + [d], columns), ProjectAll(b + [d], columns))
  {
    ProjectAppend(a, [d], columns);
    ProjectAppend(b, [d], columns);
  }

  /** A row moved to the end. */
  lemma {:induction false} ProjectMoved(x: seq<Dict>, d: Dict, y: seq<Dict>, columns: Option<seq<Name>>)
    ensures SameBag(ProjectAll(x + [d] + y, columns), ProjectAll(x + y + [d], columns))
  {
    ProjectAppend(x + [d], y, columns);
    ProjectAppend(x, [d], columns);
    ProjectAppend(x + y, [d], columns);
    ProjectAppend(x, y, columns);
  }

  // ---- The result by pairs of rows ---------------------------------------------------------------------

  /** A join as it is asked: both tables, the columns joined, and the condition on the merged rows. */
  datatype Query = Query(lt: Table, ls: Schema, lcol: string, rt: Table, rs: Schema, rcol: string, where: Option<Expr>)

  type Pair = (Key, Key)

  ghost predicate QueryOk(q: Query) {
    SchemaOk(q.ls) && SchemaOk(q.rs) && TableOk(q.lt, q.ls) && TableOk(q.rt, q.rs)
  }

  /** Two rows join: the same value other than NULL in the columns joined, and the condition holds of the merged row. */
  ghost predicate PairJoins(q: Query, p: Pair) {
    && p.0 in q.lt && p.1 in q.rt
    && (exists v :: v != Null && HasUnder(q.ls.columns, q.lt[p.0], q.lcol, v)
                    && HasUnder(q.rs.columns, q.rt[p.1], q.rcol, v))
    && (q.where.Some? ==>
          forall d :: MergedRow(d, q.ls, q.lt[p.0], q.rs, q.rt[p.1]) ==> Eval(q.where.value, d))
  }

  /** The columns selected of a merged row; all qualified ones without a selection. */
  ghost predicate Selects(row: Dict, d: Dict, columns: Option<seq<Name>>) {
    && (forall n :: n in row <==> if columns == None then n in d && n.Qual? else n in columns.value)
    && forall n :: n in row ==> n in d && row[n] == d[n]
  }

  ghost predicate PairRow(q: Query, p: Pair, row: Dict, columns: Option<seq<Name>>) {
    && p.0 in q.lt && p.1 in q.rt
    && exists d :: MergedRow(d, q.ls, q.lt[p.0], q.rs, q.rt[p.1]) && Selects(row, d, columns)
  }

  /** The pairs that join, each once. */
  ghost predicate ListsPairs(q: Query, ps: seq<Pair>) {
    && (forall i, j :: 0 <= i < j < |ps| ==> ps[i] != ps[j])
    && forall p :: p in ps <==> PairJoins(q, p)
  }

  /** One row for each pair of rows that join, with the columns selected. */
  ghost predicate JoinAnswer(q: Query, rows: seq<Dict>, columns: Option<seq<Name>>) {
    exists ps :: ListsPairs(q, ps) && |rows| == |ps|
                 && forall i :: 0 <= i < |ps| ==> PairRow(q, ps[i], rows[i], columns)
  }

  /** A name that no merged row has. */
  predicate Unknown(q: Query, n: Name) {
    match n
    case Plain(col) => col !in q.ls.columns && col !in q.rs.columns
    case Qual(table, col) =>
      !(table == q.ls.table && col in q.ls.columns) && !(table == q.rs.table && col in q.rs.columns)
  }

  ghost predicate SomeUnknown(q: Query, columns: Option<seq<Name>>) {
    columns.Some? && exists n :: n in columns.value && Unknown(q, n)
  }

  ghost function MergedAll(q: Query, ps: seq<Pair>): (ds: seq<Dict>)
    requires forall p :: p in ps ==> p.0 in q.lt && p.1 in q.rt
    ensures |ds| == |ps|
  {
    seq(|ps|, i requires 0 <= i < |ps| => Merge(q.ls, q.lt[ps[i].0], q.rs, q.rt[ps[i].1]))
  }

  /** The pairs of one left row, in the order of the right keys. */
  ghost function PairsWith(q: Query, a: Key, ks: seq<Key>): (ps: seq<Pair>)
    ensures forall p :: p in ps ==> p.0 == a && PairJoins(q, p)
    decreases |ks|
  {
    if ks == [] then []
    else
      var n := |ks| - 1;
      PairsWith(q, a, ks[..n]) + if PairJoins(q, (a, ks[n])) then [(a, ks[n])] else []
  }

  ghost function AllPairs(q: Query, as_: seq<Key>, ks: seq<Key>): (ps: seq<Pair>)
    ensures forall p :: p in ps ==> PairJoins(q, p)
    decreases |as_|
  {
    if as_ == [] then [] else AllPairs(q, as_[..|as_| - 1], ks) + PairsWith(q, as_[|as_| - 1], ks)
  }

  /** The value that a row has in a column. */
  lemma ValueIs(s: Schema, row: Row, col: string, v: Value)
    requires SchemaOk(s) && |row| == |s.columns|
    ensures HasUnder(s.columns, row, col, v) ==> Lookup(ToDict(s.columns, row), Plain(col)) == v
    ensures v != Null && Lookup(ToDict(s.columns, row), Plain(col)) == v ==> HasUnder(s.columns, row, col, v)
  {
    NamesOf(s, row, Plain(col));
    if HasUnder(s.columns, row, col, v) {
      var i :| 0 <= i < |s.columns| && i < |row| && s.columns[i] == col && row[i] == v;
      DictHas(s.columns, row, i);
    }
  }

  /** Two rows join exactly when the loop keeps them. */
  lemma JoinsIff(q: Query, p: Pair)
    requires QueryOk(q) && p.0 in q.lt && p.1 in q.rt
    ensures var v := Lookup(ToDict(q.ls.columns, q.lt[p.0]), Plain(q.lcol));
            PairJoins(q, p) <==>
              && v != Null && Lookup(ToDict(q.rs.columns, q.rt[p.1]), Plain(q.rcol)) == v
              && (q.where == None || Eval(q.where.value, Merge(q.ls, q.lt[p.0], q.rs, q.rt[p.1])))
  {
    var l, r := q.lt[p.0], q.rt[p.1];
    var v, m := Lookup(ToDict(q.ls.columns, l), Plain(q.lcol)), Merge(q.ls, l, q.rs, r);
    MergeIs(q.ls, l, q.rs, r);
    forall d | MergedRow(d, q.ls, l, q.rs, r) ensures d == m {
      MergedOnce(d, m, q.ls, l, q.rs, r);
    }
    ValueIs(q.ls, l, q.lcol, v);
    ValueIs(q.rs, r, q.rcol, v);
    if w :| w != Null && HasUnder(q.ls.columns, l, q.lcol, w) && HasUnder(q.rs.columns, r, q.rcol, w) {
      ValueIs(q.ls, l, q.lcol, w);
      ValueIs(q.rs, r, q.rcol, w);
    }
  }

  lemma {:induction false} RowPairs(q: Query, a: Key, ks: seq<Key>)
    requires QueryOk(q) && a in q.lt && forall k :: k in ks ==> k in q.rt
    ensures var v := Lookup(ToDict(q.ls.columns, q.lt[a]), Plain(q.lcol));
            MergedAll(q, PairsWith(q, a, ks)) ==
            if v == Null then []
            else JoinRows(q.ls, q.lt[a], q.rs, WithValue(q.rs, RowsOf(ks, q.rt), q.rcol, v), q.where)
    decreases |ks|
  {
    if ks != [] {
      var n := |ks| - 1;
      assert ks[n] in ks;
      RowPairs(q, a, ks[..n]);
      JoinsIff(q, (a, ks[n]));
      var rows := RowsOf(ks, q.rt);
      assert rows[..n] == RowsOf(ks[..n], q.rt) && rows[n] == q.rt[ks[n]];
      OneRowMore(q, a, ks, rows);
    }
  }

  lemma {:induction false} OneRowMore(q: Query, a: Key, ks: seq<Key>, rows: seq<Row>)
    requires ks != [] && a in q.lt && (forall k :: k in ks ==> k in q.rt) && |rows| == |ks|
    requires rows[|ks| - 1] == q.rt[ks[|ks| - 1]]
    requires var v := Lookup(ToDict(q.ls.columns, q.lt[a]), Plain(q.lcol));
             PairJoins(q, (a, ks[|ks| - 1])) <==>
               && v != Null && Lookup(ToDict(q.rs.columns, rows[|ks| - 1]), Plain(q.rcol)) == v
               && (q.where == None || Eval(q.where.value, Merge(q.ls, q.lt[a], q.rs, rows[|ks| - 1])))
    ensures var v := Lookup(ToDict(q.ls.columns, q.lt[a]), Plain(q.lcol));
            var n := |ks| - 1;
            var more := if PairJoins(q, (a, ks[n])) then [Merge(q.ls, q.lt[a], q.rs, rows[n])] else [];
            && MergedAll(q, PairsWith(q, a, ks)) == MergedAll(q, PairsWith(q, a, ks[..n])) + more
            && (v != Null ==>
                  JoinRows(q.ls, q.lt[a], q.rs, WithValue(q.rs, rows, q.rcol, v), q.where) ==
                  JoinRows(q.ls, q.lt[a], q.rs, WithValue(q.rs, rows[..n], q.rcol, v), q.where) + more)
  {
    var n := |ks| - 1;
    var v := Lookup(ToDict(q.ls.columns, q.lt[a]), Plain(q.lcol));
    OnePairMore(q, a, ks);
    JoinOneMore(q.ls, q.lt[a], q.rs, rows, q.rcol, v, q.where);
    assert (if PairJoins(q, (a, ks[n])) then [Merge(q.ls, q.lt[a], q.rs, rows[n])] else []) + [] ==
           if PairJoins(q, (a, ks[n])) then [Merge(q.ls, q.lt[a], q.rs, rows[n])] else [];
  }

  lemma {:induction false} OnePairMore(q: Query, a: Key, ks: seq<Key>)
    requires ks != [] && a in q.lt && (forall k :: k in ks ==> k in q.rt)
    ensures var n := |ks| - 1;
            MergedAll(q, PairsWith(q, a, ks)) == MergedAll(q, PairsWith(q, a, ks[..n]))
              + if PairJoins(q, (a, ks[n])) then [Merge(q.ls, q.lt[a], q.rs, q.rt[ks[n]])] else []
  {
    var n := |ks| - 1;
    if PairJoins(q, (a, ks[n])) {
      MergedAppend(q, PairsWith(q, a, ks[..n]), [(a, ks[n])]);
    } else {
      assert PairsWith(q, a, ks) == PairsWith(q, a, ks[..n]);
    }
  }

  lemma {:induction false} JoinOneMore(ls: Schema, l: Row, rs: Schema, rows: seq<Row>, col: string, v: Value,
                                       where: Option<Expr>)
    requires rows != []
    ensures var n := |rows| - 1;
            var m := Merge(ls, l, rs, rows[n]);
            JoinRows(ls, l, rs, WithValue(rs, rows, col, v), where) ==
            JoinRows(ls, l, rs, WithValue(rs, rows[..n], col, v), where)
              + if Lookup(ToDict(rs.columns, rows[n]), Plain(col)) == v && (where == None || Eval(where.value, m))
                then [m] else []
  {
    var n := |rows| - 1;
    var before := WithValue(rs, rows[..n], col, v);
    if Lookup(ToDict(rs.columns, rows[n]), Plain(col)) == v {
      assert (before + [rows[n]])[..|before|] == before;
    } else {
      assert before + [] == before;
      assert WithValue(rs, rows, col, v) == before;
      var joined := JoinRows(ls, l, rs, before, where);
      assert joined + [] == joined;
    }
  }

  lemma {:induction false} LoopPairs(q: Query, as_: seq<Key>, ks: seq<Key>)
    requires QueryOk(q) && (forall a :: a in as_ ==> a in q.lt) && forall k :: k in ks ==> k in q.rt
    ensures MergedAll(q, AllPairs(q, as_, ks)) ==
            NestedLoop(q.ls, RowsOf(as_, q.lt), q.lcol, q.rs, RowsOf(ks, q.rt), q.rcol, q.where)
    decreases |as_|
  {
    if as_ != [] {
      var n := |as_| - 1;
      assert as_[n] in as_;
      LoopPairs(q, as_[..n], ks);
      RowPairs(q, as_[n], ks);
      LoopSnoc(q, RowsOf(as_, q.lt), RowsOf(ks, q.rt));
      assert RowsOf(as_, q.lt)[..n] == RowsOf(as_[..n], q.lt);
      MergedAppend(q, AllPairs(q, as_[..n], ks), PairsWith(q, as_[n], ks));
    }
  }

  lemma LoopSnoc(q: Query, lefts: seq<Row>, rights: seq<Row>)
    requires lefts != []
    ensures var l := lefts[|lefts| - 1];
            var v := Lookup(ToDict(q.ls.columns, l), Plain(q.lcol));
            NestedLoop(q.ls, lefts, q.lcol, q.rs, rights, q.rcol, q.where) ==
            NestedLoop(q.ls, lefts[..|lefts| - 1], q.lcol, q.rs, rights, q.rcol, q.where)
              + if v == Null then [] else JoinRows(q.ls, l, q.rs, WithValue(q.rs, rights, q.rcol, v), q.where)
  {
  }

  lemma MergedAppend(q: Query, a: seq<Pair>, b: seq<Pair>)
    requires (forall p :: p in a ==> p.0 in q.lt && p.1 in q.rt) && forall p :: p in b ==> p.0 in q.lt && p.1 in q.rt
    ensures MergedAll(q, a + b) == MergedAll(q, a) + MergedAll(q, b)
  {
  }

  // ---- Each pair once ------------------------------------------------------------------------------------

  lemma {:induction false} PairsOnce(q: Query, a: Key, ks: seq<Key>)
    requires NoRepeat(ks)
    ensures var ps := PairsWith(q, a, ks);
            && (forall i, j :: 0 <= i < j < |ps| ==> ps[i] != ps[j])
            && forall k :: (a, k) in ps <==> k in ks && PairJoins(q, (a, k))
    decreases |ks|
  {
    if ks != [] {
      var n := |ks| - 1;
      PairsOnce(q, a, ks[..n]);
      LastNew(ks);
      assert forall k :: k in ks <==> k in ks[..n] || k == ks[n];
      assert ks[n] !in ks[..n];
    }
  }

  lemma {:induction false} AllOnce(q: Query, as_: seq<Key>, ks: seq<Key>)
    requires NoRepeat(as_) && NoRepeat(ks)
    ensures var ps := AllPairs(q, as_, ks);
            && (forall i, j :: 0 <= i < j < |ps| ==> ps[i] != ps[j])
            && forall p :: p in ps <==> p.0 in as_ && p.1 in ks && PairJoins(q, p)
    decreases |as_|
  {
    if as_ != [] {
      var n := |as_| - 1;
      AllOnce(q, as_[..n], ks);
      PairsOnce(q, as_[n], ks);
      LastNew(as_);
      assert forall a :: a in as_ <==> a in as_[..n] || a == as_[n];
      assert as_[n] !in as_[..n];
      var x, y := AllPairs(q, as_[..n], ks), PairsWith(q, as_[n], ks);
      Apart(x, y);
      forall p: Pair ensures p in x + y <==> p.0 in as_ && p.1 in ks && PairJoins(q, p) {
        assert p in x + y <==> p in x || p in y;
        if p.0 == as_[n] {
          assert p == (as_[n], p.1);
        }
      }
    }
  }

  lemma Apart(x: seq<Pair>, y: seq<Pair>)
    requires (forall i, j :: 0 <= i < j < |x| ==> x[i] != x[j]) && (forall i, j :: 0 <= i < j < |y| ==> y[i] != y[j])
    requires forall p :: p in x ==> p !in y
    ensures forall i, j :: 0 <= i < j < |x + y| ==> (x + y)[i] != (x + y)[j]
  {
    var z := x + y;
    forall i, j | 0 <= i < j < |z| ensures z[i] != z[j] {
      assert z[i] == if i < |x| then x[i] else y[i - |x|];
      assert z[j] == if j < |x| then x[j] else y[j - |x|];
      if i < |x| <= j {
        assert x[i] in x && y[j - |x|] in y;
      }
    }
  }

  /** The merged rows of a list of pairs in another order are those of the pairs in another order. */
  lemma {:induction false} Reorder(q: Query, ds: seq<Dict>, ps: seq<Pair>) returns (qs: seq<Pair>)
    requires (forall p :: p in ps ==> p.0 in q.lt && p.1 in q.rt) && multiset(ds) == multiset(MergedAll(q, ps))
    ensures multiset(qs) == multiset(ps) && (forall p :: p in qs ==> p.0 in q.lt && p.1 in q.rt)
    ensures ds == MergedAll(q, qs)
    decreases |ds|
  {
    if ds == [] {
      assert |multiset(MergedAll(q, ps))| == 0;
      qs := [];
      assert ps == [];
    } else {
      var i := PlaceOf(ds[|ds| - 1], MergedAll(q, ps), ds);
      LeaveOut(q, ds, ps, i);
      var before := Reorder(q, ds[..|ds| - 1], ps[..i] + ps[i + 1..]);
      qs := before + [ps[i]];
      PutBack(q, ds, ps, i, before);
    }
  }

  lemma PlaceOf(d: Dict, es: seq<Dict>, ds: seq<Dict>) returns (i: nat)
    requires d in ds && multiset(ds) == multiset(es)
    ensures i < |es| && es[i] == d
  {
    assert d in multiset(es);
    i :| 0 <= i < |es| && es[i] == d;
  }

  lemma PutBack(q: Query, ds: seq<Dict>, ps: seq<Pair>, i: nat, before: seq<Pair>)
    requires (forall p :: p in ps ==> p.0 in q.lt && p.1 in q.rt) && i < |ps| && ds != []
    requires (forall p :: p in before ==> p.0 in q.lt && p.1 in q.rt) && ds[..|ds| - 1] == MergedAll(q, before)
    requires multiset(before) == multiset(ps[..i] + ps[i + 1..]) && MergedAll(q, ps)[i] == ds[|ds| - 1]
    ensures multiset(before + [ps[i]]) == multiset(ps) && ds == MergedAll(q, before + [ps[i]])
    ensures forall p :: p in before + [ps[i]] ==> p.0 in q.lt && p.1 in q.rt
  {
    RowAway(ps, i);
    assert ps[i] in ps;
    MergedAppend(q, before, [ps[i]]);
    assert ds == ds[..|ds| - 1] + [ds[|ds| - 1]];
  }

  lemma LeaveOut(q: Query, ds: seq<Dict>, ps: seq<Pair>, i: nat)
    requires (forall p :: p in ps ==> p.0 in q.lt && p.1 in q.rt) && multiset(ds) == multiset(MergedAll(q, ps))
    requires ds != [] && i < |ps| && MergedAll(q, ps)[i] == ds[|ds| - 1]
    ensures forall p :: p in ps[..i] + ps[i + 1..] ==> p in ps
    ensures multiset(ds[..|ds| - 1]) == multiset(MergedAll(q, ps[..i] + ps[i + 1..]))
  {
    var n, es, rest := |ds| - 1, MergedAll(q, ps), ps[..i] + ps[i + 1..];
    assert ds == ds[..n] + [ds[n]];
    assert forall p :: p in rest ==> p in ps;
    assert MergedAll(q, rest) == es[..i] + es[i + 1..];
    RowAway(es, i);
    CancelRow(multiset(ds[..n]), multiset(MergedAll(q, rest)), ds[n]);
  }

  lemma OnceInAnyOrder(ps: seq<Pair>, qs: seq<Pair>)
    requires multiset(ps) == multiset(qs) && forall i, j :: 0 <= i < j < |ps| ==> ps[i] != ps[j]
    ensures forall i, j :: 0 <= i < j < |qs| ==> qs[i] != qs[j]
    ensures forall p :: p in qs <==> p in ps
  {
    forall p ensures p in qs <==> p in ps {
      assert p in qs <==> p in multiset(qs);
      assert p in ps <==> p in multiset(ps);
    }
    forall i, j | 0 <= i < j < |qs| ensures qs[i] != qs[j] {
      if qs[i] == qs[j] {
        TwiceIn(qs, i, j);
        AtMostOnce(ps, qs[i]);
      }
    }
  }

  lemma TwiceIn(qs: seq<Pair>, i: nat, j: nat)
    requires i < j < |qs| && qs[i] == qs[j]
    ensures multiset(qs)[qs[i]] >= 2
  {
    assert qs == qs[..i] + [qs[i]] + (qs[i + 1..j] + [qs[j]] + qs[j + 1..]);
  }

  lemma {:induction false} AtMostOnce(ps: seq<Pair>, p: Pair)
    requires forall i, j :: 0 <= i < j < |ps| ==> ps[i] != ps[j]
    ensures multiset(ps)[p] <= 1
    decreases |ps|
  {
    if ps != [] {
      var n := |ps| - 1;
      AtMostOnce(ps[..n], p);
      assert ps == ps[..n] + [ps[n]];
      assert ps[n] !in ps[..n];
    }
  }

  // ---- From the loop to the pairs ------------------------------------------------------------------------

  /** The merged rows, in any order, are those of the pairs that join. */
  lemma {:induction false} PairsOf(q: Query, merged: seq<Dict>, lefts: seq<Row>, rights: seq<Row>)
    returns (ps: seq<Pair>)
    requires QueryOk(q) && ListAnswer(lefts, q.lt, q.ls, None) && ListAnswer(rights, q.rt, q.rs, None)
    requires multiset(merged) == multiset(NestedLoop(q.ls, lefts, q.lcol, q.rs, rights, q.rcol, q.where))
    ensures ListsPairs(q, ps) && merged == MergedAll(q, ps)
  {
    var as_ := AllKeys(q.lt, q.ls, lefts);
    var ks := AllKeys(q.rt, q.rs, rights);
    LoopPairs(q, as_, ks);
    AllOnce(q, as_, ks);
    var all := AllPairs(q, as_, ks);
    ps := Reorder(q, merged, all);
    OnceInAnyOrder(all, ps);
    forall p ensures p in ps <==> PairJoins(q, p) {
      assert p in ps <==> p in all;
    }
  }

  lemma AllKeys(t: Table, s: Schema, rows: seq<Row>) returns (ks: seq<Key>)
    requires ListAnswer(rows, t, s, None)
    ensures NoRepeat(ks) && (forall k :: k in ks <==> k in t) && rows == RowsOf(ks, t)
  {
    ks :| Lists(ks, Matching(t, s, None)) && rows == RowsFor(ks, t);
    KeysAll(ks, t, s);
    RowsForAre(ks, t);
  }

  lemma KeysAll(ks: seq<Key>, t: Table, s: Schema)
    requires Lists(ks, Matching(t, s, None))
    ensures NoRepeat(ks) && forall k :: k in ks <==> k in t
  {
    forall k ensures k in ks <==> k in t {
      assert k in ks <==> k in SetOf(ks);
    }
  }

  /** A merged row projects to what is selected of it, unless a selected name is unknown. */
  lemma ProjectSelects(q: Query, p: Pair, columns: Option<seq<Name>>)
    requires QueryOk(q) && p.0 in q.lt && p.1 in q.rt
    ensures var r := Project(Merge(q.ls, q.lt[p.0], q.rs, q.rt[p.1]), columns);
            && (r == None <==> SomeUnknown(q, columns))
            && (r.Some? ==> PairRow(q, p, r.value, columns))
  {
    var d := Merge(q.ls, q.lt[p.0], q.rs, q.rt[p.1]);
    MergeIs(q.ls, q.lt[p.0], q.rs, q.rt[p.1]);
    forall n ensures n in d <==> !Unknown(q, n) {
      assert CellOk(d, n, q.ls, q.lt[p.0], q.rs, q.rt[p.1]);
    }
    var r := Project(d, columns);
    if r.Some? {
      assert Selects(r.value, d, columns);
    }
  }

  ghost predicate Projected(q: Query, ps: seq<Pair>, r: Option<seq<Dict>>, columns: Option<seq<Name>>) {
    && (r == None <==> ps != [] && SomeUnknown(q, columns))
    && (r.Some? ==> |r.value| == |ps| && forall i :: 0 <= i < |ps| ==> PairRow(q, ps[i], r.value[i], columns))
  }

  lemma {:induction false} AllProjected(q: Query, ps: seq<Pair>, columns: Option<seq<Name>>)
    requires QueryOk(q) && forall p :: p in ps ==> p.0 in q.lt && p.1 in q.rt
    ensures Projected(q, ps, ProjectAll(MergedAll(q, ps), columns), columns)
    decreases |ps|
  {
    if ps != [] {
      var n := |ps| - 1;
      assert ps[n] in ps;
      AllProjected(q, ps[..n], columns);
      ProjectSelects(q, ps[n], columns);
      ProjectSnoc(q, ps, columns);
      OneProjectedMore(q, ps, ProjectAll(MergedAll(q, ps[..n]), columns),
        Project(Merge(q.ls, q.lt[ps[n].0], q.rs, q.rt[ps[n].1]), columns), columns);
    }
  }

  lemma OneProjectedMore(q: Query, ps: seq<Pair>, before: Option<seq<Dict>>, last: Option<Dict>,
                         columns: Option<seq<Name>>)
    requires ps != [] && Projected(q, ps[..|ps| - 1], before, columns)
    requires last == None <==> SomeUnknown(q, columns)
    requires last.Some? ==> PairRow(q, ps[|ps| - 1], last.value, columns)
    ensures Projected(q, ps, if before == None || last == None then None else Some(before.value + [last.value]),
                      columns)
  {
  }

  lemma ProjectSnoc(q: Query, ps: seq<Pair>, columns: Option<seq<Name>>)
    requires ps != [] && forall p :: p in ps ==> p.0 in q.lt && p.1 in q.rt
    ensures var n := |ps| - 1;
            ps[n] in ps &&
            var before, last := ProjectAll(MergedAll(q, ps[..n]), columns),
                                Project(Merge(q.ls, q.lt[ps[n].0], q.rs, q.rt[ps[n].1]), columns);
            ProjectAll(MergedAll(q, ps), columns) ==
            if before == None || last == None then None else Some(before.value + [last.value])
  {
    assert MergedAll(q, ps)[..|ps| - 1] == MergedAll(q, ps[..|ps| - 1]);
  }

  /** SELECT ... JOIN: one row for each pair of rows with the same value other than NULL in the columns joined whose
      merged row satisfies the condition, with the columns selected; an error if there is such a pair and a selected
      name is unknown. */
  method JoinSelect(left: Executor, right: Executor, lcol: string, rcol: string, where: Option<Expr>,
      columns: Option<seq<Name>>)
    returns (result: Option<seq<Dict>>, ghost lefts: seq<Row>, ghost rights: seq<Row>)
    requires left.Valid() && right.Valid() && Joinable(left, right, lcol, rcol)
    ensures ListAnswer(lefts, left.engine.rows, left.schema, None)
            && ListAnswer(rights, right.engine.rows, right.schema, None)
    ensures SameBag(result, ProjectAll(NestedLoop(left.schema, lefts, lcol, right.schema, rights, rcol, where),
            columns))
    ensures var q := Query(left.engine.rows, left.schema, lcol, right.engine.rows, right.schema, rcol, where);
            && (result.Some? ==> JoinAnswer(q, result.value, columns))
            && (result == None <==> (exists p :: PairJoins(q, p)) && SomeUnknown(q, columns))
  {
    var merged;
    merged, lefts, rights := JoinMerged(left, right, lcol, rcol, where);
    ProjectBag(merged, NestedLoop(left.schema, lefts, lcol, right.schema, rights, rcol, where), columns);
    result := ProjectRows(merged, columns);
    ghost var q := Query(left.engine.rows, left.schema, lcol, right.engine.rows, right.schema, rcol, where);
    ghost var ps := PairsOf(q, merged, lefts, rights);
    AllProjected(q, ps, columns);
    if ps != [] {
      assert ps[0] in ps;
    }
  }

  /** The selected columns of each row, or an error. */
  method ProjectRows(merged: seq<Dict>, columns: Option<seq<Name>>) returns (result: Option<seq<Dict>>)
    ensures result == ProjectAll(merged, columns)
  {
    var rows: seq<Dict> := [];
    for i := 0 to |merged|
      invariant ProjectAll(merged[..i], columns) == Some(rows)
    {
      assert merged[..i + 1][..i] == merged[..i] && merged == merged[..i + 1] + merged[i + 1..];
      ProjectAppend(merged[..i + 1], merged[i + 1..], columns);
      var d := Project(merged[i], columns);
      if d == None {
        return None;
      }
      rows := rows + [d.value];
    }
    assert merged[..|merged|] == merged;
    result := Some(rows);
  }

  /** Probe the right table once for every left row. */
  method JoinMerged(left: Executor, right: Executor, lcol: string, rcol: string, where: Option<Expr>)
    returns (result: seq<Dict>, ghost lefts: seq<Row>, ghost rights: seq<Row>)
    requires left.Valid() && right.Valid() && Joinable(left, right, lcol, rcol)
    ensures ListAnswer(lefts, left.engine.rows, left.schema, None)
            && ListAnswer(rights, right.engine.rows, right.schema, None)
    ensures multiset(result) == multiset(NestedLoop(left.schema, lefts, lcol, right.schema, rights, rcol, where))
  {
    var lrows := left.FullScan(None);
    lefts := lrows;
    var rrows := right.FullScan(None);
    rights := rrows;
    forall i | 0 <= i < |lrows| ensures RowAsks(left.schema, lrows[i], lcol, right, rcol) {
      RowOfTable(lrows, i, left.engine.rows, left.schema);
    }
    result := ProbeAll(left.schema, lrows, lcol, right, rcol, where, rights);
  }

  ghost predicate RowAsks(ls: Schema, l: Row, lcol: string, right: Executor, rcol: string)
    reads right, right.indexes
    requires right.schema.pk < |right.schema.columns|
  {
    var v := Lookup(ToDict(ls.columns, l), Plain(lcol));
    v != Null ==> right.Asks(Equals(rcol, v))
  }

  /** Every left row in turn. */
  method ProbeAll(ls: Schema, lefts: seq<Row>, lcol: string, right: Executor, rcol: string, where: Option<Expr>,
      ghost rights: seq<Row>)
    returns (result: seq<Dict>)
    requires right.Valid() && ListAnswer(rights, right.engine.rows, right.schema, None)
    requires forall i :: 0 <= i < |lefts| ==> RowAsks(ls, lefts[i], lcol, right, rcol)
    ensures multiset(result) == multiset(NestedLoop(ls, lefts, lcol, right.schema, rights, rcol, where))
  {
    result := [];
    for i := 0 to |lefts|
      invariant multiset(result) == multiset(NestedLoop(ls, lefts[..i], lcol, right.schema, rights, rcol, where))
    {
      assert lefts[..i + 1][..i] == lefts[..i];
      assert RowAsks(ls, lefts[i], lcol, right, rcol);
      var more := ProbeOne(ls, lefts[i], lcol, right, rcol, where, rights);
      result := result + more;
    }
    assert lefts[..|lefts|] == lefts;
  }

  lemma RowOfTable(rows: seq<Row>, i: nat, t: Table, s: Schema)
    requires ListAnswer(rows, t, s, None) && i < |rows|
    ensures exists k :: k in t && t[k] == rows[i]
  {
    var ks :| Lists(ks, Matching(t, s, None)) && rows == RowsFor(ks, t);
    forall k | k in ks ensures k in t {
      assert k in SetOf(ks);
    }
    RowsForAre(ks, t);
    assert ks[i] in ks && t[ks[i]] == rows[i];
  }

  /** One left row; NULL joins nothing. */
  method ProbeOne(ls: Schema, l: Row, lcol: string, right: Executor, rcol: string, where: Option<Expr>,
      ghost rights: seq<Row>) returns (rows: seq<Dict>)
    requires right.Valid() && ListAnswer(rights, right.engine.rows, right.schema, None)
    requires RowAsks(ls, l, lcol, right, rcol)
    ensures var v := Lookup(ToDict(ls.columns, l), Plain(lcol));
            multiset(rows) == multiset(if v == Null then []
              else JoinRows(ls, l, right.schema, WithValue(right.schema, rights, rcol, v), where))
  {
    var v := Lookup(ToDict(ls.columns, l), Plain(lcol));
    if v == Null {
      return [];
    }
    rows := Probe(ls, l, right, rcol, v, where, rights);
  }

  /** The joined rows of one left row. */
  method Probe(ls: Schema, l: Row, right: Executor, rcol: string, v: Value, where: Option<Expr>, ghost rights: seq<Row>)
    returns (rows: seq<Dict>)
    requires right.Valid() && right.Asks(Equals(rcol, v)) && ListAnswer(rights, right.engine.rows, right.schema, None)
    ensures multiset(rows) == multiset(JoinRows(ls, l, right.schema, WithValue(right.schema, rights, rcol, v), where))
  {
    var matches := right.FetchRows(Equals(rcol, v));
    rows := [];
    for i := 0 to |matches|
      invariant rows == JoinRows(ls, l, right.schema, matches[..i], where)
    {
      assert matches[..i + 1][..i] == matches[..i];
      var m := Merge(ls, l, right.schema, matches[i]);
      if where == None || Eval(where.value, m) {
        rows := rows + [m];
      }
    }
    assert matches[..|matches|] == matches;
    ScanFilter(right.engine.rows, right.schema, rights, rcol, v);
    BagIsList(matches, WithValue(right.schema, rights, rcol, v), right.engine.rows, right.schema, Equals(rcol, v));
    JoinRowsBag(ls, l, right.schema, matches, WithValue(right.schema, rights, rcol, v), where);
  }
}
