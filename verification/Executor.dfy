/** Queries and writes on one table: every access path finds the rows a full scan finds, and writes keep the indexes
    right. */
module Execution {
  import opened Entries
  import opened Records
  import opened Tables
  import opened Indexes

  // ---- Rows as dictionaries, and conditions on them ------------------------------------------

  /** A column name, plain or qualified by a table. */
  datatype Name = Plain(col: string) | Qual(table: string, col: string)

  type Dict = map<Name, Value>

  datatype Schema = Schema(table: string, columns: seq<string>, pk: nat)

  ghost predicate SchemaOk(s: Schema) {
    s.pk < |s.columns| && forall i, j :: 0 <= i < j < |s.columns| ==> s.columns[i] != s.columns[j]
  }

  /** Column names zipped with the values of a row. */
  function ToDict(columns: seq<string>, row: Row): Dict
    decreases |columns|
  {
    if columns == [] || row == [] then map[]
    else
      var n := (if |columns| <= |row| then |columns| else |row|) - 1;
      ToDict(columns[..n], row)[Plain(columns[n]) := row[n]]
  }

  lemma {:induction false} DictHas(columns: seq<string>, row: Row, i: nat)
    requires (forall a, b :: 0 <= a < b < |columns| ==> columns[a] != columns[b]) && |row| >= |columns| && i < |columns|
    ensures Plain(columns[i]) in ToDict(columns, row) && ToDict(columns, row)[Plain(columns[i])] == row[i]
    decreases |columns|
  {
    var n := |columns| - 1;
    if i < n {
      DictHas(columns[..n], row, i);
      assert columns[i] != columns[n];
    }
  }

  datatype Op = Less | Greater | LessEq | GreaterEq | NotEq

  datatype Expr =
    | Eq(col: Name, value: Value)
    | Compare(col: Name, op: Op, value: Value)
    | Between(col: Name, low: Value, high: Value)
    | And(left: Expr, right: Expr)
    | Or(left: Expr, right: Expr)

  function Lookup(d: Dict, n: Name): Value {
    if n in d then d[n] else Null
  }

  /** Bytes in dictionary order. */
  function BytesLess(a: Bytes, b: Bytes): bool
    decreases |a|
  {
    if b == [] then false else if a == [] then true
    else a[0] < b[0] || (a[0] == b[0] && BytesLess(a[1..], b[1..]))
  }

  /** Order of two values of the same type. */
  function Below(a: Value, b: Value): bool {
    match (a, b)
    case (Int(i), Int(j)) => i < j
    case (Str(s), Str(t)) => BytesLess(s, t)
    case _ => false
  }

  function AtMost(a: Value, b: Value): bool {
    Below(a, b) || a == b
  }

  function Eval(e: Expr, d: Dict): bool {
    match e
    case Eq(col, value) => Lookup(d, col) == value
    case Compare(col, op, value) =>
      var v := Lookup(d, col);
      v != Null &&
      (match op
       case Less => Below(v, value)
       case Greater => Below(value, v)
       case LessEq => AtMost(v, value)
       case GreaterEq => AtMost(value, v)
       case NotEq => v != value)
    case Between(col, low, high) =>
      var v := Lookup(d, col);
      v != Null && AtMost(low, v) && AtMost(v, high)
    case And(a, b) => Eval(a, d) && Eval(b, d)
    case Or(a, b) => Eval(a, d) || Eval(b, d)
  }

  function Holds(where: Option<Expr>, s: Schema, row: Row): bool {
    where == None || Eval(where.value, ToDict(s.columns, row))
  }

  // ---- What a query answers ------------------------------------------------------------------

  /** The keys of the rows that satisfy the condition. */
  function Matching(t: Table, s: Schema, where: Option<Expr>): set<Key> {
    set k | k in t && Holds(where, s, t[k])
  }

  /** The answer as a list, in key order. */
  ghost predicate ListAnswer(rows: seq<Row>, t: Table, s: Schema, where: Option<Expr>) {
    exists ks :: Lists(ks, Matching(t, s, where)) && rows == RowsFor(ks, t)
  }

  /** The answer up to order. */
  ghost predicate BagAnswer(rows: seq<Row>, t: Table, s: Schema, where: Option<Expr>) {
    exists ks :: NoRepeat(ks) && SetOf(ks) == Matching(t, s, where) && rows == RowsFor(ks, t)
  }

  /** The rows of those keys that are in the table. */
  function RowsFor(ks: seq<Key>, t: Table): (r: seq<Row>)
    decreases |ks|
  {
    if ks == [] then []
    else RowsFor(ks[..|ks| - 1], t) + if ks[|ks| - 1] in t then [t[ks[|ks| - 1]]] else []
  }

  lemma {:induction false} RowsForAre(ks: seq<Key>, t: Table)
    requires forall k :: k in ks ==> k in t
    ensures RowsFor(ks, t) == RowsOf(ks, t)
    decreases |ks|
  {
    if ks != [] {
      var n := |ks| - 1;
      assert ks[n] in ks;
      RowsForAre(ks[..n], t);
    }
  }

  /** There is one list answer. */
  lemma ListAnswerUnique(a: seq<Row>, b: seq<Row>, t: Table, s: Schema, where: Option<Expr>)
    requires ListAnswer(a, t, s, where) && ListAnswer(b, t, s, where)
    ensures a == b
  {
    var ks :| Lists(ks, Matching(t, s, where)) && a == RowsFor(ks, t);
    var qs :| Lists(qs, Matching(t, s, where)) && b == RowsFor(qs, t);
    ListsUnique(ks, qs, Matching(t, s, where));
  }

  /** A bag answer is the list answer in some order. */
  lemma BagIsList(a: seq<Row>, b: seq<Row>, t: Table, s: Schema, where: Option<Expr>)
    requires BagAnswer(a, t, s, where) && ListAnswer(b, t, s, where)
    ensures multiset(a) == multiset(b)
  {
    var ks :| NoRepeat(ks) && SetOf(ks) == Matching(t, s, where) && a == RowsFor(ks, t);
    var qs :| Lists(qs, Matching(t, s, where)) && b == RowsFor(qs, t);
    assert forall k :: k in ks ==> k in SetOf(ks);
    assert forall k :: k in qs ==> k in SetOf(qs);
    RowsForAre(ks, t);
    RowsForAre(qs, t);
    SameKeys(ks, qs);
    RowsMultiset(ks, qs, t);
  }

  lemma ListIsBag(a: seq<Row>, t: Table, s: Schema, where: Option<Expr>)
    requires ListAnswer(a, t, s, where)
    ensures BagAnswer(a, t, s, where)
  {
    var ks :| Lists(ks, Matching(t, s, where)) && a == RowsFor(ks, t);
    assert NoRepeat(ks);
  }

  // ---- The table and its indexes -------------------------------------------------------------------

  /** Every row has all columns, and its key in the key column. */
  ghost predicate TableOk(t: Table, s: Schema) {
    s.pk < |s.columns| && forall k :: k in t ==> |t[k]| == |s.columns| && t[k][s.pk] == Int(k)
  }

  /** What a column of a row holds, by name. */
  lemma ColumnIs(t: Table, s: Schema, k: Key, i: nat)
    requires SchemaOk(s) && TableOk(t, s) && k in t && i < |s.columns|
    ensures Lookup(ToDict(s.columns, t[k]), Plain(s.columns[i])) == t[k][i]
  {
    DictHas(s.columns, t[k], i);
  }

  /** A condition on the key column alone names its keys. */
  lemma PkEqual(t: Table, s: Schema, v: int)
    requires SchemaOk(s) && TableOk(t, s)
    ensures Matching(t, s, Some(Eq(Plain(s.columns[s.pk]), Int(v)))) == KeysIn(t, v, v)
  {
    forall k | k in t ensures Holds(Some(Eq(Plain(s.columns[s.pk]), Int(v))), s, t[k]) <==> k == v {
      ColumnIs(t, s, k, s.pk);
    }
  }

  lemma PkBetween(t: Table, s: Schema, low: int, high: int)
    requires SchemaOk(s) && TableOk(t, s)
    ensures Matching(t, s, Some(Between(Plain(s.columns[s.pk]), Int(low), Int(high)))) == KeysIn(t, low, high)
  {
    forall k | k in t ensures Holds(Some(Between(Plain(s.columns[s.pk]), Int(low), Int(high))), s, t[k]) <==>
      low <= k <= high {
      ColumnIs(t, s, k, s.pk);
    }
  }

  lemma ColumnEqual(t: Table, s: Schema, c: nat, v: int)
    requires SchemaOk(s) && TableOk(t, s) && c < |s.columns|
    ensures Matching(t, s, Some(Eq(Plain(s.columns[c]), Int(v)))) == set k | k in t && t[k][c] == Int(v)
  {
    forall k | k in t ensures Holds(Some(Eq(Plain(s.columns[c]), Int(v))), s, t[k]) <==> t[k][c] == Int(v) {
      ColumnIs(t, s, k, c);
    }
  }

  lemma ColumnBetween(t: Table, s: Schema, c: nat, low: int, high: int)
    requires SchemaOk(s) && TableOk(t, s) && c < |s.columns|
    ensures Matching(t, s, Some(Between(Plain(s.columns[c]), Int(low), Int(high)))) ==
            set k | k in t && t[k][c].Int? && low <= t[k][c].i <= high
  {
    forall k | k in t
      ensures Holds(Some(Between(Plain(s.columns[c]), Int(low), Int(high))), s, t[k]) <==>
              t[k][c].Int? && low <= t[k][c].i <= high
    {
      ColumnIs(t, s, k, c);
    }
  }

  /** Rows in the order of their keys. */
  method SortByKey(rows: seq<Row>, pk: nat, ghost ks: seq<Key>, ghost t: Table)
    returns (sorted: seq<Row>, ghost ss: seq<Key>)
    requires NoRepeat(ks) && (forall k :: k in ks ==> k in t) && rows == RowsOf(ks, t)
    requires forall k :: k in t ==> pk < |t[k]| && t[k][pk] == Int(k)
    ensures Lists(ss, SetOf(ks)) && sorted == RowsFor(ss, t)
  {
    sorted, ss := [], [];
    for i := 0 to |rows|
      invariant Lists(ss, SetOf(ks[..i])) && (forall k :: k in ss ==> k in t) && sorted == RowsOf(ss, t)
    {
      ghost var k := ks[i];
      assert k in ks;
      var p := 0;
      while p < |sorted| && sorted[p][pk].i < rows[i][pk].i
        invariant 0 <= p <= |sorted| && forall q :: 0 <= q < p ==> ss[q] < k
      {
        assert ss[p] in ss;
        p := p + 1;
      }
      InsertKey(ks, i, ss, p, t);
      sorted := sorted[..p] + [rows[i]] + sorted[p..];
      ss := ss[..p] + [k] + ss[p..];
    }
    assert ks[..|rows|] == ks;
    RowsForAre(ss, t);
  }

  lemma InsertKey(ks: seq<Key>, i: nat, ss: seq<Key>, p: nat, t: Table)
    requires NoRepeat(ks) && i < |ks| && Lists(ss, SetOf(ks[..i])) && p <= |ss| && (forall k :: k in ss ==> k in t)
             && ks[i] in t
    requires (forall q :: 0 <= q < p ==> ss[q] < ks[i]) && (p < |ss| ==> ks[i] <= ss[p])
    ensures var r := ss[..p] + [ks[i]] + ss[p..];
            && Lists(r, SetOf(ks[..i + 1])) && (forall k :: k in r ==> k in t)
            && RowsOf(r, t) == RowsOf(ss, t)[..p] + [t[ks[i]]] + RowsOf(ss, t)[p..]
  {
    var k := ks[i];
    assert ks[..i + 1] == ks[..i] + [k];
    SetSnoc(ks[..i], k);
    assert forall q :: 0 <= q < i ==> ks[..i][q] != k;
    assert k !in SetOf(ss);
    if p < |ss| { assert ss[p] in SetOf(ss); }
    InsertIncreasing(ss, p, k);
    InsertSet(ss, p, k);
  }

  lemma InsertIncreasing(ss: seq<Key>, p: nat, k: Key)
    requires Increasing(ss) && p <= |ss| && (forall q :: 0 <= q < p ==> ss[q] < k) && (p < |ss| ==> k < ss[p])
    ensures Increasing(ss[..p] + [k] + ss[p..])
  {
    var r := ss[..p] + [k] + ss[p..];
    forall a, b | 0 <= a < b < |r| ensures r[a] < r[b] {
      assert r[a] == if a < p then ss[a] else if a == p then k else ss[a - 1];
      assert r[b] == if b < p then ss[b] else if b == p then k else ss[b - 1];
    }
  }

  lemma InsertSet(ss: seq<Key>, p: nat, k: Key)
    requires p <= |ss|
    ensures SetOf(ss[..p] + [k] + ss[p..]) == SetOf(ss) + {k}
  {
    assert ss == ss[..p] + ss[p..];
  }

  // ---- Access paths -----------------------------------------------------------------------------

  /** The condition asks for one value of a column. */
  predicate AsksFor(where: Option<Expr>, col: string) {
    where.Some? && where.value.Eq? && where.value.col == Plain(col)
  }

  /** The condition asks for a range of a column. */
  predicate AsksRange(where: Option<Expr>, col: string) {
    where.Some? && where.value.Between? && where.value.col == Plain(col)
  }

  /** Literals compared with a key or an indexed column are integers. */
  predicate IntLiterals(where: Option<Expr>, col: string) {
    && (AsksFor(where, col) ==> where.value.value.Int?)
    && (AsksRange(where, col) ==> where.value.low.Int? && where.value.high.Int?)
  }

  /** The keys of an index entry, as an answer. */
  lemma EntryAnswers(e: Index, t: Table, s: Schema, c: nat, v: int, pks: seq<Key>)
    requires SchemaOk(s) && TableOk(t, s) && c < |s.columns| && Agrees(e, t, c) && AllIndexable(t, c)
    requires pks == if 0 <= v < KEY_LIMIT && v in e then e[v] else []
    ensures BagAnswer(RowsFor(pks, t), t, s, Some(Eq(Plain(s.columns[c]), Int(v))))
  {
    ColumnEqual(t, s, c, v);
    if 0 <= v < KEY_LIMIT {
      assert EntryOk(e, t, c, v);
      assert Holders(t, c, v) == set k | k in t && t[k][c] == Int(v);
    } else {
      forall k | k in t ensures t[k][c] != Int(v) {
        assert Indexable(t[k], c);
      }
    }
    assert NoRepeat(pks) && SetOf(pks) == Matching(t, s, Some(Eq(Plain(s.columns[c]), Int(v))));
  }

  lemma RangeAnswers(t: Table, s: Schema, c: nat, low: int, high: int, pks: seq<Key>)
    requires SchemaOk(s) && TableOk(t, s) && c < |s.columns| && AllIndexable(t, c)
    requires SetOf(pks) == set k | k in t && c < |t[k]| && t[k][c].Int? && 0 <= t[k][c].i < KEY_LIMIT
             && low <= t[k][c].i <= high
    ensures SetOf(pks) == Matching(t, s, Some(Between(Plain(s.columns[c]), Int(low), Int(high))))
    ensures forall k :: k in pks ==> k in t
  {
    ColumnBetween(t, s, c, low, high);
    forall k | k in t ensures t[k][c].Int? ==> 0 <= t[k][c].i < KEY_LIMIT {
      assert Indexable(t[k], c);
    }
    forall k | k in pks ensures k in t {
      assert k in SetOf(pks);
    }
  }

  /** The listed keys whose rows satisfy the condition. */
  function Kept(ks: seq<Key>, t: Table, s: Schema, where: Option<Expr>): set<Key> {
    set k | k in SetOf(ks) && k in t && Holds(where, s, t[k])
  }

  /** One more row scanned. */
  lemma ScanStep(ks: seq<Key>, i: nat, kept: seq<Key>, t: Table, s: Schema, where: Option<Expr>)
    requires Increasing(ks) && i < |ks| && ks[i] in t && Lists(kept, Kept(ks[..i], t, s, where))
    ensures var more := if Holds(where, s, t[ks[i]]) then kept + [ks[i]] else kept;
            Lists(more, Kept(ks[..i + 1], t, s, where))
  {
    assert ks[..i + 1] == ks[..i] + [ks[i]];
    SetSnoc(ks[..i], ks[i]);
    if Holds(where, s, t[ks[i]]) {
      SetSnoc(kept, ks[i]);
      forall q | 0 <= q < |kept| ensures kept[q] < ks[i] {
        assert kept[q] in SetOf(kept);
      }
    }
  }

  // ---- Writes -------------------------------------------------------------------------------------

  datatype Result = Done | WrongCount | KeyNotInt | KeyOutOfRange | ForeignKeyViolation | BadAssignment

  /** A reference is NULL or names a row of the parent table. */
  predicate ParentOk(values: Row, parent: (nat, Table))
    requires parent.0 < |values|
  {
    var v := values[parent.0];
    v == Null || (v.Int? && 0 <= v.i < KEY_LIMIT && v.i in parent.1)
  }

  lemma ParentIff(values: Row, parent: (nat, Table))
    requires parent.0 < |values|
    ensures ParentOk(values, parent) <==>
            values[parent.0] == Null || exists q :: q in parent.1 && values[parent.0] == Int(q)
  {
    if ParentOk(values, parent) && values[parent.0] != Null {
      assert values[parent.0] == Int(values[parent.0].i);
    }
  }

  ghost function Checked(values: Row, s: Schema, parents: seq<(nat, Table)>): Result
    requires SchemaOk(s) && forall p :: p in parents ==> p.0 < |s.columns|
  {
    if |values| != |s.columns| then WrongCount
    else if !values[s.pk].Int? then KeyNotInt
    else if exists j :: 0 <= j < |parents| && !ParentOk(values, parents[j]) then ForeignKeyViolation
    else if !(0 <= values[s.pk].i < KEY_LIMIT) then KeyOutOfRange
    else Done
  }

  /** The position of a column name. */
  function Position(columns: seq<string>, col: string): (i: nat)
    ensures i <= |columns| && (col in columns ==> i < |columns| && columns[i] == col)
    decreases |columns|
  {
    if columns == [] || columns[0] == col then 0 else 1 + Position(columns[1..], col)
  }

  function Assigned(columns: seq<string>, row: Row, assignments: seq<(string, Value)>): (r: Row)
    ensures |r| == |row|
    decreases |assignments|
  {
    if assignments == [] then row
    else
      var before := Assigned(columns, row, assignments[..|assignments| - 1]);
      var a := assignments[|assignments| - 1];
      var i := Position(columns, a.0);
      if i < |before| then before[i := a.1] else before
  }

  /** An assignment to other columns leaves a column alone. */
  lemma {:induction false} AssignedKeeps(columns: seq<string>, row: Row, assignments: seq<(string, Value)>, c: nat)
    requires c < |columns| == |row| && forall a :: a in assignments ==> a.0 in columns && a.0 != columns[c]
    ensures Assigned(columns, row, assignments)[c] == row[c]
    decreases |assignments|
  {
    if assignments != [] {
      var n := |assignments| - 1;
      assert assignments[n] in assignments;
      AssignedKeeps(columns, row, assignments[..n], c);
    }
  }

  /** Assignment i is to a column. */
  ghost predicate AssignsTo(assignments: seq<(string, Value)>, i: nat, col: string) {
    i < |assignments| && assignments[i].0 == col
  }

  ghost predicate AssignsLast(assignments: seq<(string, Value)>, i: nat, col: string) {
    AssignsTo(assignments, i, col) && forall j: nat :: i < j ==> !AssignsTo(assignments, j, col)
  }

  /** The cell of a column after the assignments: the value of the last one to the column, or else what it was. */
  ghost predicate CellAfter(col: string, before: Value, assignments: seq<(string, Value)>, after: Value) {
    if exists i: nat :: AssignsTo(assignments, i, col) then
      exists i: nat :: AssignsLast(assignments, i, col) && assignments[i].1 == after
    else after == before
  }

  lemma {:induction false} AssignedCell(s: Schema, row: Row, assignments: seq<(string, Value)>, c: nat)
    requires SchemaOk(s) && c < |s.columns| == |row| && forall a :: a in assignments ==> a.0 in s.columns
    ensures CellAfter(s.columns[c], row[c], assignments, Assigned(s.columns, row, assignments)[c])
    decreases |assignments|
  {
    if assignments != [] {
      var n := |assignments| - 1;
      assert assignments[n] in assignments;
      AssignedCell(s, row, assignments[..n], c);
      if AssignsTo(assignments, n, s.columns[c]) {
        assert AssignsLast(assignments, n, s.columns[c]);
      } else {
        OtherCell(s.columns[c], row[c], assignments[..n], assignments, Assigned(s.columns, row, assignments[..n])[c]);
      }
    }
  }

  lemma {:induction false} OtherCell(col: string, before: Value, init: seq<(string, Value)>,
                                     assignments: seq<(string, Value)>, after: Value)
    requires assignments != [] && init == assignments[..|assignments| - 1] && !AssignsTo(assignments, |init|, col)
    requires CellAfter(col, before, init, after)
    ensures CellAfter(col, before, assignments, after)
  {
    forall i: nat ensures AssignsTo(assignments, i, col) <==> AssignsTo(init, i, col) {
    }
    forall i: nat ensures AssignsLast(init, i, col) ==> AssignsLast(assignments, i, col) {
    }
  }

  function AssignedTable(t: Table, s: Schema, ks: set<Key>, assignments: seq<(string, Value)>): Table {
    map k | k in t :: if k in ks then Assigned(s.columns, t[k], assignments) else t[k]
  }

  /** A row of a child table references the key; a table can be its own child, which is written None here. */
  predicate Referenced(pk: Key, children: seq<(nat, Option<Table>)>, t: Table) {
    exists c :: c in children && References(pk, c.0, if c.1 == None then t else c.1.value)
  }

  predicate References(pk: Key, col: nat, t: Table) {
    exists k :: k in t && col < |t[k]| && t[k][col] == Int(pk)
  }

  /** Some row of some child table has the key in the referencing column. */
  ghost predicate Named(pk: Key, children: seq<(nat, Option<Table>)>, t: Table) {
    exists i, q :: 0 <= i < |children| && HasCell(ChildRows(children[i], t), q, children[i].0, Int(pk))
  }

  function ChildRows(child: (nat, Option<Table>), t: Table): Table {
    if child.1 == None then t else child.1.value
  }

  ghost predicate HasCell(t: Table, q: Key, col: nat, v: Value) {
    q in t && col < |t[q]| && t[q][col] == v
  }

  lemma NamedIff(pk: Key, children: seq<(nat, Option<Table>)>, t: Table)
    ensures Referenced(pk, children, t) <==> Named(pk, children, t)
  {
    if Referenced(pk, children, t) {
      var c :| c in children && References(pk, c.0, if c.1 == None then t else c.1.value);
      var i :| 0 <= i < |children| && children[i] == c;
      var k :| k in ChildRows(c, t) && c.0 < |ChildRows(c, t)[k]| && ChildRows(c, t)[k][c.0] == Int(pk);
      assert HasCell(ChildRows(children[i], t), k, children[i].0, Int(pk));
    }
    if Named(pk, children, t) {
      var i, q :| 0 <= i < |children| && HasCell(ChildRows(children[i], t), q, children[i].0, Int(pk));
      assert children[i] in children && References(pk, children[i].0, ChildRows(children[i], t));
    }
  }

  class Executor {
    const schema: Schema
    const engine: Engine
    const indexes: IndexManager

    constructor (schema: Schema)
      requires SchemaOk(schema)
      ensures Valid() && fresh(engine) && fresh(indexes) && this.schema == schema && engine.rows == map[]
    {
      this.schema := schema;
      engine := new Engine();
      indexes := new IndexManager();
    }

    /** Rows are complete, and every index is on a column of the table and agrees with it. */
    ghost predicate Valid()
      reads this, engine, indexes
    {
      && SchemaOk(schema) && TableOk(engine.rows, schema)
      && indexes.Valid() && indexes.AllAgree(engine.rows)
      && forall i :: 0 <= i < |indexes.catalog| ==> OnColumn(indexes.catalog[i])
    }

    ghost predicate OnColumn(idx: IndexSchema) {
      idx.col < |schema.columns| && schema.columns[idx.col] == idx.colName
    }

    function PkCol(): string
      requires schema.pk < |schema.columns|
    {
      schema.columns[schema.pk]
    }

    ghost predicate Indexed(col: string)
      reads indexes
    {
      exists i :: 0 <= i < |indexes.catalog| && indexes.catalog[i].colName == col
    }

    /** Literals compared with the key or an indexed column are integers. */
    ghost predicate Asks(where: Option<Expr>)
      reads indexes
      requires schema.pk < |schema.columns|
    {
      IntLiterals(where, PkCol()) && forall i :: 0 <= i < |indexes.catalog| ==>
        IntLiterals(where, indexes.catalog[i].colName)
    }

    method HasIndexOn(col: Name) returns (r: Option<nat>)
      requires Valid()
      ensures r.Some? ==> r.value < |indexes.catalog| && col == Plain(indexes.catalog[r.value].colName)
      ensures r == None ==> forall i :: 0 <= i < |indexes.catalog| ==> col != Plain(indexes.catalog[i].colName)
    {
      for i := 0 to |indexes.catalog|
        invariant forall j :: 0 <= j < i ==> col != Plain(indexes.catalog[j].colName)
      {
        if Plain(indexes.catalog[i].colName) == col {
          return Some(i);
        }
      }
      r := None;
    }

    /** The rows of some keys, skipping keys without a row. */
    method RowsByKey(pks: seq<Key>) returns (rows: seq<Row>)
      ensures rows == RowsFor(pks, engine.rows)
    {
      rows := [];
      for i := 0 to |pks|
        invariant rows == RowsFor(pks[..i], engine.rows)
      {
        assert pks[..i + 1][..i] == pks[..i];
        var raw := engine.Get(pks[i]);
        if raw.Some? {
          rows := rows + [raw.value];
        }
      }
      assert pks[..|pks|] == pks;
    }

    /** The reference: read every row in key order and keep those that satisfy the condition. */
    method FullScan(where: Option<Expr>) returns (rows: seq<Row>)
      ensures ListAnswer(rows, engine.rows, schema, where)
    {
      var ks := engine.ScanKeys(0, KEY_LIMIT);
      ghost var t, kept := engine.rows, [];
      rows := [];
      for i := 0 to |ks|
        invariant Lists(kept, Kept(ks[..i], t, schema, where))
        invariant rows == RowsFor(kept, t)
      {
        assert ks[i] in SetOf(ks);
        ScanStep(ks, i, kept, t, schema, where);
        if Holds(where, schema, engine.rows[ks[i]]) {
          assert (kept + [ks[i]])[..|kept|] == kept;
          rows := rows + [engine.rows[ks[i]]];
          kept := kept + [ks[i]];
        }
      }
      assert ks[..|ks|] == ks;
      assert SetOf(ks) == t.Keys;
      assert Kept(ks, t, schema, where) == Matching(t, schema, where);
    }

    /** The rows that satisfy a condition, by the cheapest path: the same list as a full scan, and for equality on an
        indexed column the same rows up to order. */
    method FetchRows(where: Option<Expr>) returns (rows: seq<Row>)
      requires Valid() && Asks(where)
      ensures BagAnswer(rows, engine.rows, schema, where)
      ensures ListAnswer(rows, engine.rows, schema, where)
              || (exists col :: AsksFor(where, col) && col != PkCol() && Indexed(col))
    {
      if where.Some? && where.value.Eq? {
        rows := FetchEqual(where);
        return;
      }
      if where.Some? && where.value.Between? {
        rows := FetchRange(where);
      } else {
        rows := FullScan(where);
      }
      ListIsBag(rows, engine.rows, schema, where);
    }

    method FetchEqual(where: Option<Expr>) returns (rows: seq<Row>)
      requires Valid() && Asks(where) && where.Some? && where.value.Eq?
      ensures BagAnswer(rows, engine.rows, schema, where)
      ensures ListAnswer(rows, engine.rows, schema, where)
              || (exists col :: AsksFor(where, col) && col != PkCol() && Indexed(col))
    {
      var col, value := where.value.col, where.value.value;
      if col == Plain(PkCol()) {
        rows := ByKey(value.i);
        ListIsBag(rows, engine.rows, schema, where);
        return;
      }
      var idx := HasIndexOn(col);
      if idx == None {
        rows := FullScan(where);
        ListIsBag(rows, engine.rows, schema, where);
        return;
      }
      rows := ByIndex(idx.value, value.i);
      assert AsksFor(where, indexes.catalog[idx.value].colName) && Indexed(indexes.catalog[idx.value].colName);
    }

    method ByKey(v: int) returns (rows: seq<Row>)
      requires Valid()
      ensures ListAnswer(rows, engine.rows, schema, Some(Eq(Plain(PkCol()), Int(v))))
    {
      PkEqual(engine.rows, schema, v);
      var raw := engine.Get(v);
      if raw == None {
        assert Lists([], KeysIn(engine.rows, v, v));
        return [];
      }
      ghost var ks: seq<Key> := [v];
      assert ks[..0] == [];
      assert Lists(ks, KeysIn(engine.rows, v, v)) && RowsFor(ks, engine.rows) == [raw.value];
      rows := [raw.value];
    }

    method ByIndex(i: nat, v: int) returns (rows: seq<Row>)
      requires Valid() && i < |indexes.catalog|
      ensures BagAnswer(rows, engine.rows, schema, Some(Eq(Plain(indexes.catalog[i].colName), Int(v))))
    {
      var idx := indexes.catalog[i];
      assert AgreeAt(indexes.catalog, indexes.engines, engine.rows, i) && OnColumn(idx);
      var pks := indexes.Lookup(idx.name, v);
      EntryAnswers(indexes.engines[idx.name], engine.rows, schema, idx.col, v, pks);
      rows := RowsByKey(pks);
    }

    method FetchRange(where: Option<Expr>) returns (rows: seq<Row>)
      requires Valid() && Asks(where) && where.Some? && where.value.Between?
      ensures ListAnswer(rows, engine.rows, schema, where)
    {
      var col, low, high := where.value.col, where.value.low, where.value.high;
      if col == Plain(PkCol()) {
        PkBetween(engine.rows, schema, low.i, high.i);
        var ks := engine.ScanKeys(low.i, high.i);
        rows := RowsByKey(ks);
        return;
      }
      var idx := HasIndexOn(col);
      if idx == None {
        rows := FullScan(where);
      } else {
        rows := ByIndexRange(idx.value, low.i, high.i);
      }
    }

    method ByIndexRange(i: nat, low: int, high: int) returns (rows: seq<Row>)
      requires Valid() && i < |indexes.catalog|
      ensures ListAnswer(rows, engine.rows, schema,
              Some(Between(Plain(indexes.catalog[i].colName), Int(low), Int(high))))
    {
      ghost var t := engine.rows;
      var idx := indexes.catalog[i];
      assert AgreeAt(indexes.catalog, indexes.engines, t, i) && OnColumn(idx);
      var pks := RangeLookup(indexes.engines[idx.name], low, high, t, idx.col);
      RangeAnswers(t, schema, idx.col, low, high, pks);
      var found := RowsByKey(pks);
      RowsForAre(pks, t);
      ghost var ss;
      rows, ss := SortByKey(found, schema.pk, pks, t);
    }

    /** Any access path returns the rows of a full scan; on all paths but one, in the same order. */
    method PlansAgree(where: Option<Expr>) returns (fast: seq<Row>, reference: seq<Row>)
      requires Valid() && Asks(where)
      ensures ListAnswer(reference, engine.rows, schema, where)
      ensures multiset(fast) == multiset(reference)
      ensures fast == reference || (exists col :: AsksFor(where, col) && col != PkCol() && Indexed(col))
    {
      fast := FetchRows(where);
      reference := FullScan(where);
      BagIsList(fast, reference, engine.rows, schema, where);
      if ListAnswer(fast, engine.rows, schema, where) {
        ListAnswerUnique(fast, reference, engine.rows, schema, where);
      }
    }

    // ---- Writes ---------------------------------------------------------------------------------

    /** CREATE INDEX on a column of the table whose values can be keys: the index starts out right. */
    method CreateIndex(name: string, c: nat)
      requires Valid() && c < |schema.columns| && AllIndexable(engine.rows, c)
      requires forall i :: 0 <= i < |indexes.catalog| ==> indexes.catalog[i].name != name
      modifies indexes
      ensures Valid() && engine.rows == old(engine.rows)
      ensures indexes.catalog == old(indexes.catalog) + [IndexSchema(name, schema.columns[c], c)]
    {
      indexes.CreateIndex(IndexSchema(name, schema.columns[c], c), engine);
    }

    /** INSERT: a wrong number of values, a key that is no integer or out of range, or a missing parent row changes
        nothing. A stored row leaves every index right if and only if no index loses track of the row it replaces. */
    method Insert(values: Row, parents: seq<(nat, Table)>) returns (r: Result)
      requires Valid() && (forall p :: p in parents ==> p.0 < |schema.columns|)
      requires InRange(values) ==> indexes.Takes(values)
      modifies engine, indexes
      ensures r == Checked(values, schema, parents)
      ensures r == WrongCount <==> |values| != |schema.columns|
      ensures r == KeyNotInt <==> |values| == |schema.columns| && !values[schema.pk].Int?
      ensures r == ForeignKeyViolation <==>
                && |values| == |schema.columns| && values[schema.pk].Int?
                && exists p :: p in parents && values[p.0] != Null
                               && forall q :: q in p.1 ==> values[p.0] != Int(q)
      ensures r == Done ==> 0 <= values[schema.pk].i < 0x1_0000_0000
      ensures r == KeyOutOfRange ==> values[schema.pk].Int? && !(0 <= values[schema.pk].i < 0x1_0000_0000)
      ensures r != BadAssignment
      ensures engine.rows == if r == Done then old(engine.rows)[values[schema.pk].i := values] else old(engine.rows)
      ensures Valid() <==> (r == Done ==> old(indexes.Safe(engine.rows, values, KeyOf(values))))
    {
      r := Check(values, parents);
      forall p | p in parents && |values| == |schema.columns|
        ensures ParentOk(values, p) <==> values[p.0] == Null || exists q :: q in p.1 && values[p.0] == Int(q)
      {
        ParentIff(values, p);
      }
      if r != Done {
        return;
      }
      var pk: Key := values[schema.pk].i;
      ghost var t := engine.rows;
      engine.Put(pk, values);
      indexes.OnInsert(values, pk, t);
      assert TableOk(engine.rows, schema);
    }

    /** The key of a row to be stored. */
    function KeyOf(values: Row): Key {
      if InRange(values) then values[schema.pk].i else 0
    }

    predicate InRange(values: Row)
    {
      |values| == |schema.columns| && schema.pk < |values| && values[schema.pk].Int?
      && 0 <= values[schema.pk].i < KEY_LIMIT
    }

    method Check(values: Row, parents: seq<(nat, Table)>) returns (r: Result)
      requires SchemaOk(schema) && (forall p :: p in parents ==> p.0 < |schema.columns|)
      ensures r == Checked(values, schema, parents)
      ensures r == Done ==> InRange(values)
    {
      if |values| != |schema.columns| {
        return WrongCount;
      }
      if !values[schema.pk].Int? {
        return KeyNotInt;
      }
      for i := 0 to |parents|
        invariant forall j :: 0 <= j < i ==> ParentOk(values, parents[j])
      {
        assert parents[i] in parents;
        if !ParentOk(values, parents[i]) {
          return ForeignKeyViolation;
        }
      }
      if !(0 <= values[schema.pk].i < KEY_LIMIT) {
        return KeyOutOfRange;
      }
      r := Done;
    }

    /** The keys of fetched rows. */
    ghost predicate Fetched(rows: seq<Row>, ks: seq<Key>, t: Table) {
      |rows| == |ks| && NoRepeat(ks) && forall i :: 0 <= i < |ks| ==> ks[i] in t && rows[i] == t[ks[i]]
    }

    lemma FetchedKeys(rows: seq<Row>, t: Table, where: Option<Expr>) returns (ks: seq<Key>)
      requires BagAnswer(rows, t, schema, where)
      ensures Fetched(rows, ks, t) && SetOf(ks) == Matching(t, schema, where)
      ensures ListAnswer(rows, t, schema, where) ==> Increasing(ks)
    {
      if ListAnswer(rows, t, schema, where) {
        ks :| Lists(ks, Matching(t, schema, where)) && rows == RowsFor(ks, t);
      } else {
        ks :| NoRepeat(ks) && SetOf(ks) == Matching(t, schema, where) && rows == RowsFor(ks, t);
      }
      forall k | k in ks ensures k in t {
        assert k in SetOf(ks);
      }
      RowsForAre(ks, t);
    }

    method UpdateRows(rows: seq<Row>, assignments: seq<(string, Value)>, ghost where: Option<Expr>)
      requires Valid() && BagAnswer(rows, engine.rows, schema, where)
      requires forall a :: a in assignments ==> a.0 in schema.columns && a.0 != PkCol()
      requires forall k :: k in engine.rows ==>
               TakenBy(indexes.catalog, Assigned(schema.columns, engine.rows[k], assignments))
      modifies engine, indexes
      ensures Valid()
      ensures engine.rows == AssignedTable(old(engine.rows), schema, Matching(old(engine.rows), schema, where),
              assignments)
    {
      ghost var ks := FetchedKeys(rows, engine.rows, where);
      UpdateAll(rows, ks, engine.rows, assignments);
    }

    method UpdateAll(rows: seq<Row>, ghost ks: seq<Key>, ghost t: Table, assignments: seq<(string, Value)>)
      requires Valid() && t == engine.rows && Fetched(rows, ks, t)
      requires forall a :: a in assignments ==> a.0 in schema.columns && a.0 != PkCol()
      requires forall k :: k in t ==> TakenBy(indexes.catalog, Assigned(schema.columns, t[k], assignments))
      modifies engine, indexes`engines
      ensures Valid() && engine.rows == AssignedTable(t, schema, SetOf(ks), assignments)
    {
      for i := 0 to |rows|
        invariant Valid() && engine.rows == AssignedTable(t, schema, SetOf(ks[..i]), assignments)
      {
        UpdateStep(ks, i, t, assignments);
        UpdateRow(rows[i], ks[i], assignments);
      }
      assert ks[..|rows|] == ks;
    }

    method UpdateRow(row: Row, ghost k: Key, assignments: seq<(string, Value)>)
      requires Valid() && k in engine.rows && engine.rows[k] == row
      requires forall a :: a in assignments ==> a.0 in schema.columns && a.0 != PkCol()
      requires TakenBy(indexes.catalog, Assigned(schema.columns, row, assignments))
      modifies engine, indexes`engines
      ensures Valid() && engine.rows == old(engine.rows)[k := Assigned(schema.columns, row, assignments)]
    {
      var after := Assigned(schema.columns, row, assignments);
      AssignedKeeps(schema.columns, row, assignments, schema.pk);
      ghost var now := engine.rows;
      engine.Put(row[schema.pk].i, after);
      indexes.OnUpdate(row, after, row[schema.pk].i, now);
    }

    lemma UpdateStep(ks: seq<Key>, i: nat, t: Table, assignments: seq<(string, Value)>)
      requires NoRepeat(ks) && i < |ks| && ks[i] in t
      ensures var now := AssignedTable(t, schema, SetOf(ks[..i]), assignments);
              && ks[i] in now && now[ks[i]] == t[ks[i]]
              && AssignedTable(t, schema, SetOf(ks[..i + 1]), assignments) ==
                now[ks[i] := Assigned(schema.columns, t[ks[i]], assignments)]
    {
      assert ks[..i + 1] == ks[..i] + [ks[i]];
      SetSnoc(ks[..i], ks[i]);
      assert forall q :: 0 <= q < i ==> ks[..i][q] != ks[i];
    }

    /** The first n rows can go one after the other. */
    ghost predicate Free(ks: seq<Key>, n: nat, children: seq<(nat, Option<Table>)>, t: Table)
      requires n <= |ks|
    {
      forall i :: 0 <= i < n ==> !Named(ks[i], children, t - SetOf(ks[..i]))
    }

    /** DELETE: the matching rows go one by one, in the order in which they were found, which is that of their keys on
        every path but equality on an index; the first that is still referenced, from another table or from a row of
        this one that has not gone yet, stops it, and the rows before it stay deleted. */
    method Delete(where: Option<Expr>, children: seq<(nat, Option<Table>)>)
      returns (r: Result, ghost ks: seq<Key>, ghost n: nat)
      requires Valid() && Asks(where)
      modifies engine, indexes
      ensures Valid() && NoRepeat(ks) && SetOf(ks) == Matching(old(engine.rows), schema, where)
      ensures Increasing(ks) || (exists col :: AsksFor(where, col) && col != PkCol() && old(Indexed(col)))
      ensures n <= |ks| && engine.rows == old(engine.rows) - SetOf(ks[..n]) && Free(ks, n, children, old(engine.rows))
      ensures r == if n == |ks| then Done else ForeignKeyViolation
      ensures n < |ks| ==> Named(ks[n], children, engine.rows)
    {
      var rows := FetchRows(where);
      ghost var t := engine.rows;
      ks := FetchedKeys(rows, t, where);
      n := 0;
      for i := 0 to |rows|
        invariant Valid() && n == i && engine.rows == t - SetOf(ks[..i]) && Free(ks, i, children, t)
      {
        NextKey(ks, i, t);
        var pk: Key := rows[i][schema.pk].i;
        NamedIff(pk, children, engine.rows);
        if Referenced(pk, children, engine.rows) {
          return ForeignKeyViolation, ks, n;
        }
        DeleteRow(rows[i], pk);
        FreeMore(ks, i, children, t);
        n := n + 1;
      }
      r := Done;
    }

    lemma FreeMore(ks: seq<Key>, i: nat, children: seq<(nat, Option<Table>)>, t: Table)
      requires i < |ks| && Free(ks, i, children, t) && !Named(ks[i], children, t - SetOf(ks[..i]))
      ensures Free(ks, i + 1, children, t)
    {
    }

    lemma NextKey(ks: seq<Key>, i: nat, t: Table)
      requires NoRepeat(ks) && i < |ks|
      ensures t - SetOf(ks[..i + 1]) == t - SetOf(ks[..i]) - {ks[i]} && ks[i] !in SetOf(ks[..i])
    {
      assert ks[..i + 1] == ks[..i] + [ks[i]];
      SetSnoc(ks[..i], ks[i]);
      assert forall q :: 0 <= q < i ==> ks[..i][q] != ks[i];
    }

    method DeleteRow(row: Row, pk: Key)
      requires Valid() && pk in engine.rows && engine.rows[pk] == row
      modifies engine, indexes`engines
      ensures Valid() && engine.rows == old(engine.rows) - {pk}
    {
      ghost var now := engine.rows;
      engine.Delete(pk);
      indexes.OnDelete(row, pk, now);
    }

    /** UPDATE: every matching row gets the new values, and nothing else changes; the key column cannot be assigned. */
    method Update(assignments: seq<(string, Value)>, where: Option<Expr>) returns (r: Result)
      requires Valid() && Asks(where)
      requires forall k :: k in engine.rows ==>
               TakenBy(indexes.catalog, Assigned(schema.columns, engine.rows[k], assignments))
      modifies engine, indexes
      ensures Valid()
      ensures r == if exists a :: a in assignments && (a.0 !in schema.columns || a.0 == PkCol()) then BadAssignment
              else Done
      ensures r != Done ==> engine.rows == old(engine.rows)
      ensures r == Done ==> engine.rows == AssignedTable(old(engine.rows), schema,
              Matching(old(engine.rows), schema, where), assignments)
      ensures r == Done ==> engine.rows.Keys == old(engine.rows).Keys && forall k :: k in engine.rows ==>
                RowAfter(old(engine.rows)[k], k in Matching(old(engine.rows), schema, where), assignments,
                         engine.rows[k])
    {
      for i := 0 to |assignments|
        invariant forall a :: a in assignments[..i] ==> a.0 in schema.columns && a.0 != PkCol()
      {
        assert assignments[..i + 1] == assignments[..i] + [assignments[i]];
        if assignments[i].0 !in schema.columns || assignments[i].0 == PkCol() {
          return BadAssignment;
        }
      }
      assert assignments[..|assignments|] == assignments;
      var rows := FetchRows(where);
      ghost var t := engine.rows;
      UpdateRows(rows, assignments, where);
      forall k | k in t ensures RowAfter(t[k], k in Matching(t, schema, where), assignments, engine.rows[k]) {
        RowCells(t[k], assignments);
      }
      r := Done;
    }

    /** A row after the update: as it was, or with every cell as the assignments leave it. */
    ghost predicate RowAfter(before: Row, chosen: bool, assignments: seq<(string, Value)>, after: Row) {
      if !chosen then after == before
      else
        && |after| == |before| == |schema.columns|
        && forall c :: 0 <= c < |after| ==> CellAfter(schema.columns[c], before[c], assignments, after[c])
    }

    lemma RowCells(row: Row, assignments: seq<(string, Value)>)
      requires SchemaOk(schema) && |row| == |schema.columns|
      requires forall a :: a in assignments ==> a.0 in schema.columns
      ensures RowAfter(row, true, assignments, Assigned(schema.columns, row, assignments))
    {
      forall c | 0 <= c < |row|
        ensures CellAfter(schema.columns[c], row[c], assignments, Assigned(schema.columns, row, assignments)[c])
      {
        AssignedCell(schema, row, assignments, c);
      }
    }
  }
}
