/** Secondary indexes: for each column value the primary keys of the rows that hold it. */
module Indexes {
  import opened Entries
  import opened Records
  import opened Tables

  datatype IndexSchema = IndexSchema(name: string, colName: string, col: nat)

  type Index = map<Key, seq<Key>>

  // ---- One entry -----------------------------------------------------------------------------

  /** A column value that an index can take: NULL, or an integer in the key range. */
  predicate Indexable(row: Row, c: nat) {
    c < |row| && (row[c] == Null || (row[c].Int? && 0 <= row[c].i < KEY_LIMIT))
  }

  predicate HasValue(row: Row, c: nat, v: Key) {
    c < |row| && row[c] == Int(v)
  }

  function Holders(t: Table, c: nat, v: Key): set<Key> {
    set k | k in t && HasValue(t[k], c, v)
  }

  /** The entry of a value lists, once each, the keys of the rows that hold it; no row, no entry. */
  ghost predicate EntryOk(e: Index, t: Table, c: nat, v: Key) {
    if Holders(t, c, v) == {} then v !in e
    else v in e && NoRepeat(e[v]) && SetOf(e[v]) == Holders(t, c, v)
  }

  ghost predicate Agrees(e: Index, t: Table, c: nat) {
    forall v :: EntryOk(e, t, c, v)
  }

  ghost predicate AllIndexable(t: Table, c: nat) {
    forall k :: k in t ==> Indexable(t[k], c)
  }

  function AddTo(e: Index, v: Key, pk: Key): Index {
    if v !in e then e[v := [pk]] else if pk in e[v] then e else e[v := e[v] + [pk]]
  }

  function Dropping(ks: seq<Key>, pk: Key): seq<Key>
    decreases |ks|
  {
    if ks == [] then [] else Dropping(ks[..|ks| - 1], pk) + if ks[|ks| - 1] == pk then [] else [ks[|ks| - 1]]
  }

  function RemoveFrom(e: Index, v: Key, pk: Key): Index {
    if v !in e then e
    else
      var updated := Dropping(e[v], pk);
      if updated != [] then e[v := updated] else e - {v}
  }

  lemma {:induction false} DroppingIs(ks: seq<Key>, pk: Key)
    ensures SetOf(Dropping(ks, pk)) == SetOf(ks) - {pk}
    ensures NoRepeat(ks) ==> NoRepeat(Dropping(ks, pk))
    decreases |ks|
  {
    if ks != [] {
      var n := |ks| - 1;
      DroppingIs(ks[..n], pk);
      assert ks == ks[..n] + [ks[n]];
      SetSnoc(ks[..n], ks[n]);
      SetSnoc(Dropping(ks[..n], pk), ks[n]);
      if NoRepeat(ks) {
        LastNew(ks);
        RepeatSnoc(Dropping(ks[..n], pk), ks[n]);
      }
    }
  }

  lemma SetSnoc(ks: seq<Key>, k: Key)
    ensures SetOf(ks + [k]) == SetOf(ks) + {k}
  {
  }

  lemma RepeatSnoc(ks: seq<Key>, k: Key)
    requires NoRepeat(ks) && k !in SetOf(ks)
    ensures NoRepeat(ks + [k])
  {
    var r := ks + [k];
    forall i, j | 0 <= i < j < |r| ensures r[i] != r[j] {
      assert r[i] in SetOf(ks);
    }
  }

  /** Adding a key to the entry of a value. */
  lemma AddEntry(e: Index, t: Table, c: nat, v: Key, pk: Key)
    requires EntryOk(e, t, c, v)
    ensures var a := AddTo(e, v, pk);
            && v in a && NoRepeat(a[v]) && SetOf(a[v]) == Holders(t, c, v) + {pk}
            && forall w :: w != v ==> (w in a <==> w in e) && (w in e ==> a[w] == e[w])
  {
    if v in e && pk !in e[v] {
      SetSnoc(e[v], pk);
      RepeatSnoc(e[v], pk);
    }
  }

  /** Taking a key out of the entry of a value; an entry that becomes empty goes away. */
  lemma RemoveEntry(e: Index, t: Table, c: nat, v: Key, pk: Key)
    requires EntryOk(e, t, c, v)
    ensures var a, s := RemoveFrom(e, v, pk), Holders(t, c, v) - {pk};
            && (if s == {} then v !in a else v in a && NoRepeat(a[v]) && SetOf(a[v]) == s)
            && forall w :: w != v ==> (w in a <==> w in e) && (w in e ==> a[w] == e[w])
  {
    if v in e {
      DroppingIs(e[v], pk);
      NotEmpty(Dropping(e[v], pk));
    }
  }

  // ---- One index under writes --------------------------------------------------------------------

  function Inserted(e: Index, row: Row, c: nat, pk: Key): Index
    requires Indexable(row, c)
  {
    if row[c] == Null then e else AddTo(e, row[c].i, pk)
  }

  function Removed(e: Index, row: Row, c: nat, pk: Key): Index
    requires Indexable(row, c)
  {
    if row[c] == Null then e else RemoveFrom(e, row[c].i, pk)
  }

  function Updated(e: Index, old_: Row, new_: Row, c: nat, pk: Key): Index
    requires Indexable(old_, c) && Indexable(new_, c)
  {
    if old_[c] == new_[c] then e else Inserted(Removed(e, old_, c, pk), new_, c, pk)
  }

  /** Overwriting a row keeps the index right if and only if the row was new, or its old value was NULL or the same. */
  ghost predicate SafeInsert(t: Table, row: Row, c: nat, pk: Key) {
    pk in t && c < |t[pk]| && c < |row| ==> t[pk][c] == Null || t[pk][c] == row[c]
  }

  lemma {:induction false} InsertKeeps(e: Index, t: Table, row: Row, c: nat, pk: Key)
    requires Agrees(e, t, c) && AllIndexable(t, c) && Indexable(row, c) && SafeInsert(t, row, c, pk)
    ensures Agrees(Inserted(e, row, c, pk), t[pk := row], c) && AllIndexable(t[pk := row], c)
  {
    var t', a := t[pk := row], Inserted(e, row, c, pk);
    if row[c] != Null {
      var v: Key := row[c].i;
      assert EntryOk(e, t, c, v);
      AddEntry(e, t, c, v, pk);
    }
    forall v: Key ensures EntryOk(a, t', c, v) {
      assert EntryOk(e, t, c, v);
      if row[c] == Int(v) {
        assert Holders(t', c, v) == Holders(t, c, v) + {pk};
      } else {
        assert Holders(t', c, v) == Holders(t, c, v);
      }
    }
  }

  /** When it is not, the entry of the old value keeps a key whose row no longer holds it. */
  lemma {:induction false} InsertStale(e: Index, t: Table, row: Row, c: nat, pk: Key)
    requires Agrees(e, t, c) && AllIndexable(t, c) && Indexable(row, c) && !SafeInsert(t, row, c, pk)
    ensures !Agrees(Inserted(e, row, c, pk), t[pk := row], c)
  {
    var w: Key := t[pk][c].i;
    var t', a := t[pk := row], Inserted(e, row, c, pk);
    assert EntryOk(e, t, c, w);
    assert pk in Holders(t, c, w);
    if row[c] != Null {
      var v: Key := row[c].i;
      assert EntryOk(e, t, c, v);
      AddEntry(e, t, c, v, pk);
    }
    assert pk in SetOf(a[w]);
    assert pk !in Holders(t', c, w);
    assert !EntryOk(a, t', c, w);
  }

  lemma {:induction false} InsertAgrees(e: Index, t: Table, row: Row, c: nat, pk: Key)
    requires Agrees(e, t, c) && AllIndexable(t, c) && Indexable(row, c)
    ensures Agrees(Inserted(e, row, c, pk), t[pk := row], c) <==> SafeInsert(t, row, c, pk)
  {
    if SafeInsert(t, row, c, pk) {
      InsertKeeps(e, t, row, c, pk);
    } else {
      InsertStale(e, t, row, c, pk);
    }
  }

  lemma {:induction false} DeleteAgrees(e: Index, t: Table, c: nat, pk: Key)
    requires Agrees(e, t, c) && AllIndexable(t, c) && pk in t
    ensures Agrees(Removed(e, t[pk], c, pk), t - {pk}, c) && AllIndexable(t - {pk}, c)
  {
    assert Indexable(t[pk], c);
    var t', a, row := t - {pk}, Removed(e, t[pk], c, pk), t[pk];
    if row[c] != Null {
      var v: Key := row[c].i;
      assert EntryOk(e, t, c, v);
      RemoveEntry(e, t, c, v, pk);
    }
    forall v: Key ensures EntryOk(a, t', c, v) {
      assert EntryOk(e, t, c, v);
      if row[c] == Int(v) {
        assert Holders(t', c, v) == Holders(t, c, v) - {pk};
      } else {
        assert Holders(t', c, v) == Holders(t, c, v);
      }
    }
  }

  /** An update is a deletion and an insertion under the same key. */
  lemma {:induction false} UpdateAgrees(e: Index, t: Table, row: Row, c: nat, pk: Key)
    requires Agrees(e, t, c) && AllIndexable(t, c) && Indexable(row, c) && pk in t
    ensures Agrees(Updated(e, t[pk], row, c, pk), t[pk := row], c) && AllIndexable(t[pk := row], c)
  {
    if t[pk][c] == row[c] {
      var t' := t[pk := row];
      forall v: Key ensures EntryOk(e, t', c, v) {
        assert EntryOk(e, t, c, v);
        assert Holders(t', c, v) == Holders(t, c, v);
      }
    } else {
      DeleteAgrees(e, t, c, pk);
      InsertKeeps(Removed(e, t[pk], c, pk), t - {pk}, row, c, pk);
      assert (t - {pk})[pk := row] == t[pk := row];
    }
  }

  // ---- All the indexes of a table ----------------------------------------------------------------------

  ghost predicate NamesOk(catalog: seq<IndexSchema>, engines: map<string, Index>) {
    && (forall i, j :: 0 <= i < j < |catalog| ==> catalog[i].name != catalog[j].name)
    && (forall i :: 0 <= i < |catalog| ==> catalog[i].name in engines)
  }

  ghost predicate AgreeAt(catalog: seq<IndexSchema>, engines: map<string, Index>, t: Table, i: nat) {
    && i < |catalog| && catalog[i].name in engines
    && Agrees(engines[catalog[i].name], t, catalog[i].col) && AllIndexable(t, catalog[i].col)
  }

  /** Changing one engine leaves the indexes of the others alone. */
  lemma OtherEngines(catalog: seq<IndexSchema>, engines: map<string, Index>, i: nat, e: Index, t: Table, j: nat)
    requires NamesOk(catalog, engines) && i < |catalog| && j < |catalog| && j != i && AgreeAt(catalog, engines, t, j)
    ensures AgreeAt(catalog, engines[catalog[i].name := e], t, j)
  {
  }

  /** The first i indexes agree with the new table, the others still with the old one. */
  ghost predicate Halfway(catalog: seq<IndexSchema>, engines: map<string, Index>, t: Table, t': Table, i: nat) {
    && NamesOk(catalog, engines) && i <= |catalog|
    && (forall j :: 0 <= j < i ==> AgreeAt(catalog, engines, t', j))
    && (forall j :: i <= j < |catalog| ==> AgreeAt(catalog, engines, t, j))
  }

  lemma HalfwayStep(catalog: seq<IndexSchema>, engines: map<string, Index>, t: Table, t': Table, i: nat, e: Index)
    requires Halfway(catalog, engines, t, t', i) && i < |catalog|
    requires Agrees(e, t', catalog[i].col) && AllIndexable(t', catalog[i].col)
    ensures Halfway(catalog, engines[catalog[i].name := e], t, t', i + 1)
  {
    var es := engines[catalog[i].name := e];
    forall j | 0 <= j < i ensures AgreeAt(catalog, es, t', j) {
      OtherEngines(catalog, engines, i, e, t', j);
    }
    forall j | i < j < |catalog| ensures AgreeAt(catalog, es, t, j) {
      OtherEngines(catalog, engines, i, e, t, j);
    }
  }

  lemma NewIndex(catalog: seq<IndexSchema>, engines: map<string, Index>, idx: IndexSchema, e: Index, t: Table,
                 catalog': seq<IndexSchema>, engines': map<string, Index>)
    requires NamesOk(catalog, engines) && (forall i :: 0 <= i < |catalog| ==> AgreeAt(catalog, engines, t, i))
    requires forall i :: 0 <= i < |catalog| ==> catalog[i].name != idx.name
    requires Agrees(e, t, idx.col) && AllIndexable(t, idx.col)
    requires catalog' == catalog + [idx] && engines' == engines[idx.name := e]
    ensures NamesOk(catalog', engines') && forall i :: 0 <= i < |catalog'| ==> AgreeAt(catalog', engines', t, i)
  {
    forall i | 0 <= i < |catalog'| ensures AgreeAt(catalog', engines', t, i) {
      if i < |catalog| { assert AgreeAt(catalog, engines, t, i); }
    }
  }

  /** Every indexed column of the row can be indexed. */
  ghost predicate TakenBy(catalog: seq<IndexSchema>, row: Row) {
    forall i :: 0 <= i < |catalog| ==> Indexable(row, catalog[i].col)
  }

  /** The first i indexes have taken in the row; the others are as before. */
  ghost predicate TookIn(catalog: seq<IndexSchema>, es0: map<string, Index>, es: map<string, Index>, row: Row, pk: Key,
      i: nat) {
    && NamesOk(catalog, es0) && NamesOk(catalog, es) && i <= |catalog| && TakenBy(catalog, row)
    && forall j :: 0 <= j < |catalog| ==> TookAt(catalog[j], es0, es, row, pk, j < i)
  }

  ghost predicate TookAt(idx: IndexSchema, es0: map<string, Index>, es: map<string, Index>, row: Row, pk: Key,
      took: bool) {
    && idx.name in es0 && idx.name in es && Indexable(row, idx.col)
    && es[idx.name] == if took then Inserted(es0[idx.name], row, idx.col, pk) else es0[idx.name]
  }

  lemma TookMore(catalog: seq<IndexSchema>, es0: map<string, Index>, es: map<string, Index>, row: Row, pk: Key, i: nat)
    requires TookIn(catalog, es0, es, row, pk, i) && i < |catalog|
    ensures var idx := catalog[i];
            Indexable(row, idx.col) && TookIn(catalog, es0, es[idx.name := Inserted(es[idx.name], row, idx.col, pk)],
              row, pk, i + 1)
  {
    var idx := catalog[i];
    assert TookAt(idx, es0, es, row, pk, false);
    var es' := es[idx.name := Inserted(es[idx.name], row, idx.col, pk)];
    forall j | 0 <= j < |catalog| ensures TookAt(catalog[j], es0, es', row, pk, j < i + 1) {
      assert TookAt(catalog[j], es0, es, row, pk, j < i);
    }
  }

  /** Then each of them agrees with the table exactly when it loses track of no row. */
  lemma {:induction false} TookAgrees(catalog: seq<IndexSchema>, es0: map<string, Index>, es: map<string, Index>,
      t: Table, row: Row, pk: Key)
    requires TookIn(catalog, es0, es, row, pk, |catalog|) && forall i :: 0 <= i < |catalog| ==>
             AgreeAt(catalog, es0, t, i)
    ensures var t' := t[pk := row];
            (forall i :: 0 <= i < |catalog| ==> AgreeAt(catalog, es, t', i))
            <==> (forall i :: 0 <= i < |catalog| ==> SafeInsert(t, row, catalog[i].col, pk))
  {
    var t' := t[pk := row];
    forall i | 0 <= i < |catalog| ensures AgreeAt(catalog, es, t', i) <==> SafeInsert(t, row, catalog[i].col, pk) {
      assert TookAt(catalog[i], es0, es, row, pk, true) && AgreeAt(catalog, es0, t, i);
      InsertAgrees(es0[catalog[i].name], t, row, catalog[i].col, pk);
    }
  }

  class IndexManager {
    var catalog: seq<IndexSchema>
    var engines: map<string, Index>

    ghost predicate Valid()
      reads this
    {
      NamesOk(catalog, engines)
    }

    /** Every index agrees with the table. */
    ghost predicate AllAgree(t: Table)
      reads this
    {
      forall i :: 0 <= i < |catalog| ==> AgreeAt(catalog, engines, t, i)
    }

    ghost predicate Takes(row: Row)
      reads this
    {
      TakenBy(catalog, row)
    }

    constructor ()
      ensures Valid() && catalog == [] && engines == map[]
    {
      catalog, engines := [], map[];
    }

    method Add(name: string, v: Key, pk: Key)
      requires name in engines
      modifies this`engines
      ensures engines == old(engines)[name := AddTo(old(engines)[name], v, pk)]
    {
      var e: Index := engines[name];
      if v !in e {
        e := e[v := [pk]];
      } else if pk !in e[v] {
        e := e[v := e[v] + [pk]];
      }
      engines := engines[name := e];
    }

    method Remove(name: string, v: Key, pk: Key)
      requires name in engines
      modifies this`engines
      ensures engines == old(engines)[name := RemoveFrom(old(engines)[name], v, pk)]
    {
      var e: Index := engines[name];
      if v !in e {
        assert engines == engines[name := e];
        return;
      }
      var updated: seq<Key> := [];
      for i := 0 to |e[v]|
        invariant updated == Dropping(e[v][..i], pk) && e == old(engines)[name]
      {
        assert e[v][..i + 1][..i] == e[v][..i];
        if e[v][i] != pk {
          updated := updated + [e[v][i]];
        }
      }
      assert e[v][..|e[v]|] == e[v];
      if updated != [] {
        e := e[v := updated];
      } else {
        e := e - {v};
      }
      engines := engines[name := e];
    }

    /** The row's key is free, or no index would lose track of the row it replaces. */
    ghost predicate Safe(t: Table, row: Row, pk: Key)
      reads this
    {
      forall i :: 0 <= i < |catalog| ==> SafeInsert(t, row, catalog[i].col, pk)
    }

    /** A row is stored: every index takes it in. They all agree with the table if and only if the row's key was free,
        or each old value was NULL or the same. */
    method OnInsert(row: Row, pk: Key, ghost t: Table)
      requires Valid() && AllAgree(t) && Takes(row)
      modifies this`engines
      ensures Valid() && TookIn(catalog, old(engines), engines, row, pk, |catalog|)
      ensures AllAgree(t[pk := row]) <==> Safe(t, row, pk)
    {
      ghost var es0 := engines;
      for i := 0 to |catalog|
        invariant TookIn(catalog, es0, engines, row, pk, i)
      {
        var idx := catalog[i];
        ghost var es := engines;
        assert Indexable(row, idx.col);
        if row[idx.col] != Null {
          Add(idx.name, row[idx.col].i, pk);
        }
        assert engines == es[idx.name := Inserted(es[idx.name], row, idx.col, pk)];
        TookMore(catalog, es0, es, row, pk, i);
      }
      TookAgrees(catalog, es0, engines, t, row, pk);
    }

    /** A row goes: every index forgets its key. */
    method OnDelete(row: Row, pk: Key, ghost t: Table)
      requires Valid() && AllAgree(t) && pk in t && t[pk] == row
      modifies this`engines
      ensures Valid() && AllAgree(t - {pk})
    {
      ghost var t' := t - {pk};
      for i := 0 to |catalog|
        invariant Halfway(catalog, engines, t, t', i)
      {
        var idx := catalog[i];
        ghost var es := engines;
        assert AgreeAt(catalog, es, t, i);
        DeleteAgrees(es[idx.name], t, idx.col, pk);
        if row[idx.col] != Null {
          Remove(idx.name, row[idx.col].i, pk);
        }
        HalfwayStep(catalog, es, t, t', i, Removed(es[idx.name], row, idx.col, pk));
        assert engines == es[idx.name := Removed(es[idx.name], row, idx.col, pk)];
      }
    }

    /** A row changes under its key: every index moves the key from the old value to the new one. */
    method OnUpdate(before: Row, after: Row, pk: Key, ghost t: Table)
      requires Valid() && AllAgree(t) && Takes(after) && pk in t && t[pk] == before
      modifies this`engines
      ensures Valid() && AllAgree(t[pk := after])
    {
      ghost var t' := t[pk := after];
      for i := 0 to |catalog|
        invariant Halfway(catalog, engines, t, t', i)
      {
        var idx := catalog[i];
        ghost var es := engines;
        assert AgreeAt(catalog, es, t, i);
        UpdateAgrees(es[idx.name], t, after, idx.col, pk);
        UpdateOne(idx, before, after, pk);
        HalfwayStep(catalog, es, t, t', i, Updated(es[idx.name], before, after, idx.col, pk));
      }
    }

    method UpdateOne(idx: IndexSchema, before: Row, after: Row, pk: Key)
      requires idx.name in engines && Indexable(before, idx.col) && Indexable(after, idx.col)
      modifies this`engines
      ensures engines == old(engines)[idx.name := Updated(old(engines)[idx.name], before, after, idx.col, pk)]
    {
      if before[idx.col] != after[idx.col] {
        if before[idx.col] != Null {
          Remove(idx.name, before[idx.col].i, pk);
        }
        if after[idx.col] != Null {
          Add(idx.name, after[idx.col].i, pk);
        }
      }
    }

    /** A new index is filled from the rows that are there. */
    method CreateIndex(idx: IndexSchema, engine: Engine)
      requires Valid() && AllAgree(engine.rows) && AllIndexable(engine.rows, idx.col)
      requires forall i :: 0 <= i < |catalog| ==> catalog[i].name != idx.name
      modifies this
      ensures Valid() && AllAgree(engine.rows) && catalog == old(catalog) + [idx]
    {
      ghost var t := engine.rows;
      var e := BackFill(engine, idx.col);
      NewIndex(catalog, engines, idx, e, t, catalog + [idx], engines[idx.name := e]);
      engines := engines[idx.name := e];
      catalog := catalog + [idx];
    }

    method BackFill(engine: Engine, c: nat) returns (e: Index)
      requires AllIndexable(engine.rows, c)
      ensures Agrees(e, engine.rows, c)
    {
      e := map[];
      var ks := engine.ScanKeys(0, KEY_LIMIT);
      ghost var t := engine.rows;
      assert Part(t, ks[..0]) == map[];
      forall v: Key ensures EntryOk(e, map[], c, v) {
      }
      for i := 0 to |ks|
        invariant Agrees(e, Part(t, ks[..i]), c)
      {
        BackFillStep(e, t, ks, i, c);
        var row := engine.rows[ks[i]];
        if row[c] != Null {
          e := AddTo(e, row[c].i, ks[i]);
        }
      }
      assert ks[..|ks|] == ks;
      PartAll(t, ks);
    }

    /** The keys whose rows hold a value. */
    method Lookup(name: string, v: int) returns (pks: seq<Key>)
      ensures pks == if name in engines && 0 <= v < KEY_LIMIT && v in engines[name] then engines[name][v] else []
    {
      pks := if name in engines && 0 <= v < KEY_LIMIT && v in engines[name] then engines[name][v] else [];
    }
  }

  // ---- Range lookup --------------------------------------------------------------------------------

  /** The keys of the rows whose value lies in a set of values. */
  function HoldersIn(t: Table, c: nat, vs: set<Key>): set<Key> {
    set k | k in t && c < |t[k]| && t[k][c].Int? && t[k][c].i in vs
  }

  lemma AppendKeys(a: seq<Key>, b: seq<Key>)
    requires NoRepeat(a) && NoRepeat(b) && SetOf(a) !! SetOf(b)
    ensures NoRepeat(a + b) && SetOf(a + b) == SetOf(a) + SetOf(b)
  {
    var r := a + b;
    forall i, j | 0 <= i < j < |r| ensures r[i] != r[j] {
      if i < |a| <= j {
        assert r[i] in SetOf(a) && r[j] in SetOf(b);
      }
    }
  }

  /** The keys of the entries in a range of values: one entry after the other, smallest value first. */
  method RangeLookup(e: Index, low: int, high: int, ghost t: Table, ghost c: nat) returns (pks: seq<Key>)
    requires Agrees(e, t, c)
    ensures NoRepeat(pks) && SetOf(pks) == set k | k in t && c < |t[k]| && t[k][c].Int? && 0 <= t[k][c].i < KEY_LIMIT
            && low <= t[k][c].i <= high
  {
    var vs := InOrder(set v | v in e && low <= v <= high);
    pks := [];
    for i := 0 to |vs|
      invariant NoRepeat(pks) && SetOf(pks) == HoldersIn(t, c, SetOf(vs[..i]))
    {
      assert vs[i] in SetOf(vs);
      assert EntryOk(e, t, c, vs[i]);
      assert vs[..i + 1] == vs[..i] + [vs[i]];
      SetSnoc(vs[..i], vs[i]);
      assert HoldersIn(t, c, SetOf(vs[..i + 1])) == HoldersIn(t, c, SetOf(vs[..i])) + Holders(t, c, vs[i]);
      assert vs[i] !in SetOf(vs[..i]);
      AppendKeys(pks, e[vs[i]]);
      pks := pks + e[vs[i]];
    }
    assert vs[..|vs|] == vs;
    forall k | k in t && c < |t[k]| && t[k][c].Int? && 0 <= t[k][c].i < KEY_LIMIT && low <= t[k][c].i <= high
      ensures t[k][c].i in SetOf(vs)
    {
      var v: Key := t[k][c].i;
      assert EntryOk(e, t, c, v);
      assert k in Holders(t, c, v);
    }
  }

  /** The rows of some of the keys. */
  ghost function Part(t: Table, ks: seq<Key>): Table {
    map k | k in t && k in SetOf(ks) :: t[k]
  }

  lemma PartSnoc(t: Table, ks: seq<Key>, i: nat)
    requires i < |ks| && Increasing(ks) && ks[i] in t
    ensures Part(t, ks[..i + 1]) == Part(t, ks[..i])[ks[i] := t[ks[i]]] && ks[i] !in Part(t, ks[..i])
  {
    assert ks[..i + 1] == ks[..i] + [ks[i]];
    SetSnoc(ks[..i], ks[i]);
    forall k | k in ks[..i] ensures k != ks[i] {
    }
  }

  lemma BackFillStep(e: Index, t: Table, ks: seq<Key>, i: nat, c: nat)
    requires i < |ks| && Lists(ks, KeysIn(t, 0, KEY_LIMIT)) && AllIndexable(t, c)
    requires Agrees(e, Part(t, ks[..i]), c)
    ensures ks[i] in t && Indexable(t[ks[i]], c)
    ensures Agrees(Inserted(e, t[ks[i]], c, ks[i]), Part(t, ks[..i + 1]), c)
  {
    assert ks[i] in SetOf(ks);
    PartSnoc(t, ks, i);
    var part, row := Part(t, ks[..i]), t[ks[i]];
    assert Indexable(row, c);
    forall k | k in part ensures Indexable(part[k], c) {
      assert Indexable(t[k], c);
    }
    InsertKeeps(e, part, row, c, ks[i]);
  }

  lemma PartAll(t: Table, ks: seq<Key>)
    requires Lists(ks, KeysIn(t, 0, KEY_LIMIT))
    ensures Part(t, ks) == t
  {
  }
}
