/** The smallest run on a recovered tree that brings deleted rows back: a deletion borrows from a stale leaf. */
module RecoveredDelete {
  import opened Entries
  import opened Tree
  import opened Log
  import opened TreeInsert
  import opened TreeDelete
  import opened TreeRecovery
  import opened TreeDeleteRecovery
  import opened TreeSteps
  import opened TreeClimb
  import opened CrashReplay
  import opened Restored
  import opened ScanRuns
  import opened TreeActs
  import opened ReadPages
  import opened RecoveredOps

  function Rows(keys: seq<Key>): (r: seq<Entry>)
    ensures |r| == |keys| && forall i :: 0 <= i < |r| ==> r[i] == Entry(keys[i], [])
  {
    seq(|keys|, i requires 0 <= i < |keys| => Entry(keys[i], []))
  }

  /** Two leaves below a root. */
  function TwoLeaves(left: Page, right: Page, sep: Key): Store {
    map[0 := left, 1 := right, 2 := Index([sep], [0, 1])]
  }

  function Deletes(): seq<Op> {
    [Delete(2), Delete(3)]
  }

  /** The recovered pages: the left leaf is as it was logged, before its cut. */
  lemma {:induction false} RecoveredPages()
    ensures Recovered(map[0 := Image(Rows12())], Db(Rows12(), 0, 1), [Insert(3, [])], 2) ==
            Disk(TwoLeaves(StaleLeaf(), Leaf(Rows([2, 3]), None), 2), 2, 1, 3)
  {
    var base, db, ops := map[0 := Image(Rows12())], Db(Rows12(), 0, 1), [Insert(3, [])];
    var g := Ins(Rows12(), 3, [], 2, 1);
    assert ops[..0] == [] && LogAll(db, ops, 2) == [] + GrowLog(g) == GrowLog(g);
    assert DoAll(db, ops, 2) == Do(DoAll(db, [], 2), Insert(3, []), 2) == Db(Grow(g), 1, 3);
    FirstInsert();
    assert KidIds(Grow(g).kids) == [0, 1];
    InsertReplayed(base, GrowLog(g));
  }

  lemma {:induction false} InsertReplayed(base: Store, log: seq<Change>)
    requires base.Keys <= {0}
    requires log == [PageWrite(0, StaleLeaf()), PageWrite(1, Leaf([Entry(2, []), Entry(3, [])], None))]
                    + [PageWrite(2, Index([2], [0, 1])), MetaUpdate(2)]
    ensures Replay(base, log) == TwoLeaves(StaleLeaf(), Leaf(Rows([2, 3]), None), 2)
  {
    var a, b := log[..2], log[2..];
    assert log == a + b && Rows([2, 3]) == [Entry(2, []), Entry(3, [])];
    ReplayAppend(base, a, b);
    ReplayTwo(base, a[0], a[1]);
    ReplayTwo(Replay(base, a), b[0], b[1]);
  }

  /** The tree that is opened on such pages. */
  lemma TwoLeavesTree(a: seq<Entry>, b: seq<Entry>, sep: Key)
    ensures TreeIn(TwoLeaves(Leaf(a, None), Leaf(b, None), sep), 2, 1) == Nd(2, [sep], [Lf(0, a, None), Lf(1, b, None)])
  {
    var s := TwoLeaves(Leaf(a, None), Leaf(b, None), sep);
    assert TreeIn(s, 0, 0) == Lf(0, a, None) && TreeIn(s, 1, 0) == Lf(1, b, None);
    assert s[2] == Index([sep], [0, 1]);
  }

  /** Deleting 2 takes it from the right leaf. */
  lemma {:induction false} FirstDelete(es: seq<Event>)
    requires Acts(es) == ActsOn(Disk(TwoLeaves(StaleLeaf(), Leaf(Rows([2, 3]), None), 2), 2, 1, 3), Delete(2), 2)
    ensures var d := Disk(TwoLeaves(StaleLeaf(), Leaf(Rows([2, 3]), None), 2), 2, 1, 3);
            && Finds(d, 2)
            && After(d, Delete(2), 2, es) == Disk(TwoLeaves(StaleLeaf(), Leaf(Rows([3]), None), 2), 2, 1, 3)
  {
    var s := TwoLeaves(StaleLeaf(), Leaf(Rows([2, 3]), None), 2);
    var t := Nd(2, [2], [Lf(0, StaleLeaf().entries, None), Lf(1, Rows([2, 3]), None)]);
    TwoLeavesTree(StaleLeaf().entries, Rows([2, 3]), 2);
    assert Rows([2, 3])[1..] == Rows([3]);
    assert Remove(Rows([2, 3]), 2) == Remove(Rows([3]), 2) == Rows([3]) by {
      assert Rows([3])[1..] == [];
    }
    assert Route([2], 2) == 1;
    var d := Del(t.kids[1], 2, 2);
    assert d == Fixed(Lf(1, Rows([3]), None), false, [PageWrite(1, Leaf(Rows([3]), None))]);
    assert t.kids[1 := d.node] == [t.kids[0], d.node];
    var f := Del(t, 2, 2);
    assert f == Fixed(Nd(2, [2], [t.kids[0], d.node]), false, d.log);
    assert CollapseActs(f) == [] && DelActs(t, 2, 2) + [] == DelActs(t, 2, 2);
    assert s[1].entries[0].key == 2 && Get(s[1].entries, 2) == Some([]);
    DelEffects(s, t, 2, 2, es);
    ReplayOne(s, d.log[0]);
  }

  /** Deleting 3 empties it, and it borrows from the stale leaf the row that it has just lost. */
  lemma {:induction false} SecondDelete(es: seq<Event>)
    requires Acts(es) == ActsOn(Disk(TwoLeaves(StaleLeaf(), Leaf(Rows([3]), None), 2), 2, 1, 3), Delete(3), 2)
    ensures var d := Disk(TwoLeaves(StaleLeaf(), Leaf(Rows([3]), None), 2), 2, 1, 3);
            && Finds(d, 3)
            && After(d, Delete(3), 2, es) ==
               Disk(TwoLeaves(Leaf(Rows([1, 2]), None), Leaf(Rows([3]), None), 3), 2, 1, 3)
  {
    var s := TwoLeaves(StaleLeaf(), Leaf(Rows([3]), None), 2);
    var t := Nd(2, [2], [Lf(0, StaleLeaf().entries, None), Lf(1, Rows([3]), None)]);
    TwoLeavesTree(StaleLeaf().entries, Rows([3]), 2);
    assert Rows([3])[1..] == [] && Remove(Rows([3]), 3) == [];
    assert Route([2], 3) == 1;
    var d := Del(t.kids[1], 3, 2);
    assert d == Fixed(Lf(1, [], None), false, [PageWrite(1, Leaf([], None))]);
    var n := Nd(2, [2], [t.kids[0], d.node]);
    assert t.kids[1 := d.node] == n.kids;
    LastRowBack();
    var f := Del(t, 3, 2);
    assert f == Fixed(Mend(n, 1, 2).node, false, d.log + Mend(n, 1, 2).log);
    assert CollapseActs(f) == [] && DelActs(t, 3, 2) + [] == DelActs(t, 3, 2);
    assert s[1].entries[0].key == 3 && Get(s[1].entries, 3) == Some([]);
    DelEffects(s, t, 3, 2, es);
    SecondReplay(s, f.log);
  }

  /** The leaf that has lost its last row takes the last of the stale one. */
  lemma LastRowBack()
    ensures var n := Nd(2, [2], [Lf(0, StaleLeaf().entries, None), Lf(1, [], None)]);
            && Mendable(n, 1)
            && Mend(n, 1, 2).node == Nd(2, [3], [Lf(0, Rows([1, 2]), None), Lf(1, Rows([3]), None)])
            && Mend(n, 1, 2).log == [PageWrite(1, Leaf(Rows([3]), None)), PageWrite(0, Leaf(Rows([1, 2]), None)),
                                     PageWrite(2, Index([3], [0, 1]))]
            && !Mend(n, 1, 2).merged
  {
    var n := Nd(2, [2], [Lf(0, StaleLeaf().entries, None), Lf(1, [], None)]);
    var p := BorrowLeft(n.kids[0], 2, n.kids[1]);
    assert StaleLeaf().entries[..2] == Rows([1, 2]) && Put([], 3, []) == Rows([3]);
    assert p == Two(Lf(0, Rows([1, 2]), None), 3, Lf(1, Rows([3]), None));
    var r := SetPair(n, 0, p);
    assert r.keys == [3] && r.kids == [p.left, p.right] && KidIds(r.kids) == [0, 1];
  }

  lemma {:induction false} SecondReplay(s: Store, log: seq<Change>)
    requires s == TwoLeaves(StaleLeaf(), Leaf(Rows([3]), None), 2)
    requires log == [PageWrite(1, Leaf([], None))] +
                    [PageWrite(1, Leaf(Rows([3]), None)), PageWrite(0, Leaf(Rows([1, 2]), None)),
                     PageWrite(2, Index([3], [0, 1]))]
    ensures Replay(s, log) == TwoLeaves(Leaf(Rows([1, 2]), None), Leaf(Rows([3]), None), 3)
  {
    var a, b := log[..2], log[2..];
    assert log == a + b;
    ReplayAppend(s, a, b);
    ReplayTwo(s, a[0], a[1]);
    ReplayTwo(Replay(s, a), b[0], b[1]);
  }

  /** Insert 3 below rows 1 and 2 at order 2, crash, recover, delete 2 and then 3: both deletions find their row, and
      both rows are found afterwards, although neither is in the map. */
  lemma {:induction false} DeletedRowsReturn(ess: seq<seq<Event>>)
    requires |ess| == 2
    requires var d0 := Recovered(map[0 := Image(Rows12())], Db(Rows12(), 0, 1), [Insert(3, [])], 2);
             && Acts(ess[0]) == ActsOn(d0, Delete(2), 2)
             && Acts(ess[1]) == ActsOn(After(d0, Delete(2), 2, ess[0]), Delete(3), 2)
    ensures var base, db := map[0 := Image(Rows12())], Db(Rows12(), 0, 1);
            var d0 := Recovered(base, db, [Insert(3, [])], 2);
            var d1, d2 := After(d0, Delete(2), 2, ess[0]), AfterAll(d0, Deletes(), 2, ess);
            var m := UpdateAll(UpdateAll(AsMap(Contents(db.tree)), [Insert(3, [])]), Deletes());
            && Healthy(db, 2) && Holds(base, db.tree, KEY_LIMIT, true)
            && Finds(d0, 2) && Finds(d1, 3) && 2 !in m && 3 !in m
            && Lookup(d2.pages, d2.root, 2, d2.height) == Some([])
            && Lookup(d2.pages, d2.root, 3, d2.height) == Some([])
  {
    StartHealthy();
    RecoveredPages();
    FirstDelete(ess[0]);
    SecondDelete(ess[1]);
    var d0 := Recovered(map[0 := Image(Rows12())], Db(Rows12(), 0, 1), [Insert(3, [])], 2);
    TwoSteps(d0, ess);
    RowsBack();
    GoneFromMap(UpdateAll(AsMap(Contents(Rows12())), [Insert(3, [])]));
  }

  lemma RowsBack()
    ensures var s := TwoLeaves(Leaf(Rows([1, 2]), None), Leaf(Rows([3]), None), 3);
            Lookup(s, 2, 2, 1) == Some([]) && Lookup(s, 2, 3, 1) == Some([])
  {
    var s := TwoLeaves(Leaf(Rows([1, 2]), None), Leaf(Rows([3]), None), 3);
    assert Route([3], 2) == 0 && Route([3], 3) == 1 && s[2].children == [0, 1];
    assert Rows([1, 2])[1..] == Rows([2]);
    assert Lookup(s, 0, 2, 0) == Get(Rows([1, 2]), 2) == Get(Rows([2]), 2) == Some([]);
    assert Lookup(s, 1, 3, 0) == Get(Rows([3]), 3) == Some([]);
  }

  /** The second deletion reads the page that is stale. */
  lemma {:induction false} ReadsStale()
    ensures var t := DoAll(Db(Rows12(), 0, 1), [Insert(3, []), Delete(2)], 2).tree;
            0 in ReadIds(t, Delete(3), 2) && 0 in StaleIn(TwoLeaves(StaleLeaf(), Leaf(Rows([3]), None), 2), t)
  {
    var db, ops := Db(Rows12(), 0, 1), [Insert(3, []), Delete(2)];
    assert ops[..1] == [Insert(3, [])] && ops[..1][..0] == [];
    FirstInsert();
    var mid := DoAll(db, ops[..1], 2);
    var a, b := Lf(0, [Entry(1, [])], Some(1)), Lf(1, [Entry(2, []), Entry(3, [])], None);
    assert mid == Do(DoAll(db, [], 2), Insert(3, []), 2);
    assert mid.tree == Nd(2, [2], [a, b]);
    FirstGone(mid);
    var t := Nd(2, [2], [a, Lf(1, Rows([3]), None)]);
    assert DoAll(db, ops, 2).tree == t;
    SecondReads(t);
    PageIds(t, 0);
    assert PageOf(t, 0) == Some(Image(a)) by {
      assert PageAmong(t.kids, 0) == PageOf(a, 0);
    }
  }

  lemma FirstGone(mid: Db)
    requires mid.tree == Nd(2, [2], [Lf(0, [Entry(1, [])], Some(1)), Lf(1, [Entry(2, []), Entry(3, [])], None)])
    ensures Do(mid, Delete(2), 2).tree == Nd(2, [2], [Lf(0, [Entry(1, [])], Some(1)), Lf(1, Rows([3]), None)])
  {
    var t, es := mid.tree, [Entry(2, []), Entry(3, [])];
    assert es[1..] == Rows([3]) && Rows([3])[1..] == [] && Remove(es, 2) == Remove(Rows([3]), 2) == Rows([3]);
    assert Route([2], 2) == 1;
    var d := Del(t.kids[1], 2, 2);
    assert d.node == Lf(1, Rows([3]), None);
    assert t.kids[1 := d.node] == [t.kids[0], d.node];
    assert Del(t, 2, 2).node == Nd(2, [2], [t.kids[0], d.node]);
    Pair(t.kids[0], t.kids[1]);
    assert Contents(t) == [Entry(1, [])] + es;
    InMap(Contents(t), 1);
  }

  lemma {:induction false} InMap(es: seq<Entry>, i: nat)
    requires i < |es|
    ensures es[i].key in AsMap(es)
  {
    if i > 0 {
      InMap(es[1..], i - 1);
    }
  }

  lemma SecondReads(t: Tree)
    requires t == Nd(2, [2], [Lf(0, [Entry(1, [])], Some(1)), Lf(1, Rows([3]), None)])
    ensures 0 in ReadIds(t, Delete(3), 2)
  {
    assert Rows([3])[1..] == [] && Remove(Rows([3]), 3) == [];
    assert Route([2], 3) == 1 && Del(t.kids[1], 3, 2).node == Lf(1, [], None);
    Pair(t.kids[0], t.kids[1]);
    InMap(Contents(t), 1);
    assert SiblingIds(t, 1, 2) == {0};
  }

  lemma TwoSteps(d: Disk, ess: seq<seq<Event>>)
    requires |ess| == 2
    ensures AfterAll(d, Deletes(), 2, ess) == After(After(d, Delete(2), 2, ess[0]), Delete(3), 2, ess[1])
  {
    assert Deletes()[..1] == [Delete(2)] && ess[..1] == [ess[0]];
    assert [Delete(2)][..0] == [] && [ess[0]][..0] == [];
    assert AfterAll(d, [Delete(2)], 2, [ess[0]]) == After(AfterAll(d, [], 2, []), Delete(2), 2, ess[0]);
  }

  lemma GoneFromMap(m: map<Key, Bytes>)
    ensures 2 !in UpdateAll(m, Deletes()) && 3 !in UpdateAll(m, Deletes())
  {
    assert Deletes()[..1] == [Delete(2)] && [Delete(2)][..0] == [];
    assert UpdateAll(m, [Delete(2)]) == Update(UpdateAll(m, []), Delete(2));
  }
}
