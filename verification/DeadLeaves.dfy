/** What becomes of a leaf that an operation takes out of the tree: what was logged of it last, if anything. */
module DeadLeaves {
  import opened Entries
  import opened Tree
  import opened Log
  import opened TreeInsert
  import opened TreeDelete
  import opened TreeRecovery
  import opened TreeDeleteRecovery
  import opened TreeLive
  import opened TreeLeaves
  import opened TreeSteps
  import opened TreeClimb
  import opened CrashReplay
  import opened Restored
  import opened LeafOrder

  /** The page is the leaf as it was, without one key. */
  ghost predicate WithoutKey(s: Store, before: Option<Page>, k: Key, q: PageId) {
    && q in s && before.Some? && before.value.Leaf?
    && s[q] == Leaf(Remove(before.value.entries, k), before.value.next)
  }

  lemma {:induction false} NodeLeaves(t: Tree, j: nat, c: Tree, q: PageId)
    requires t.Nd? && j < |t.kids| && q in LeafIds(t)
    ensures q in LeafIds(Nd(t.id, t.keys, t.kids[j := c])) || (q in LeafIds(t.kids[j]) && q !in LeafIds(c))
  {
    var n := Nd(t.id, t.keys, t.kids[j := c]);
    OneSet(t.kids, j, c);
    assert t.kids[j..j + 1] == [t.kids[j]] && n.kids[j..j + 1] == [c];
    assert n.kids[..j] == t.kids[..j] && n.kids[j + 1..] == t.kids[j + 1..];
    LeavesOne(t.kids[j]);
    LeavesOne(c);
    IdsAround(t.kids, j, 1);
    IdsAround(n.kids, j, 1);
  }

  /** A page of child j is no page of the node once it is none of what takes the child's place. */
  lemma {:induction false} GoneBelow(t: Tree, j: nat, c: Tree, q: PageId)
    requires t.Nd? && j < |t.kids| && Distinct(Ids(t)) && q in Ids(t.kids[j]) && q !in Ids(c)
    ensures q !in Ids(Nd(t.id, t.keys, t.kids[j := c]))
  {
    var n := Nd(t.id, t.keys, t.kids[j := c]);
    Around(t.kids, j);
    Around(n.kids, j);
    assert n.kids[..j] == t.kids[..j] && n.kids[j + 1..] == t.kids[j + 1..] && n.kids[j] == c;
    var a, b := IdsOf(t.kids[..j]), IdsOf(t.kids[j + 1..]);
    assert Ids(t)[q] == (if t.id == q then 1 else 0) + a[q] + Ids(t.kids[j])[q] + b[q];
    assert a[q] == 0 && b[q] == 0 && t.id != q;
  }

  /** Only a merge takes a leaf away: the right one of the pair. */
  lemma {:induction false} MergedAway(n: Tree, i: nat, cut: Option<nat>, q: PageId)
    requires Repairable(n, i, cut) && Distinct(Ids(n)) && q in LeafIds(n) && q !in LeafIds(Repaired(n, i, cut))
    ensures cut == None && n.kids[i].Lf? && n.kids[i + 1].Lf? && q == n.kids[i + 1].id
    ensures q !in Ids(Repaired(n, i, cut)) && q != n.id && q != n.kids[i].id
  {
    var r, a, b, out := Repaired(n, i, cut), n.kids[i], n.kids[i + 1], OutcomeAt(n, i, cut);
    RepairedKids(n, i, cut);
    assert n.kids[i..i + 2] == [a, b];
    IdsAround(n.kids, i, 2);
    assert r.kids[..i] == n.kids[..i] && r.kids[i..i + |out|] == out && r.kids[i + |out|..] == n.kids[i + 2..];
    IdsAround(r.kids, i, |out|);
    assert q in LeafIdsOf([a, b]) && q !in LeafIdsOf(out);
    PairLeaf(a, n.keys[i], b, cut, q);
    AroundTwo(n.kids, i);
    AroundTwoOut(n, i, q);
  }

  lemma {:induction false} PairLeaf(a: Tree, sep: Key, b: Tree, cut: Option<nat>, q: PageId)
    requires Alike(a, b) && (cut.Some? ==> cut.value < NumKeys(Merged(a, sep, b)))
    requires q in LeafIdsOf([a, b]) && q !in LeafIdsOf(Outcome(a, sep, b, cut))
    ensures cut == None && a.Lf? && b.Lf? && q == b.id
  {
    var out := Outcome(a, sep, b, cut);
    TwoLeaves(a, b);
    LeavesOne(out[0]);
    if cut.Some? {
      TwoLeaves(out[0], out[1]);
      assert out == [out[0], out[1]];
    } else {
      assert out == [out[0]];
    }
    if a.Lf? {
      assert LeafIdsOf([a, b]) == [a.id, b.id];
      assert LeafIdsOf(out) == if cut.Some? then [a.id, b.id] else [a.id];
      assert q == a.id || q == b.id;
      assert a.id in LeafIdsOf(out) by { assert LeafIdsOf(out)[0] == a.id; }
      assert cut.Some? ==> b.id in [a.id, b.id];
    } else {
      LeavesAppend(a.kids, b.kids);
      if cut.Some? {
        assert a.kids + b.kids == out[0].kids + out[1].kids;
        LeavesAppend(out[0].kids, out[1].kids);
      }
    }
  }

  /** The merged leaf is a page of the node no more. */
  lemma {:induction false} AroundTwoOut(n: Tree, i: nat, q: PageId)
    requires Repairable(n, i, None) && Distinct(Ids(n)) && n.kids[i].Lf? && n.kids[i + 1].Lf? && q == n.kids[i + 1].id
    ensures q !in Ids(Repaired(n, i, None)) && q != n.id && q != n.kids[i].id
  {
    var r, a, b := Repaired(n, i, None), n.kids[i], n.kids[i + 1];
    AroundTwo(n.kids, i);
    assert r.kids[i].Lf? && r.kids[i].id == a.id;
    assert r.kids[..i] == n.kids[..i] && r.kids[i + 1..] == n.kids[i + 2..];
    Around(r.kids, i);
    OneLess(Ids(n), n.id, IdsOf(n.kids[..i]), a.id, q, IdsOf(n.kids[i + 2..]));
    assert Ids(r) == multiset{n.id} + (IdsOf(n.kids[..i]) + multiset{a.id} + IdsOf(n.kids[i + 2..]));
  }

  lemma OneLess(all: multiset<PageId>, id: PageId, x: multiset<PageId>, a: PageId, q: PageId, y: multiset<PageId>)
    requires Distinct(all) && all == multiset{id} + (x + multiset{a} + multiset{q} + y)
    ensures q !in multiset{id} + (x + multiset{a} + y) && q != id && q != a
  {
    assert all[q] == multiset{id}[q] + x[q] + multiset{a}[q] + 1 + y[q];
  }

  // ---- One level, and the whole deletion -----------------------------------------------------------

  /** q is no page of the result, and what was logged of it, if anything, is the leaf without the key. */
  ghost predicate Gone(s: Store, t: Tree, k: Key, q: PageId, r: Fixed) {
    q !in Ids(r.node) && (q in Touched(r.log) ==> WithoutKey(Replay(s, r.log), PageOf(t, q), k, q))
  }

  /** A leaf that a deletion takes out of the tree: no page of the tree any more, and if it was logged, as the leaf
      that lost the key. */
  lemma {:induction false} DelDead(s: Store, t: Tree, k: Key, order: nat, least: nat, lo: int, hi: int, h: nat,
                                   after: Option<PageId>, q: PageId)
    requires Deletable(t, order, least, lo, hi, h, after) && lo <= k < hi && Distinct(Ids(t))
    requires q in LeafIds(t) && q !in LeafIds(Del(t, k, order).node)
    ensures Gone(s, t, k, q, Del(t, k, order))
    decreases t
  {
    if t.Lf? {
      LeafStays(t, k, order);
    } else {
      var j, d, n := DelStep(t, k, order, least, lo, hi, h, after);
      var l, u := Lower(t.keys, lo, j), Upper(t.keys, hi, j);
      RouteBounds(t.keys, lo, hi, k);
      KidDistinct(t, j);
      DelContents(t.kids[j], k, order, order / 2, l, u, h - 1, Follower(t.kids, after, j));
      DelTouchesOnly(t.kids[j], k, order, order / 2, l, u, h - 1, Follower(t.kids, after, j));
      if q in LeafIds(t.kids[j]) && q !in LeafIds(d.node) {
        DelDead(s, t.kids[j], k, order, order / 2, l, u, h - 1, Follower(t.kids, after, j), q);
      }
      LevelDead(s, t, k, j, d, n, q);
      if NumKeys(d.node) < order / 2 {
        NodeDead(s, t, k, order, lo, hi, h, j, d, n, q);
      }
    }
  }

  lemma LeafStays(t: Tree, k: Key, order: nat)
    requires t.Lf? && order >= 2
    ensures LeafIds(Del(t, k, order).node) == LeafIds(t)
  {
  }

  /** The level above the child, before its own repair. */
  lemma {:induction false} LevelDead(s: Store, t: Tree, k: Key, j: nat, d: Fixed, n: Tree, q: PageId)
    requires t.Nd? && j < |t.kids| && Distinct(Ids(t)) && q in LeafIds(t) && n == Nd(t.id, t.keys, t.kids[j := d.node])
    requires q in LeafIds(t.kids[j]) && q !in LeafIds(d.node) ==> Gone(s, t.kids[j], k, q, d)
    ensures q !in LeafIds(n) ==> Gone(s, t, k, q, Fixed(n, false, d.log))
  {
    if q !in LeafIds(n) {
      NodeLeaves(t, j, d.node, q);
      DeadBelow(t, j, d.node, q);
    }
  }

  lemma KidDistinct(t: Tree, j: nat)
    requires t.Nd? && j < |t.kids| && Distinct(Ids(t))
    ensures Distinct(Ids(t.kids[j]))
  {
    KidAmong(t.kids, j);
    assert forall id :: Ids(t.kids[j])[id] <= IdsOf(t.kids)[id] <= Ids(t)[id];
  }

  lemma {:induction false} DeadBelow(t: Tree, j: nat, c: Tree, q: PageId)
    requires t.Nd? && j < |t.kids| && Distinct(Ids(t)) && q in LeafIds(t.kids[j]) && q !in Ids(c)
    ensures q !in Ids(Nd(t.id, t.keys, t.kids[j := c])) && PageOf(t, q) == PageOf(t.kids[j], q)
  {
    KidDistinct(t, j);
    LeafIdsOnce(t.kids[j]);
    GoneBelow(t, j, c, q);
    KidPage(t, j, q);
  }

  /** The repair of the node does not log a leaf that it takes away, or that is gone already. */
  lemma {:induction false} NodeDead(s: Store, t: Tree, k: Key, order: nat, lo: int, hi: int, h: nat, j: nat, d: Fixed,
                                    n: Tree, q: PageId)
    requires t.Nd? && |t.kids| == |t.keys| + 1 && j < |t.kids| && Distinct(Ids(t)) && q in LeafIds(t)
    requires order >= 2 && d == Del(t.kids[j], k, order) && n == Nd(t.id, t.keys, t.kids[j := d.node])
    requires Ids(d.node) <= Ids(t.kids[j]) && Deficient(n, j, order, lo, hi, h) && Linked(n) && Mendable(n, j)
    requires forall id {:trigger id in Touched(d.log)} :: id in Touched(d.log) ==> id in Ids(t.kids[j])
    requires q !in LeafIds(n) ==> Gone(s, t, k, q, Fixed(n, false, d.log))
    requires q !in LeafIds(Mend(n, j, order).node)
    ensures var f := Mend(n, j, order);
            Gone(s, t, k, q, Fixed(f.node, f.merged, d.log + f.log))
  {
    OneReplaced(t, j, d.node);
    var i, cut := MendIsRepair(n, j, order, lo, hi, h);
    RepairKeeps(n, i, cut);
    var log := Mend(n, j, order).log;
    if q in LeafIds(n) {
      MergedAway(n, i, cut, q);
    }
    NotRepaired(n, j, order, i, cut, q);
    ReplayAppend(s, d.log, log);
    ReplayTouches(Replay(s, d.log), log, q);
    if q in LeafIds(n) && q in Touched(d.log) {
      LoggedAbsorbed(s, t, k, order, j, d, n, i, q);
    }
  }

  lemma {:induction false} NotRepaired(n: Tree, j: nat, order: nat, i: nat, cut: Option<nat>, q: PageId)
    requires order >= 2 && Mendable(n, j) && IsMend(n, j, order, i, cut)
    requires q !in Ids(n) || (cut == None && q != n.id && q != n.kids[i].id)
    ensures q !in Touched(Mend(n, j, order).log)
  {
    var out, r := OutcomeAt(n, i, cut), Repaired(n, i, cut);
    if q !in Ids(n) {
      NoneRepaired(n, i, cut, i == j, q);
    } else {
      RepairedKids(n, i, cut);
      TouchedThree(out[0], out[0], r);
    }
  }

  lemma NoneRepaired(n: Tree, i: nat, cut: Option<nat>, leftFirst: bool, q: PageId)
    requires Repairable(n, i, cut) && q !in Ids(n)
    ensures q !in Touched(RepairLog(OutcomeAt(n, i, cut), Repaired(n, i, cut), leftFirst))
  {
    if q in Touched(RepairLog(OutcomeAt(n, i, cut), Repaired(n, i, cut), leftFirst)) {
      RepairTouches(n, i, cut, leftFirst, q);
    }
  }

  lemma {:induction false} OtherPage(t: Tree, j: nat, c: Tree, i: nat)
    requires t.Nd? && j < |t.kids| && i < |t.kids| && i != j && Distinct(Ids(t))
    ensures t.kids[j := c][i].id !in Ids(t.kids[j])
  {
    NotWithin(t, j, i);
  }

  /** The leaf that is absorbed was logged only if it is the one that lost the key. */
  lemma {:induction false} LoggedAbsorbed(s: Store, t: Tree, k: Key, order: nat, j: nat, d: Fixed, n: Tree, i: nat,
      q: PageId)
    requires t.Nd? && |t.kids| == |t.keys| + 1 && j < |t.kids| && Distinct(Ids(t)) && order >= 2
    requires d == Del(t.kids[j], k, order) && n == Nd(t.id, t.keys, t.kids[j := d.node])
    requires i + 1 < |n.kids| && n.kids[i + 1].Lf? && q == n.kids[i + 1].id && (i == j || i + 1 == j)
    requires q in Ids(t.kids[j])
    ensures WithoutKey(Replay(s, d.log), PageOf(t, q), k, q)
  {
    if i == j {
      OtherPage(t, j, d.node, i + 1);
    }
    assert d.node.Lf? && t.kids[j].Lf?;
    assert d.node.id == t.kids[j].id;
    ReplayOne(s, d.log[0]);
    KidPage(t, j, q);
  }

  // ---- Operations ------------------------------------------------------------------------------------

  /** A leaf that an operation takes out of the tree is no page of it any more, and if it was logged, as the leaf that
      lost the key. */
  ghost predicate Died(s: Store, db: Db, op: Op, order: nat, q: PageId)
    requires order >= 2
  {
    && op.Delete? && q !in Ids(Do(db, op, order).tree)
    && (q in Touched(DoLog(db, op, order)) ==>
          WithoutKey(Replay(s, DoLog(db, op, order)), PageOf(db.tree, q), op.key, q))
  }

  lemma {:induction false} OpDead(s: Store, db: Db, op: Op, order: nat, q: PageId)
    requires Healthy(db, order) && q in LeafIds(db.tree) && q !in LeafIds(Do(db, op, order).tree)
    ensures Died(s, db, op, order, q)
  {
    if op.Insert? {
      OpOrder(db, op, order);
      SubIn(LeafIds(db.tree), LeafIds(Do(db, op, order).tree), q);
      assert false;
    }
    DeleteDead(s, db, op.key, order, q);
  }

  lemma {:induction false} DeleteDead(s: Store, db: Db, k: Key, order: nat, q: PageId)
    requires Healthy(db, order) && q in LeafIds(db.tree) && q !in LeafIds(TreeAfter(db.tree, k, order))
    ensures Died(s, db, Delete(k), order, q)
  {
    var t, d := db.tree, Del(db.tree, k, order);
    CollapsedPages(d, q);
    DelDead(s, t, k, order, RootLeast(t), 0, KEY_LIMIT, db.height, None, q);
    MetaAside(s, d, q);
  }

  lemma {:induction false} CollapsedPages(d: Fixed, q: PageId)
    ensures LeafIds(Collapse(d)) == LeafIds(d.node) && (q !in Ids(d.node) ==> q !in Ids(Collapse(d)))
  {
    if Collapse(d) != d.node {
      assert d.node.kids == [d.node.kids[0]];
      LeavesOne(d.node.kids[0]);
      KidAmong(d.node.kids, 0);
    }
  }

  lemma MetaAside(s: Store, d: Fixed, q: PageId)
    ensures Touched(CollapseLog(d)) == Touched(d.log) && Replay(s, CollapseLog(d)) == Replay(s, d.log)
  {
    if Collapse(d) != d.node {
      var m := MetaUpdate(Collapse(d).id);
      ReplayAppend(s, d.log, [m]);
      ReplayOne(Replay(s, d.log), m);
    }
  }
}
