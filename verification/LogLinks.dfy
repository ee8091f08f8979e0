/** Every page id that the tree logs, as a page, a child, a leaf link or a root, is one that has been allocated. */
module LogLinks {
  import opened Entries
  import opened Tree
  import opened Log
  import opened TreeInsert
  import opened TreeDelete
  import opened TreeLive
  import opened TreeSteps
  import opened TreeClimb
  import opened CrashReplay

  /** All pages and links of a tree are below a bound. */
  ghost predicate Bounded(t: Tree, cap: nat)
    decreases t
  {
    && t.id < cap
    && (t.Lf? && t.next.Some? ==> t.next.value < cap)
    && (t.Nd? ==> forall i {:trigger t.kids[i]} :: 0 <= i < |t.kids| ==> Bounded(t.kids[i], cap))
  }

  ghost predicate IdsBelow(ids: multiset<PageId>, cap: nat) {
    forall id {:trigger ids[id]} :: id in ids ==> id < cap
  }

  ghost predicate AllBounded(ts: seq<Tree>, cap: nat) {
    forall i :: 0 <= i < |ts| ==> Bounded(ts[i], cap)
  }

  ghost predicate LinksBelow(p: Page, cap: nat) {
    match p
    case Leaf(_, next) => next.Some? ==> next.value < cap
    case Index(_, children) => forall i :: 0 <= i < |children| ==> children[i] < cap
  }

  ghost predicate ChangeBelow(c: Change, cap: nat) {
    match c
    case PageWrite(id, page) => id < cap && LinksBelow(page, cap)
    case MetaUpdate(root) => root < cap
  }

  ghost predicate LogBelow(log: seq<Change>, cap: nat) {
    forall i :: 0 <= i < |log| ==> ChangeBelow(log[i], cap)
  }

  lemma WriteBelow(t: Tree, cap: nat)
    requires Bounded(t, cap)
    ensures ChangeBelow(Write(t), cap)
  {
  }

  /** Ids and leaf links of a tree in order are below a bound when the ids in use are. */
  lemma {:induction false} ChainBounded(t: Tree, order: nat, least: nat, lo: int, hi: int, h: nat,
      after: Option<PageId>, cap: nat)
    requires Shape(t, order, least, lo, hi, h) && Chained(t, after) && (after.Some? ==> after.value < cap)
    requires IdsBelow(Ids(t), cap)
    ensures Bounded(t, cap)
    decreases t
  {
    assert t.id in Ids(t);
    if t.Nd? {
      forall i {:trigger t.kids[i]} | 0 <= i < |t.kids| ensures Bounded(t.kids[i], cap) {
        KidBelow(t, i, after, cap);
        ChainBounded(t.kids[i], order, order / 2, Lower(t.keys, lo, i), Upper(t.keys, hi, i), h - 1,
          Follower(t.kids, after, i), cap);
      }
    }
  }

  lemma FewerBelow(a: multiset<PageId>, b: multiset<PageId>, cap: nat)
    requires a <= b && IdsBelow(b, cap)
    ensures IdsBelow(a, cap)
  {
  }

  lemma {:induction false} KidIdsIn(t: Tree, i: nat)
    requires t.Nd? && i < |t.kids|
    ensures Ids(t.kids[i]) <= Ids(t)
  {
    KidAmong(t.kids, i);
  }

  lemma {:induction false} KidBelow(t: Tree, i: nat, after: Option<PageId>, cap: nat)
    requires t.Nd? && i < |t.kids| && (after.Some? ==> after.value < cap) && IdsBelow(Ids(t), cap)
    ensures IdsBelow(Ids(t.kids[i]), cap)
    ensures Follower(t.kids, after, i).Some? ==> Follower(t.kids, after, i).value < cap
  {
    KidIdsIn(t, i);
    FewerBelow(Ids(t.kids[i]), Ids(t), cap);
    if i + 1 < |t.kids| {
      KidIdsIn(t, i + 1);
      FewerBelow(Ids(t.kids[i + 1]), Ids(t), cap);
      FirstAmong(t.kids[i + 1]);
    }
  }

  lemma {:induction false} FirstAmong(t: Tree)
    ensures FirstLeaf(t) in Ids(t)
    decreases t
  {
    if t.Nd? && t.kids != [] {
      FirstAmong(t.kids[0]);
      KidAmong(t.kids, 0);
    }
  }

  // ---- Insertion ---------------------------------------------------------------------------------

  lemma {:induction false} InsBelow(t: Tree, k: Key, v: Bytes, order: nat, next: PageId, least: nat, lo: int, hi: int,
      h: nat, cap: nat)
    requires order >= 2 && Shape(t, order, least, lo, hi, h) && lo <= k < hi
    requires Bounded(t, cap) && Ins(t, k, v, order, next).next <= cap
    ensures LogBelow(Ins(t, k, v, order, next).log, cap) && AllBounded(Both(Ins(t, k, v, order, next)), cap)
    decreases t
  {
    if t.Nd? {
      var j, g, n := InsStep(t, k, v, order, next, least, lo, hi, h);
      NextGrows(n, order, g);
      assert Bounded(t.kids[j], cap);
      InsBelow(t.kids[j], k, v, order, next, order / 2, Lower(t.keys, lo, j), Upper(t.keys, hi, j), h - 1, cap);
      NodeBelow(t, j, g, n, order, cap);
    } else {
      LeafBelow(t, k, v, order, next, cap);
    }
  }

  lemma LeafBelow(t: Tree, k: Key, v: Bytes, order: nat, next: PageId, cap: nat)
    requires t.Lf? && Bounded(t, cap) && InsLeaf(t, k, v, order, next).next <= cap
    ensures LogBelow(InsLeaf(t, k, v, order, next).log, cap) && AllBounded(Both(InsLeaf(t, k, v, order, next)), cap)
  {
  }

  lemma {:induction false} JoinedBounded(t: Tree, j: nat, g: Grown, n: Tree, cap: nat)
    requires t.Nd? && j < |t.kids| && Bounded(t, cap) && AllBounded(Both(g), cap) && LogBelow(g.log, cap)
    requires n.Nd? && n.id == t.id && n.kids == t.kids[..j] + Both(g) + t.kids[j + 1..]
    ensures Bounded(n, cap) && LogBelow(g.log + [Write(n)], cap)
  {
    forall i {:trigger n.kids[i]} | 0 <= i < |n.kids| ensures Bounded(n.kids[i], cap) {
      if i < j {
        assert n.kids[i] == t.kids[i];
      } else if i < j + |Both(g)| {
        assert n.kids[i] == Both(g)[i - j];
      } else {
        assert n.kids[i] == t.kids[i - |Both(g)| + 1];
      }
    }
    WriteBelow(n, cap);
  }

  lemma NextGrows(n: Tree, order: nat, g: Grown)
    requires n.Nd? && |n.kids| == |n.keys| + 1
    ensures g.next <= Settle(n, order, g.next, if g.split.None? then g.log else g.log + [Write(n)]).next
  {
  }

  lemma {:induction false} NodeBelow(t: Tree, j: nat, g: Grown, n: Tree, order: nat, cap: nat)
    requires t.Nd? && j < |t.kids| && Bounded(t, cap) && AllBounded(Both(g), cap) && LogBelow(g.log, cap)
    requires n.Nd? && |n.kids| == |n.keys| + 1 && n.id == t.id && n.kids == t.kids[..j] + Both(g) + t.kids[j + 1..]
    requires Settle(n, order, g.next, if g.split.None? then g.log else g.log + [Write(n)]).next <= cap
    ensures var r := Settle(n, order, g.next, if g.split.None? then g.log else g.log + [Write(n)]);
            LogBelow(r.log, cap) && AllBounded(Both(r), cap)
  {
    JoinedBounded(t, j, g, n, cap);
    SettleBelow(n, order, g.next, if g.split.None? then g.log else g.log + [Write(n)], cap);
  }

  lemma {:induction false} SettleBelow(n: Tree, order: nat, next: PageId, log: seq<Change>, cap: nat)
    requires n.Nd? && |n.kids| == |n.keys| + 1 && Bounded(n, cap) && LogBelow(log, cap)
             && Settle(n, order, next, log).next <= cap
    ensures LogBelow(Settle(n, order, next, log).log, cap) && AllBounded(Both(Settle(n, order, next, log)), cap)
  {
    var r := Settle(n, order, next, log);
    SettleKids(n, order, next, log);
    if r.split.Some? {
      var right := r.split.value.right;
      assert forall i {:trigger right.kids[i]} :: 0 <= i < |right.kids| ==> right.kids[i] == n.kids[|r.left.kids| + i];
      assert forall i {:trigger r.left.kids[i]} :: 0 <= i < |r.left.kids| ==> r.left.kids[i] == n.kids[i];
      WriteBelow(right, cap);
    }
  }

  // ---- Deletion -----------------------------------------------------------------------------------

  lemma MergedBounded(a: Tree, sep: Key, b: Tree, cap: nat)
    requires Alike(a, b) && Bounded(a, cap) && Bounded(b, cap)
    ensures Bounded(Merged(a, sep, b), cap)
  {
  }

  lemma CutBounded(t: Tree, c: nat, right: PageId, cap: nat)
    requires c < NumKeys(t) && (t.Nd? ==> |t.kids| == |t.keys| + 1) && Bounded(t, cap) && right < cap
    ensures Bounded(Cut(t, c, right).left, cap) && Bounded(Cut(t, c, right).right, cap)
  {
    var p := Cut(t, c, right);
    if t.Nd? {
      assert forall i {:trigger p.left.kids[i]} :: 0 <= i < |p.left.kids| ==> p.left.kids[i] == t.kids[i];
      assert forall i {:trigger p.right.kids[i]} :: 0 <= i < |p.right.kids| ==> p.right.kids[i] == t.kids[c + 1 + i];
    }
  }

  lemma {:induction false} RepairBelow(n: Tree, i: nat, cut: Option<nat>, leftFirst: bool, cap: nat)
    requires Repairable(n, i, cut) && Bounded(n, cap)
    ensures Bounded(Repaired(n, i, cut), cap)
            && LogBelow(RepairLog(OutcomeAt(n, i, cut), Repaired(n, i, cut), leftFirst), cap)
  {
    var a, b, out, r := n.kids[i], n.kids[i + 1], OutcomeAt(n, i, cut), Repaired(n, i, cut);
    MergedBounded(a, n.keys[i], b, cap);
    if cut.Some? {
      CutBounded(Merged(a, n.keys[i], b), cut.value, b.id, cap);
    }
    RepairedKids(n, i, cut);
    assert AllBounded(out, cap) && AllBounded(n.kids, cap);
    WriteBelow(out[0], cap);
    WriteBelow(r, cap);
    if cut.Some? {
      WriteBelow(out[1], cap);
    }
  }

  lemma {:induction false} DelBelow(t: Tree, k: Key, order: nat, least: nat, lo: int, hi: int, h: nat,
      after: Option<PageId>, cap: nat)
    requires Deletable(t, order, least, lo, hi, h, after) && lo <= k < hi && Bounded(t, cap)
    ensures LogBelow(Del(t, k, order).log, cap) && Bounded(Del(t, k, order).node, cap)
    decreases t
  {
    if t.Nd? {
      var j, d, n := DelStep(t, k, order, least, lo, hi, h, after);
      RouteBounds(t.keys, lo, hi, k);
      DelBelow(t.kids[j], k, order, order / 2, Lower(t.keys, lo, j), Upper(t.keys, hi, j), h - 1,
        Follower(t.kids, after, j), cap);
      assert Bounded(n, cap);
      if NumKeys(d.node) < order / 2 {
        var i, cut := MendIsRepair(n, j, order, lo, hi, h);
        RepairBelow(n, i, cut, i == j, cap);
      }
    }
  }

  // ---- Runs ------------------------------------------------------------------------------------------

  lemma {:induction false} OpBelow(db: Db, op: Op, order: nat, cap: nat)
    requires Healthy(db, order) && Do(db, op, order).next <= cap
    ensures db.next <= Do(db, op, order).next && LogBelow(DoLog(db, op, order), cap)
  {
    match op
    case Insert(k, v) => InsertBelow(db, k, v, order, cap);
    case Delete(k) =>
      DbBounded(db, order, cap);
      DelBelow(db.tree, k, order, RootLeast(db.tree), 0, KEY_LIMIT, db.height, None, cap);
  }

  lemma {:induction false} DbBounded(db: Db, order: nat, cap: nat)
    requires Healthy(db, order) && db.next <= cap
    ensures Bounded(db.tree, cap)
  {
    ChainBounded(db.tree, order, RootLeast(db.tree), 0, KEY_LIMIT, db.height, None, cap);
  }

  lemma {:induction false} InsertBelow(db: Db, k: Key, v: Bytes, order: nat, cap: nat)
    requires Healthy(db, order) && Do(db, Insert(k, v), order).next <= cap
    ensures db.next <= Do(db, Insert(k, v), order).next && LogBelow(DoLog(db, Insert(k, v), order), cap)
  {
    var t, least := db.tree, RootLeast(db.tree);
    var g := Ins(t, k, v, order, db.next);
    InsIds(t, k, v, order, db.next, least, 0, KEY_LIMIT, db.height);
    DbBounded(db, order, cap);
    InsBelow(t, k, v, order, db.next, least, 0, KEY_LIMIT, db.height, cap);
    if g.split.Some? {
      assert Bounded(Both(g)[0], cap) && Bounded(Both(g)[1], cap);
      WriteBelow(Grow(g), cap);
    }
  }

  /** No run logs an id that is not below the next free one. */
  lemma {:induction false} RunBelow(db: Db, ops: seq<Op>, order: nat, cap: nat)
    requires Healthy(db, order) && DoAll(db, ops, order).next <= cap
    ensures Healthy(DoAll(db, ops, order), order) && db.next <= DoAll(db, ops, order).next
            && LogBelow(LogAll(db, ops, order), cap)
    decreases |ops|
  {
    if ops != [] {
      var init, op := ops[..|ops| - 1], ops[|ops| - 1];
      var mid := DoAll(db, init, order);
      HealthyRun(db, init, order);
      OpBelow(mid, op, order, cap);
      RunBelow(db, init, order, cap);
      DoKeeps(mid, op, order);
    }
  }
}
