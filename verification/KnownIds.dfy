/** A page refers only to pages of the tree and to pages that have been logged before it: whatever part of a log is
    recovered, every page that can be reached is one of these. */
module KnownIds {
  import opened Entries
  import opened Tree
  import opened Log
  import opened TreeInsert
  import opened TreeDelete
  import opened TreeRecovery
  import opened TreeDeleteRecovery
  import opened TreeLive
  import opened TreeSteps
  import opened TreeClimb
  import opened CrashReplay
  import opened Restored
  import opened LogLinks
  import opened ReadPages

  /** Children and leaf link are among these ids. */
  ghost predicate Refers(p: Page, ids: set<PageId>) {
    match p
    case Leaf(_, next) => next.Some? ==> next.value in ids
    case Index(_, children) => forall i :: 0 <= i < |children| ==> children[i] in ids
  }

  ghost predicate ChangeKnown(c: Change, ids: set<PageId>) {
    match c
    case PageWrite(_, page) => Refers(page, ids)
    case MetaUpdate(root) => root in ids
  }

  /** Each change refers only to these ids and the pages logged before it. */
  ghost predicate LogKnown(log: seq<Change>, ids: set<PageId>) {
    forall i :: 0 <= i < |log| ==> ChangeKnown(log[i], ids + Touched(log[..i]))
  }

  ghost predicate TreeKnown(t: Tree, ids: set<PageId>)
    decreases t
  {
    && t.id in ids
    && (t.Lf? && t.next.Some? ==> t.next.value in ids)
    && (t.Nd? ==> forall i {:trigger t.kids[i]} :: 0 <= i < |t.kids| ==> TreeKnown(t.kids[i], ids))
  }

  ghost predicate AllKnown(ts: seq<Tree>, ids: set<PageId>) {
    forall i :: 0 <= i < |ts| ==> TreeKnown(ts[i], ids)
  }

  // ---- More ids, more changes ----------------------------------------------------------------------------

  lemma {:induction false} KnownMore(t: Tree, a: set<PageId>, b: set<PageId>)
    requires TreeKnown(t, a) && a <= b
    ensures TreeKnown(t, b)
    decreases t
  {
    if t.Nd? {
      forall i {:trigger t.kids[i]} | 0 <= i < |t.kids| ensures TreeKnown(t.kids[i], b) {
        KnownMore(t.kids[i], a, b);
      }
    }
  }

  lemma ImageKnown(t: Tree, ids: set<PageId>)
    requires TreeKnown(t, ids)
    ensures ChangeKnown(Write(t), ids)
  {
  }

  lemma ChangeMore(c: Change, a: set<PageId>, b: set<PageId>)
    requires ChangeKnown(c, a) && a <= b
    ensures ChangeKnown(c, b)
  {
  }

  lemma {:induction false} LogMore(log: seq<Change>, a: set<PageId>, b: set<PageId>)
    requires LogKnown(log, a) && a <= b
    ensures LogKnown(log, b)
  {
    forall i | 0 <= i < |log| ensures ChangeKnown(log[i], b + Touched(log[..i])) {
      ChangeMore(log[i], a + Touched(log[..i]), b + Touched(log[..i]));
    }
  }

  lemma {:induction false} LogJoin(a: seq<Change>, b: seq<Change>, ids: set<PageId>)
    requires LogKnown(a, ids) && LogKnown(b, ids + Touched(a))
    ensures LogKnown(a + b, ids) && Touched(a + b) == Touched(a) + Touched(b)
  {
    TouchedAppend(a, b);
    forall i | 0 <= i < |a + b| ensures ChangeKnown((a + b)[i], ids + Touched((a + b)[..i])) {
      if i < |a| {
        assert (a + b)[..i] == a[..i];
      } else {
        assert (a + b)[..i] == a + b[..i - |a|];
        TouchedAppend(a, b[..i - |a|]);
        assert ids + Touched((a + b)[..i]) == ids + Touched(a) + Touched(b[..i - |a|]);
      }
    }
  }

  lemma {:induction false} LogPrefix(log: seq<Change>, m: nat, ids: set<PageId>)
    requires LogKnown(log, ids) && m <= |log|
    ensures LogKnown(log[..m], ids)
  {
    forall i | 0 <= i < m ensures ChangeKnown(log[..m][i], ids + Touched(log[..m][..i])) {
      assert log[..m][..i] == log[..i];
    }
  }

  lemma OneKnown(c: Change, ids: set<PageId>)
    requires ChangeKnown(c, ids)
    ensures LogKnown([c], ids) && Touched([c]) == if c.PageWrite? then {c.id} else {}
  {
    assert [c][..0] == [] && ids + Touched([]) == ids;
    OneTouched(c);
  }

  lemma OneTouched(c: Change)
    ensures Touched([c]) == if c.PageWrite? then {c.id} else {}
  {
    assert c in [c];
  }

  lemma {:induction false} LogSnoc(log: seq<Change>, c: Change, ids: set<PageId>)
    requires LogKnown(log, ids) && ChangeKnown(c, ids + Touched(log))
    ensures LogKnown(log + [c], ids)
    ensures Touched(log + [c]) == Touched(log) + if c.PageWrite? then {c.id} else {}
  {
    OneKnown(c, ids + Touched(log));
    LogJoin(log, [c], ids);
  }

  // ---- Insertion ------------------------------------------------------------------------------------------

  lemma {:induction false} InsKnown(t: Tree, k: Key, v: Bytes, order: nat, next: PageId, least: nat, lo: int, hi: int,
                                    h: nat, ids: set<PageId>)
    requires order >= 2 && Shape(t, order, least, lo, hi, h) && lo <= k < hi && TreeKnown(t, ids)
    ensures var g := Ins(t, k, v, order, next); LogKnown(g.log, ids) && AllKnown(Both(g), ids + Touched(g.log))
    decreases t
  {
    if t.Nd? {
      var j, g, n := InsStep(t, k, v, order, next, least, lo, hi, h);
      InsKnown(t.kids[j], k, v, order, next, order / 2, Lower(t.keys, lo, j), Upper(t.keys, hi, j), h - 1, ids);
      NodeKnown(t, j, g, n, order, ids);
    } else {
      LeafKnown(t, k, v, order, next, ids);
    }
  }

  lemma {:induction false} LeafKnown(t: Tree, k: Key, v: Bytes, order: nat, next: PageId, ids: set<PageId>)
    requires t.Lf? && TreeKnown(t, ids)
    ensures var g := InsLeaf(t, k, v, order, next); LogKnown(g.log, ids) && AllKnown(Both(g), ids + Touched(g.log))
  {
    var l := Lf(t.id, Put(t.entries, k, v), t.next);
    OneKnown(Write(l), ids);
    if |l.entries| > order {
      var (left, half) := SplitLeaf(l, next);
      LogSnoc([Write(l)], Write(half.right), ids);
      assert [Write(l)] + [Write(half.right)] == [Write(l), Write(half.right)];
    }
  }

  lemma {:induction false} NodeKnown(t: Tree, j: nat, g: Grown, n: Tree, order: nat, ids: set<PageId>)
    requires t.Nd? && j < |t.kids| && TreeKnown(t, ids) && AllKnown(Both(g), ids + Touched(g.log))
    requires LogKnown(g.log, ids)
    requires n.Nd? && |n.kids| == |n.keys| + 1 && n.id == t.id && n.kids == t.kids[..j] + Both(g) + t.kids[j + 1..]
    ensures var r := Settle(n, order, g.next, if g.split.None? then g.log else g.log + [Write(n)]);
            LogKnown(r.log, ids) && AllKnown(Both(r), ids + Touched(r.log))
  {
    JoinedKnown(t, j, g, n, ids);
    ImageKnown(n, ids + Touched(g.log));
    var log := if g.split.None? then g.log else g.log + [Write(n)];
    if g.split.Some? {
      LogSnoc(g.log, Write(n), ids);
    }
    KnownMore(n, ids + Touched(g.log), ids + Touched(log));
    SettleKnown(n, order, g.next, log, ids);
  }

  lemma {:induction false} JoinedKnown(t: Tree, j: nat, g: Grown, n: Tree, ids: set<PageId>)
    requires t.Nd? && j < |t.kids| && TreeKnown(t, ids) && AllKnown(Both(g), ids + Touched(g.log))
    requires n.Nd? && n.id == t.id && n.kids == t.kids[..j] + Both(g) + t.kids[j + 1..]
    ensures TreeKnown(n, ids + Touched(g.log))
  {
    var more := ids + Touched(g.log);
    KnownMore(t, ids, more);
    forall i {:trigger n.kids[i]} | 0 <= i < |n.kids| ensures TreeKnown(n.kids[i], more) {
      if i < j {
        assert n.kids[i] == t.kids[i];
      } else if i < j + |Both(g)| {
        assert n.kids[i] == Both(g)[i - j];
      } else {
        assert n.kids[i] == t.kids[i - |Both(g)| + 1];
      }
    }
  }

  lemma {:induction false} SettleKnown(n: Tree, order: nat, next: PageId, log: seq<Change>, ids: set<PageId>)
    requires n.Nd? && |n.kids| == |n.keys| + 1 && TreeKnown(n, ids + Touched(log)) && LogKnown(log, ids)
    ensures var r := Settle(n, order, next, log); LogKnown(r.log, ids) && AllKnown(Both(r), ids + Touched(r.log))
  {
    var r := Settle(n, order, next, log);
    SettleKids(n, order, next, log);
    if r.split.Some? {
      HalvesKnown(n, r.left, r.split.value.right, ids + Touched(log));
      LogSnoc(log, Write(r.split.value.right), ids);
      assert ids + Touched(r.log) == ids + Touched(log) + {r.split.value.right.id};
    }
  }

  lemma {:induction false} HalvesKnown(n: Tree, left: Tree, right: Tree, known: set<PageId>)
    requires n.Nd? && left.Nd? && right.Nd? && TreeKnown(n, known) && left.id == n.id
    requires n.kids == left.kids + right.kids
    ensures TreeKnown(left, known + {right.id}) && TreeKnown(right, known + {right.id})
    ensures ChangeKnown(Write(right), known)
  {
    KnownMore(n, known, known + {right.id});
    assert forall i {:trigger right.kids[i]} :: 0 <= i < |right.kids| ==> right.kids[i] == n.kids[|left.kids| + i];
    assert forall i {:trigger left.kids[i]} :: 0 <= i < |left.kids| ==> left.kids[i] == n.kids[i];
  }

  // ---- Deletion -------------------------------------------------------------------------------------------

  lemma CutKnown(t: Tree, c: nat, right: PageId, ids: set<PageId>)
    requires c < NumKeys(t) && (t.Nd? ==> |t.kids| == |t.keys| + 1) && TreeKnown(t, ids) && right in ids
    ensures TreeKnown(Cut(t, c, right).left, ids) && TreeKnown(Cut(t, c, right).right, ids)
  {
    var p := Cut(t, c, right);
    if t.Nd? {
      assert forall i {:trigger p.left.kids[i]} :: 0 <= i < |p.left.kids| ==> p.left.kids[i] == t.kids[i];
      assert forall i {:trigger p.right.kids[i]} :: 0 <= i < |p.right.kids| ==> p.right.kids[i] == t.kids[c + 1 + i];
    }
  }

  lemma {:induction false} RepairKnown(n: Tree, i: nat, cut: Option<nat>, leftFirst: bool, ids: set<PageId>)
    requires Repairable(n, i, cut) && TreeKnown(n, ids)
    ensures TreeKnown(Repaired(n, i, cut), ids)
            && LogKnown(RepairLog(OutcomeAt(n, i, cut), Repaired(n, i, cut), leftFirst), ids)
  {
    var a, b, out, r := n.kids[i], n.kids[i + 1], OutcomeAt(n, i, cut), Repaired(n, i, cut);
    assert TreeKnown(Merged(a, n.keys[i], b), ids);
    if cut.Some? {
      CutKnown(Merged(a, n.keys[i], b), cut.value, b.id, ids);
    }
    RepairedKids(n, i, cut);
    assert AllKnown(out, ids) && AllKnown(n.kids, ids);
    RepairLogKnown(out, r, leftFirst, ids);
  }

  lemma RepairLogKnown(out: seq<Tree>, r: Tree, leftFirst: bool, ids: set<PageId>)
    requires (|out| == 1 || |out| == 2) && AllKnown(out, ids) && TreeKnown(r, ids)
    ensures LogKnown(RepairLog(out, r, leftFirst), ids)
  {
    var log := RepairLog(out, r, leftFirst);
    ImageKnown(out[0], ids);
    ImageKnown(out[|out| - 1], ids);
    ImageKnown(r, ids);
    forall i | 0 <= i < |log| ensures ChangeKnown(log[i], ids + Touched(log[..i])) {
      ChangeMore(log[i], ids, ids + Touched(log[..i]));
    }
  }

  lemma {:induction false} DelKnown(t: Tree, k: Key, order: nat, least: nat, lo: int, hi: int, h: nat,
                                    after: Option<PageId>, ids: set<PageId>)
    requires Deletable(t, order, least, lo, hi, h, after) && lo <= k < hi && TreeKnown(t, ids)
    ensures LogKnown(Del(t, k, order).log, ids) && TreeKnown(Del(t, k, order).node, ids)
    decreases t
  {
    if t.Nd? {
      var j, d, n := DelStep(t, k, order, least, lo, hi, h, after);
      RouteBounds(t.keys, lo, hi, k);
      DelKnown(t.kids[j], k, order, order / 2, Lower(t.keys, lo, j), Upper(t.keys, hi, j), h - 1,
        Follower(t.kids, after, j), ids);
      assert TreeKnown(n, ids);
      if NumKeys(d.node) < order / 2 {
        var i, cut := MendIsRepair(n, j, order, lo, hi, h);
        RepairKnown(n, i, cut, i == j, ids);
        LogMore(Mend(n, j, order).log, ids, ids + Touched(d.log));
        LogJoin(d.log, Mend(n, j, order).log, ids);
      }
    } else {
      OneKnown(Write(Del(t, k, order).node), ids);
    }
  }

  // ---- Runs -----------------------------------------------------------------------------------------------

  lemma {:induction false} OpKnown(db: Db, op: Op, order: nat, ids: set<PageId>)
    requires Healthy(db, order) && TreeKnown(db.tree, ids)
    ensures LogKnown(DoLog(db, op, order), ids)
    ensures TreeKnown(Do(db, op, order).tree, ids + Touched(DoLog(db, op, order)))
  {
    var t := db.tree;
    match op
    case Insert(k, v) =>
      InsKnown(t, k, v, order, db.next, RootLeast(t), 0, KEY_LIMIT, db.height, ids);
      GrowKnown(Ins(t, k, v, order, db.next), ids);
    case Delete(k) =>
      if HasKey(t, k) {
        DelKnown(t, k, order, RootLeast(t), 0, KEY_LIMIT, db.height, None, ids);
        CollapseKnown(Del(t, k, order), ids);
      }
      KnownMore(Do(db, op, order).tree, ids, ids + Touched(DoLog(db, op, order)));
  }

  lemma {:induction false} GrowKnown(g: Grown, ids: set<PageId>)
    requires LogKnown(g.log, ids) && AllKnown(Both(g), ids + Touched(g.log))
    ensures LogKnown(GrowLog(g), ids) && TreeKnown(Grow(g), ids + Touched(GrowLog(g)))
  {
    if g.split.Some? {
      var top, known := Grow(g), ids + Touched(g.log);
      assert TreeKnown(Both(g)[0], known) && TreeKnown(Both(g)[1], known);
      TopKnown(top, known);
      LogSnoc(g.log, Write(top), ids);
      LogSnoc(g.log + [Write(top)], MetaUpdate(top.id), ids);
      assert g.log + [Write(top)] + [MetaUpdate(top.id)] == GrowLog(g);
      assert ids + Touched(GrowLog(g)) == known + {top.id};
    } else {
      assert TreeKnown(Both(g)[0], ids + Touched(g.log));
    }
  }

  lemma {:induction false} TopKnown(top: Tree, known: set<PageId>)
    requires top.Nd? && AllKnown(top.kids, known)
    ensures ChangeKnown(Write(top), known) && TreeKnown(top, known + {top.id})
  {
    forall i {:trigger top.kids[i]} | 0 <= i < |top.kids| ensures TreeKnown(top.kids[i], known + {top.id}) {
      KnownMore(top.kids[i], known, known + {top.id});
    }
  }

  lemma {:induction false} CollapseKnown(d: Fixed, ids: set<PageId>)
    requires LogKnown(d.log, ids) && TreeKnown(d.node, ids)
    ensures LogKnown(CollapseLog(d), ids) && TreeKnown(Collapse(d), ids)
  {
    if Collapse(d) != d.node {
      assert Collapse(d) == d.node.kids[0];
      LogSnoc(d.log, MetaUpdate(Collapse(d).id), ids);
    }
  }

  lemma {:induction false} RunKnown(db: Db, ops: seq<Op>, order: nat, ids: set<PageId>)
    requires Healthy(db, order) && TreeKnown(db.tree, ids)
    ensures LogKnown(LogAll(db, ops, order), ids)
    ensures TreeKnown(DoAll(db, ops, order).tree, ids + Touched(LogAll(db, ops, order)))
    decreases |ops|
  {
    if ops != [] {
      var init, op := ops[..|ops| - 1], ops[|ops| - 1];
      var mid, log := DoAll(db, init, order), LogAll(db, init, order);
      HealthyRun(db, init, order);
      RunKnown(db, init, order, ids);
      OpKnown(mid, op, order, ids + Touched(log));
      LogJoin(log, DoLog(mid, op, order), ids);
      assert ids + Touched(log) + Touched(DoLog(mid, op, order)) == ids + Touched(LogAll(db, ops, order));
    } else {
      assert ids + Touched([]) == ids;
    }
  }

  // ---- Pages that can be reached -------------------------------------------------------------------------

  /** From these ids the pages lead only to these ids. */
  ghost predicate Closed(s: Store, ids: set<PageId>) {
    forall id :: id in ids && id in s ==> Refers(s[id], ids)
  }

  lemma RefersMore(p: Page, a: set<PageId>, b: set<PageId>)
    requires Refers(p, a) && a <= b
    ensures Refers(p, b)
  {
  }

  lemma {:induction false} ClosedReplay(s: Store, log: seq<Change>, ids: set<PageId>)
    requires Closed(s, ids) && LogKnown(log, ids)
    ensures Closed(Replay(s, log), ids + Touched(log))
    decreases |log|
  {
    if log != [] {
      var n := |log| - 1;
      LogPrefix(log, n, ids);
      ClosedReplay(s, log[..n], ids);
      assert log == log[..n] + [log[n]];
      TouchedAppend(log[..n], [log[n]]);
      ClosedStep(Replay(s, log[..n]), log[n], ids + Touched(log[..n]), ids + Touched(log));
    } else {
      assert ids + Touched(log) == ids;
    }
  }

  lemma ClosedStep(s: Store, c: Change, a: set<PageId>, b: set<PageId>)
    requires Closed(s, a) && ChangeKnown(c, a) && a <= b && b <= if c.PageWrite? then a + {c.id} else a
    ensures Closed(Apply(s, c), b)
  {
    forall id | id in b && id in Apply(s, c) ensures Refers(Apply(s, c)[id], b) {
      if c.PageWrite? && id == c.id {
        RefersMore(c.page, a, b);
      } else {
        RefersMore(s[id], a, b);
      }
    }
  }

  /** The pages of the tree that is found below a root. */
  lemma {:induction false} ReachedIn(s: Store, ids: set<PageId>, root: PageId, h: nat)
    requires Closed(s, ids) && root in ids
    ensures forall id :: id in Ids(TreeIn(s, root, h)) ==> id in ids
    decreases h, 1
  {
    var t := TreeIn(s, root, h);
    if t.Nd? && h > 0 {
      forall i | 0 <= i < |t.kids| ensures forall id :: id in Ids(t.kids[i]) ==> id in ids {
        ReachedIn(s, ids, s[root].children[i], h - 1);
      }
      KidsReached(t.kids, ids);
    }
  }

  lemma {:induction false} KidsReached(ts: seq<Tree>, ids: set<PageId>)
    requires forall i :: 0 <= i < |ts| ==> forall id :: id in Ids(ts[i]) ==> id in ids
    ensures forall id :: id in IdsOf(ts) ==> id in ids
  {
    if ts != [] {
      KidsReached(ts[1..], ids);
    }
  }

  // ---- A sound tree ---------------------------------------------------------------------------------------

  ghost function IdSet(t: Tree): set<PageId> {
    set id | id in Ids(t)
  }

  /** The ids of a sound tree are all that its pages refer to. */
  lemma {:induction false} SoundKnown(t: Tree, order: nat, least: nat, lo: int, hi: int, h: nat, after: Option<PageId>,
                                      ids: set<PageId>)
    requires Shape(t, order, least, lo, hi, h) && Chained(t, after) && (after.Some? ==> after.value in ids)
    requires forall id :: id in Ids(t) ==> id in ids
    ensures TreeKnown(t, ids)
    decreases t
  {
    assert t.id in Ids(t);
    if t.Nd? {
      forall i {:trigger t.kids[i]} | 0 <= i < |t.kids| ensures TreeKnown(t.kids[i], ids) {
        KidIdsIn(t, i);
        if i + 1 < |t.kids| {
          KidIdsIn(t, i + 1);
          FirstAmong(t.kids[i + 1]);
        }
        assert Chained(t.kids[i], Follower(t.kids, after, i));
        SoundKnown(t.kids[i], order, order / 2, Lower(t.keys, lo, i), Upper(t.keys, hi, i), h - 1,
          Follower(t.kids, after, i), ids);
      }
    }
  }

  lemma {:induction false} PageKnown(t: Tree, ids: set<PageId>, id: PageId)
    requires TreeKnown(t, ids) && PageOf(t, id).Some?
    ensures Refers(PageOf(t, id).value, ids)
    decreases t, 1
  {
    if t.id != id {
      AmongKnown(t.kids, ids, id);
    }
  }

  lemma {:induction false} AmongKnown(ts: seq<Tree>, ids: set<PageId>, id: PageId)
    requires AllKnown(ts, ids) && PageAmong(ts, id).Some?
    ensures Refers(PageAmong(ts, id).value, ids)
    decreases ts, 0
  {
    if PageOf(ts[0], id).Some? {
      PageKnown(ts[0], ids, id);
    } else {
      AmongKnown(ts[1..], ids, id);
    }
  }

  lemma {:induction false} TreeClosed(s: Store, db: Db, order: nat)
    requires Healthy(db, order) && Holds(s, db.tree, KEY_LIMIT, true)
    ensures TreeKnown(db.tree, IdSet(db.tree)) && Closed(s, IdSet(db.tree))
  {
    var ids := IdSet(db.tree);
    SoundKnown(db.tree, order, RootLeast(db.tree), 0, KEY_LIMIT, db.height, None, ids);
    forall id | id in ids && id in s ensures Refers(s[id], ids) {
      HeldPage(s, db.tree, KEY_LIMIT, id);
      PageKnown(db.tree, ids, id);
    }
  }

  /** Replay any part of a log of any run: every page that can be reached from the root is a page of the checkpoint or
      one that this part writes. */
  lemma {:induction false} PartReached(s: Store, db: Db, ops: seq<Op>, order: nat, n: nat, h: nat)
    requires Healthy(db, order) && Holds(s, db.tree, KEY_LIMIT, true) && n <= |LogAll(db, ops, order)|
    ensures var log := LogAll(db, ops, order)[..n];
            && Closed(Replay(s, log), IdSet(db.tree) + Touched(log))
            && ReplayRoot(db.tree.id, log) in IdSet(db.tree) + Touched(log)
            && forall id :: id in Ids(TreeIn(Replay(s, log), ReplayRoot(db.tree.id, log), h)) ==>
                 id in Ids(db.tree) || id in Touched(log)
  {
    var ids, log := IdSet(db.tree), LogAll(db, ops, order)[..n];
    TreeClosed(s, db, order);
    RunKnown(db, ops, order, ids);
    LogPrefix(LogAll(db, ops, order), n, ids);
    ClosedReplay(s, log, ids);
    RootKnown(db.tree.id, log, ids);
    ReachedIn(Replay(s, log), ids + Touched(log), ReplayRoot(db.tree.id, log), h);
  }

  lemma {:induction false} RootKnown(root: PageId, log: seq<Change>, ids: set<PageId>)
    requires LogKnown(log, ids) && root in ids
    ensures ReplayRoot(root, log) in ids + Touched(log)
    decreases |log|
  {
    if log != [] {
      var n := |log| - 1;
      assert log == log[..n] + [log[n]];
      TouchedAppend(log[..n], [log[n]]);
      if log[n].PageWrite? {
        LogPrefix(log, n, ids);
        RootKnown(root, log[..n], ids);
      }
    }
  }
}
