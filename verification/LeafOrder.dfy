/** The leaves of a tree keep their order from left to right through every operation. */
module LeafOrder {
  import opened Entries
  import opened Tree
  import opened Log
  import opened TreeInsert
  import opened TreeDelete
  import opened TreeLive
  import opened TreeLeaves
  import opened TreeSteps
  import opened TreeClimb
  import opened CrashReplay

  /** u is v with some ids left out. */
  predicate Sub(u: seq<PageId>, v: seq<PageId>) {
    u == [] || (v != [] && ((u[0] == v[0] && Sub(u[1..], v[1..])) || Sub(u, v[1..])))
  }

  lemma {:induction false} SubSame(u: seq<PageId>)
    ensures Sub(u, u)
  {
    if u != [] {
      SubSame(u[1..]);
    }
  }

  lemma {:induction false} SubAppend(a: seq<PageId>, b: seq<PageId>, c: seq<PageId>, d: seq<PageId>)
    requires Sub(a, b) && Sub(c, d)
    ensures Sub(a + c, b + d)
    decreases |a| + |b|
  {
    if b == [] {
      assert a + c == c && b + d == d;
    } else {
      assert (b + d)[0] == b[0] && (b + d)[1..] == b[1..] + d;
      if a != [] && a[0] == b[0] && Sub(a[1..], b[1..]) {
        assert (a + c)[0] == a[0] && (a + c)[1..] == a[1..] + c;
        SubAppend(a[1..], b[1..], c, d);
      } else {
        SubAppend(a, b[1..], c, d);
      }
    }
  }

  lemma {:induction false} SubTrans(a: seq<PageId>, b: seq<PageId>, c: seq<PageId>)
    requires Sub(a, b) && Sub(b, c)
    ensures Sub(a, c)
    decreases |b| + |c|
  {
    if a != [] {
      if b[0] == c[0] && Sub(b[1..], c[1..]) {
        if a[0] == b[0] && Sub(a[1..], b[1..]) {
          SubTrans(a[1..], b[1..], c[1..]);
        } else {
          SubTrans(a, b[1..], c[1..]);
        }
      } else {
        SubTrans(a, b, c[1..]);
      }
    }
  }

  /** Every id once. */
  ghost predicate Once(u: seq<PageId>) {
    forall i, j :: 0 <= i < j < |u| ==> u[i] != u[j]
  }

  /** p comes before q. */
  ghost predicate Later(u: seq<PageId>, p: PageId, q: PageId) {
    exists i, j :: 0 <= i < j < |u| && u[i] == p && u[j] == q
  }

  lemma {:induction false} SubIn(u: seq<PageId>, v: seq<PageId>, p: PageId)
    requires Sub(u, v) && p in u
    ensures p in v
    decreases |v|
  {
    if u[0] == v[0] && Sub(u[1..], v[1..]) {
      if p != u[0] {
        assert u == [u[0]] + u[1..];
        SubIn(u[1..], v[1..], p);
      }
    } else {
      SubIn(u, v[1..], p);
    }
  }

  lemma {:induction false} SubLater(u: seq<PageId>, v: seq<PageId>, p: PageId, q: PageId)
    requires Sub(u, v) && Later(u, p, q)
    ensures Later(v, p, q)
    decreases |v|
  {
    var i, j :| 0 <= i < j < |u| && u[i] == p && u[j] == q;
    if u[0] == v[0] && Sub(u[1..], v[1..]) {
      if i == 0 {
        assert q == u[1..][j - 1];
        SubIn(u[1..], v[1..], q);
        var m :| 0 <= m < |v[1..]| && v[1..][m] == q;
        assert v[0] == p && v[m + 1] == q;
      } else {
        assert u[1..][i - 1] == p && u[1..][j - 1] == q;
        SubLater(u[1..], v[1..], p, q);
        LaterCons(v, p, q);
      }
    } else {
      SubLater(u, v[1..], p, q);
      LaterCons(v, p, q);
    }
  }

  lemma LaterCons(v: seq<PageId>, p: PageId, q: PageId)
    requires v != [] && Later(v[1..], p, q)
    ensures Later(v, p, q)
  {
    var i, j :| 0 <= i < j < |v[1..]| && v[1..][i] == p && v[1..][j] == q;
    assert v[i + 1] == p && v[j + 1] == q;
  }

  /** Of two ids that are in both sequences, the same one comes first in both. */
  lemma {:induction false} LaterBack(u: seq<PageId>, v: seq<PageId>, p: PageId, q: PageId)
    requires Sub(u, v) && Once(v) && Later(v, p, q) && p in u && q in u
    ensures Later(u, p, q)
  {
    var i :| 0 <= i < |u| && u[i] == p;
    var j :| 0 <= j < |u| && u[j] == q;
    if i >= j {
      OnceApart(v, p, q);
      assert i != j;
      assert Later(u, q, p);
      SubLater(u, v, q, p);
      OneOrder(v, p, q);
      assert false;
    }
  }

  lemma OnceApart(v: seq<PageId>, p: PageId, q: PageId)
    requires Once(v) && Later(v, p, q)
    ensures p != q
  {
  }

  lemma OneOrder(v: seq<PageId>, p: PageId, q: PageId)
    requires Once(v) && Later(v, p, q)
    ensures !Later(v, q, p)
  {
    var i, j :| 0 <= i < j < |v| && v[i] == p && v[j] == q;
    forall a, b | 0 <= a < b < |v| && v[a] == q ensures v[b] != p {
      assert a == j;
    }
  }

  // ---- The ids of the leaves -----------------------------------------------------------------------

  function LeafIds(t: Tree): seq<PageId> {
    KidIds(Leaves(t))
  }

  function LeafIdsOf(ts: seq<Tree>): seq<PageId> {
    KidIds(LeavesOf(ts))
  }

  lemma KidIdsAppend(a: seq<Tree>, b: seq<Tree>)
    ensures KidIds(a + b) == KidIds(a) + KidIds(b)
  {
  }

  lemma {:induction false} IdsAround(ts: seq<Tree>, i: nat, n: nat)
    requires i <= i + n <= |ts|
    ensures LeafIdsOf(ts) == LeafIdsOf(ts[..i]) + LeafIdsOf(ts[i..i + n]) + LeafIdsOf(ts[i + n..])
  {
    assert ts == ts[..i] + ts[i..i + n] + ts[i + n..];
    LeavesAppend(ts[..i] + ts[i..i + n], ts[i + n..]);
    LeavesAppend(ts[..i], ts[i..i + n]);
    KidIdsAppend(LeavesOf(ts[..i]) + LeavesOf(ts[i..i + n]), LeavesOf(ts[i + n..]));
    KidIdsAppend(LeavesOf(ts[..i]), LeavesOf(ts[i..i + n]));
  }

  lemma {:induction false} LeavesOne(t: Tree)
    ensures LeavesOf([t]) == Leaves(t)
  {
    assert [t][1..] == [];
  }

  /** A run of subtrees is replaced by another whose leaves are in the same order. */
  lemma {:induction false} RunReplaced(ts: seq<Tree>, i: nat, n: nat, c: seq<Tree>)
    requires i <= i + n <= |ts|
    ensures Sub(LeafIdsOf(ts[i..i + n]), LeafIdsOf(c)) ==> Sub(LeafIdsOf(ts), LeafIdsOf(ts[..i] + c + ts[i + n..]))
    ensures Sub(LeafIdsOf(c), LeafIdsOf(ts[i..i + n])) ==> Sub(LeafIdsOf(ts[..i] + c + ts[i + n..]), LeafIdsOf(ts))
  {
    var a, b := ts[..i], ts[i + n..];
    var u := a + c + b;
    assert u[..i] == a && u[i..i + |c|] == c && u[i + |c|..] == b;
    IdsAround(ts, i, n);
    IdsAround(u, i, |c|);
    SubSame(LeafIdsOf(a));
    SubSame(LeafIdsOf(b));
    var x, y := LeafIdsOf(ts[i..i + n]), LeafIdsOf(c);
    if Sub(x, y) {
      SubAppend(LeafIdsOf(a), LeafIdsOf(a), x, y);
      SubAppend(LeafIdsOf(a) + x, LeafIdsOf(a) + y, LeafIdsOf(b), LeafIdsOf(b));
    }
    if Sub(y, x) {
      SubAppend(LeafIdsOf(a), LeafIdsOf(a), y, x);
      SubAppend(LeafIdsOf(a) + y, LeafIdsOf(a) + x, LeafIdsOf(b), LeafIdsOf(b));
    }
  }

  lemma {:induction false} ChildReplaced(t: Tree, j: nat, c: seq<Tree>)
    requires t.Nd? && j < |t.kids|
    ensures Sub(LeafIds(t.kids[j]), LeafIdsOf(c)) ==> Sub(LeafIds(t), LeafIdsOf(t.kids[..j] + c + t.kids[j + 1..]))
    ensures Sub(LeafIdsOf(c), LeafIds(t.kids[j])) ==> Sub(LeafIdsOf(t.kids[..j] + c + t.kids[j + 1..]), LeafIds(t))
  {
    assert t.kids[j..j + 1] == [t.kids[j]];
    LeavesOne(t.kids[j]);
    RunReplaced(t.kids, j, 1, c);
  }

  // ---- Insertion ---------------------------------------------------------------------------------

  lemma {:induction false} SettleOrder(n: Tree, order: nat, next: PageId, log: seq<Change>)
    requires n.Nd? && |n.kids| == |n.keys| + 1
    ensures LeavesOf(Both(Settle(n, order, next, log))) == LeavesOf(n.kids)
  {
    var r := Settle(n, order, next, log);
    SettleKids(n, order, next, log);
    if r.split.Some? {
      LeavesAppend(r.left.kids, r.split.value.right.kids);
      assert Both(r) == [r.left] + [r.split.value.right];
      LeavesAppend([r.left], [r.split.value.right]);
      LeavesOne(r.split.value.right);
    }
    LeavesOne(r.left);
  }

  /** The old leaves are among the new ones, in the same order. */
  lemma {:induction false} InsOrder(t: Tree, k: Key, v: Bytes, order: nat, next: PageId, least: nat, lo: int, hi: int,
      h: nat)
    requires order >= 2 && Shape(t, order, least, lo, hi, h) && lo <= k < hi
    ensures Sub(LeafIds(t), LeafIdsOf(Both(Ins(t, k, v, order, next))))
    decreases t
  {
    if t.Lf? {
      LeafSplitOrder(t, k, v, order, next);
    } else {
      var j, g, n := InsStep(t, k, v, order, next, least, lo, hi, h);
      InsOrder(t.kids[j], k, v, order, next, order / 2, Lower(t.keys, lo, j), Upper(t.keys, hi, j), h - 1);
      ChildReplaced(t, j, Both(g));
      SettleOrder(n, order, g.next, if g.split.None? then g.log else g.log + [Write(n)]);
    }
  }

  lemma LeafSplitOrder(t: Tree, k: Key, v: Bytes, order: nat, next: PageId)
    requires t.Lf?
    ensures Sub(LeafIds(t), LeafIdsOf(Both(InsLeaf(t, k, v, order, next))))
  {
    var g := InsLeaf(t, k, v, order, next);
    LeavesOne(g.left);
    if g.split.Some? {
      var right := g.split.value.right;
      assert Both(g) == [g.left] + [right];
      LeavesAppend([g.left], [right]);
      LeavesOne(right);
      assert LeafIdsOf(Both(g)) == [t.id, right.id];
      assert [t.id, right.id][1..] == [right.id];
    } else {
      assert LeafIdsOf(Both(g)) == [t.id];
    }
    assert LeafIds(t) == [t.id] && [t.id][1..] == [];
  }

  /** A leaf of the result is an old one, or a new page. */
  ghost predicate OldOrNew(u: seq<PageId>, v: seq<PageId>, next: PageId) {
    forall id {:trigger id in v} :: id in v ==> id in u || id >= next
  }

  lemma {:induction false} InsNewLeaves(t: Tree, k: Key, v: Bytes, order: nat, next: PageId, least: nat, lo: int,
      hi: int, h: nat)
    requires order >= 2 && Shape(t, order, least, lo, hi, h) && lo <= k < hi
    ensures OldOrNew(LeafIds(t), LeafIdsOf(Both(Ins(t, k, v, order, next))), next)
    decreases t
  {
    if t.Lf? {
      NewLeaf(t, k, v, order, next);
    } else {
      var j, g, n := InsStep(t, k, v, order, next, least, lo, hi, h);
      InsNewLeaves(t.kids[j], k, v, order, next, order / 2, Lower(t.keys, lo, j), Upper(t.keys, hi, j), h - 1);
      ChildLeaves(t, j, Both(g), next);
      SettleOrder(n, order, g.next, if g.split.None? then g.log else g.log + [Write(n)]);
    }
  }

  lemma NewLeaf(t: Tree, k: Key, v: Bytes, order: nat, next: PageId)
    requires t.Lf?
    ensures OldOrNew(LeafIds(t), LeafIdsOf(Both(InsLeaf(t, k, v, order, next))), next)
  {
    var g := InsLeaf(t, k, v, order, next);
    LeavesOne(g.left);
    assert LeafIds(t)[0] == t.id;
    if g.split.Some? {
      TwoLeaves(g.left, g.split.value.right);
    }
  }

  lemma {:induction false} ChildLeaves(t: Tree, j: nat, c: seq<Tree>, next: PageId)
    requires t.Nd? && j < |t.kids| && OldOrNew(LeafIds(t.kids[j]), LeafIdsOf(c), next)
    ensures OldOrNew(LeafIds(t), LeafIdsOf(t.kids[..j] + c + t.kids[j + 1..]), next)
  {
    var a, b := t.kids[..j], t.kids[j + 1..];
    var u := a + c + b;
    assert u[..j] == a && u[j..j + |c|] == c && u[j + |c|..] == b && t.kids[j..j + 1] == [t.kids[j]];
    LeavesOne(t.kids[j]);
    IdsAround(t.kids, j, 1);
    IdsAround(u, j, |c|);
  }

  // ---- Deletion ------------------------------------------------------------------------------------

  /** A repair keeps the leaves below the pair, or drops the right one of two merged leaves. */
  lemma {:induction false} OutcomeOrder(a: Tree, sep: Key, b: Tree, cut: Option<nat>)
    requires Alike(a, b) && (cut.Some? ==> cut.value < NumKeys(Merged(a, sep, b)))
    ensures Sub(LeafIdsOf(Outcome(a, sep, b, cut)), LeafIdsOf([a, b]))
  {
    var out := Outcome(a, sep, b, cut);
    TwoLeaves(a, b);
    LeavesOne(out[0]);
    if cut.Some? {
      TwoLeaves(out[0], out[1]);
      assert out == [out[0], out[1]];
    } else {
      assert out == [out[0]];
    }
    if a.Lf? {
      assert LeafIdsOf([a, b]) == [a.id, b.id] && [a.id, b.id][1..] == [b.id];
      assert LeafIdsOf(out) == if cut.Some? then [a.id, b.id] else [a.id];
      SubSame([a.id, b.id]);
      assert [a.id][1..] == [];
    } else {
      LeavesAppend(a.kids, b.kids);
      if cut.Some? {
        assert a.kids + b.kids == out[0].kids + out[1].kids;
        LeavesAppend(out[0].kids, out[1].kids);
      }
      SubSame(LeafIdsOf([a, b]));
    }
  }

  lemma {:induction false} TwoLeaves(a: Tree, b: Tree)
    ensures LeavesOf([a, b]) == Leaves(a) + Leaves(b)
  {
    assert [a, b] == [a] + [b];
    LeavesAppend([a], [b]);
    LeavesOne(a);
    LeavesOne(b);
  }

  lemma {:induction false} RepairOrder(n: Tree, i: nat, cut: Option<nat>)
    requires Repairable(n, i, cut)
    ensures Sub(LeafIds(Repaired(n, i, cut)), LeafIds(n))
  {
    RepairedKids(n, i, cut);
    OutcomeOrder(n.kids[i], n.keys[i], n.kids[i + 1], cut);
    assert n.kids[i..i + 2] == [n.kids[i], n.kids[i + 1]];
    RunReplaced(n.kids, i, 2, OutcomeAt(n, i, cut));
  }

  lemma OneSet(ts: seq<Tree>, j: nat, c: Tree)
    requires j < |ts|
    ensures ts[j := c] == ts[..j] + [c] + ts[j + 1..]
  {
  }

  /** The leaves that are left are among the old ones, in the same order. */
  lemma {:induction false} DelOrder(t: Tree, k: Key, order: nat, least: nat, lo: int, hi: int, h: nat,
      after: Option<PageId>)
    requires Deletable(t, order, least, lo, hi, h, after) && lo <= k < hi
    ensures Sub(LeafIds(Del(t, k, order).node), LeafIds(t))
    decreases t
  {
    if t.Lf? {
      SubSame(LeafIds(t));
    } else {
      var j, d, n := DelStep(t, k, order, least, lo, hi, h, after);
      RouteBounds(t.keys, lo, hi, k);
      DelOrder(t.kids[j], k, order, order / 2, Lower(t.keys, lo, j), Upper(t.keys, hi, j), h - 1,
        Follower(t.kids, after, j));
      LeavesOne(d.node);
      ChildReplaced(t, j, [d.node]);
      OneSet(t.kids, j, d.node);
      if NumKeys(d.node) < order / 2 {
        var i, cut := MendIsRepair(n, j, order, lo, hi, h);
        RepairOrder(n, i, cut);
        SubTrans(LeafIds(Mend(n, j, order).node), LeafIds(n), LeafIds(t));
      }
    }
  }

  lemma {:induction false} SubInAll(u: seq<PageId>, v: seq<PageId>, next: PageId)
    requires Sub(u, v)
    ensures OldOrNew(v, u, next)
  {
    forall id | id in u ensures id in v {
      SubIn(u, v, id);
    }
  }

  // ---- Operations ------------------------------------------------------------------------------------

  /** Every operation keeps the order of the leaves that it keeps; new leaves have new ids. */
  lemma {:induction false} OpOrder(db: Db, op: Op, order: nat)
    requires Healthy(db, order)
    ensures var u, v := LeafIds(db.tree), LeafIds(Do(db, op, order).tree);
            && (Sub(u, v) || Sub(v, u)) && OldOrNew(u, v, db.next) && (op.Insert? ==> Sub(u, v))
  {
    var t, least := db.tree, RootLeast(db.tree);
    match op
    case Insert(k, v) =>
      InsOrder(t, k, v, order, db.next, least, 0, KEY_LIMIT, db.height);
      InsNewLeaves(t, k, v, order, db.next, least, 0, KEY_LIMIT, db.height);
      var g := Ins(t, k, v, order, db.next);
      if g.split.None? {
        LeavesOne(g.left);
      }
    case Delete(k) =>
      SubSame(LeafIds(t));
      if HasKey(t, k) {
        DelOrder(t, k, order, least, 0, KEY_LIMIT, db.height, None);
        var d := Del(t, k, order);
        if Collapse(d) != d.node {
          assert d.node.kids == [d.node.kids[0]];
          LeavesOne(d.node.kids[0]);
        }
      }
      SubInAll(LeafIds(Do(db, op, order).tree), LeafIds(t), db.next);
  }

  /** Leaf ids are ids of the tree, each once. */
  lemma {:induction false} LeafIdsAmong(t: Tree)
    ensures multiset(LeafIds(t)) <= Ids(t)
    decreases t, 1
  {
    if t.Nd? {
      LeafIdsOfAmong(t.kids);
    } else {
      assert LeafIds(t) == [t.id];
    }
  }

  lemma {:induction false} LeafIdsOfAmong(ts: seq<Tree>)
    ensures multiset(LeafIdsOf(ts)) <= IdsOf(ts)
    decreases ts, 0
  {
    if ts != [] {
      LeafIdsAmong(ts[0]);
      LeafIdsOfAmong(ts[1..]);
      KidIdsAppend(Leaves(ts[0]), LeavesOf(ts[1..]));
    }
  }

  lemma {:induction false} LeafIdsOnce(t: Tree)
    requires Distinct(Ids(t))
    ensures Once(LeafIds(t)) && forall id :: id in LeafIds(t) ==> id in Ids(t)
  {
    LeafIdsAmong(t);
    var u := LeafIds(t);
    forall id | id in u ensures id in Ids(t) {
      assert id in multiset(u);
    }
    forall i, j | 0 <= i < j < |u| ensures u[i] != u[j] {
      assert u == u[..i] + [u[i]] + u[i + 1..j] + [u[j]] + u[j + 1..];
      assert multiset(u)[u[i]] <= Ids(t)[u[i]];
    }
  }
}
