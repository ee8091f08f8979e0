/** No page the tree writes is too big: the bound on order and record size under which every operation succeeds. */
module Capacity {
  import opened Entries
  import opened Tree
  import opened Log
  import opened TreeInsert
  import opened TreeDelete
  import opened TreeLive
  import opened TreeSteps
  import opened TreeClimb
  import opened CrashReplay
  import opened SlottedLayout
  import opened PageCodec
  import opened PageBytes

  /** Records of at most r bytes. */
  ghost predicate Small(es: seq<Entry>, r: nat) {
    forall e :: e in es ==> |e.val| <= r
  }

  /** One entry or key over the order at most: the state just before a split. */
  ghost predicate PageFits(p: Page, order: nat, r: nat) {
    match p
    case Leaf(entries, _) => |entries| <= order + 1 && Small(entries, r)
    case Index(keys, children) => |keys| <= order + 1 && |children| == |keys| + 1
  }

  ghost predicate ChangeFits(c: Change, order: nat, r: nat) {
    c.PageWrite? ==> PageFits(c.page, order, r)
  }

  ghost predicate LogFits(log: seq<Change>, order: nat, r: nat) {
    forall c :: c in log ==> ChangeFits(c, order, r)
  }

  lemma {:induction false} SmallPart(a: seq<Entry>, m: seq<Entry>, b: seq<Entry>, r: nat)
    requires Small(a + m + b, r)
    ensures Small(m, r)
  {
    forall e | e in m ensures |e.val| <= r {
      assert e in a + m + b;
    }
  }

  lemma {:induction false} KidSmall(ts: seq<Tree>, j: nat, r: nat)
    requires j < |ts| && Small(ContentsOf(ts), r)
    ensures Small(Contents(ts[j]), r)
  {
    Around(ts, j);
    SmallPart(ContentsOf(ts[..j]), Contents(ts[j]), ContentsOf(ts[j + 1..]), r);
  }

  lemma LogFitsAppend(a: seq<Change>, b: seq<Change>, order: nat, r: nat)
    requires LogFits(a, order, r) && LogFits(b, order, r)
    ensures LogFits(a + b, order, r)
  {
  }

  // ---- Insertion ----------------------------------------------------------------------------

  lemma {:induction false} InsLeafFits(t: Tree, k: Key, v: Bytes, order: nat, next: PageId, r: nat, lo: int, hi: int)
    requires t.Lf? && Sorted(t.entries) && Within(t.entries, lo, hi) && lo <= k < hi && |t.entries| <= order
    requires Small(t.entries, r) && |v| <= r
    ensures LogFits(InsLeaf(t, k, v, order, next).log, order, r)
  {
    PutSorted(t.entries, k, v, lo, hi);
    var es := Put(t.entries, k, v);
    forall e | e in es[|es| / 2..] ensures e in es {
    }
  }

  lemma {:induction false} InsFits(t: Tree, k: Key, v: Bytes, order: nat, next: PageId, least: nat, lo: int, hi: int,
      h: nat, r: nat)
    requires order >= 2 && Shape(t, order, least, lo, hi, h) && lo <= k < hi && Small(Contents(t), r) && |v| <= r
    ensures LogFits(Ins(t, k, v, order, next).log, order, r)
    decreases t
  {
    if t.Lf? {
      InsLeafFits(t, k, v, order, next, r, lo, hi);
    } else {
      var j, g, n := InsStep(t, k, v, order, next, least, lo, hi, h);
      KidSmall(t.kids, j, r);
      InsFits(t.kids[j], k, v, order, next, order / 2, Lower(t.keys, lo, j), Upper(t.keys, hi, j), h - 1, r);
      NodeFits(n, order, g, r);
    }
  }

  lemma {:induction false} NodeFits(n: Tree, order: nat, g: Grown, r: nat)
    requires n.Nd? && |n.kids| == |n.keys| + 1 && |n.keys| <= order + 1 && LogFits(g.log, order, r)
    ensures LogFits(Settle(n, order, g.next, if g.split.None? then g.log else g.log + [Write(n)]).log, order, r)
  {
    assert ChangeFits(Write(n), order, r);
    LogFitsAppend(g.log, [Write(n)], order, r);
    var log := if g.split.None? then g.log else g.log + [Write(n)];
    var s := Settle(n, order, g.next, log);
    if s.split.Some? {
      assert ChangeFits(Write(s.split.value.right), order, r);
      LogFitsAppend(log, [Write(s.split.value.right)], order, r);
    }
  }

  // ---- Deletion -----------------------------------------------------------------------------------

  /** A page of a sound tree with small records. */
  lemma SoundFits(t: Tree, order: nat, least: nat, lo: int, hi: int, h: nat, r: nat)
    requires Shape(t, order, least, lo, hi, h) && Small(Contents(t), r)
    ensures ChangeFits(Write(t), order, r)
  {
  }

  lemma {:induction false} MendFits(n: Tree, j: nat, order: nat, lo: int, hi: int, h: nat, r: nat)
    requires Deficient(n, j, order, lo, hi, h) && Linked(n) && |n.keys| <= order && Small(Contents(n), r)
    ensures Mendable(n, j) && LogFits(Mend(n, j, order).log, order, r)
  {
    var i, cut := MendIsRepair(n, j, order, lo, hi, h);
    MendFormed(n, j, order, lo, hi, h);
    RepairKeeps(n, i, cut);
    RepairFits(n, i, cut, order, lo, hi, h, r);
    var m, out := Repaired(n, i, cut), OutcomeAt(n, i, cut);
    assert ChangeFits(Write(m), order, r);
  }

  /** The pages a repair writes below the node. */
  lemma {:induction false} RepairFits(n: Tree, i: nat, cut: Option<nat>, order: nat, lo: int, hi: int, h: nat, r: nat)
    requires Repairable(n, i, cut) && Formed(Repaired(n, i, cut), order, lo, hi, h)
             && Small(Contents(Repaired(n, i, cut)), r)
    ensures forall q :: 0 <= q < |OutcomeAt(n, i, cut)| ==> ChangeFits(Write(OutcomeAt(n, i, cut)[q]), order, r)
  {
    var m, out := Repaired(n, i, cut), OutcomeAt(n, i, cut);
    RepairedKids(n, i, cut);
    forall q | 0 <= q < |out| ensures ChangeFits(Write(out[q]), order, r) {
      assert m.kids[i + q] == out[q];
      KidSmall(m.kids, i + q, r);
      SoundFits(out[q], order, order / 2, Lower(m.keys, lo, i + q), Upper(m.keys, hi, i + q), h - 1, r);
    }
  }

  lemma {:induction false} DelFits(t: Tree, k: Key, order: nat, least: nat, lo: int, hi: int, h: nat,
      after: Option<PageId>, r: nat)
    requires Deletable(t, order, least, lo, hi, h, after) && lo <= k < hi && Small(Contents(t), r)
    ensures LogFits(Del(t, k, order).log, order, r) && Small(Contents(Del(t, k, order).node), r)
    decreases t
  {
    DelContents(t, k, order, least, lo, hi, h, after);
    Ordered(t, order, least, lo, hi, h);
    RemoveSorted(Contents(t), k);
    if t.Nd? {
      var j, d, n := DelStep(t, k, order, least, lo, hi, h, after);
      var l, u := Lower(t.keys, lo, j), Upper(t.keys, hi, j);
      RouteBounds(t.keys, lo, hi, k);
      KidSmall(t.kids, j, r);
      DelFits(t.kids[j], k, order, order / 2, l, u, h - 1, Follower(t.kids, after, j), r);
      if NumKeys(d.node) < order / 2 {
        OneReplaced(t, j, d.node);
        ReplacedSmall(ContentsOf(t.kids[..j]), Contents(t.kids[j]), Contents(d.node), ContentsOf(t.kids[j + 1..]), r);
        MendFits(n, j, order, lo, hi, h, r);
        LogFitsAppend(d.log, Mend(n, j, order).log, order, r);
      }
    } else {
      RemoveSorted(t.entries, k);
    }
  }

  lemma ReplacedSmall(a: seq<Entry>, m: seq<Entry>, m': seq<Entry>, b: seq<Entry>, r: nat)
    requires Small(a + m + b, r) && Small(m', r)
    ensures Small(a + m' + b, r)
  {
    forall e | e in a + m' + b ensures |e.val| <= r {
      if e in a || e in b { assert e in a + m + b; }
    }
  }

  // ---- Runs ---------------------------------------------------------------------------------------------

  ghost predicate SmallOp(op: Op, r: nat) {
    op.Insert? ==> |op.record| <= r
  }

  lemma {:induction false} OpFits(db: Db, op: Op, order: nat, r: nat)
    requires Healthy(db, order) && Small(Contents(db.tree), r) && SmallOp(op, r)
    ensures LogFits(DoLog(db, op, order), order, r) && Small(Contents(Do(db, op, order).tree), r)
  {
    match op
    case Insert(k, v) => InsertFits(db, k, v, order, r);
    case Delete(k) => DeleteFits(db, k, order, r);
  }

  lemma {:induction false} InsertFits(db: Db, k: Key, v: Bytes, order: nat, r: nat)
    requires Healthy(db, order) && Small(Contents(db.tree), r) && |v| <= r
    ensures LogFits(DoLog(db, Insert(k, v), order), order, r) && Small(Contents(Do(db, Insert(k, v), order).tree), r)
  {
    var t := db.tree;
    var g := Ins(t, k, v, order, db.next);
    InsFits(t, k, v, order, db.next, RootLeast(t), 0, KEY_LIMIT, db.height, r);
    Ordered(t, order, RootLeast(t), 0, KEY_LIMIT, db.height);
    PutSorted(Contents(t), k, v, 0, KEY_LIMIT);
    InsContents(t, k, v, order, db.next, RootLeast(t), 0, KEY_LIMIT, db.height);
    GrowContents(g);
    if g.split.Some? {
      assert ChangeFits(Write(Grow(g)), order, r);
      LogFitsAppend(g.log, [Write(Grow(g)), MetaUpdate(Grow(g).id)], order, r);
    }
  }

  lemma {:induction false} GrowContents(g: Grown)
    ensures Contents(Grow(g)) == ContentsOf(Both(g))
  {
    Single(g.left);
  }

  lemma {:induction false} DeleteFits(db: Db, k: Key, order: nat, r: nat)
    requires Healthy(db, order) && Small(Contents(db.tree), r)
    ensures LogFits(DoLog(db, Delete(k), order), order, r) && Small(Contents(Do(db, Delete(k), order).tree), r)
  {
    var t := db.tree;
    DelFits(t, k, order, RootLeast(t), 0, KEY_LIMIT, db.height, None, r);
    DeleteSound(t, k, order, db.height);
    Ordered(t, order, RootLeast(t), 0, KEY_LIMIT, db.height);
    RemoveSorted(Contents(t), k);
    var d := Del(t, k, order);
    LogFitsAppend(d.log, [MetaUpdate(Collapse(d).id)], order, r);
  }

  lemma {:induction false} RunFits(db: Db, ops: seq<Op>, order: nat, r: nat)
    requires Healthy(db, order) && Small(Contents(db.tree), r) && forall op :: op in ops ==> SmallOp(op, r)
    ensures Healthy(DoAll(db, ops, order), order) && Small(Contents(DoAll(db, ops, order).tree), r)
    ensures LogFits(LogAll(db, ops, order), order, r)
    decreases |ops|
  {
    if ops != [] {
      var init, op := ops[..|ops| - 1], ops[|ops| - 1];
      assert ops == init + [op];
      RunFits(db, init, order, r);
      OpFits(DoAll(db, init, order), op, order, r);
      DoKeeps(DoAll(db, init, order), op, order);
      LogFitsAppend(LogAll(db, init, order), DoLog(DoAll(db, init, order), op, order), order, r);
    }
  }

  // ---- Bytes ------------------------------------------------------------------------------------------------

  lemma {:induction false} RoomBound(es: seq<Entry>, r: nat)
    requires Small(es, r)
    ensures Room(es) <= |es| * (r + 12)
    decreases |es|
  {
    if es != [] {
      var n := |es| - 1;
      assert es[n] in es;
      RoomBound(es[..n], r);
      assert n * (r + 12) + (r + 12) == |es| * (r + 12);
    }
  }

  lemma {:induction false} FitsIsWritable(p: Page, order: nat, r: nat)
    requires PageFits(p, order, r) && (order + 1) * (r + 12) <= MAX_ROOM && order <= 508
    ensures Writable(p)
  {
    match p
    case Leaf(entries, _) =>
      RoomBound(entries, r);
      Times(|entries|, order + 1, r + 12);
    case Index(_, _) =>
  }

  lemma Times(a: nat, b: nat, c: nat)
    requires a <= b
    ensures a * c <= b * c
  {
  }

  function EmptyDb(): Db {
    Db(Lf(0, [], None), 0, 1)
  }

  ghost predicate SmallOps(ops: seq<Op>, r: nat) {
    forall i :: 0 <= i < |ops| ==> SmallOp(ops[i], r)
  }

  /** Every page that the log writes can be written. */
  ghost predicate LogWritable(log: seq<Change>) {
    forall i :: 0 <= i < |log| && log[i].PageWrite? ==> Writable(log[i].page)
  }

  lemma OrderBound(order: nat, r: nat)
    requires (order + 1) * (r + 12) <= MAX_ROOM
    ensures order <= 508
  {
    Times(12, r + 12, order + 1);
  }

  /** From a tree with records of at most r bytes, no run of operations with such records writes a page that does not
      fit, when (order + 1) * (r + 12) is at most 4071. */
  lemma {:induction false} RunWritable(db: Db, ops: seq<Op>, order: nat, r: nat)
    requires Healthy(db, order) && Small(Contents(db.tree), r) && SmallOps(ops, r) && (order + 1) * (r + 12) <= MAX_ROOM
    ensures LogWritable(LogAll(db, ops, order))
  {
    var log := LogAll(db, ops, order);
    OrderBound(order, r);
    RunFits(db, ops, order, r);
    forall i | 0 <= i < |log| && log[i].PageWrite? ensures Writable(log[i].page) {
      assert ChangeFits(log[i], order, r);
      FitsIsWritable(log[i].page, order, r);
    }
  }

  // ---- The bound is exact ----------------------------------------------------------------------------

  /** Keys in increasing order, each with the same record. */
  function Filled(n: nat, v: Bytes): (es: seq<Entry>)
    requires n <= KEY_LIMIT
    ensures |es| == n && forall i :: 0 <= i < n ==> es[i] == Entry(i, v)
  {
    seq(n, i requires 0 <= i < n => Entry(i, v))
  }

  function Filling(n: nat, v: Bytes): (ops: seq<Op>)
    requires n <= KEY_LIMIT
    ensures |ops| == n && forall i :: 0 <= i < n ==> ops[i] == Insert(i, v)
  {
    seq(n, i requires 0 <= i < n => Insert(i, v))
  }

  lemma {:induction false} PutLast(es: seq<Entry>, k: Key, v: Bytes)
    requires forall i :: 0 <= i < |es| ==> es[i].key < k
    ensures Put(es, k, v) == es + [Entry(k, v)]
    decreases |es|
  {
    if es != [] {
      PutLast(es[1..], k, v);
      assert es == [es[0]] + es[1..];
    }
  }

  /** The first order keys stay in the root leaf. */
  lemma {:induction false} FillingRoot(n: nat, v: Bytes, order: nat)
    requires 2 <= order && n <= order && n <= KEY_LIMIT
    ensures DoAll(EmptyDb(), Filling(n, v), order) == Db(Lf(0, Filled(n, v), None), 0, 1)
    decreases n
  {
    if n > 0 {
      FillingRoot(n - 1, v, order);
      assert Filling(n, v)[..n - 1] == Filling(n - 1, v);
      PutLast(Filled(n - 1, v), n - 1, v);
      assert Filled(n, v) == Filled(n - 1, v) + [Entry(n - 1, v)];
    }
  }

  /** The last of them, or one more, is logged in the root leaf before it may split. */
  lemma {:induction false} FillingLog(v: Bytes, n: nat, order: nat)
    requires 2 <= order && n <= order && n < KEY_LIMIT
    ensures PageWrite(0, Leaf(Filled(n + 1, v), None)) in LogAll(EmptyDb(), Filling(n + 1, v), order)
  {
    FillingRoot(n, v, order);
    assert Filling(n + 1, v)[..n] == Filling(n, v);
    PutLast(Filled(n, v), n, v);
    assert Filled(n + 1, v) == Filled(n, v) + [Entry(n, v)];
    var db := DoAll(EmptyDb(), Filling(n, v), order);
    var g := Ins(db.tree, n, v, order, db.next);
    assert g.log[0] == PageWrite(0, Leaf(Filled(n + 1, v), None));
    assert GrowLog(g)[0] == g.log[0];
  }

  ghost predicate AlwaysFits(order: nat, r: nat)
    requires order >= 2
  {
    forall ops: seq<Op> :: SmallOps(ops, r) ==> LogWritable(LogAll(EmptyDb(), ops, order))
  }

  /** From an empty tree, every page of every run with records of at most r bytes fits if and only if
      (order + 1) * (r + 12) is at most 4071: past it, order + 1 insertions of such records fail. */
  lemma {:induction false} CapacityIff(order: nat, r: nat)
    requires order >= 2
    ensures AlwaysFits(order, r) <==> (order + 1) * (r + 12) <= MAX_ROOM
  {
    if (order + 1) * (r + 12) <= MAX_ROOM {
      forall ops: seq<Op> | SmallOps(ops, r) ensures LogWritable(LogAll(EmptyDb(), ops, order)) {
        RunWritable(EmptyDb(), ops, order, r);
      }
    } else {
      TooMuch(order, r);
    }
  }

  lemma {:induction false} TooMuch(order: nat, r: nat)
    requires order >= 2 && (order + 1) * (r + 12) > MAX_ROOM
    ensures exists ops: seq<Op> :: SmallOps(ops, r) && !LogWritable(LogAll(EmptyDb(), ops, order))
  {
    var n := if order < 340 then order else 340;
    var v := Blank(r);
    var ops := Filling(n + 1, v);
    FillingLog(v, n, order);
    RoomExact(Filled(n + 1, v), r);
    Overflow(order, r);
    var log, c := LogAll(EmptyDb(), ops, order), PageWrite(0, Leaf(Filled(n + 1, v), None));
    var i :| 0 <= i < |log| && log[i] == c;
    assert !Writable(log[i].page);
    assert SmallOps(ops, r) && !LogWritable(log);
  }

  lemma Overflow(order: nat, r: nat)
    requires (order + 1) * (r + 12) > MAX_ROOM
    ensures (if order < 340 then order + 1 else 341) * (r + 12) > MAX_ROOM
  {
    if order >= 340 {
      assert 341 * (r + 12) >= 4092;
    }
  }

  lemma {:induction false} RoomExact(es: seq<Entry>, r: nat)
    requires forall e :: e in es ==> |e.val| == r
    ensures Room(es) == |es| * (r + 12)
    decreases |es|
  {
    if es != [] {
      var n := |es| - 1;
      assert es[n] in es;
      RoomExact(es[..n], r);
      assert n * (r + 12) + (r + 12) == |es| * (r + 12);
    }
  }
}
