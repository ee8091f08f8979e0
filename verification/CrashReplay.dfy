/** Crash refinement: replaying the log over the checkpointed pages answers every lookup as the tree did before the
    crash. */
module CrashReplay {
  import opened Entries
  import opened Tree
  import opened Log
  import opened TreeInsert
  import opened TreeDelete
  import opened TreeRecovery
  import opened TreeDeleteRecovery
  import opened TreeLive
  import opened TreeSteps
  import opened TreeClimb
  import opened BPlusTree

  datatype Op = Insert(key: Key, record: Bytes) | Delete(key: Key)

  /** A tree, its height and the next free page id. */
  datatype Db = Db(tree: Tree, height: nat, next: PageId)

  function Do(db: Db, op: Op, order: nat): Db
    requires order >= 2
  {
    match op
    case Insert(k, v) =>
      var g := Ins(db.tree, k, v, order, db.next);
      Db(Grow(g), GrowHeight(g, db.height), GrowNext(g))
    case Delete(k) =>
      Db(TreeAfter(db.tree, k, order), HeightAfter(db.tree, k, order, db.height), db.next)
  }

  function DoLog(db: Db, op: Op, order: nat): seq<Change>
    requires order >= 2
  {
    match op
    case Insert(k, v) => GrowLog(Ins(db.tree, k, v, order, db.next))
    case Delete(k) => LogAfter(db.tree, k, order)
  }

  function DoAll(db: Db, ops: seq<Op>, order: nat): Db
    requires order >= 2
    decreases |ops|
  {
    if ops == [] then db else Do(DoAll(db, ops[..|ops| - 1], order), ops[|ops| - 1], order)
  }

  function LogAll(db: Db, ops: seq<Op>, order: nat): seq<Change>
    requires order >= 2
    decreases |ops|
  {
    if ops == [] then []
    else LogAll(db, ops[..|ops| - 1], order) + DoLog(DoAll(db, ops[..|ops| - 1], order), ops[|ops| - 1], order)
  }

  /** What the operations mean for a plain map. */
  function Update(m: map<Key, Bytes>, op: Op): map<Key, Bytes> {
    match op
    case Insert(k, v) => m[k := v]
    case Delete(k) => map q | q in m && q != k :: m[q]
  }

  function UpdateAll(m: map<Key, Bytes>, ops: seq<Op>): map<Key, Bytes>
    decreases |ops|
  {
    if ops == [] then m else Update(UpdateAll(m, ops[..|ops| - 1]), ops[|ops| - 1])
  }

  ghost predicate Healthy(db: Db, order: nat) {
    && Sound(RootSpot(db.tree, db.height), 0, order)
    && Distinct(Ids(db.tree)) && forall id :: id in Ids(db.tree) ==> id < db.next
  }

  lemma {:induction false} InsertDb(db: Db, k: Key, v: Bytes, order: nat)
    requires Healthy(db, order)
    ensures Healthy(Do(db, Insert(k, v), order), order)
    ensures AsMap(Contents(Do(db, Insert(k, v), order).tree)) == AsMap(Contents(db.tree))[k := v]
  {
    GrownSound(db.tree, k, v, order, db.next, db.height);
    InsertContents(db.tree, k, v, order, db.next, RootLeast(db.tree), db.height);
  }

  lemma {:induction false} DeleteDb(db: Db, k: Key, order: nat)
    requires Healthy(db, order)
    ensures Healthy(Do(db, Delete(k), order), order)
  {
    DeleteSound(db.tree, k, order, db.height);
  }

  /** Every operation keeps the tree sound and acts on its contents as on a map. */
  lemma {:induction false} DoKeeps(db: Db, op: Op, order: nat)
    requires Healthy(db, order)
    ensures Healthy(Do(db, op, order), order)
    ensures AsMap(Contents(Do(db, op, order).tree)) == Update(AsMap(Contents(db.tree)), op)
  {
    match op
    case Insert(k, v) => InsertDb(db, k, v, order);
    case Delete(k) =>
      DeleteDb(db, k, order);
      DeleteView(db.tree, k, order, db.height);
  }

  /** The log of every operation rebuilds the tree it leaves, up to stale upper halves, and names its root. */
  lemma {:induction false} DoReplay(s: Store, db: Db, op: Op, order: nat)
    requires Healthy(db, order) && Holds(s, db.tree, KEY_LIMIT, false)
    ensures Holds(Replay(s, DoLog(db, op, order)), Do(db, op, order).tree, KEY_LIMIT, false)
    ensures ReplayRoot(db.tree.id, DoLog(db, op, order)) == Do(db, op, order).tree.id
  {
    match op
    case Insert(k, v) => InsertReplay(s, db.tree, k, v, order, db.next, RootLeast(db.tree), db.height);
    case Delete(k) => DeleteReplay(s, db.tree, k, order, db.height, false);
  }

  lemma {:induction false} RunReplay(s: Store, db: Db, ops: seq<Op>, order: nat)
    requires Healthy(db, order) && Holds(s, db.tree, KEY_LIMIT, false)
    ensures Healthy(DoAll(db, ops, order), order)
    ensures AsMap(Contents(DoAll(db, ops, order).tree)) == UpdateAll(AsMap(Contents(db.tree)), ops)
    ensures Holds(Replay(s, LogAll(db, ops, order)), DoAll(db, ops, order).tree, KEY_LIMIT, false)
    ensures ReplayRoot(db.tree.id, LogAll(db, ops, order)) == DoAll(db, ops, order).tree.id
    decreases |ops|
  {
    if ops != [] {
      var init, op := ops[..|ops| - 1], ops[|ops| - 1];
      var mid, log := DoAll(db, init, order), LogAll(db, init, order);
      RunReplay(s, db, init, order);
      DoKeeps(mid, op, order);
      DoReplay(Replay(s, log), mid, op, order);
      ReplayAppend(s, log, DoLog(mid, op, order));
      ReplayRootAppend(db.tree.id, log, DoLog(mid, op, order));
    }
  }

  lemma {:induction false} HealthyRun(db: Db, ops: seq<Op>, order: nat)
    requires Healthy(db, order)
    ensures Healthy(DoAll(db, ops, order), order)
    decreases |ops|
  {
    if ops != [] {
      HealthyRun(db, ops[..|ops| - 1], order);
      DoKeeps(DoAll(db, ops[..|ops| - 1], order), ops[|ops| - 1], order);
    }
  }

  lemma {:induction false} DoAppend(db: Db, a: seq<Op>, b: seq<Op>, order: nat)
    requires order >= 2
    ensures DoAll(db, a + b, order) == DoAll(DoAll(db, a, order), b, order)
    decreases |b|
  {
    if b == [] {
      assert a + b == a;
    } else {
      var n := |b| - 1;
      assert (a + b)[..|a + b| - 1] == a + b[..n];
      DoAppend(db, a, b[..n], order);
    }
  }

  lemma {:induction false} RunAppend(db: Db, a: seq<Op>, b: seq<Op>, order: nat)
    requires order >= 2
    ensures DoAll(db, a + b, order) == DoAll(DoAll(db, a, order), b, order)
    ensures LogAll(db, a + b, order) == LogAll(db, a, order) + LogAll(DoAll(db, a, order), b, order)
    decreases |b|
  {
    DoAppend(db, a, b, order);
    if b == [] {
      assert a + b == a;
    } else {
      var n, mid := |b| - 1, DoAll(db, a, order);
      assert (a + b)[..|a + b| - 1] == a + b[..n];
      RunAppend(db, a, b[..n], order);
      LogJoin(LogAll(db, a, order), LogAll(mid, b[..n], order), DoLog(DoAll(mid, b[..n], order), b[n], order));
    }
  }

  /** After any run of inserts and deletes from a checkpointed tree, the replayed pages answer every key as the map
      does. */
  lemma {:induction false} CrashRefinement(base: Store, db: Db, ops: seq<Op>, order: nat, k: Key)
    requires Healthy(db, order) && Holds(base, db.tree, KEY_LIMIT, true)
    ensures var s := Replay(base, LogAll(db, ops, order));
            var root := ReplayRoot(db.tree.id, LogAll(db, ops, order));
            var m := UpdateAll(AsMap(Contents(db.tree)), ops);
            Lookup(s, root, k, DoAll(db, ops, order).height) == if k in m then Some(m[k]) else None
  {
    HoldsInexact(base, db.tree, KEY_LIMIT);
    RunReplay(base, db, ops, order);
    var end := DoAll(db, ops, order);
    LookupCorrect(Replay(base, LogAll(db, ops, order)), end.tree, k, order, RootLeast(end.tree), 0, KEY_LIMIT,
      end.height, false);
    MapAgrees(Contents(end.tree), k);
  }

  /** The same for the tree over pages: run the operations, and compare the recovered pages with the live tree. */
  method RunAndRecover(t: BPlusTree, ops: seq<Op>)
    requires t.Valid()
    modifies t, t.pager.Repr
    ensures t.Valid() && forall o :: o in t.pager.Repr && o !in old(t.pager.Repr) ==> fresh(o)
    ensures t.View() == UpdateAll(old(t.View()), ops)
    ensures var log := LogAll(old(Db(t.tree, t.height, t.pager.nextId)), ops, t.pager.order);
            && t.pager.log == old(t.pager.log) + log
            && ReplayRoot(old(t.rootId), log) == t.rootId
            && forall k: Key ::
                 Lookup(Replay(old(t.pager.store), log), t.rootId, k, t.height) ==
                   Get(Contents(t.tree), k)
  {
    ghost var order := t.pager.order;
    ghost var base, log0, db := t.pager.store, t.pager.log, Db(t.tree, t.height, t.pager.nextId);
    for i := 0 to |ops|
      invariant t.Valid() && forall o :: o in t.pager.Repr && o !in old(t.pager.Repr) ==> fresh(o)
      invariant Db(t.tree, t.height, t.pager.nextId) == DoAll(db, ops[..i], order)
      invariant t.pager.log == log0 + LogAll(db, ops[..i], order)
    {
      assert ops[..i + 1][..i] == ops[..i];
      LogJoin(log0, LogAll(db, ops[..i], order), DoLog(DoAll(db, ops[..i], order), ops[i], order));
      RunOne(t, ops[i]);
    }
    assert ops[..|ops|] == ops;
    HoldsInexact(base, db.tree, KEY_LIMIT);
    RunReplay(base, db, ops, order);
    forall k: Key ensures Lookup(Replay(base, LogAll(db, ops, order)), t.rootId, k, t.height) ==
      Get(Contents(t.tree), k) {
      LookupCorrect(Replay(base, LogAll(db, ops, order)), t.tree, k, order, RootLeast(t.tree), 0, KEY_LIMIT, t.height,
        false);
    }
  }

  method RunOne(t: BPlusTree, op: Op)
    requires t.Valid()
    modifies t, t.pager.Repr
    ensures t.Valid() && forall o :: o in t.pager.Repr && o !in old(t.pager.Repr) ==> fresh(o)
    ensures Db(t.tree, t.height, t.pager.nextId) == Do(old(Db(t.tree, t.height, t.pager.nextId)), op, t.pager.order)
    ensures t.pager.log == old(t.pager.log) + DoLog(old(Db(t.tree, t.height, t.pager.nextId)), op, t.pager.order)
  {
    match op
    case Insert(k, v) => t.Insert(k, v);
    case Delete(k) => var found := t.Delete(k);
  }

  // ---- Recovery is blind to pages that were already overwritten -----------------------------

  /** Two stores agree on a page. */
  predicate Agree(s: Store, s': Store, id: PageId) {
    (id in s <==> id in s') && (id in s ==> s[id] == s'[id])
  }

  lemma {:induction false} ReplayAgrees(s: Store, s': Store, log: seq<Change>, id: PageId)
    requires id in Touched(log) || Agree(s, s', id)
    ensures Agree(Replay(s, log), Replay(s', log), id)
    decreases |log|
  {
    if log != [] {
      var rest, last := log[..|log| - 1], log[|log| - 1];
      assert log == rest + [last];
      if !(last.PageWrite? && last.id == id) {
        assert id in Touched(log) ==> id in Touched(rest);
        ReplayAgrees(s, s', rest, id);
      }
    }
  }

  /** Pages that were evicted or flushed after the checkpoint do not matter: replay overwrites every one of them. */
  lemma {:induction false} ReplayOverwrites(s: Store, s': Store, log: seq<Change>)
    requires forall id :: id !in Touched(log) ==> Agree(s, s', id)
    ensures Replay(s, log) == Replay(s', log)
  {
    var r, r' := Replay(s, log), Replay(s', log);
    forall id: PageId ensures Agree(r, r', id) {
      ReplayAgrees(s, s', log, id);
    }
    assert forall id :: id in r ==> id in r' && r[id] == r'[id] by {
      forall id | id in r ensures id in r' && r[id] == r'[id] { assert Agree(r, r', id); }
    }
    assert forall id :: id in r' ==> id in r by {
      forall id | id in r' ensures id in r { assert Agree(r, r', id); }
    }
  }

  /** A recovery that stopped after any number of page writes and is run again gives the same pages. */
  lemma {:induction false} RecoveryRestarts(s: Store, log: seq<Change>, n: nat)
    requires n <= |log|
    ensures Replay(Replay(s, log[..n]), log) == Replay(s, log)
  {
    var part := Replay(s, log[..n]);
    forall id | id !in Touched(log) ensures Agree(part, s, id) {
      assert Touched(log[..n]) <= Touched(log);
      ReplayTouches(s, log[..n], id);
    }
    ReplayOverwrites(part, s, log);
  }
}
