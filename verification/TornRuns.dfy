/** Crashes anywhere in a log of automatic operations and transactions: what is recovered when an operation of several
    records is cut as well. */
module TornRuns {
  import opened Entries
  import opened ByteOrder
  import opened Tree
  import opened Log
  import opened TreeInsert
  import opened TreeDelete
  import opened TreeRecovery
  import opened TreeDeleteRecovery
  import opened TreeLive
  import opened TreeSteps
  import opened TreeClimb
  import opened CrashReplay
  import opened LogLinks
  import opened Capacity
  import opened PageCodec
  import opened PageBytes
  import opened EndToEnd
  import opened TornInsert
  import opened TornDelete
  import opened TreeActs
  import opened ActRuns
  import opened PagerRuns
  import opened FlushedRuns
  import WalFormat
  import WalRecovery
  import LiveLog
  import FilePager

  // ---- Lookups that come upon a page without keys ------------------------------------------------------

  /** A lookup comes upon an index page without keys. */
  predicate Meets(s: Store, id: PageId, k: int, h: nat)
    decreases h
  {
    && id in s && s[id].Index?
    && (s[id].keys == []
        || (h > 0 && Route(s[id].keys, k) < |s[id].children|
            && Meets(s, s[id].children[Route(s[id].keys, k)], k, h - 1)))
  }

  /** Read back from bytes, exactly the lookups that meet such a page fail, and the others are as before. */
  lemma {:induction false} LookupFaded(s: Store, id: PageId, k: int, h: nat)
    ensures Lookup(Faded(s), id, k, h) == if Meets(s, id, k, h) then None else Lookup(s, id, k, h)
    decreases h
  {
    if id in s && s[id].Index? && s[id].keys != [] && h > 0 && Route(s[id].keys, k) < |s[id].children| {
      LookupFaded(s, s[id].children[Route(s[id].keys, k)], k, h - 1);
    }
  }

  // ---- A run, and a part of one more operation -----------------------------------------------------

  /** The tree after the run, and the pages that its log makes of the checkpoint. */
  ghost function Replayed(data: DataFile, stable: DataFile, db: Db, ops: seq<Op>, order: nat): Store
    requires order >= 2
  {
    Replay(PagesIn(Patched(data, stable, db.next)), LogAll(db, ops, order))
  }

  /** What is logged of a run, and of one more operation up to a cut. */
  ghost function TornLog(db: Db, ops: seq<Op>, op: Op, order: nat, m: nat): seq<Change>
    requires order >= 2 && m <= |DoLog(DoAll(db, ops, order), op, order)|
  {
    LogAll(db, ops, order) + DoLog(DoAll(db, ops, order), op, order)[..m]
  }

  /** The pages that are recovered when the records in effect tell of a run and a part of one more operation, and the
      root that the last of them names. */
  lemma {:induction false} TornPages(data: DataFile, stable: DataFile, root: Option<nat>, db: Db, ops: seq<Op>, op: Op,
                                     order: nat, m: nat, done: seq<Record>)
    requires Healthy(db, order) && Checkpointed(stable, root, db) && m <= |DoLog(DoAll(db, ops, order), op, order)|
    requires TellsAll(ChangesOf(done), TornLog(db, ops, op, order, m)) && Loggable(TornLog(db, ops, op, order, m))
    requires forall id: nat :: id < db.next ==>
               LiveLog.Same(WalRecovery.WriteAll(data, WalRecovery.PagesOf(done)),
                            WalRecovery.WriteAll(stable, WalRecovery.PagesOf(done)), id)
    ensures var mid, s := DoAll(db, ops, order), Replayed(data, stable, db, ops, order);
            && Healthy(mid, order) && Holds(s, mid.tree, KEY_LIMIT, false)
            && AsMap(Contents(mid.tree)) == UpdateAll(AsMap(Contents(db.tree)), ops)
            && PagesIn(WalRecovery.WriteAll(data, WalRecovery.PagesOf(done))) ==
               Faded(Replay(s, DoLog(mid, op, order)[..m]))
            && WalRecovery.LastOr(WalRecovery.MetasOf(done), Some(root)) ==
               Some(Some(RootAt(mid, DoLog(mid, op, order), m)))
  {
    var base, ws := Patched(data, stable, db.next), WalRecovery.PagesOf(done);
    var log, tail := LogAll(db, ops, order), DoLog(DoAll(db, ops, order), op, order)[..m];
    ChangesMatter(done);
    PatchedSame(data, stable, db.next, ws);
    RecordsReplay(base, ChangesOf(done), log + tail);
    ReplayAppend(PagesIn(base), log, tail);
    PatchedHolds(data, stable, db, order);
    HoldsInexact(PagesIn(base), db.tree, KEY_LIMIT);
    RunReplay(PagesIn(base), db, ops, order);
    RootsReplay(db.tree.id, ChangesOf(done), log + tail);
    ReplayRootAppend(db.tree.id, log, tail);
  }

  // ---- Operations that log no page without keys -------------------------------------------------------

  predicate KeyedPage(p: Page) {
    p.Index? ==> p.keys != []
  }

  predicate KeyedLog(log: seq<Change>) {
    forall i :: 0 <= i < |log| && log[i].PageWrite? ==> KeyedPage(log[i].page)
  }

  /** Such a log comes back from bytes as it was. */
  lemma {:induction false} FadeCommutes(s: Store, log: seq<Change>)
    requires KeyedLog(log)
    ensures Faded(Replay(s, log)) == Replay(Faded(s), log)
    decreases |log|
  {
    if log != [] {
      var n := |log| - 1;
      FadeCommutes(s, log[..n]);
      if log[n].PageWrite? {
        FadeOne(Replay(s, log[..n]), log[n].id, log[n].page);
      }
    }
  }

  lemma KeyedAppend(a: seq<Change>, b: seq<Change>)
    requires KeyedLog(a) && KeyedLog(b)
    ensures KeyedLog(a + b)
  {
  }

  /** An insertion logs no index page without keys. */
  lemma {:induction false} InsKeyed(t: Tree, k: Key, v: Bytes, order: nat, next: PageId, least: nat, lo: int, hi: int,
                                    h: nat)
    requires order >= 2 && Shape(t, order, least, lo, hi, h) && lo <= k < hi
    ensures KeyedLog(Ins(t, k, v, order, next).log)
    decreases t
  {
    if t.Nd? {
      var j, g, n := InsStep(t, k, v, order, next, least, lo, hi, h);
      InsKeyed(t.kids[j], k, v, order, next, order / 2, Lower(t.keys, lo, j), Upper(t.keys, hi, j), h - 1);
      if g.split.Some? {
        assert n.keys != [];
        NodeKeyed(n, order, g);
      }
    }
  }

  lemma {:induction false} NodeKeyed(n: Tree, order: nat, g: Grown)
    requires order >= 2 && n.Nd? && |n.kids| == |n.keys| + 1 && n.keys != [] && KeyedLog(g.log)
    ensures KeyedLog(Settle(n, order, g.next, g.log + [Write(n)]).log)
  {
    var log := g.log + [Write(n)];
    KeyedAppend(g.log, [Write(n)]);
    var r := Settle(n, order, g.next, log);
    if r.split.Some? {
      assert r.split.value.right.keys != [];
      KeyedAppend(log, [Write(r.split.value.right)]);
    }
  }

  lemma {:induction false} InsertKeyed(db: Db, k: Key, v: Bytes, order: nat)
    requires Healthy(db, order)
    ensures KeyedLog(DoLog(db, Insert(k, v), order))
  {
    var g := Ins(db.tree, k, v, order, db.next);
    InsKeyed(db.tree, k, v, order, db.next, RootLeast(db.tree), 0, KEY_LIMIT, db.height);
    if g.split.Some? {
      KeyedAppend(g.log, [Write(Grow(g)), MetaUpdate(Grow(g).id)]);
    }
  }

  ghost predicate EndsKeyed(log: seq<Change>, all: bool) {
    log != [] && KeyedLog(log[..|log| - 1]) && (all ==> KeyedLog(log))
  }

  /** From order 4 on, a deletion logs no index page without keys, but perhaps its last page: a root that collapses. */
  lemma {:induction false} DelKeyed(t: Tree, k: Key, order: nat, least: nat, lo: int, hi: int, h: nat,
                                    after: Option<PageId>)
    requires order >= 4 && Deletable(t, order, least, lo, hi, h, after) && lo <= k < hi
    ensures EndsKeyed(Del(t, k, order).log, NumKeys(Del(t, k, order).node) > 0 || t.Lf?)
    decreases t
  {
    if t.Nd? {
      var j, d, n := DelStep(t, k, order, least, lo, hi, h, after);
      var l, u := Lower(t.keys, lo, j), Upper(t.keys, hi, j);
      RouteBounds(t.keys, lo, hi, k);
      DelKeyed(t.kids[j], k, order, order / 2, l, u, h - 1, Follower(t.kids, after, j));
      if NumKeys(d.node) < order / 2 {
        LevelKeyed(n, j, order, lo, hi, h, d.log);
      }
    }
  }

  /** The repair of one level, after what was logged below. */
  lemma {:induction false} LevelKeyed(n: Tree, j: nat, order: nat, lo: int, hi: int, h: nat, below: seq<Change>)
    requires order >= 4 && Deficient(n, j, order, lo, hi, h) && Linked(n) && Mendable(n, j) && KeyedLog(below)
    ensures EndsKeyed(below + Mend(n, j, order).log, NumKeys(Mend(n, j, order).node) > 0) && Mend(n, j, order).node.Nd?
  {
    MendKeyed(n, j, order, lo, hi, h);
    LastKeyed(below, Mend(n, j, order).log);
  }

  lemma LastKeyed(a: seq<Change>, b: seq<Change>)
    requires KeyedLog(a) && b != [] && KeyedLog(b[..|b| - 1])
    ensures a + b != [] && KeyedLog((a + b)[..|a + b| - 1])
    ensures (b[|b| - 1].PageWrite? ==> KeyedPage(b[|b| - 1].page)) ==> KeyedLog(a + b)
  {
    var m := |b| - 1;
    KeyedAppend(a, b[..m]);
    assert (a + b)[..|a + b| - 1] == a + b[..m];
    assert a + b == (a + b[..m]) + [b[m]];
  }

  lemma {:induction false} MendKeyed(n: Tree, j: nat, order: nat, lo: int, hi: int, h: nat)
    requires order >= 4 && Deficient(n, j, order, lo, hi, h) && Linked(n) && Mendable(n, j)
    ensures var f := Mend(n, j, order);
            f.log != [] && KeyedLog(f.log[..|f.log| - 1]) && f.log[|f.log| - 1] == Write(f.node) && f.node.Nd?
  {
    var i, cut := MendIsRepair(n, j, order, lo, hi, h);
    MendFormed(n, j, order, lo, hi, h);
    RepairedKids(n, i, cut);
    OutKeyed(n.kids, Repaired(n, i, cut), OutcomeAt(n, i, cut), order, lo, hi, h, i, i == j);
  }

  lemma {:induction false} OutKeyed(kids: seq<Tree>, r: Tree, out: seq<Tree>, order: nat, lo: int, hi: int, h: nat,
                                    i: nat, leftFirst: bool)
    requires order >= 4 && Formed(r, order, lo, hi, h) && i + 2 <= |kids| && (|out| == 1 || |out| == 2)
    requires r.kids == kids[..i] + out + kids[i + 2..]
    ensures var log := RepairLog(out, r, leftFirst);
            log != [] && KeyedLog(log[..|log| - 1]) && log[|log| - 1] == Write(r)
  {
    KidKeyed(r, order, lo, hi, h, i, out[0]);
    if |out| == 2 {
      KidKeyed(r, order, lo, hi, h, i + 1, out[1]);
    }
    RepairKeyed(out, r, leftFirst);
  }

  lemma RepairKeyed(out: seq<Tree>, r: Tree, leftFirst: bool)
    requires |out| == 1 || |out| == 2
    requires KeyedPage(Image(out[0])) && (|out| == 2 ==> KeyedPage(Image(out[1])))
    ensures var log := RepairLog(out, r, leftFirst);
            log != [] && KeyedLog(log[..|log| - 1]) && log[|log| - 1] == Write(r)
  {
  }

  lemma KidKeyed(r: Tree, order: nat, lo: int, hi: int, h: nat, i: nat, c: Tree)
    requires order >= 4 && Formed(r, order, lo, hi, h) && i < |r.kids| && c == r.kids[i]
    ensures KeyedPage(Image(c))
  {
  }

  // ---- What lookups find ---------------------------------------------------------------------------

  /** The height at which a part of an operation's log leaves the tree. */
  function HeightAt(mid: Db, op: Op, order: nat, m: nat): nat
    requires order >= 2
  {
    if m < |DoLog(mid, op, order)| then mid.height else Do(mid, op, order).height
  }

  /** The checkpoint, the records in effect, and the data file that the crash left: all that is needed of them. */
  ghost predicate Crashed(data: DataFile, stable: DataFile, root: Option<nat>, db: Db, order: nat, done: seq<Record>,
                          log: seq<Change>) {
    && Healthy(db, order) && Checkpointed(stable, root, db) && TellsAll(ChangesOf(done), log) && Loggable(log)
    && forall id: nat :: id < db.next ==>
         LiveLog.Same(WalRecovery.WriteAll(data, WalRecovery.PagesOf(done)),
                      WalRecovery.WriteAll(stable, WalRecovery.PagesOf(done)), id)
  }

  /** A lookup over the recovered pages from the recovered root. */
  ghost function Found(data: DataFile, root: Option<nat>, done: seq<Record>, k: Key, h: nat): Option<Bytes> {
    var last := WalRecovery.LastOr(WalRecovery.MetasOf(done), Some(root));
    if last.Some? && last.value.Some?
      then Lookup(PagesIn(WalRecovery.WriteAll(data, WalRecovery.PagesOf(done))), last.value.value, k, h)
    else None
  }

  /** Whatever part of an operation the log has, a lookup fails when it meets an index page without keys, and else finds
      what it finds over the pages of the log. */
  lemma {:induction false} TornRecovered(data: DataFile, stable: DataFile, root: Option<nat>, db: Db, ops: seq<Op>,
                                         op: Op, order: nat, m: nat, done: seq<Record>, k: Key)
    requires order >= 2 && m <= |DoLog(DoAll(db, ops, order), op, order)|
    requires Crashed(data, stable, root, db, order, done, TornLog(db, ops, op, order, m))
    ensures var mid, s := DoAll(db, ops, order), Replayed(data, stable, db, ops, order);
            var log, h := DoLog(mid, op, order), HeightAt(mid, op, order, m);
            Found(data, root, done, k, h) ==
            if Meets(Replay(s, log[..m]), RootAt(mid, log, m), k, h) then None else TornLookup(s, mid, op, order, m, k)
  {
    TornPages(data, stable, root, db, ops, op, order, m, done);
    var mid, s := DoAll(db, ops, order), Replayed(data, stable, db, ops, order);
    var log, h := DoLog(mid, op, order), HeightAt(mid, op, order, m);
    LookupFaded(Replay(s, log[..m]), RootAt(mid, log, m), k, h);
  }

  /** A part of an operation's log that leaves every lookup right: none of it or all of it, any of an insertion, and of
      a deletion what has no index page without keys and does not lack just the parent's record of a last borrow. */
  ghost predicate LeavesRight(mid: Db, op: Op, order: nat, m: nat)
    requires order >= 2 && m <= |DoLog(mid, op, order)|
  {
    var log := DoLog(mid, op, order);
    || m == 0 || m == |log| || op.Insert?
    || (KeyedLog(log[..m]) && !(BorrowEnds(mid.tree, op.key, order) && m == |log| - 1))
  }

  /** Then the map after the whole operations is found, and once there is a record of the cut one, with its change. */
  lemma {:induction false} TornAnswers(data: DataFile, stable: DataFile, root: Option<nat>, db: Db, ops: seq<Op>,
                                       op: Op, order: nat, m: nat, done: seq<Record>, k: Key)
    requires order >= 2 && m <= |DoLog(DoAll(db, ops, order), op, order)|
    requires LeavesRight(DoAll(db, ops, order), op, order, m)
    requires Crashed(data, stable, root, db, order, done, TornLog(db, ops, op, order, m))
    ensures var before := UpdateAll(AsMap(Contents(db.tree)), ops);
            Found(data, root, done, k, HeightAt(DoAll(db, ops, order), op, order, m)) ==
            Answer(if m == 0 && DoLog(DoAll(db, ops, order), op, order) != [] then before else Update(before, op), k)
  {
    var mid, log := DoAll(db, ops, order), DoLog(DoAll(db, ops, order), op, order);
    if m == |log| {
      WholeAnswers(data, stable, root, db, ops, op, order, done, k);
    } else {
      TornPages(data, stable, root, db, ops, op, order, m, done);
      var s := Replayed(data, stable, db, ops, order);
      TailKeyed(mid, op, order, m);
      FadeCommutes(s, log[..m]);
      ShapeKeyed(mid.tree, order, RootLeast(mid.tree), 0, KEY_LIMIT, mid.height);
      FadedHolds(s, mid.tree, KEY_LIMIT, false);
      PartAnswers(Faded(s), mid, op, order, m, k);
    }
  }

  lemma {:induction false} TailKeyed(mid: Db, op: Op, order: nat, m: nat)
    requires Healthy(mid, order) && m <= |DoLog(mid, op, order)| && m != |DoLog(mid, op, order)|
    requires LeavesRight(mid, op, order, m)
    ensures KeyedLog(DoLog(mid, op, order)[..m])
  {
    if op.Insert? {
      InsertKeyed(mid, op.key, op.record, order);
    }
  }

  lemma {:induction false} PartAnswers(s: Store, mid: Db, op: Op, order: nat, m: nat, k: Key)
    requires Healthy(mid, order) && Holds(s, mid.tree, KEY_LIMIT, false) && m < |DoLog(mid, op, order)|
    requires LeavesRight(mid, op, order, m)
    ensures var before := AsMap(Contents(mid.tree));
            TornLookup(s, mid, op, order, m, k) == Answer(if m == 0 then before else Update(before, op), k)
  {
    match op
    case Insert(q, v) => InsertTorn(s, mid, q, v, order, m, k);
    case Delete(q) =>
      if m == 0 {
        NothingYet(s, mid, op, order, k);
      } else {
        DeleteSafe(s, mid, q, order, m);
      }
  }

  lemma {:induction false} NothingYet(s: Store, mid: Db, op: Op, order: nat, k: Key)
    requires Healthy(mid, order) && Holds(s, mid.tree, KEY_LIMIT, false) && 0 < |DoLog(mid, op, order)|
    ensures TornLookup(s, mid, op, order, 0, k) == Answer(AsMap(Contents(mid.tree)), k)
  {
    assert DoLog(mid, op, order)[..0] == [];
    LookupCorrect(s, mid.tree, k, order, RootLeast(mid.tree), 0, KEY_LIMIT, mid.height, false);
    MapAgrees(Contents(mid.tree), k);
  }

  lemma {:induction false} WholeAnswers(data: DataFile, stable: DataFile, root: Option<nat>, db: Db, ops: seq<Op>,
                                        op: Op, order: nat, done: seq<Record>, k: Key)
    requires order >= 2
    requires Crashed(data, stable, root, db, order, done,
                     TornLog(db, ops, op, order, |DoLog(DoAll(db, ops, order), op, order)|))
    ensures Found(data, root, done, k, Do(DoAll(db, ops, order), op, order).height) ==
            Answer(Update(UpdateAll(AsMap(Contents(db.tree)), ops), op), k)
  {
    var all, log := ops + [op], DoLog(DoAll(db, ops, order), op, order);
    assert all[..|all| - 1] == ops && log[..|log|] == log;
    Answers(data, stable, root, db, all, order, done, k);
  }

  /** From order 4 on, the only parts of a deletion that do not leave every lookup right are those that lack one record:
      the parent's of a last borrow, or that of the new root. */
  lemma {:induction false} DeletionsRight(mid: Db, k: Key, order: nat, m: nat)
    requires order >= 4 && Healthy(mid, order) && HasKey(mid.tree, k) && m <= |DoLog(mid, Delete(k), order)|
    requires m != |DoLog(mid, Delete(k), order)| - 1
             || (!BorrowEnds(mid.tree, k, order) && Collapse(Del(mid.tree, k, order)) == Del(mid.tree, k, order).node)
    ensures LeavesRight(mid, Delete(k), order, m)
  {
    var d, log := Del(mid.tree, k, order), DoLog(mid, Delete(k), order);
    DelKeyed(mid.tree, k, order, RootLeast(mid.tree), 0, KEY_LIMIT, mid.height, None);
    if 0 < m < |log| {
      if Collapse(d) != d.node {
        assert log[..m] == d.log[..|d.log| - 1][..m];
      } else {
        assert log == d.log && log[..m] == d.log[..|d.log| - 1][..m];
      }
    }
  }

  // ---- Any cut of a run -------------------------------------------------------------------------------

  /** A log of a run cut anywhere is that of some of its operations and a part of the next. */
  lemma {:induction false} LogCut(db: Db, ops: seq<Op>, order: nat, n: nat) returns (i: nat, m: nat)
    requires order >= 2 && ops != [] && n <= |LogAll(db, ops, order)|
    ensures i < |ops| && m <= |DoLog(DoAll(db, ops[..i], order), ops[i], order)|
    ensures LogAll(db, ops, order)[..n] == TornLog(db, ops[..i], ops[i], order, m)
    decreases |ops|
  {
    i := |ops| - 1;
    var before, last := LogAll(db, ops[..i], order), DoLog(DoAll(db, ops[..i], order), ops[i], order);
    if n >= |before| || i == 0 {
      m := n - |before|;
      CutJoin(before, last, n);
    } else {
      CutJoin(before, last, n);
      var j;
      j, m := LogCut(db, ops[..i], order, n);
      assert ops[..i][..j] == ops[..j] && ops[..i][j] == ops[j];
      i := j;
    }
  }

  lemma CutJoin(a: seq<Change>, b: seq<Change>, n: nat)
    requires n <= |a + b|
    ensures (a + b)[..n] == if n < |a| then a[..n] else a + b[..n - |a|]
  {
  }

  /** Crash the pager at any point, with any byte prefix of the log on disk that holds what was durable, while the
      records in effect tell of some operations and a part of one more: every lookup finds the map after the whole ones,
      and with a record of the cut one, its change. */
  lemma {:induction false} CrashedAnywhere(pager: FilePager.FilePager, b: nat, lsn: nat, db: Db, ops: seq<Op>, op: Op,
                                           order: nat, m: nat, k: Key)
    requires pager.Valid() && |pager.wal.file| <= b <= |WalFormat.EncodeAll(pager.wal.crc, pager.Now().live)|
    requires Healthy(db, order) && Checkpointed(pager.stable, pager.metaRoot, db) && db.next == pager.metaNext
    requires m <= |DoLog(DoAll(db, ops, order), op, order)| && LeavesRight(DoAll(db, ops, order), op, order, m)
    requires TellsAll(ChangesOf(EndToEnd.Done(pager.Now(), WalFormat.Whole(pager.wal.crc, pager.Now().live, b))),
                      TornLog(db, ops, op, order, m))
    requires Loggable(TornLog(db, ops, op, order, m))
    ensures var bytes := WalFormat.EncodeAll(pager.wal.crc, pager.Now().live)[..b];
            var out := FilePager.RecoveredDb(WalRecovery.Db(pager.data, pager.metaRoot, pager.metaNext), pager.wal.crc,
                                             bytes, lsn);
            FindsIn(out, db, ops, op, order, m, k) && Apart(out)
  {
    var s := pager.Now();
    var n := WalFormat.Whole(pager.wal.crc, s.live, b);
    pager.TornCrash(b, lsn);
    CutFinds(s, n, lsn, db, ops, op, order, m, k);
    TornApart(s, n, lsn, db, ops, op, order, m);
  }

  lemma {:induction false} TornApart(s: FilePager.Snap, n: nat, lsn: nat, db: Db, ops: seq<Op>, op: Op, order: nat,
                                     m: nat)
    requires FilePager.CutAt(s, n, lsn) && s.bound == db.next
    requires Healthy(db, order) && Checkpointed(s.stable, s.metaRoot, db)
    requires m <= |DoLog(DoAll(db, ops, order), op, order)| && Loggable(TornLog(db, ops, op, order, m))
    requires TellsAll(ChangesOf(EndToEnd.Done(s, n)), TornLog(db, ops, op, order, m))
    ensures var r := WalRecovery.TakeAll(WalRecovery.Begin(lsn), s.live[..n]);
            Apart(WalRecovery.Recover(WalRecovery.Db(s.data, s.metaRoot, s.bound), r))
  {
    TornIsPrefix(db, ops, op, order, m);
    CutApart(s, n, lsn, db, ops + [op], order, |TornLog(db, ops, op, order, m)|);
  }

  /** The state of the pager during the run, as values. */
  lemma {:induction false} Begun(s0: FilePager.Snap, s1: FilePager.Snap, s: Store, db: Db, ops: seq<Op>, order: nat,
                                 es: seq<Event>, rs: seq<Record>)
    requires Healthy(db, order) && Spelled(s, db) && Unread(Acts(es)) <= RunActs(db, ops, order)
    requires DidAll(s0, s1, s, es, rs) && s0.live == []
    ensures s1.open == s0.open && s1.stable == s0.stable && s1.bound == s0.bound && s1.metaRoot == s0.metaRoot
    ensures |s1.live| <= |LogAll(db, ops, order)| && TellsAll(s1.live, LogAll(db, ops, order)[..|s1.live|])
  {
    assert s0.live + rs == rs;
    Underway(s, db, ops, order, es);
  }

  /** Some operations of a run, of which the log tells the beginning, and a part of one more. */
  lemma {:induction false} CrashInRun(pager: FilePager.FilePager, b: nat, lsn: nat, db: Db, ops: seq<Op>, order: nat,
                                      r: nat)
    returns (i: nat, m: nat, out: WalRecovery.Db)
    requires pager.Valid() && |pager.wal.file| <= b <= |WalFormat.EncodeAll(pager.wal.crc, pager.Now().live)|
    requires Checkpointed(pager.stable, pager.metaRoot, db) && db.next == pager.metaNext && pager.open == None
    requires Healthy(db, order) && Roomy(db, ops, order, r) && ops != []
    requires |pager.Now().live| <= |LogAll(db, ops, order)|
    requires TellsAll(pager.Now().live, LogAll(db, ops, order)[..|pager.Now().live|])
    ensures i < |ops| && m <= |DoLog(DoAll(db, ops[..i], order), ops[i], order)|
    ensures out == AfterCrash(pager, b, lsn)
    ensures CutOfRun(out, WalFormat.Whole(pager.wal.crc, pager.Now().live, b), db, ops, order, i, m)
  {
    var live, log := pager.Now().live, LogAll(db, ops, order);
    var n := WalFormat.Whole(pager.wal.crc, live, b);
    i, m := LogCut(db, ops, order, n);
    out := AfterCrash(pager, b, lsn);
    PrefixLoggable(db, ops, ops, order, r);
    ToldCut(live, log, n);
    pager.TornCrash(b, lsn);
    CutApart(pager.Now(), n, lsn, db, ops, order, n);
    if LeavesRight(DoAll(db, ops[..i], order), ops[i], order, m) {
      forall k: Key ensures FindsIn(out, db, ops[..i], ops[i], order, m, k) {
        CrashedAnywhere(pager, b, lsn, db, ops[..i], ops[i], order, m, k);
      }
    }
  }

  lemma {:induction false} ToldCut(rs: seq<Record>, log: seq<Change>, n: nat)
    requires n <= |rs| <= |log| && TellsAll(rs, log[..|rs|]) && Loggable(log)
    ensures ChangesOf(rs[..n]) == rs[..n] && TellsAll(rs[..n], log[..n]) && Loggable(log[..n])
  {
    assert log[..|rs|][..n] == log[..n];
    ToldChanges(rs[..n], log[..n]);
  }

  /** A lookup in a recovered database finds the map after the whole operations, and with a record of the cut one, its
      change. */
  ghost predicate FindsIn(out: WalRecovery.Db, db: Db, ops: seq<Op>, op: Op, order: nat, m: nat, k: Key)
    requires order >= 2
  {
    var before, log := UpdateAll(AsMap(Contents(db.tree)), ops), DoLog(DoAll(db, ops, order), op, order);
    && out.root.Some?
    && Lookup(PagesIn(out.data), out.root.value, k, HeightAt(DoAll(db, ops, order), op, order, m)) ==
       Answer(if m == 0 && log != [] then before else Update(before, op), k)
  }

  /** The same on the state of the pager as values, and the number of whole records. */
  lemma {:induction false} CutFinds(s: FilePager.Snap, n: nat, lsn: nat, db: Db, ops: seq<Op>, op: Op, order: nat,
                                    m: nat, k: Key)
    requires FilePager.CutAt(s, n, lsn) && s.bound == db.next
    requires Healthy(db, order) && Checkpointed(s.stable, s.metaRoot, db)
    requires m <= |DoLog(DoAll(db, ops, order), op, order)| && LeavesRight(DoAll(db, ops, order), op, order, m)
    requires TellsAll(ChangesOf(EndToEnd.Done(s, n)), TornLog(db, ops, op, order, m))
    requires Loggable(TornLog(db, ops, op, order, m))
    ensures var r := WalRecovery.TakeAll(WalRecovery.Begin(lsn), s.live[..n]);
            FindsIn(WalRecovery.Recover(WalRecovery.Db(s.data, s.metaRoot, s.bound), r), db, ops, op, order, m, k)
  {
    var done := EndToEnd.Done(s, n);
    assert Crashed(s.data, s.stable, s.metaRoot, db, order, done, TornLog(db, ops, op, order, m));
    TornAnswers(s.data, s.stable, s.metaRoot, db, ops, op, order, m, done, k);
    TornPages(s.data, s.stable, s.metaRoot, db, ops, op, order, m, done);
  }

  /** The database that is recovered from a log file of b bytes and the pages as they are. */
  ghost function AfterCrash(pager: FilePager.FilePager, b: nat, lsn: nat): WalRecovery.Db
    requires pager.LogOk() && b <= |WalFormat.EncodeAll(pager.wal.crc, pager.Now().live)|
    reads pager, pager.pool, pager.wal
  {
    FilePager.RecoveredDb(WalRecovery.Db(pager.data, pager.metaRoot, pager.metaNext), pager.wal.crc,
      WalFormat.EncodeAll(pager.wal.crc, pager.Now().live)[..b], lsn)
  }

  /** The first n records are those of some operations and a part of one more, no page id that is given out later is one
      of the tree, and lookups are right if that part leaves them right. */
  ghost predicate CutOfRun(out: WalRecovery.Db, n: nat, db: Db, ops: seq<Op>, order: nat, i: nat, m: nat)
    requires order >= 2 && i < |ops| && m <= |DoLog(DoAll(db, ops[..i], order), ops[i], order)|
  {
    && n == |LogAll(db, ops[..i], order)| + m && Apart(out)
    && (LeavesRight(DoAll(db, ops[..i], order), ops[i], order, m) ==>
          forall k: Key :: FindsIn(out, db, ops[..i], ops[i], order, m, k))
  }

  /** A run of automatic operations on a flushed pager that is not over, a crash with any byte prefix of the log that
      holds what was durable, and recovery: some operations took effect whole, one in part, and the others not at
      all. */
  method RunAndCrash(pager: FilePager.FilePager, acts: seq<Act>, ghost s: Store, ghost db: Db, ghost ops: seq<Op>,
                     ghost order: nat, ghost r: nat, ghost b: nat, ghost lsn: nat)
    returns (ghost i: nat, ghost m: nat, ghost out: WalRecovery.Db)
    requires Rested(pager, s, db, order) && Roomy(db, ops, order, r) && ops != []
    requires Unread(acts) <= RunActs(db, ops, order) && Able(acts, s.Keys, db.next) && PagerRuns.Room(pager, |acts|)
    modifies pager, pager.pool, pager.wal
    ensures pager.Valid() && i < |ops| && m <= |DoLog(DoAll(db, ops[..i], order), ops[i], order)|
    ensures |pager.wal.file| <= b <= |WalFormat.EncodeAll(pager.wal.crc, pager.Now().live)| ==>
              && out == AfterCrash(pager, b, lsn)
              && CutOfRun(out, WalFormat.Whole(pager.wal.crc, pager.Now().live, b), db, ops, order, i, m)
  {
    ghost var s0 := pager.Now();
    FilePager.Look(s0);
    i, m, out := 0, 0, WalRecovery.Db(map[], None, 0);
    ghost var es, rs;
    es, rs := Perform(pager, acts, s);
    Begun(s0, pager.Now(), s, db, ops, order, es, rs);
    if |pager.wal.file| <= b <= |WalFormat.EncodeAll(pager.wal.crc, pager.Now().live)| {
      i, m, out := CrashInRun(pager, b, lsn, db, ops, order, r);
    }
  }

  // ---- Automatic operations and transactions in one log ------------------------------------------------

  /** An automatic operation with its records, or an item that takes effect as a whole: a transaction with the
      operations that it committed, or a single record. */
  datatype Part = Alone(rs: seq<Record>, op: Op) | Together(item: WalRecovery.Item, ops: seq<Op>)

  function Autos(rs: seq<Record>): (r: seq<WalRecovery.Item>)
    ensures |r| == |rs| && forall i :: 0 <= i < |rs| ==> r[i] == WalRecovery.Auto(rs[i])
  {
    seq(|rs|, i requires 0 <= i < |rs| => WalRecovery.Auto(rs[i]))
  }

  function ItemsOf(p: Part): seq<WalRecovery.Item> {
    if p.Alone? then Autos(p.rs) else [p.item]
  }

  function OpsOf(p: Part): seq<Op> {
    if p.Alone? then [p.op] else p.ops
  }

  function AllItems(parts: seq<Part>): seq<WalRecovery.Item>
    decreases |parts|
  {
    if parts == [] then [] else AllItems(parts[..|parts| - 1]) + ItemsOf(parts[|parts| - 1])
  }

  function AllOps(parts: seq<Part>): seq<Op>
    decreases |parts|
  {
    if parts == [] then [] else AllOps(parts[..|parts| - 1]) + OpsOf(parts[|parts| - 1])
  }

  /** Each part tells what its operations log from where those before it have left the tree. */
  ghost predicate PartRan(db: Db, parts: seq<Part>, order: nat, i: nat)
    requires order >= 2 && i < |parts|
  {
    var mid := DoAll(db, AllOps(parts[..i]), order);
    match parts[i]
    case Alone(rs, op) => TellsAll(rs, DoLog(mid, op, order))
    case Together(item, ops) => TellsAll(ChangesOf(WalRecovery.Effect(item)), LogAll(mid, ops, order))
  }

  ghost predicate PartsRan(db: Db, parts: seq<Part>, order: nat)
    requires order >= 2
  {
    forall i {:trigger parts[i]} :: 0 <= i < |parts| ==> PartRan(db, parts, order, i)
  }

  /** How many parts are whole in the first w items. */
  function WholeParts(parts: seq<Part>, w: nat): (p: nat)
    ensures p <= |parts|
    decreases |parts|
  {
    if parts == [] || w >= |AllItems(parts)| then |parts| else WholeParts(parts[..|parts| - 1], w)
  }

  /** The first w items are those of the first p parts, and some of the next, but not all. */
  ghost predicate CutAfter(parts: seq<Part>, w: nat, p: nat) {
    && w <= |AllItems(parts)| && p <= |parts| && |AllItems(parts[..p])| <= w
    && var j := w - |AllItems(parts[..p])|;
       if p == |parts| then AllItems(parts)[..w] == AllItems(parts)
       else j < |ItemsOf(parts[p])| && AllItems(parts)[..w] == AllItems(parts[..p]) + ItemsOf(parts[p])[..j]
  }

  lemma {:induction false} WholePartsAre(parts: seq<Part>, w: nat)
    requires w <= |AllItems(parts)|
    ensures CutAfter(parts, w, WholeParts(parts, w))
    decreases |parts|
  {
    if parts == [] || w >= |AllItems(parts)| {
      assert parts[..|parts|] == parts;
    } else {
      var n := |parts| - 1;
      if w < |AllItems(parts[..n])| {
        WholePartsAre(parts[..n], w);
        CutBefore(parts, w, WholeParts(parts[..n], w));
      } else {
        assert parts[..n][..n] == parts[..n];
        CutInLast(parts, w);
      }
    }
  }

  lemma {:induction false} CutBefore(parts: seq<Part>, w: nat, p: nat)
    requires parts != [] && CutAfter(parts[..|parts| - 1], w, p) && w < |AllItems(parts[..|parts| - 1])|
    ensures CutAfter(parts, w, p)
  {
    var n := |parts| - 1;
    assert AllItems(parts)[..w] == AllItems(parts[..n])[..w];
    assert parts[..n][..|parts[..n]|] == parts[..n];
    assert parts[..n][..p] == parts[..p];
  }

  lemma {:induction false} CutInLast(parts: seq<Part>, w: nat)
    requires parts != [] && |AllItems(parts[..|parts| - 1])| <= w < |AllItems(parts)|
    ensures CutAfter(parts, w, |parts| - 1)
  {
    var n := |parts| - 1;
    var init := AllItems(parts[..n]);
    assert AllItems(parts)[..w] == init + ItemsOf(parts[n])[..w - |init|];
  }

  lemma {:induction false} EffectsAppend(a: seq<WalRecovery.Item>, b: seq<WalRecovery.Item>)
    ensures WalRecovery.Effects(a + b) == WalRecovery.Effects(a) + WalRecovery.Effects(b)
    decreases |b|
  {
    if b == [] {
      assert a + b == a;
    } else {
      assert (a + b)[..|a + b| - 1] == a + b[..|b| - 1];
      EffectsAppend(a, b[..|b| - 1]);
      LiveLogJoin(WalRecovery.Effects(a), WalRecovery.Effects(b[..|b| - 1]), WalRecovery.Effect(b[|b| - 1]));
    }
  }

  lemma LiveLogJoin(a: seq<Record>, b: seq<Record>, c: seq<Record>)
    ensures a + b + c == a + (b + c)
  {
  }

  lemma {:induction false} AutoEffects(rs: seq<Record>, j: nat)
    requires j <= |rs|
    ensures WalRecovery.Effects(Autos(rs)[..j]) == rs[..j]
    decreases j
  {
    if j > 0 {
      AutoEffects(rs, j - 1);
      assert Autos(rs)[..j][..j - 1] == Autos(rs)[..j - 1];
      assert rs[..j] == rs[..j - 1] + [rs[j - 1]];
    }
  }

  lemma {:induction false} ToldChanges(rs: seq<Record>, log: seq<Change>)
    requires TellsAll(rs, log)
    ensures ChangesOf(rs) == rs
    decreases |rs|
  {
    if rs != [] {
      var n := |rs| - 1;
      assert Tells(rs[n], log[n]);
      ToldChanges(rs[..n], log[..n]);
      assert rs == rs[..n] + [rs[n]];
    }
  }

  /** The first p parts tell what their operations log. */
  lemma {:induction false} PartsTell(db: Db, parts: seq<Part>, order: nat, p: nat)
    requires order >= 2 && PartsRan(db, parts, order) && p <= |parts|
    ensures TellsAll(ChangesOf(WalRecovery.Effects(AllItems(parts[..p]))), LogAll(db, AllOps(parts[..p]), order))
    decreases p
  {
    if p > 0 {
      var n := p - 1;
      PartsTell(db, parts, order, n);
      assert PartRan(db, parts, order, n);
      PartTells(db, parts, order, n);
      TellsMore(db, WalRecovery.Effects(AllItems(parts[..n])), WalRecovery.Effects(ItemsOf(parts[n])),
        AllOps(parts[..n]), OpsOf(parts[n]), order);
      PartsSnoc(parts, n);
    }
  }

  lemma {:induction false} PartsSnoc(parts: seq<Part>, n: nat)
    requires n < |parts|
    ensures AllOps(parts[..n + 1]) == AllOps(parts[..n]) + OpsOf(parts[n])
    ensures WalRecovery.Effects(AllItems(parts[..n + 1])) ==
            WalRecovery.Effects(AllItems(parts[..n])) + WalRecovery.Effects(ItemsOf(parts[n]))
  {
    assert parts[..n + 1][..n] == parts[..n] && parts[..n + 1][n] == parts[n];
    EffectsAppend(AllItems(parts[..n]), ItemsOf(parts[n]));
  }

  lemma {:induction false} PartTells(db: Db, parts: seq<Part>, order: nat, n: nat)
    requires order >= 2 && n < |parts| && PartRan(db, parts, order, n)
    ensures TellsAll(ChangesOf(WalRecovery.Effects(ItemsOf(parts[n]))),
                     LogAll(DoAll(db, AllOps(parts[..n]), order), OpsOf(parts[n]), order))
  {
    var mid := DoAll(db, AllOps(parts[..n]), order);
    match parts[n]
    case Alone(rs, op) =>
      AutoEffects(rs, |rs|);
      assert Autos(rs)[..|rs|] == Autos(rs) && rs[..|rs|] == rs;
      ToldChanges(rs, DoLog(mid, op, order));
      assert [op][..0] == [] && LogAll(mid, [op], order) == [] + DoLog(mid, op, order) == DoLog(mid, op, order);
    case Together(item, ops) =>
      assert [item][..0] == [];
      assert WalRecovery.Effects([item]) == [] + WalRecovery.Effect(item) == WalRecovery.Effect(item);
  }

  /** And the records of a part that is cut, what that much of its operation logs. */
  lemma {:induction false} CutTells(db: Db, parts: seq<Part>, order: nat, p: nat, j: nat)
    requires order >= 2 && PartsRan(db, parts, order) && p < |parts| && parts[p].Alone? && j <= |parts[p].rs|
    ensures j <= |DoLog(DoAll(db, AllOps(parts[..p]), order), parts[p].op, order)|
    ensures TellsAll(ChangesOf(WalRecovery.Effects(AllItems(parts[..p]) + ItemsOf(parts[p])[..j])),
                     TornLog(db, AllOps(parts[..p]), parts[p].op, order, j))
  {
    var rs, op := parts[p].rs, parts[p].op;
    var log := DoLog(DoAll(db, AllOps(parts[..p]), order), op, order);
    assert PartRan(db, parts, order, p);
    PartsTell(db, parts, order, p);
    EffectsAppend(AllItems(parts[..p]), Autos(rs)[..j]);
    AutoEffects(rs, j);
    assert TellsAll(rs[..j], log[..j]);
    ToldChanges(rs[..j], log[..j]);
    ChangesAppend(WalRecovery.Effects(AllItems(parts[..p])), rs[..j]);
    TellsAppend(ChangesOf(WalRecovery.Effects(AllItems(parts[..p]))), LogAll(db, AllOps(parts[..p]), order), rs[..j],
      log[..j]);
  }

  /** Below the bound every page is as checkpointed, or written by a record in effect. */
  ghost predicate PartsLeft(data: DataFile, stable: DataFile, bound: nat, done: seq<Record>) {
    forall id: nat :: id < bound ==>
      LiveLog.Same(data, stable, id) || id in WalRecovery.Written(WalRecovery.PagesOf(done))
  }

  /** What a log of parts, and the room in their pages, must be like. */
  ghost predicate Logged(db: Db, parts: seq<Part>, order: nat, r: nat) {
    && Healthy(db, order) && PartsRan(db, parts, order)
    && Small(Contents(db.tree), r) && SmallOps(AllOps(parts), r) && (order + 1) * (r + 12) <= MAX_ROOM
    && DoAll(db, AllOps(parts), order).next <= NO_NEXT
  }

  /** A lookup finds the map after the parts that are whole in the first w items, and after an operation of which there
      are more than that, if this much of its log leaves lookups right. */
  ghost predicate PartsFound(out: WalRecovery.Db, db: Db, parts: seq<Part>, order: nat, w: nat, k: Key)
    requires order >= 2 && PartsRan(db, parts, order) && w <= |AllItems(parts)|
  {
    var p := WholeParts(parts, w);
    WholePartsAre(parts, w);
    && Apart(out)
    && if p == |parts| || parts[p].Together? then AnswersAs(out, k, db, AllOps(parts[..p]), order)
       else PartFound(out, db, AllOps(parts[..p]), parts[p].op, order, w - |AllItems(parts[..p])|, k)
  }

  ghost predicate PartFound(out: WalRecovery.Db, db: Db, ops: seq<Op>, op: Op, order: nat, j: nat, k: Key)
    requires order >= 2
  {
    && j <= |DoLog(DoAll(db, ops, order), op, order)|
    && (LeavesRight(DoAll(db, ops, order), op, order, j) ==> FindsIn(out, db, ops, op, order, j, k))
  }

  /** Transactions are durable and atomic from end to end, and automatic operations durable record by record: cut a log
      of both after any byte. If the pages are as the write-ahead rule leaves them, then after recovery every lookup
      answers as the map after exactly the operations and committed transactions that are whole before the cut, and
      after an operation that is cut, if the part of its log leaves lookups right. */
  lemma {:induction false} TransactionsDurable(crc: WalFormat.CrcFn, data: DataFile, stable: DataFile,
                                               root: Option<nat>, db: Db, parts: seq<Part>, order: nat, r: nat, n: nat,
                                               lsn: nat, k: Key)
    requires Logged(db, parts, order, r) && Checkpointed(stable, root, db)
    requires forall i :: i in AllItems(parts) ==> WalRecovery.Proper(i)
    requires WalFormat.AllFit(WalRecovery.Flatten(AllItems(parts)))
    requires n <= |WalFormat.EncodeAll(crc, WalRecovery.Flatten(AllItems(parts)))|
    requires PartsLeft(data, stable, db.next, WalRecovery.Effects(AllItems(parts)[..Kept(crc, parts, n)]))
    ensures var bytes := WalFormat.EncodeAll(crc, WalRecovery.Flatten(AllItems(parts)))[..n];
            var out := FilePager.RecoveredDb(WalRecovery.Db(data, root, db.next), crc, bytes, lsn);
            PartsFound(out, db, parts, order, Kept(crc, parts, n), k)
  {
    var w := Kept(crc, parts, n);
    var bytes := WalFormat.EncodeAll(crc, WalRecovery.Flatten(AllItems(parts)))[..n];
    WalRecovery.TornAtomicity(crc, AllItems(parts), n, lsn);
    PartsAnswer(data, stable, root, db, parts, order, r, w, k,
      FilePager.RecoveredDb(WalRecovery.Db(data, root, db.next), crc, bytes, lsn));
  }

  /** The same on the records that take effect. */
  lemma {:induction false} PartsAnswer(data: DataFile, stable: DataFile, root: Option<nat>, db: Db, parts: seq<Part>,
                                       order: nat, r: nat, w: nat, k: Key, out: WalRecovery.Db)
    requires Logged(db, parts, order, r) && Checkpointed(stable, root, db) && w <= |AllItems(parts)|
    requires PartsLeft(data, stable, db.next, WalRecovery.Effects(AllItems(parts)[..w]))
    requires Leaves(out, data, root, db.next, WalRecovery.Effects(AllItems(parts)[..w]))
    ensures PartsFound(out, db, parts, order, w, k)
  {
    var p := WholeParts(parts, w);
    WholePartsAre(parts, w);
    if p == |parts| {
      assert parts[..p] == parts;
      WholeFound(data, stable, root, db, parts, order, r, p, WalRecovery.Effects(AllItems(parts)[..w]), k, out);
    } else {
      var j := w - |AllItems(parts[..p])|;
      if parts[p].Together? {
        assert AllItems(parts[..p]) + ItemsOf(parts[p])[..j] == AllItems(parts[..p]);
        WholeFound(data, stable, root, db, parts, order, r, p, WalRecovery.Effects(AllItems(parts)[..w]), k, out);
      } else {
        CutFound(data, stable, root, db, parts, order, r, p, j, WalRecovery.Effects(AllItems(parts)[..w]), k, out);
      }
    }
  }

  lemma {:induction false} WholeFound(data: DataFile, stable: DataFile, root: Option<nat>, db: Db, parts: seq<Part>,
                                      order: nat, r: nat, p: nat, done: seq<Record>, k: Key, out: WalRecovery.Db)
    requires Logged(db, parts, order, r) && Checkpointed(stable, root, db) && p <= |parts|
    requires done == WalRecovery.Effects(AllItems(parts[..p]))
    requires PartsLeft(data, stable, db.next, done) && Leaves(out, data, root, db.next, done)
    ensures AnswersAs(out, k, db, AllOps(parts[..p]), order) && Apart(out)
  {
    PartsTell(db, parts, order, p);
    OpsPrefix(parts, p);
    PrefixLoggable(db, AllOps(parts[..p]), AllOps(parts), order, r);
    AgreeAfter(data, stable, db.next, WalRecovery.PagesOf(done));
    Answers(data, stable, root, db, AllOps(parts[..p]), order, done, k);
    var log := LogAll(db, AllOps(parts[..p]), order);
    assert log[..|log|] == log;
    RecoveredApart(data, stable, root, db, AllOps(parts[..p]), order, |log|, done, out);
  }

  lemma {:induction false} CutFound(data: DataFile, stable: DataFile, root: Option<nat>, db: Db, parts: seq<Part>,
                                    order: nat, r: nat, p: nat, j: nat, done: seq<Record>, k: Key, out: WalRecovery.Db)
    requires Logged(db, parts, order, r) && Checkpointed(stable, root, db) && p < |parts| && parts[p].Alone?
    requires j <= |parts[p].rs| && done == WalRecovery.Effects(AllItems(parts[..p]) + ItemsOf(parts[p])[..j])
    requires PartsLeft(data, stable, db.next, done) && Leaves(out, data, root, db.next, done)
    ensures PartFound(out, db, AllOps(parts[..p]), parts[p].op, order, j, k) && Apart(out)
  {
    var ops, op := AllOps(parts[..p]), parts[p].op;
    CutTells(db, parts, order, p, j);
    TornLoggable(db, parts, order, r, p, j);
    OnePart(data, stable, root, db, ops, op, order, j, done, k, out);
  }

  lemma {:induction false} OnePart(data: DataFile, stable: DataFile, root: Option<nat>, db: Db, ops: seq<Op>, op: Op,
                                   order: nat, j: nat, done: seq<Record>, k: Key, out: WalRecovery.Db)
    requires Healthy(db, order) && Checkpointed(stable, root, db)
    requires j <= |DoLog(DoAll(db, ops, order), op, order)|
    requires TellsAll(ChangesOf(done), TornLog(db, ops, op, order, j)) && Loggable(TornLog(db, ops, op, order, j))
    requires PartsLeft(data, stable, db.next, done) && Leaves(out, data, root, db.next, done)
    ensures PartFound(out, db, ops, op, order, j, k) && Apart(out)
  {
    AgreeAfter(data, stable, db.next, WalRecovery.PagesOf(done));
    OneApart(data, stable, root, db, ops, op, order, j, done, out);
    if LeavesRight(DoAll(db, ops, order), op, order, j) {
      TornAnswers(data, stable, root, db, ops, op, order, j, done, k);
      TornPages(data, stable, root, db, ops, op, order, j, done);
    }
  }

  lemma {:induction false} OneApart(data: DataFile, stable: DataFile, root: Option<nat>, db: Db, ops: seq<Op>, op: Op,
                                    order: nat, j: nat, done: seq<Record>, out: WalRecovery.Db)
    requires Healthy(db, order) && Checkpointed(stable, root, db)
    requires j <= |DoLog(DoAll(db, ops, order), op, order)|
    requires TellsAll(ChangesOf(done), TornLog(db, ops, op, order, j)) && Loggable(TornLog(db, ops, op, order, j))
    requires AsOver(data, stable, db.next, WalRecovery.PagesOf(done)) && Leaves(out, data, root, db.next, done)
    ensures Apart(out)
  {
    TornIsPrefix(db, ops, op, order, j);
    RecoveredApart(data, stable, root, db, ops + [op], order, |TornLog(db, ops, op, order, j)|, done, out);
  }

  lemma {:induction false} TornLoggable(db: Db, parts: seq<Part>, order: nat, r: nat, p: nat, j: nat)
    requires Logged(db, parts, order, r) && p < |parts| && parts[p].Alone?
    requires j <= |DoLog(DoAll(db, AllOps(parts[..p]), order), parts[p].op, order)|
    ensures Loggable(TornLog(db, AllOps(parts[..p]), parts[p].op, order, j))
  {
    var ops, op := AllOps(parts[..p]), parts[p].op;
    OpsUpTo(parts, p);
    PrefixLoggable(db, ops + [op], AllOps(parts), order, r);
    TornIsPrefix(db, ops, op, order, j);
  }

  lemma {:induction false} OpsUpTo(parts: seq<Part>, p: nat)
    requires p < |parts| && parts[p].Alone?
    ensures AllOps(parts[..p]) + [parts[p].op] <= AllOps(parts)
  {
    OpsPrefix(parts, p + 1);
    assert parts[..p + 1][..p] == parts[..p] && parts[..p + 1][p] == parts[p];
  }

  lemma {:induction false} TornIsPrefix(db: Db, ops: seq<Op>, op: Op, order: nat, m: nat)
    requires order >= 2 && m <= |DoLog(DoAll(db, ops, order), op, order)|
    ensures TornLog(db, ops, op, order, m) <= LogAll(db, ops + [op], order)
  {
    assert (ops + [op])[..|ops|] == ops;
  }

  lemma {:induction false} OpsPrefix(parts: seq<Part>, p: nat)
    requires p <= |parts|
    ensures AllOps(parts[..p]) <= AllOps(parts)
    decreases |parts|
  {
    if p < |parts| {
      var n := |parts| - 1;
      assert parts[..n][..p] == parts[..p];
      OpsPrefix(parts[..n], p);
    } else {
      assert parts[..p] == parts;
    }
  }

  /** How many items are whole in the first n bytes. */
  function Kept(crc: WalFormat.CrcFn, parts: seq<Part>, n: nat): (w: nat)
    ensures w <= |AllItems(parts)|
  {
    WalRecovery.WholeItems(AllItems(parts), WalFormat.Whole(crc, WalRecovery.Flatten(AllItems(parts)), n))
  }
}
