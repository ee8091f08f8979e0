/** From log bytes to answers: what lookups find after the log file has been parsed, replayed and its pages decoded. */
module EndToEnd {
  import opened Entries
  import opened ByteOrder
  import opened Tree
  import opened Log
  import opened TreeInsert
  import opened TreeRecovery
  import opened TreeDeleteRecovery
  import opened TreeLive
  import opened TreeDelete
  import opened TreeSteps
  import opened TreeClimb
  import opened CrashReplay
  import opened LogLinks
  import opened Restored
  import opened ReadPages
  import opened KnownIds
  import opened Capacity
  import opened PageCodec
  import opened PageBytes
  import WalFormat
  import WalRecovery
  import LiveLog
  import BufferPools
  import FilePager

  type Record = WalFormat.LogRecord

  type DataFile = WalRecovery.DataFile

  // ---- Records and the changes they tell of ------------------------------------------------------

  /** The record of a change: the root, or the page as it is encoded with the number that stands in the image. */
  ghost predicate Tells(r: Record, c: Change) {
    match c
    case MetaUpdate(root) => r.kind == WalFormat.MetaUpdate(Some(root))
    case PageWrite(id, page) =>
      && r.kind.PageWrite? && r.kind.id == id && |r.kind.image| == PAGE
      && Encode(page, FromLE(r.kind.image[..8])) == Some(r.kind.image)
  }

  ghost predicate TellsAll(rs: seq<Record>, log: seq<Change>) {
    |rs| == |log| && forall i {:trigger Tells(rs[i], log[i])} :: 0 <= i < |rs| ==> Tells(rs[i], log[i])
  }

  /** What the pager logs for a page whose bytes after the number are those of a page of the tree. */
  lemma {:induction false} PagerTells(page: Page, id: PageId, v: BufferPools.PageVal, lsn: nat)
    requires Encode(page, 0).Some? && v.lsn < LIMIT64 && v.body == Encode(page, 0).value[8..]
    ensures Tells(WalFormat.LogRecord(lsn, WalFormat.PageWrite(id, FilePager.ToBytes(v))), PageWrite(id, page))
  {
    var image := FilePager.ToBytes(v);
    NumberFirst(page, v.lsn);
    assert image[..8] == LE(v.lsn, 8);
    Trip8(v.lsn);
  }

  /** The records of page images and root changes. */
  function ChangesOf(rs: seq<Record>): seq<Record>
    decreases |rs|
  {
    if rs == [] then []
    else
      var n := |rs| - 1;
      ChangesOf(rs[..n]) + if rs[n].kind.PageWrite? || rs[n].kind.MetaUpdate? then [rs[n]] else []
  }

  lemma {:induction false} ChangesAppend(a: seq<Record>, b: seq<Record>)
    ensures ChangesOf(a + b) == ChangesOf(a) + ChangesOf(b)
    decreases |b|
  {
    if b == [] {
      assert a + b == a;
    } else {
      assert (a + b)[..|a + b| - 1] == a + b[..|b| - 1];
      ChangesAppend(a, b[..|b| - 1]);
    }
  }

  /** The other records write no page and set no root. */
  lemma {:induction false} ChangesMatter(rs: seq<Record>)
    ensures WalRecovery.PagesOf(ChangesOf(rs)) == WalRecovery.PagesOf(rs)
    ensures WalRecovery.MetasOf(ChangesOf(rs)) == WalRecovery.MetasOf(rs)
    decreases |rs|
  {
    if rs != [] {
      var n := |rs| - 1;
      ChangesMatter(rs[..n]);
      if rs[n].kind.PageWrite? || rs[n].kind.MetaUpdate? {
        assert ChangesOf(rs)[..|ChangesOf(rs)| - 1] == ChangesOf(rs[..n]);
      } else {
        assert ChangesOf(rs) == ChangesOf(rs[..n]);
      }
    }
  }

  lemma {:induction false} TellsAppend(a: seq<Record>, x: seq<Change>, b: seq<Record>, y: seq<Change>)
    requires TellsAll(a, x) && TellsAll(b, y)
    ensures TellsAll(a + b, x + y)
  {
  }

  // ---- The pages of a data file ------------------------------------------------------------------

  /** The pages that the bytes of a data file are read back as. */
  function PagesIn(data: DataFile): Store {
    map id | id in data && Decode(data[id]).Some? :: Decode(data[id]).value
  }

  /** A store as it comes back from bytes. */
  function Faded(s: Store): Store {
    map id | id in s :: ReadBack(s[id])
  }

  lemma DecodeFaded(bs: Bytes)
    ensures Decode(bs).Some? ==> ReadBack(Decode(bs).value) == Decode(bs).value
  {
  }

  lemma {:induction false} FileFaded(data: DataFile)
    ensures Faded(PagesIn(data)) == PagesIn(data)
  {
    forall id | id in PagesIn(data) ensures ReadBack(PagesIn(data)[id]) == PagesIn(data)[id] {
      DecodeFaded(data[id]);
    }
  }

  /** No node of the tree is an index page without keys. */
  ghost predicate Keyed(t: Tree)
    decreases t
  {
    t.Nd? ==> t.keys != [] && forall i {:trigger t.kids[i]} :: 0 <= i < |t.kids| ==> Keyed(t.kids[i])
  }

  lemma {:induction false} ShapeKeyed(t: Tree, order: nat, least: nat, lo: int, hi: int, h: nat)
    requires order >= 2 && Shape(t, order, least, lo, hi, h) && (t.Nd? ==> least >= 1)
    ensures Keyed(t)
    decreases t
  {
    if t.Nd? {
      forall i {:trigger t.kids[i]} | 0 <= i < |t.kids| ensures Keyed(t.kids[i]) {
        ShapeKeyed(t.kids[i], order, order / 2, Lower(t.keys, lo, i), Upper(t.keys, hi, i), h - 1);
      }
    }
  }

  /** Such a tree is in a store exactly as it comes back from bytes. */
  lemma {:induction false} FadedHolds(s: Store, t: Tree, hi: int, exact: bool)
    requires Holds(s, t, hi, exact) && Keyed(t)
    ensures Holds(Faded(s), t, hi, exact)
    decreases t
  {
    if t.Nd? {
      forall i {:trigger t.kids[i]} | 0 <= i < |t.kids|
        ensures Holds(Faded(s), t.kids[i], Upper(t.keys, hi, i), exact) {
        FadedHolds(s, t.kids[i], Upper(t.keys, hi, i), exact);
      }
    }
  }

  /** Pages that can be written, with ids and links that fit their fields. */
  ghost predicate Loggable(log: seq<Change>) {
    forall i :: 0 <= i < |log| && log[i].PageWrite? ==> Writable(log[i].page) && Linkable(log[i].page)
  }

  lemma {:induction false} TellsPage(r: Record, c: Change)
    requires Tells(r, c) && c.PageWrite? && Writable(c.page) && Linkable(c.page)
    ensures Decode(r.kind.image) == Some(ReadBack(c.page))
  {
    LEBack(r.kind.image[..8]);
    Widths();
    PageBack(c.page, FromLE(r.kind.image[..8]));
  }

  /** Writing the images of the records is replaying the changes. */
  lemma {:induction false} RecordsReplay(data: DataFile, rs: seq<Record>, log: seq<Change>)
    requires TellsAll(rs, log) && Loggable(log)
    ensures PagesIn(WalRecovery.WriteAll(data, WalRecovery.PagesOf(rs))) == Faded(Replay(PagesIn(data), log))
    decreases |rs|
  {
    if rs == [] {
      FileFaded(data);
    } else {
      var n := |rs| - 1;
      RecordsReplay(data, rs[..n], log[..n]);
      assert Tells(rs[n], log[n]);
      if log[n].PageWrite? {
        TellsPage(rs[n], log[n]);
        OneWrite(data, WalRecovery.PagesOf(rs[..n]), Replay(PagesIn(data), log[..n]), rs[n].kind.id, rs[n].kind.image,
          log[n].page);
      }
    }
  }

  lemma {:induction false} OneWrite(data: DataFile, ws: seq<WalRecovery.Image>, s: Store, id: nat, image: Bytes,
      page: Page)
    requires PagesIn(WalRecovery.WriteAll(data, ws)) == Faded(s) && Decode(image) == Some(ReadBack(page))
    ensures PagesIn(WalRecovery.WriteAll(data, ws + [(id, image)])) == Faded(s[id := page])
  {
    assert (ws + [(id, image)])[..|ws|] == ws;
    ReadOne(WalRecovery.WriteAll(data, ws), id, image);
    FadeOne(s, id, page);
  }

  lemma ReadOne(d: DataFile, id: nat, image: Bytes)
    requires Decode(image).Some?
    ensures PagesIn(d[id := image]) == PagesIn(d)[id := Decode(image).value]
  {
  }

  lemma FadeOne(s: Store, id: nat, page: Page)
    ensures Faded(s[id := page]) == Faded(s)[id := ReadBack(page)]
  {
  }

  /** The last root, if any, is the one named. */
  ghost predicate Names(ms: seq<Option<nat>>, root: PageId, last: PageId) {
    if ms == [] then last == root else ms[|ms| - 1] == Some(last)
  }

  /** The last root record names the root. */
  lemma {:induction false} RootsReplay(root: PageId, rs: seq<Record>, log: seq<Change>)
    requires TellsAll(rs, log)
    ensures Names(WalRecovery.MetasOf(rs), root, ReplayRoot(root, log))
    decreases |rs|
  {
    if rs != [] {
      var n := |rs| - 1;
      RootsReplay(root, rs[..n], log[..n]);
      assert Tells(rs[n], log[n]);
      OneRoot(root, rs[..n], log[..n], rs[n], log[n]);
      assert rs == rs[..n] + [rs[n]] && log == log[..n] + [log[n]];
    }
  }

  lemma {:induction false} OneRoot(root: PageId, rs: seq<Record>, log: seq<Change>, r: Record, c: Change)
    requires Tells(r, c) && Names(WalRecovery.MetasOf(rs), root, ReplayRoot(root, log))
    ensures Names(WalRecovery.MetasOf(rs + [r]), root, ReplayRoot(root, log + [c]))
  {
    assert (rs + [r])[..|rs|] == rs && (log + [c])[..|log|] == log;
  }

  // ---- Recovery from the pages that a crash left -------------------------------------------------

  /** The data file holds the tree, and its meta page names the root. */
  ghost predicate Checkpointed(data: DataFile, root: Option<nat>, db: Db) {
    root == Some(db.tree.id) && Holds(PagesIn(data), db.tree, KEY_LIMIT, true)
  }

  /** The checkpointed pages, with what a crash left beside them. */
  function Patched(data: DataFile, stable: DataFile, bound: nat): DataFile {
    map id | id in data.Keys + stable.Keys && (if id < bound then id in stable else id in data) ::
      if id < bound then stable[id] else data[id]
  }

  lemma {:induction false} PatchedSame(data: DataFile, stable: DataFile, bound: nat, ws: seq<WalRecovery.Image>)
    requires forall id: nat :: id < bound ==>
               LiveLog.Same(WalRecovery.WriteAll(data, ws), WalRecovery.WriteAll(stable, ws), id)
    ensures WalRecovery.WriteAll(data, ws) == WalRecovery.WriteAll(Patched(data, stable, bound), ws)
  {
    var d, p := WalRecovery.WriteAll(data, ws), WalRecovery.WriteAll(Patched(data, stable, bound), ws);
    forall id: nat ensures LiveLog.Same(d, p, id) {
      if id in WalRecovery.Written(ws) {
        WalRecovery.SameAfter(data, Patched(data, stable, bound), ws, id);
      } else {
        WalRecovery.Unwritten(data, ws, id);
        WalRecovery.Unwritten(stable, ws, id);
        WalRecovery.Unwritten(Patched(data, stable, bound), ws, id);
        assert id < bound ==> LiveLog.Same(d, WalRecovery.WriteAll(stable, ws), id);
      }
    }
    assert forall id :: id in d ==> LiveLog.Same(d, p, id);
    assert forall id :: id in p ==> LiveLog.Same(d, p, id);
  }

  /** The checkpoint is still there in the patched pages. */
  lemma {:induction false} PatchedHolds(data: DataFile, stable: DataFile, db: Db, order: nat)
    requires Healthy(db, order) && Holds(PagesIn(stable), db.tree, KEY_LIMIT, true)
    ensures Holds(PagesIn(Patched(data, stable, db.next)), db.tree, KEY_LIMIT, true)
  {
    var s, s' := PagesIn(stable), PagesIn(Patched(data, stable, db.next));
    forall id | id in Ids(db.tree) && id in s ensures id in s' && s'[id] == s[id] {
      assert id < db.next && Patched(data, stable, db.next)[id] == stable[id];
    }
    HoldsFrame(s, s', db.tree, KEY_LIMIT, true);
  }

  /** The records that take effect tell of a run of operations; then every lookup answers as the map of the run, from
      the pages as the crash left them, if these give what the checkpointed pages would. */
  lemma {:induction false} Answers(data: DataFile, stable: DataFile, root: Option<nat>, db: Db, ops: seq<Op>,
                                   order: nat, done: seq<Record>, k: Key)
    requires Healthy(db, order) && Checkpointed(stable, root, db)
    requires TellsAll(ChangesOf(done), LogAll(db, ops, order)) && Loggable(LogAll(db, ops, order))
    requires var ws := WalRecovery.PagesOf(done);
             forall id: nat :: id < db.next ==> LiveLog.Same(WalRecovery.WriteAll(data, ws),
               WalRecovery.WriteAll(stable, ws), id)
    ensures var s := PagesIn(WalRecovery.WriteAll(data, WalRecovery.PagesOf(done)));
            var last := WalRecovery.LastOr(WalRecovery.MetasOf(done), Some(root));
            var m := UpdateAll(AsMap(Contents(db.tree)), ops);
            && last.Some? && last.value.Some?
            && Lookup(s, last.value.value, k, DoAll(db, ops, order).height) == if k in m then Some(m[k]) else None
  {
    var log, end := LogAll(db, ops, order), DoAll(db, ops, order);
    var base := PagesIn(Patched(data, stable, db.next));
    RunRecovered(data, stable, root, db, ops, order, |log|, done);
    assert log[..|log|] == log;
    PatchedHolds(data, stable, db, order);
    HoldsInexact(base, db.tree, KEY_LIMIT);
    RunReplay(base, db, ops, order);
    ShapeKeyed(end.tree, order, RootLeast(end.tree), 0, KEY_LIMIT, end.height);
    FadedHolds(Replay(base, log), end.tree, KEY_LIMIT, false);
    LookupCorrect(PagesIn(WalRecovery.WriteAll(data, WalRecovery.PagesOf(done))), end.tree, k, order,
      RootLeast(end.tree), 0, KEY_LIMIT, end.height, false);
    MapAgrees(Contents(end.tree), k);
  }

  /** The pages and the root when the records that take effect tell of the first n changes of a run. */
  lemma {:induction false} RunRecovered(data: DataFile, stable: DataFile, root: Option<nat>, db: Db, ops: seq<Op>,
                                        order: nat, n: nat, done: seq<Record>)
    requires Healthy(db, order) && Checkpointed(stable, root, db) && n <= |LogAll(db, ops, order)|
    requires TellsAll(ChangesOf(done), LogAll(db, ops, order)[..n]) && Loggable(LogAll(db, ops, order)[..n])
    requires AsOver(data, stable, db.next, WalRecovery.PagesOf(done))
    ensures var log := LogAll(db, ops, order)[..n];
            && PagesIn(WalRecovery.WriteAll(data, WalRecovery.PagesOf(done))) ==
               Faded(Replay(PagesIn(Patched(data, stable, db.next)), log))
            && WalRecovery.LastOr(WalRecovery.MetasOf(done), Some(root)) == Some(Some(ReplayRoot(db.tree.id, log)))
            && Touched(log) == WalRecovery.Written(WalRecovery.PagesOf(done))
  {
    var log := LogAll(db, ops, order)[..n];
    ChangesMatter(done);
    PatchedSame(data, stable, db.next, WalRecovery.PagesOf(done));
    RecordsReplay(Patched(data, stable, db.next), ChangesOf(done), log);
    RootsReplay(db.tree.id, ChangesOf(done), log);
    TouchedWritten(ChangesOf(done), log);
  }

  /** Below the bound, writing these images gives the same over both files. */
  ghost predicate AsOver(data: DataFile, stable: DataFile, bound: nat, ws: seq<WalRecovery.Image>) {
    forall id: nat :: id < bound ==>
      LiveLog.Same(WalRecovery.WriteAll(data, ws), WalRecovery.WriteAll(stable, ws), id)
  }

  lemma {:induction false} TouchedWritten(rs: seq<Record>, log: seq<Change>)
    requires TellsAll(rs, log)
    ensures Touched(log) == WalRecovery.Written(WalRecovery.PagesOf(rs))
    decreases |rs|
  {
    if rs != [] {
      var n := |rs| - 1;
      TouchedWritten(rs[..n], log[..n]);
      assert Tells(rs[n], log[n]);
      assert log == log[..n] + [log[n]];
      TouchedAppend(log[..n], [log[n]]);
      OneTouched(log[n]);
    }
  }

  // ---- The next page id ------------------------------------------------------------------------------

  /** Every page that can be reached from the root lies below the next page id: no page that is allocated later is one
      of these. */
  ghost predicate Apart(out: WalRecovery.Db) {
    && out.root.Some?
    && forall h: nat, id :: id in Ids(TreeIn(PagesIn(out.data), out.root.value, h)) ==> id < out.next
  }

  lemma ClosedFaded(s: Store, ids: set<PageId>)
    requires Closed(s, ids)
    ensures Closed(Faded(s), ids)
  {
  }

  lemma {:induction false} MaxAbove(ws: seq<WalRecovery.Image>, id: nat)
    requires id in WalRecovery.Written(ws)
    ensures id <= WalRecovery.MaxId(ws)
    decreases |ws|
  {
    var n := |ws| - 1;
    assert ws == ws[..n] + [ws[n]];
    if id != ws[n].0 {
      MaxAbove(ws[..n], id);
    }
  }

  /** So it is after recovery from any part of the log of any run. */
  lemma {:induction false} RecoveredApart(data: DataFile, stable: DataFile, root: Option<nat>, db: Db, ops: seq<Op>,
                                          order: nat, n: nat, done: seq<Record>, out: WalRecovery.Db)
    requires Healthy(db, order) && Checkpointed(stable, root, db) && n <= |LogAll(db, ops, order)|
    requires TellsAll(ChangesOf(done), LogAll(db, ops, order)[..n]) && Loggable(LogAll(db, ops, order)[..n])
    requires AsOver(data, stable, db.next, WalRecovery.PagesOf(done)) && Leaves(out, data, root, db.next, done)
    ensures Apart(out)
  {
    var log, s := LogAll(db, ops, order)[..n], PagesIn(Patched(data, stable, db.next));
    RunRecovered(data, stable, root, db, ops, order, n, done);
    PatchedHolds(data, stable, db, order);
    PartReached(s, db, ops, order, n, 0);
    var ids := IdSet(db.tree) + Touched(log);
    ClosedFaded(Replay(s, log), ids);
    forall id | id in ids ensures id < out.next {
      if id in Touched(log) {
        MaxAbove(WalRecovery.PagesOf(done), id);
      }
    }
    forall h: nat, id | id in Ids(TreeIn(PagesIn(out.data), out.root.value, h)) ensures id < out.next {
      ReachedIn(PagesIn(out.data), ids, out.root.value, h);
    }
  }

  /** What these records leave of a database. */
  ghost predicate Leaves(out: WalRecovery.Db, data: DataFile, root: Option<nat>, next: nat, done: seq<Record>) {
    && out.data == WalRecovery.WriteAll(data, WalRecovery.PagesOf(done))
    && WalRecovery.LastOr(WalRecovery.MetasOf(done), Some(root)) == Some(out.root)
    && out.next == WalRecovery.Max(next, WalRecovery.MaxId(WalRecovery.PagesOf(done)) + 1)
  }

  // ---- Which logs can be read back ------------------------------------------------------------------

  /** Enough room for every record, and page ids that fit their fields: every page that a run logs can be written and
      read back. */
  lemma {:induction false} RunLoggable(db: Db, ops: seq<Op>, order: nat, r: nat)
    requires Healthy(db, order) && Small(Contents(db.tree), r) && SmallOps(ops, r) && (order + 1) * (r + 12) <= MAX_ROOM
    requires DoAll(db, ops, order).next <= NO_NEXT
    ensures Loggable(LogAll(db, ops, order))
  {
    var log := LogAll(db, ops, order);
    RunWritable(db, ops, order, r);
    RunBelow(db, ops, order, NO_NEXT);
    forall i | 0 <= i < |log| && log[i].PageWrite? ensures Writable(log[i].page) && Linkable(log[i].page) {
      assert ChangeBelow(log[i], NO_NEXT);
    }
  }

  // ---- The pager -----------------------------------------------------------------------------------

  /** The records of the pager that take effect when its log is cut after n of them. */
  ghost function Done(s: FilePager.Snap, n: nat): seq<Record>
    requires n <= |s.live|
  {
    s.live[..LiveLog.Effective(s.open, n)]
  }

  /** Crash the pager at any point of any run, with any byte prefix of the log on disk that holds what was durable:
      recovery over the pages as they were left answers every key as the operations do whose records are whole, if these
      are outside any transaction or in one whose commit record is whole. */
  lemma {:induction false} CrashedPager(pager: FilePager.FilePager, m: nat, lsn: nat, db: Db, ops: seq<Op>, order: nat,
      k: Key)
    requires pager.Valid() && |pager.wal.file| <= m <= |WalFormat.EncodeAll(pager.wal.crc, pager.Now().live)|
    requires Healthy(db, order) && Checkpointed(pager.stable, pager.metaRoot, db) && db.next == pager.metaNext
    requires TellsAll(ChangesOf(Done(pager.Now(), WalFormat.Whole(pager.wal.crc, pager.Now().live, m))),
             LogAll(db, ops, order))
    requires Loggable(LogAll(db, ops, order))
    ensures var bytes := WalFormat.EncodeAll(pager.wal.crc, pager.Now().live)[..m];
            var out := FilePager.RecoveredDb(WalRecovery.Db(pager.data, pager.metaRoot, pager.metaNext), pager.wal.crc,
              bytes, lsn);
            AnswersAs(out, k, db, ops, order) && Apart(out)
  {
    var s := pager.Now();
    var n := WalFormat.Whole(pager.wal.crc, s.live, m);
    pager.TornCrash(m, lsn);
    CutAnswers(s, n, lsn, db, ops, order, k);
    var log := LogAll(db, ops, order);
    assert log[..|log|] == log;
    CutApart(s, n, lsn, db, ops, order, |log|);
  }

  /** The next page id after the crash, as values. */
  lemma {:induction false} CutApart(s: FilePager.Snap, n: nat, lsn: nat, db: Db, ops: seq<Op>, order: nat, m: nat)
    requires FilePager.CutAt(s, n, lsn) && s.bound == db.next
    requires Healthy(db, order) && Checkpointed(s.stable, s.metaRoot, db) && m <= |LogAll(db, ops, order)|
    requires TellsAll(ChangesOf(Done(s, n)), LogAll(db, ops, order)[..m]) && Loggable(LogAll(db, ops, order)[..m])
    ensures var r := WalRecovery.TakeAll(WalRecovery.Begin(lsn), s.live[..n]);
            Apart(WalRecovery.Recover(WalRecovery.Db(s.data, s.metaRoot, s.bound), r))
  {
    var r := WalRecovery.TakeAll(WalRecovery.Begin(lsn), s.live[..n]);
    RecoveredApart(s.data, s.stable, s.metaRoot, db, ops, order, m, Done(s, n),
      WalRecovery.Recover(WalRecovery.Db(s.data, s.metaRoot, s.bound), r));
  }

  /** The same on the state of the pager as values, and the number of whole records. */
  lemma {:induction false} CutAnswers(s: FilePager.Snap, n: nat, lsn: nat, db: Db, ops: seq<Op>, order: nat, k: Key)
    requires FilePager.CutAt(s, n, lsn) && s.bound == db.next
    requires Healthy(db, order) && Checkpointed(s.stable, s.metaRoot, db)
    requires TellsAll(ChangesOf(Done(s, n)), LogAll(db, ops, order)) && Loggable(LogAll(db, ops, order))
    ensures var r := WalRecovery.TakeAll(WalRecovery.Begin(lsn), s.live[..n]);
            AnswersAs(WalRecovery.Recover(WalRecovery.Db(s.data, s.metaRoot, s.bound), r), k, db, ops, order)
  {
    Answers(s.data, s.stable, s.metaRoot, db, ops, order, Done(s, n), k);
  }

  /** A lookup in a recovered database finds what the operations make of the map. */
  ghost predicate AnswersAs(out: WalRecovery.Db, k: Key, db: Db, ops: seq<Op>, order: nat)
    requires order >= 2
  {
    var m := UpdateAll(AsMap(Contents(db.tree)), ops);
    && out.root.Some?
    && Lookup(PagesIn(out.data), out.root.value, k, DoAll(db, ops, order).height) == if k in m then Some(m[k]) else None
  }

  // ---- Several runs in one log --------------------------------------------------------------------------

  /** One more group of operations, and the records that tell of it. */
  lemma {:induction false} TellsMore(db: Db, a: seq<Record>, b: seq<Record>, x: seq<Op>, y: seq<Op>, order: nat)
    requires order >= 2 && TellsAll(ChangesOf(a), LogAll(db, x, order))
             && TellsAll(ChangesOf(b), LogAll(DoAll(db, x, order), y, order))
    ensures TellsAll(ChangesOf(a + b), LogAll(db, x + y, order))
  {
    ChangesAppend(a, b);
    RunAppend(db, x, y, order);
    TellsAppend(ChangesOf(a), LogAll(db, x, order), ChangesOf(b), LogAll(DoAll(db, x, order), y, order));
  }

  /** A prefix of a run needs no more than the run. */
  lemma {:induction false} PrefixLoggable(db: Db, a: seq<Op>, ops: seq<Op>, order: nat, r: nat)
    requires Healthy(db, order) && Small(Contents(db.tree), r) && SmallOps(ops, r) && (order + 1) * (r + 12) <= MAX_ROOM
    requires DoAll(db, ops, order).next <= NO_NEXT && a <= ops
    ensures Loggable(LogAll(db, a, order))
  {
    var b := ops[|a|..];
    assert ops == a + b;
    RunAppend(db, a, b, order);
    HealthyRun(db, a, order);
    RunBelow(DoAll(db, a, order), b, order, NO_NEXT);
    assert SmallOps(a, r);
    RunLoggable(db, a, order, r);
  }

  lemma {:induction false} AgreeAfter(data: DataFile, stable: DataFile, bound: nat, ws: seq<WalRecovery.Image>)
    requires forall id: nat :: id < bound ==> LiveLog.Same(data, stable, id) || id in WalRecovery.Written(ws)
    ensures forall id: nat :: id < bound ==>
            LiveLog.Same(WalRecovery.WriteAll(data, ws), WalRecovery.WriteAll(stable, ws), id)
  {
    forall id: nat | id < bound ensures LiveLog.Same(WalRecovery.WriteAll(data, ws), WalRecovery.WriteAll(stable, ws),
      id) {
      assert LiveLog.Same(data, stable, id) || id in WalRecovery.Written(ws);
      WalRecovery.SameAfter(data, stable, ws, id);
    }
  }

  // ---- A root without keys in its byte form -----------------------------------------------------------

  /** Crash after the record of a root that lost its last key and before the record of the new root: read back from
      bytes, the old root has no child, and no lookup finds anything. */
  lemma {:induction false} CollapseTorn(base: Store, db: Db, k: Key, order: nat, q: Key)
    requires Healthy(db, order) && Holds(base, db.tree, KEY_LIMIT, false) && HasKey(db.tree, k)
    requires Collapse(Del(db.tree, k, order)) != Del(db.tree, k, order).node
    ensures var log := DoLog(db, Delete(k), order);
            && |log| > 0 && ReplayRoot(db.tree.id, log[..|log| - 1]) == db.tree.id
            && Lookup(Faded(Replay(base, log[..|log| - 1])), db.tree.id, q, db.height) == None
  {
    var t, d, log := db.tree, Del(db.tree, k, order), DoLog(db, Delete(k), order);
    assert log[..|log| - 1] == d.log;
    DelNoMeta(t, k, order, t.id);
    DelId(t, k, order);
    DelReplay(base, t, k, order, RootLeast(t), 0, KEY_LIMIT, db.height, None, false);
    NoKeysLeft(Replay(base, d.log), d.node);
  }

  /** The page of a node without keys cannot be stale: no key lies beyond the largest. */
  lemma NoKeysLeft(s: Store, n: Tree)
    requires Holds(s, n, KEY_LIMIT, false) && n.Nd? && n.keys == []
    ensures Faded(s)[n.id] == Index([], [])
  {
    assert s[n.id].Index?;
    assert FirstKey(s[n.id].keys) < KEY_LIMIT;
  }

  function FirstKey(keys: seq<Key>): int {
    if keys == [] then 0 else keys[0]
  }
}
