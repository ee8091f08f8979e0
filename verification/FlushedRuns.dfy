/** From one flush to the next: after any run whose cuts the pool kept, the data file holds the tree exactly. */
module FlushedRuns {
  import opened Entries
  import opened ByteOrder
  import opened Tree
  import opened Log
  import opened TreeInsert
  import opened TreeDelete
  import opened TreeRecovery
  import opened TreeLive
  import opened TreeSteps
  import opened TreeClimb
  import opened CrashReplay
  import opened LogLinks
  import opened Capacity
  import opened PageCodec
  import opened PageBytes
  import opened TreeActs
  import opened ActRuns
  import opened EndToEnd
  import opened PagerRuns
  import WalFormat
  import WalRecovery
  import BufferPools
  import FilePager

  // ---- A tree on disk ----------------------------------------------------------------------------

  /** The pages of the store are in the data file, as bytes. */
  ghost predicate Filed(data: DataFile, pages: FilePager.Pages, s: Store) {
    && Shown(pages, s)
    && forall id {:trigger pages[id]} :: id in s ==>
         id in pages && FilePager.OnDisk(data, id, pages[id]) && FilePager.Sized(pages[id])
  }

  lemma {:induction false} DiskPage(data: DataFile, pages: FilePager.Pages, s: Store, id: PageId)
    requires Filed(data, pages, s) && id in s && Writable(s[id]) && Linkable(s[id])
    requires !(s[id].Index? && s[id].keys == [])
    ensures id in PagesIn(data) && PagesIn(data)[id] == s[id]
  {
    var p, v := s[id], pages[id];
    HasPage(pages, s, id);
    NumberFirst(p, v.lsn);
    PageBack(p, v.lsn);
  }

  /** The page of a sound tree whose records and ids fit. */
  lemma {:induction false} NodeFine(t: Tree, order: nat, least: nat, lo: int, hi: int, h: nat, r: nat)
    requires order >= 2 && Shape(t, order, least, lo, hi, h) && (t.Nd? ==> least >= 1) && Small(Contents(t), r)
    requires (order + 1) * (r + 12) <= MAX_ROOM && Bounded(t, NO_NEXT)
    ensures Writable(Image(t)) && Linkable(Image(t)) && !(Image(t).Index? && Image(t).keys == [])
  {
    SoundFits(t, order, least, lo, hi, h, r);
    OrderBound(order, r);
    FitsIsWritable(Image(t), order, r);
    if t.Nd? {
      forall i | 0 <= i < |t.kids| ensures t.kids[i].id < LIMIT32 {
        assert Bounded(t.kids[i], NO_NEXT);
      }
    }
  }

  /** A data file with the pages of a sound tree holds the tree. */
  lemma {:induction false} DiskHolds(data: DataFile, pages: FilePager.Pages, s: Store, t: Tree, order: nat, least: nat,
                                     lo: int, hi: int, h: nat, r: nat)
    requires order >= 2 && Shape(t, order, least, lo, hi, h) && (t.Nd? ==> least >= 1) && Small(Contents(t), r)
    requires (order + 1) * (r + 12) <= MAX_ROOM && Bounded(t, NO_NEXT)
    requires Filed(data, pages, s) && Holds(s, t, hi, true)
    ensures Holds(PagesIn(data), t, hi, true)
    decreases t
  {
    NodeFine(t, order, least, lo, hi, h, r);
    DiskPage(data, pages, s, t.id);
    if t.Nd? {
      forall i {:trigger t.kids[i]} | 0 <= i < |t.kids|
        ensures Holds(PagesIn(data), t.kids[i], Upper(t.keys, hi, i), true)
      {
        KidSmall(t.kids, i, r);
        DiskHolds(data, pages, s, t.kids[i], order, order / 2, Lower(t.keys, lo, i), Upper(t.keys, hi, i), h - 1, r);
      }
    }
  }

  // ---- From one flush to the next --------------------------------------------------------------------

  /** A flushed pager: its pages, its data file and its meta page are those of the tree, nothing is stale, and the log
      is empty. */
  ghost predicate Rested(pager: FilePager.FilePager, s: Store, db: Db, order: nat)
    reads pager, pager.pool, pager.wal
  {
    && pager.Valid() && !pager.txnWriting && pager.Stale() == {} && pager.Now().live == []
    && Healthy(db, order) && Shown(pager.logical, s) && Spelled(s, db)
    && Checkpointed(pager.stable, pager.metaRoot, db) && pager.metaNext == pager.nextId == db.next
    && pager.rootId == Some(db.tree.id)
  }

  /** Records of at most r bytes, and page ids, that a run from here has room for. */
  ghost predicate Roomy(db: Db, ops: seq<Op>, order: nat, r: nat)
    requires order >= 2
  {
    && Small(Contents(db.tree), r) && SmallOps(ops, r) && (order + 1) * (r + 12) <= MAX_ROOM
    && DoAll(db, ops, order).next <= NO_NEXT
  }

  /** A run of operations on a flushed pager, with pages read anywhere in between: the log tells what the run logs, and
      if every cut was kept the pager's pages are those of the tree after it. */
  method RunOps(pager: FilePager.FilePager, acts: seq<Act>, ghost s: Store, ghost db: Db, ghost ops: seq<Op>,
                ghost order: nat, ghost r: nat)
    returns (ghost es: seq<Event>, ghost rs: seq<Record>)
    requires Rested(pager, s, db, order) && Roomy(db, ops, order, r)
    requires Unread(acts) == RunActs(db, ops, order) && Able(acts, s.Keys, db.next) && PagerRuns.Room(pager, |acts|)
    modifies pager, pager.pool, pager.wal
    ensures pager.Valid() && Acts(es) == acts && DidAll(old(pager.Now()), pager.Now(), s, es, rs)
    ensures pager.Now().live == rs && TellsAll(rs, LogAll(db, ops, order))
    ensures NoneLost(es) ==> Spelled(Effects(s, es), DoAll(db, ops, order))
    ensures |old(pager.pool.view)| + 2 * |acts| < pager.pool.capacity ==> NoneLost(es)
  {
    ghost var s0 := pager.Now();
    es, rs := Perform(pager, acts, s);
    assert s0.live + rs == rs;
    RunWritable(db, ops, order, r);
    RunActed(s, db, ops, order, es);
  }

  /** And then a flush: if every cut was kept, the pager has come to rest with the tree after the run, which the data
      file holds exactly. */
  method RunAndFlush(pager: FilePager.FilePager, acts: seq<Act>, ghost s: Store, ghost db: Db, ghost ops: seq<Op>,
                     ghost order: nat, ghost r: nat)
    returns (ghost es: seq<Event>)
    requires Rested(pager, s, db, order) && Roomy(db, ops, order, r)
    requires Unread(acts) == RunActs(db, ops, order) && Able(acts, s.Keys, db.next) && PagerRuns.Room(pager, |acts|)
    modifies pager, pager.pool, pager.wal
    ensures pager.Valid() && Acts(es) == acts
    ensures NoneLost(es) ==> Rested(pager, Effects(s, es), DoAll(db, ops, order), order)
    ensures |old(pager.pool.view)| + 2 * |acts| < pager.pool.capacity ==> NoneLost(es)
  {
    ghost var s0 := pager.Now();
    ghost var rs;
    es, rs := RunOps(pager, acts, s, db, ops, order, r);
    ghost var s1 := pager.Now();
    pager.Flush();
    if NoneLost(es) {
      AtRest(s0, s1, s, db, ops, order, r, es, rs);
      FlushRests(pager.data, pager.logical, Effects(s, es), DoAll(db, ops, order), order, r);
    }
  }

  /** The state before the flush, as values. */
  lemma {:induction false} AtRest(s0: FilePager.Snap, s1: FilePager.Snap, s: Store, db: Db, ops: seq<Op>, order: nat,
                                  r: nat, es: seq<Event>, rs: seq<Record>)
    requires Healthy(db, order) && Spelled(s, db) && Roomy(db, ops, order, r) && NoneLost(es)
    requires DidAll(s0, s1, s, es, rs) && Unread(Acts(es)) == RunActs(db, ops, order)
    requires !s0.writing && FilePager.StaleIn(s0.view, s0.logical) == {} && s0.next == db.next
    requires s0.root == Some(db.tree.id)
    ensures var db' := DoAll(db, ops, order);
            && !s1.writing && FilePager.StaleIn(s1.view, s1.logical) == {} && s1.next == db'.next
            && s1.root == Some(db'.tree.id) && Shown(s1.logical, Effects(s, es)) && Spelled(Effects(s, es), db')
            && Healthy(db', order) && Small(Contents(db'.tree), r)
  {
    RunWritable(db, ops, order, r);
    RunActed(s, db, ops, order, es);
    HealthyRun(db, ops, order);
    RunFits(db, ops, order, r);
    HoldsInexact(s, db.tree, KEY_LIMIT);
    RunReplay(s, db, ops, order);
  }

  lemma {:induction false} FlushRests(data: DataFile, pages: FilePager.Pages, s: Store, db: Db, order: nat, r: nat)
    requires Healthy(db, order) && Spelled(s, db) && Shown(pages, s) && Small(Contents(db.tree), r)
    requires (order + 1) * (r + 12) <= MAX_ROOM && db.next <= NO_NEXT
    requires forall id :: id in pages ==> FilePager.OnDisk(data, id, pages[id]) && FilePager.Sized(pages[id])
    ensures Checkpointed(data, Some(db.tree.id), db)
  {
    DbBounded(db, order, NO_NEXT);
    forall id | id in s ensures id in pages {
      HasPage(pages, s, id);
    }
    DiskHolds(data, pages, s, db.tree, order, RootLeast(db.tree), 0, KEY_LIMIT, db.height, r);
  }

  /** A new database comes to rest with the empty tree. */
  method Create(capacity: nat, crc: WalFormat.CrcFn, ghost order: nat) returns (pager: FilePager.FilePager)
    requires capacity >= 1 && order >= 2
    ensures Rested(pager, map[0 := Leaf([], None)], EmptyDb(), order) && fresh(pager) && pager.pool.capacity == capacity
  {
    pager := new FilePager.FilePager(capacity, crc);
    FirstLeaf(pager);
    pager.Flush();
    EmptyHealthy(order);
    EmptyRests(pager.data, pager.logical);
  }

  lemma {:induction false} EmptyRests(data: DataFile, pages: FilePager.Pages)
    requires Shown(pages, map[0 := Leaf([], None)])
    requires forall id :: id in pages ==> FilePager.OnDisk(data, id, pages[id]) && FilePager.Sized(pages[id])
    ensures Checkpointed(data, Some(0), EmptyDb())
  {
    var s: Store := map[0 := Leaf([], None)];
    HasPage(pages, s, 0);
    DiskPage(data, pages, s, 0);
  }

  /** The first leaf is allocated and becomes the root. */
  method FirstLeaf(pager: FilePager.FilePager)
    requires pager.Valid() && !pager.txnWriting && pager.nextId == 0 && pager.logical == map[] && pager.wal.nextLsn == 1
    requires pager.Stale() == {}
    modifies pager, pager.pool, pager.wal
    ensures pager.Valid() && !pager.txnWriting && pager.nextId == 1 && pager.rootId == Some(0) && pager.Stale() == {}
    ensures Shown(pager.logical, map[0 := Leaf([], None)])
  {
    var blank := BodyOf(BlankOf(Leaf([], None)));
    ghost var l := pager.logical;
    var id, _ := pager.NewPage(blank);
    pager.LogMetaUpdate(id);
    ShownMore(l, map[], 0, BufferPools.PageVal(blank, 0), Leaf([], None));
    assert map[][0 := Leaf([], None)] == map[0 := Leaf([], None)];
  }

  lemma EmptyHealthy(order: nat)
    requires order >= 2
    ensures Healthy(EmptyDb(), order) && Spelled(map[0 := Leaf([], None)], EmptyDb()) && Contents(EmptyDb().tree) == []
  {
  }
}
