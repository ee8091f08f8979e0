/** Operations of the tree on the file-backed pager: what the pages contain after a run, and after a flush. */
module PagerRuns {
  import opened Entries
  import opened ByteOrder
  import opened Tree
  import opened Log
  import opened TreeInsert
  import opened TreeDelete
  import opened TreeRecovery
  import opened TreeDeleteRecovery
  import opened TreeLive
  import opened TreeSteps
  import opened TreeClimb
  import opened CrashReplay
  import opened PageCodec
  import opened PageBytes
  import opened TreeActs
  import opened ActRuns
  import opened EndToEnd
  import WalFormat
  import BufferPools
  import FilePager

  // ---- What the pager shows of the pages of a tree -------------------------------------------------

  ghost predicate Fit(p: Page) {
    Encode(p, 0).Some?
  }

  /** The bytes of a page after the record number. */
  function BodyOf(p: Page): (r: Bytes)
    requires Encode(p, 0).Some?
    ensures |r| == FilePager.BODY_SIZE
  {
    Encode(p, 0).value[8..]
  }

  ghost predicate ShownPage(pages: FilePager.Pages, id: PageId, p: Page) {
    id in pages && Fit(p) && pages[id].body == BodyOf(p)
  }

  /** The pager's pages contain those of the store, as bytes. */
  ghost predicate Shown(pages: FilePager.Pages, s: Store) {
    forall id {:trigger s[id]} :: id in s ==> ShownPage(pages, id, s[id])
  }

  ghost predicate Below(s: Store, next: nat) {
    forall id :: id in s ==> id < next
  }

  // ---- One act -------------------------------------------------------------------------------------------

  /** Only the log, the root, the pages and the frames have changed. */
  ghost predicate Steady(s: FilePager.Snap, s': FilePager.Snap) {
    && s'.from == s.from && s'.open == s.open && s'.stable == s.stable && s'.bound == s.bound
    && s'.metaRoot == s.metaRoot && s'.writing == s.writing
  }

  /** Room for the numbers and ids of some more acts. */
  ghost predicate Room(pager: FilePager.FilePager, n: nat)
    reads pager, pager.wal
  {
    pager.wal.nextLsn + 2 * n < LIMIT64 && pager.nextId + n < NO_NEXT
  }

  lemma ShownMore(pages: FilePager.Pages, s: Store, id: PageId, v: BufferPools.PageVal, p: Page)
    requires Shown(pages, s) && Fit(p) && v.body == BodyOf(p)
    ensures Shown(pages[id := v], s[id := p])
  {
    forall q {:trigger s[id := p][q]} | q in s[id := p] ensures ShownPage(pages[id := v], q, s[id := p][q]) {
      assert q != id ==> ShownPage(pages, q, s[q]);
    }
  }

  lemma ShownLess(pages: FilePager.Pages, s: Store, id: PageId, v: BufferPools.PageVal)
    requires Shown(pages, s) && id !in s
    ensures Shown(pages[id := v], s)
  {
    forall q | q in s ensures ShownPage(pages[id := v], q, s[q]) {
      assert ShownPage(pages, q, s[q]);
    }
  }

  /** A page as it is given to the pager; its number plays no part in what is logged of it. */
  function ValOf(page: Page): BufferPools.PageVal
    requires Encode(page, 0).Some?
  {
    BufferPools.PageVal(BodyOf(page), 0)
  }

  function RecordOf(n: nat, id: PageId, page: Page): Record
    requires Encode(page, 0).Some?
  {
    WalFormat.LogRecord(n, WalFormat.PageWrite(id, FilePager.ToBytes(ValOf(page))))
  }

  /** The records of an act tell of it. */
  lemma RecordsTell(n: nat, id: PageId, page: Page, id': PageId, page': Page)
    requires Fit(page) && Fit(page')
    ensures TellsAll([RecordOf(n, id, page)], [PageWrite(id, page)])
    ensures TellsAll([RecordOf(n, id, page), RecordOf(n + 1, id', page')], [PageWrite(id, page), PageWrite(id', page')])
  {
    PagerTells(page, id, ValOf(page), n);
    PagerTells(page', id', ValOf(page'), n + 1);
  }

  /** What an act does to the pager whose pages contain those of the store. */
  ghost predicate Did(s: FilePager.Snap, s': FilePager.Snap, store: Store, e: Event, rs: seq<Record>) {
    && Steady(s, s') && s'.live == s.live + rs && TellsAll(rs, Told(e.act))
    && Shown(s'.logical, Effect(store, e)) && Below(Effect(store, e), s'.next)
    && s'.next == NextAfter(s.next, e.act) && s'.root == RootAfter(s.root, e.act)
  }

  // ---- On the state of the pager as values -----------------------------------------------------------

  lemma MarkDid(s: FilePager.Snap, s': FilePager.Snap, n: nat, id: PageId, page: Page, store: Store)
    requires Shown(s.logical, store) && Fit(page) && Below(store, s.next) && id < s.next
    requires s' == FilePager.Settling(FilePager.Marked(s, n, id, ValOf(page)), s')
    ensures Did(s, s', store, Event(Mark(id, page), true), [RecordOf(n, id, page)])
  {
    RecordsTell(n, id, page, id, page);
    ShownMore(s.logical, store, id, BufferPools.PageVal(BodyOf(page), n), page);
  }

  lemma HalveDid(s: FilePager.Snap, s': FilePager.Snap, n: nat, e: Event, store: Store)
    requires e.act.Halve? && FitAct(e.act) && Shown(s.logical, store) && Below(store, s.next)
    requires e.act.id < s.next && e.act.right == s.next
    requires FilePager.WasSplit(s, s', n, e.act.id, ValOf(e.act.whole), e.act.right, BodyOf(e.act.lower),
                                BodyOf(e.act.upper), e.kept)
    ensures Did(s, s', store, e, [RecordOf(n, e.act.id, e.act.whole), RecordOf(n + 1, e.act.right, e.act.upper)])
  {
    var a := e.act;
    RecordsTell(n, a.id, a.whole, a.right, a.upper);
    HalveShown(s.logical, store, e, n);
  }

  lemma HalveShown(l: FilePager.Pages, s: Store, e: Event, n: nat)
    requires e.act.Halve? && FitAct(e.act) && Shown(l, s)
    ensures var a := e.act;
            var half := if e.kept then BodyOf(a.lower) else BodyOf(a.whole);
            Shown(l[a.id := BufferPools.PageVal(half, n)][a.right := BufferPools.PageVal(BodyOf(a.upper), n + 1)],
                  Effect(s, e))
  {
    var a := e.act;
    var p := if e.kept then a.lower else a.whole;
    ShownMore(l, s, a.id, BufferPools.PageVal(BodyOf(p), n), p);
    ShownMore(l[a.id := BufferPools.PageVal(BodyOf(p), n)], s[a.id := p], a.right,
      BufferPools.PageVal(BodyOf(a.upper), n + 1), a.upper);
  }

  lemma NewRootDid(s: FilePager.Snap, s1: FilePager.Snap, s': FilePager.Snap, n: nat, id: PageId, blank: Bytes,
                   page: Page, store: Store)
    requires Shown(s.logical, store) && Fit(page) && Below(store, s.next) && id == s.next
    requires s1 == FilePager.Settling(FilePager.Allotted(s, id, blank), s1)
    requires s' == FilePager.Settling(FilePager.Marked(s1, n, id, ValOf(page)), s')
    ensures Did(s, s', store, Event(NewRoot(id, page), true), [RecordOf(n, id, page)])
  {
    RecordsTell(n, id, page, id, page);
    NewRootShown(s.logical, store, id, blank, page, n);
    NewRootFields(s, s1, s', n, id, blank, ValOf(page));
  }

  lemma NewRootFields(s: FilePager.Snap, s1: FilePager.Snap, s': FilePager.Snap, n: nat, id: PageId, blank: Bytes,
                      v: BufferPools.PageVal)
    requires s1 == FilePager.Settling(FilePager.Allotted(s, id, blank), s1)
    requires s' == FilePager.Settling(FilePager.Marked(s1, n, id, v), s')
    ensures Steady(s, s') && s'.next == id + 1 && s'.root == s.root
    ensures s'.live == s.live + [WalFormat.LogRecord(n, WalFormat.PageWrite(id, FilePager.ToBytes(v)))]
    ensures s'.logical == s.logical[id := BufferPools.PageVal(blank, 0)][id := BufferPools.PageVal(v.body, n)]
  {
  }

  lemma NewRootShown(l: FilePager.Pages, store: Store, id: PageId, blank: Bytes, page: Page, n: nat)
    requires Shown(l, store) && Fit(page) && id !in store
    ensures Shown(l[id := BufferPools.PageVal(blank, 0)][id := BufferPools.PageVal(BodyOf(page), n)], store[id := page])
  {
    ShownLess(l, store, id, BufferPools.PageVal(blank, 0));
    ShownMore(l[id := BufferPools.PageVal(blank, 0)], store, id, BufferPools.PageVal(BodyOf(page), n), page);
  }

  lemma AlterDid(s: FilePager.Snap, s': FilePager.Snap, id: PageId, page: Page, kept: bool, store: Store)
    requires Shown(s.logical, store) && Fit(page) && Below(store, s.next) && id in store && id in s.logical
    requires s' == FilePager.Settling(FilePager.Altered(s, id, BodyOf(page), kept), s')
    ensures Did(s, s', store, Event(Alter(id, page), kept), [])
  {
    var e, store' := Event(Alter(id, page), kept), if kept then store[id := page] else store;
    assert e.act.id == id && e.act.page == page && e.kept == kept;
    assert Effect(store, e) == store';
    AlterFields(s, s', id, BodyOf(page), kept);
    assert Shown(s'.logical, store') by {
      if kept {
        ShownMore(s.logical, store, id, BufferPools.PageVal(BodyOf(page), s.logical[id].lsn), page);
      }
    }
    assert Below(store', s'.next);
    assert Told(e.act) == [] && TellsAll([], []);
  }

  lemma AlterFields(s: FilePager.Snap, s': FilePager.Snap, id: PageId, body: Bytes, kept: bool)
    requires id in s.logical && s' == FilePager.Settling(FilePager.Altered(s, id, body, kept), s')
    ensures Steady(s, s') && s'.next == s.next && s'.root == s.root && s'.live == s.live + []
    ensures s'.logical == if kept then s.logical[id := BufferPools.PageVal(body, s.logical[id].lsn)] else s.logical
  {
    assert s.live + [] == s.live;
  }

  lemma ReadDid(s: FilePager.Snap, s': FilePager.Snap, id: PageId, store: Store)
    requires Shown(s.logical, store) && Below(store, s.next) && s' == FilePager.Settling(s, s')
    ensures Did(s, s', store, Event(Read(id), true), [])
  {
    assert s.live + [] == s.live;
  }

  lemma HasPage(l: FilePager.Pages, store: Store, id: PageId)
    requires Shown(l, store) && id in store
    ensures id in l && Fit(store[id]) && l[id].body == BodyOf(store[id])
  {
    assert ShownPage(l, id, store[id]);
  }

  // ---- On the pager ------------------------------------------------------------------------------------

  /** What an act did, to the pages and to the pool: two more frames at most, and outside a transaction only the frames
      of unsettled pages are stale. */
  ghost predicate Went(s: FilePager.Snap, s': FilePager.Snap, store: Store, e: Event, rs: seq<Record>,
                       pending: set<PageId>) {
    && Did(s, s', store, e, rs) && |s'.view| <= |s.view| + 2
    && (!s.writing && FilePager.StaleIn(s.view, s.logical) <= pending ==>
          FilePager.StaleIn(s'.view, s'.logical) <= Unsettled(pending, e.act))
  }

  /** The pager is ready for an act. */
  ghost predicate Ready(pager: FilePager.FilePager, a: Act, s: Store)
    reads pager, pager.pool, pager.wal
  {
    && pager.Valid() && Shown(pager.logical, s) && Below(s, pager.nextId) && FitAct(a)
    && CanDo(a, s.Keys, pager.nextId) && Room(pager, 1)
  }

  method DoMark(pager: FilePager.FilePager, a: Act, ghost s: Store, ghost pending: set<PageId>)
    returns (ghost e: Event, ghost rs: seq<Record>)
    requires a.Mark? && Ready(pager, a, s)
    modifies pager, pager.pool, pager.wal
    ensures pager.Valid() && e.act == a && Went(old(pager.Now()), pager.Now(), s, e, rs, pending)
    ensures pager.wal.nextLsn <= old(pager.wal.nextLsn) + 2
  {
    ghost var n, s0 := pager.wal.nextLsn, pager.Now();
    HasPage(pager.logical, s, a.id);
    pager.MarkDirty(a.id, ValOf(a.page));
    e, rs := Event(a, true), [RecordOf(n, a.id, a.page)];
    MarkDid(s0, pager.Now(), n, a.id, a.page, s);
    FilePager.OneMore(pager.pool.view, s0.view, a.id);
  }

  /** The contents of a new page object. */
  function BlankOf(page: Page): (r: Page)
    ensures Encode(r, 0).Some?
  {
    if page.Leaf? then Leaf([], None) else Index([], [])
  }

  /** A cut is kept in a transaction, and else exactly when the new page does not push the first one out. */
  method DoHalve(pager: FilePager.FilePager, a: Act, ghost s: Store, ghost pending: set<PageId>)
    returns (ghost e: Event, ghost rs: seq<Record>)
    requires a.Halve? && Ready(pager, a, s)
    modifies pager, pager.pool, pager.wal
    ensures pager.Valid() && e.act == a && Went(old(pager.Now()), pager.Now(), s, e, rs, pending)
    ensures pager.wal.nextLsn <= old(pager.wal.nextLsn) + 2
    ensures |old(pager.pool.view)| + 1 < pager.pool.capacity ==> e.kept
    ensures a.id in old(pager.pool.view) ==>
              (!e.kept <==>
                 && !old(pager.txnWriting)
                 && FilePager.Pushes(old(pager.pool.view), old(pager.pool.used), pager.pool.capacity, a.id))
  {
    ghost var n, s0 := pager.wal.nextLsn, pager.Now();
    HasPage(pager.logical, s, a.id);
    var blank := BodyOf(BlankOf(a.upper));
    ghost var kept, pushed;
    var right;
    right, kept, pushed := pager.SplitPage(a.id, ValOf(a.whole), BodyOf(a.lower), blank, BodyOf(a.upper));
    e, rs := Event(a, kept), [RecordOf(n, a.id, a.whole), RecordOf(n + 1, a.right, a.upper)];
    HalveDid(s0, pager.Now(), n, e, s);
    TwoMore(pager.pool.view, s0.view, a.id, a.right);
  }

  lemma TwoMore(view: BufferPools.Frames, before: BufferPools.Frames, a: nat, b: nat)
    requires view.Keys <= before.Keys + {a, b}
    ensures |view| <= |before| + 2
  {
    FilePager.Fewer(view.Keys, before.Keys + {a, b});
    assert |view| == |view.Keys| && |before| == |before.Keys| && |{a, b}| <= 2;
  }

  method DoNewRoot(pager: FilePager.FilePager, a: Act, ghost s: Store, ghost pending: set<PageId>)
    returns (ghost e: Event, ghost rs: seq<Record>)
    requires a.NewRoot? && Ready(pager, a, s)
    modifies pager, pager.pool, pager.wal
    ensures pager.Valid() && e.act == a && Went(old(pager.Now()), pager.Now(), s, e, rs, pending)
    ensures pager.wal.nextLsn <= old(pager.wal.nextLsn) + 2
  {
    ghost var n, s0 := pager.wal.nextLsn, pager.Now();
    var blank := BodyOf(BlankOf(a.page));
    var at, _ := pager.NewPage(blank);
    ghost var s1 := pager.Now();
    pager.MarkDirty(at, ValOf(a.page));
    e, rs := Event(a, true), [RecordOf(n, a.id, a.page)];
    NewRootDid(s0, s1, pager.Now(), n, a.id, blank, a.page, s);
    TwoMore(pager.pool.view, s0.view, a.id, a.id);
  }

  method DoAlter(pager: FilePager.FilePager, a: Act, ghost s: Store, ghost pending: set<PageId>)
    returns (ghost e: Event, ghost rs: seq<Record>)
    requires a.Alter? && Ready(pager, a, s)
    modifies pager, pager.pool
    ensures pager.Valid() && e.act == a && Went(old(pager.Now()), pager.Now(), s, e, rs, pending)
  {
    ghost var s0 := pager.Now();
    HasPage(pager.logical, s, a.id);
    ghost var kept := pager.Alter(a.id, BodyOf(a.page));
    e, rs := Event(a, kept), [];
    AlterDid(s0, pager.Now(), a.id, a.page, kept, s);
    FilePager.OneMore(pager.pool.view, s0.view, a.id);
  }

  method DoRoot(pager: FilePager.FilePager, a: Act, ghost s: Store, ghost pending: set<PageId>)
    returns (ghost e: Event, ghost rs: seq<Record>)
    requires a.Root? && Ready(pager, a, s)
    modifies pager, pager.pool, pager.wal
    ensures pager.Valid() && e.act == a && Went(old(pager.Now()), pager.Now(), s, e, rs, pending)
    ensures pager.wal.nextLsn <= old(pager.wal.nextLsn) + 2
  {
    e, rs := Event(a, true), [WalFormat.LogRecord(pager.wal.nextLsn, WalFormat.MetaUpdate(Some(a.id)))];
    pager.LogMetaUpdate(a.id);
  }

  /** Outside a transaction a page that is not unsettled reads as it is in the store. */
  method DoRead(pager: FilePager.FilePager, a: Act, ghost s: Store, ghost pending: set<PageId>)
    returns (p: BufferPools.PageVal, ghost e: Event, ghost rs: seq<Record>)
    requires a.Read? && Ready(pager, a, s)
    modifies pager, pager.pool, pager.wal
    ensures pager.Valid() && e.act == a && Went(old(pager.Now()), pager.Now(), s, e, rs, pending)
    ensures pager.wal.nextLsn <= old(pager.wal.nextLsn) + 2
    ensures !old(pager.txnWriting) && a.id !in old(pager.Stale()) ==> Fit(s[a.id]) && p.body == BodyOf(s[a.id])
  {
    ghost var s0 := pager.Now();
    HasPage(pager.logical, s, a.id);
    ReadsCurrent(pager, a.id);
    p := pager.GetPage(a.id);
    e, rs := Event(a, true), [];
    ReadDid(s0, pager.Now(), a.id, s);
    FilePager.OneMore(pager.pool.view, s0.view, a.id);
  }

  lemma ReadsCurrent(pager: FilePager.FilePager, id: PageId)
    requires pager.Valid() && id in pager.logical
    ensures id in pager.data
    ensures !pager.txnWriting && id !in pager.Stale() ==> pager.Reads(id) == pager.logical[id]
  {
    FilePager.Settles(pager.Now());
    pager.CurrentIff(id);
  }

  method Do1(pager: FilePager.FilePager, a: Act, ghost s: Store, ghost pending: set<PageId>)
    returns (ghost e: Event, ghost rs: seq<Record>)
    requires Ready(pager, a, s)
    modifies pager, pager.pool, pager.wal
    ensures pager.Valid() && e.act == a && Went(old(pager.Now()), pager.Now(), s, e, rs, pending)
    ensures pager.wal.nextLsn <= old(pager.wal.nextLsn) + 2
    ensures |old(pager.pool.view)| + 1 < pager.pool.capacity && a.Halve? ==> e.kept
  {
    match a
    case Mark(_, _) => e, rs := DoMark(pager, a, s, pending);
    case Halve(_, _, _, _, _) => e, rs := DoHalve(pager, a, s, pending);
    case NewRoot(_, _) => e, rs := DoNewRoot(pager, a, s, pending);
    case Alter(_, _) => e, rs := DoAlter(pager, a, s, pending);
    case Root(_) => e, rs := DoRoot(pager, a, s, pending);
    case Read(_) =>
      var p;
      p, e, rs := DoRead(pager, a, s, pending);
  }

  // ---- Any number of acts ----------------------------------------------------------------------------

  /** What a number of acts did. */
  ghost predicate DidAll(s: FilePager.Snap, s': FilePager.Snap, store: Store, es: seq<Event>, rs: seq<Record>) {
    && Steady(s, s') && s'.live == s.live + rs && TellsAll(rs, ToldAll(es))
    && Shown(s'.logical, Effects(store, es)) && Below(Effects(store, es), s'.next)
    && s'.next == NextAll(s.next, Acts(es)) && s'.root == RootAll(s.root, Acts(es))
    && |s'.view| <= |s.view| + 2 * |es|
    && (!s.writing && FilePager.StaleIn(s.view, s.logical) == {} ==>
          FilePager.StaleIn(s'.view, s'.logical) <= UnsettledAll({}, Acts(es)))
  }

  lemma ActsSnoc(es: seq<Event>, e: Event)
    ensures (es + [e])[..|es|] == es && Acts(es + [e]) == Acts(es) + [e.act]
    ensures Acts(es + [e])[..|es|] == Acts(es) && Acts(es + [e])[|es|] == e.act
  {
  }

  lemma DidNone(s: FilePager.Snap, store: Store)
    requires Shown(s.logical, store) && Below(store, s.next)
    ensures DidAll(s, s, store, [], [])
  {
    assert s.live + [] == s.live;
  }

  /** One more act. */
  lemma EventSnoc(store: Store, es: seq<Event>, e: Event, next: nat, root: Option<nat>)
    ensures Effects(store, es + [e]) == Effect(Effects(store, es), e)
    ensures ToldAll(es + [e]) == ToldAll(es) + Told(e.act)
    ensures NextAll(next, Acts(es + [e])) == NextAfter(NextAll(next, Acts(es)), e.act)
    ensures RootAll(root, Acts(es + [e])) == RootAfter(RootAll(root, Acts(es)), e.act)
    ensures UnsettledAll({}, Acts(es + [e])) == Unsettled(UnsettledAll({}, Acts(es)), e.act)
  {
    ActsSnoc(es, e);
  }

  lemma LiveMore(a: seq<Record>, b: seq<Record>, c: seq<Record>)
    ensures a + b + c == a + (b + c)
  {
  }

  lemma {:induction false} DidMore(s: FilePager.Snap, s1: FilePager.Snap, s2: FilePager.Snap, store: Store,
                                   es: seq<Event>, rs: seq<Record>, e: Event, more: seq<Record>)
    requires DidAll(s, s1, store, es, rs)
    requires Went(s1, s2, Effects(store, es), e, more, UnsettledAll({}, Acts(es)))
    ensures DidAll(s, s2, store, es + [e], rs + more)
  {
    EventSnoc(store, es, e, s.next, s.root);
    TellsAppend(rs, ToldAll(es), more, Told(e.act));
    LiveMore(s.live, rs, more);
  }

  /** The first i acts are done, and the others can be. */
  ghost predicate Going(s0: FilePager.Snap, s1: FilePager.Snap, store: Store, acts: seq<Act>, i: nat, es: seq<Event>,
                        rs: seq<Record>) {
    && i <= |acts| && Acts(es) == acts[..i] && DidAll(s0, s1, store, es, rs)
    && Able(acts, store.Keys, s0.next) && s1.next <= s0.next + i
  }

  lemma GoingStarts(s: FilePager.Snap, store: Store, acts: seq<Act>)
    requires Shown(s.logical, store) && Below(store, s.next) && Able(acts, store.Keys, s.next)
    ensures Going(s, s, store, acts, 0, [], [])
  {
    DidNone(s, store);
  }

  lemma GoingReady(s0: FilePager.Snap, s1: FilePager.Snap, store: Store, acts: seq<Act>, i: nat, es: seq<Event>,
                   rs: seq<Record>)
    requires Going(s0, s1, store, acts, i, es, rs) && i < |acts|
    ensures var now := Effects(store, es);
            && Shown(s1.logical, now) && Below(now, s1.next) && FitAct(acts[i]) && CanDo(acts[i], now.Keys, s1.next)
            && |s1.view| <= |s0.view| + 2 * i
  {
    forall j | 0 <= j < i ensures InTurn(acts[..i], store.Keys, s0.next, j) {
      assert InTurn(acts, store.Keys, s0.next, j) && acts[..i][..j] == acts[..j];
    }
    KeysThere(store, es, s0.next);
    assert InTurn(acts, store.Keys, s0.next, i) && acts[i] in acts;
  }

  lemma GoingNext(s0: FilePager.Snap, s1: FilePager.Snap, s2: FilePager.Snap, store: Store, acts: seq<Act>, i: nat,
                  es: seq<Event>, rs: seq<Record>, e: Event, more: seq<Record>)
    requires Going(s0, s1, store, acts, i, es, rs) && i < |acts| && e.act == acts[i]
    requires Went(s1, s2, Effects(store, es), e, more, UnsettledAll({}, Acts(es)))
    ensures Going(s0, s2, store, acts, i + 1, es + [e], rs + more)
  {
    DidMore(s0, s1, s2, store, es, rs, e, more);
    NextMoves(s1, s2, Effects(store, es), e, more, UnsettledAll({}, Acts(es)));
    OneActMore(acts, i, es, e);
  }

  lemma NextMoves(s: FilePager.Snap, s': FilePager.Snap, store: Store, e: Event, rs: seq<Record>, pending: set<PageId>)
    requires Went(s, s', store, e, rs, pending)
    ensures s'.next <= s.next + 1
  {
  }

  lemma OneActMore(acts: seq<Act>, i: nat, es: seq<Event>, e: Event)
    requires i < |acts| && Acts(es) == acts[..i] && e.act == acts[i]
    ensures Acts(es + [e]) == acts[..i + 1]
  {
    ActsSnoc(es, e);
    assert acts[..i + 1] == acts[..i] + [acts[i]];
  }

  /** Do a number of acts. In a pool with enough room every cut is kept. */
  method Perform(pager: FilePager.FilePager, acts: seq<Act>, ghost s: Store)
    returns (ghost es: seq<Event>, ghost rs: seq<Record>)
    requires pager.Valid() && Shown(pager.logical, s) && Below(s, pager.nextId)
    requires Able(acts, s.Keys, pager.nextId) && Room(pager, |acts|)
    modifies pager, pager.pool, pager.wal
    ensures pager.Valid() && Acts(es) == acts && DidAll(old(pager.Now()), pager.Now(), s, es, rs)
    ensures |old(pager.pool.view)| + 2 * |acts| < pager.pool.capacity ==> NoneLost(es)
  {
    es, rs := [], [];
    ghost var s0, n := pager.Now(), pager.wal.nextLsn;
    GoingStarts(s0, s, acts);
    for i := 0 to |acts|
      invariant pager.Valid() && Going(s0, pager.Now(), s, acts, i, es, rs)
      invariant pager.wal.nextLsn <= n + 2 * i
      invariant |s0.view| + 2 * |acts| < pager.pool.capacity ==> NoneLost(es)
    {
      ghost var e, more := PerformNext(pager, acts, i, s, s0, es, rs);
      es, rs := es + [e], rs + more;
    }
    assert acts[..|acts|] == acts;
  }

  method PerformNext(pager: FilePager.FilePager, acts: seq<Act>, i: nat, ghost s: Store, ghost s0: FilePager.Snap,
                     ghost es: seq<Event>, ghost rs: seq<Record>)
    returns (ghost e: Event, ghost more: seq<Record>)
    requires pager.Valid() && i < |acts| && Going(s0, pager.Now(), s, acts, i, es, rs)
    requires pager.wal.nextLsn + 2 < LIMIT64 && s0.next + i + 1 < NO_NEXT
    modifies pager, pager.pool, pager.wal
    ensures pager.Valid() && Going(s0, pager.Now(), s, acts, i + 1, es + [e], rs + more)
    ensures pager.wal.nextLsn <= old(pager.wal.nextLsn) + 2
    ensures |s0.view| + 2 * |acts| < pager.pool.capacity && e.act.Halve? ==> e.kept
  {
    ghost var s1 := pager.Now();
    GoingReady(s0, s1, s, acts, i, es, rs);
    e, more := Do1(pager, acts[i], Effects(s, es), UnsettledAll({}, Acts(es)));
    GoingNext(s0, s1, pager.Now(), s, acts, i, es, rs, e, more);
  }
}
