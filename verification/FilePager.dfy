/** The file-backed pager: buffer pool over a data file, with the log written ahead of every dirty page. */
module FilePager {
  import opened Entries
  import opened ByteOrder
  import opened WalFormat
  import opened WalRecovery
  import opened Wal
  import opened LiveLog
  import WalCounts
  import opened BufferPools

  const BODY_SIZE := 4088

  /** A page of the right size, with a number that fits its field. */
  predicate Sized(p: PageVal) {
    |p.body| == BODY_SIZE && p.lsn < LIMIT64
  }

  function ToBytes(p: PageVal): Bytes {
    LE(p.lsn, 8) + p.body
  }

  function FromBytes(bs: Bytes): PageVal {
    if |bs| < 8 then PageVal([], 0) else PageVal(bs[8..], FromLE(bs[..8]))
  }

  lemma PageTrip(p: PageVal)
    requires Sized(p)
    ensures FromBytes(ToBytes(p)) == p && |ToBytes(p)| == PAGE_SIZE
  {
    Trip8(p.lsn);
    assert ToBytes(p)[..8] == LE(p.lsn, 8) && ToBytes(p)[8..] == p.body;
  }

  // ---- Where the contents of a page are -------------------------------------------------------

  type Pages = map<nat, PageVal>

  function Ids(deferred: seq<(nat, PageVal)>): set<nat> {
    set d | d in deferred :: d.0
  }

  /** The last image of a page among the deferred ones. */
  function LastOf(deferred: seq<(nat, PageVal)>, id: nat): Option<PageVal>
    decreases |deferred|
  {
    if deferred == [] then None
    else if deferred[|deferred| - 1].0 == id then Some(deferred[|deferred| - 1].1)
    else LastOf(deferred[..|deferred| - 1], id)
  }

  ghost predicate OnDisk(data: DataFile, id: nat, p: PageVal) {
    id in data && data[id] == ToBytes(p)
  }

  /** What stands behind the pool: the last deferred image of the page, else the data file. */
  ghost predicate Backed(data: DataFile, deferred: seq<(nat, PageVal)>, id: nat, p: PageVal) {
    if id in Ids(deferred) then LastOf(deferred, id) == Some(p) else OnDisk(data, id, p)
  }

  /** The contents of a page are in its frame when that is dirty, else behind the pool. */
  ghost predicate PageAt(view: Frames, data: DataFile, deferred: seq<(nat, PageVal)>, id: nat, p: PageVal) {
    if id in view && view[id].dirty then view[id].page == p else Backed(data, deferred, id, p)
  }

  /** Nothing is lost: the contents of every page are where the pager will take them from. */
  ghost predicate Coherent(view: Frames, data: DataFile, deferred: seq<(nat, PageVal)>, logical: Pages) {
    forall id {:trigger PageAt(view, data, deferred, id, logical[id])} :: id in logical ==>
      PageAt(view, data, deferred, id, logical[id])
  }

  lemma {:induction false} LastIn(deferred: seq<(nat, PageVal)>, id: nat)
    ensures LastOf(deferred, id).Some? <==> id in Ids(deferred)
    decreases |deferred|
  {
    if deferred != [] {
      var init, d := deferred[..|deferred| - 1], deferred[|deferred| - 1];
      assert deferred == init + [d];
      LastIn(init, id);
    }
  }

  lemma LastSnoc(deferred: seq<(nat, PageVal)>, d: (nat, PageVal), id: nat)
    ensures LastOf(deferred + [d], id) == if d.0 == id then Some(d.1) else LastOf(deferred, id)
    ensures Ids(deferred + [d]) == Ids(deferred) + {d.0}
  {
    assert (deferred + [d])[..|deferred|] == deferred;
  }

  /** A frame comes in, and another may go out: written to the file when it is dirty, or deferred. */
  ghost predicate Swapped(view: Frames, data: DataFile, deferred: seq<(nat, PageVal)>, id: nat, f: Frame,
                          victim: Option<nat>,
                          view': Frames, data': DataFile, deferred': seq<(nat, PageVal)>) {
    && (victim.Some? ==> victim.value in view && victim.value != id)
    && view' == Rest(view, victim)[id := f]
    && var out := Evicted(view, victim);
       if out == [] then data' == data && deferred' == deferred
       else
         || (data' == data[out[0].0 := ToBytes(out[0].1)] && deferred' == deferred == [])
         || (data' == data && deferred' == deferred + out)
  }

  /** It keeps the contents of every page findable. */
  lemma PutKeeps(view: Frames, data: DataFile, deferred: seq<(nat, PageVal)>, logical: Pages, id: nat, f: Frame,
                 victim: Option<nat>, view': Frames, data': DataFile, deferred': seq<(nat, PageVal)>)
    requires Coherent(view, data, deferred, logical - {id}) && id !in view
    requires Swapped(view, data, deferred, id, f, victim, view', data', deferred')
    requires id in logical ==> if f.dirty then f.page == logical[id] else Backed(data, deferred, id, logical[id])
    ensures Coherent(view', data', deferred', logical)
  {
    if victim.Some? {
      LastSnoc(deferred, (victim.value, view[victim.value].page), victim.value);
    }
    forall q | q in logical ensures PageAt(view', data', deferred', q, logical[q]) {
      assert q != id ==> q in logical - {id} && PageAt(view, data, deferred, q, (logical - {id})[q]);
      if victim.Some? {
        LastSnoc(deferred, (victim.value, view[victim.value].page), q);
      }
    }
  }

  /** A frame already in the pool is replaced by new dirty contents. */
  lemma DirtyKeeps(view: Frames, data: DataFile, deferred: seq<(nat, PageVal)>, logical: Pages, id: nat, p: PageVal)
    requires Coherent(view, data, deferred, logical - {id}) && id in view
    ensures Coherent(view[id := Frame(p, true, view[id].pins)], data, deferred, logical[id := p])
  {
    forall q | q in logical && q != id
      ensures PageAt(view[id := Frame(p, true, view[id].pins)], data, deferred, q, logical[q])
    {
      assert q in logical - {id} && PageAt(view, data, deferred, q, (logical - {id})[q]);
    }
  }

  /** A dirty page is written and its frame is clean. */
  lemma CleanKeeps(view: Frames, data: DataFile, logical: Pages, id: nat)
    requires Coherent(view, data, [], logical) && id in view && view[id].dirty
    ensures Coherent(view[id := view[id].(dirty := false)], data[id := ToBytes(view[id].page)], [], logical)
  {
    forall q | q in logical
      ensures PageAt(view[id := view[id].(dirty := false)], data[id := ToBytes(view[id].page)], [], q, logical[q])
    {
      assert PageAt(view, data, [], q, logical[q]);
    }
  }

  /** The oldest deferred image is written. */
  lemma {:induction false} DrainKeeps(view: Frames, data: DataFile, deferred: seq<(nat, PageVal)>, logical: Pages)
    requires deferred != [] && Coherent(view, data, deferred, logical)
    ensures Coherent(view, data[deferred[0].0 := ToBytes(deferred[0].1)], deferred[1..], logical)
  {
    var d, rest := deferred[0], deferred[1..];
    assert deferred == [d] + rest;
    forall q | q in logical ensures PageAt(view, data[d.0 := ToBytes(d.1)], rest, q, logical[q]) {
      assert PageAt(view, data, deferred, q, logical[q]);
      LastCons(d, rest, q);
      LastIn(rest, q);
      LastIn(deferred, q);
    }
  }

  lemma {:induction false} LastCons(d: (nat, PageVal), rest: seq<(nat, PageVal)>, id: nat)
    ensures LastOf([d] + rest, id) == if LastOf(rest, id).Some? then LastOf(rest, id) else if d.0 == id then Some(d.1)
            else None
    decreases |rest|
  {
    if rest == [] {
      assert [d] + rest == [d] && [d][..0] == [];
    } else {
      assert ([d] + rest)[..|rest|] == [d] + rest[..|rest| - 1];
      LastCons(d, rest[..|rest| - 1], id);
    }
  }

  /** A page outside the logical ones gets its first contents: in the file, and in a clean frame if any. */
  lemma BlankKeeps(view: Frames, data: DataFile, deferred: seq<(nat, PageVal)>, logical: Pages, id: nat, p: PageVal)
    requires Coherent(view, data, deferred, logical) && id !in logical && id !in Ids(deferred)
    requires id in view ==> !view[id].dirty
    ensures Coherent(view, data[id := ToBytes(p)], deferred, logical[id := p])
  {
    forall q | q in logical ensures PageAt(view, data[id := ToBytes(p)], deferred, q, logical[q]) {
      assert PageAt(view, data, deferred, q, logical[q]);
    }
  }

  /** A page changes in its frame; if that is dirty, so do its contents. */
  lemma ChangeKeeps(view: Frames, data: DataFile, deferred: seq<(nat, PageVal)>, logical: Pages, id: nat, p: PageVal)
    requires Coherent(view, data, deferred, logical) && id in view
    ensures Coherent(view[id := view[id].(page := p)], data, deferred,
                     if view[id].dirty then logical[id := p] else logical)
    ensures view[id].dirty && id in logical ==> logical[id] == view[id].page
  {
    var logical' := if view[id].dirty then logical[id := p] else logical;
    assert id in logical ==> PageAt(view, data, deferred, id, logical[id]);
    forall q | q in logical' ensures PageAt(view[id := view[id].(page := p)], data, deferred, q, logical'[q]) {
      assert q in logical ==> PageAt(view, data, deferred, q, logical[q]);
    }
  }

  /** The image at position i has new contents, under the number it had. */
  function Rebodied(deferred: seq<(nat, PageVal)>, i: nat, body: Bytes): seq<(nat, PageVal)>
    requires i < |deferred|
  {
    deferred[i := (deferred[i].0, PageVal(body, deferred[i].1.lsn))]
  }

  /** No later image of the same page was kept back. */
  predicate IsLast(deferred: seq<(nat, PageVal)>, i: nat)
    requires i < |deferred|
  {
    forall j :: i < j < |deferred| ==> deferred[j].0 != deferred[i].0
  }

  lemma {:induction false} LastRebodied(deferred: seq<(nat, PageVal)>, i: nat, body: Bytes, id: nat)
    requires i < |deferred|
    ensures Ids(Rebodied(deferred, i, body)) == Ids(deferred)
    ensures LastOf(Rebodied(deferred, i, body), id) ==
            if id == deferred[i].0 && IsLast(deferred, i) then Some(PageVal(body, deferred[i].1.lsn))
            else LastOf(deferred, id)
    decreases |deferred|
  {
    var n, r := |deferred| - 1, Rebodied(deferred, i, body);
    assert forall j :: 0 <= j < |r| ==> r[j].0 == deferred[j].0;
    RebodiedIds(deferred, i, body);
    if i < n {
      assert r[..n] == Rebodied(deferred[..n], i, body) && r[n] == deferred[n];
      LastRebodied(deferred[..n], i, body, id);
    } else {
      assert r[..n] == deferred[..n];
    }
  }

  lemma RebodiedIds(deferred: seq<(nat, PageVal)>, i: nat, body: Bytes)
    requires i < |deferred|
    ensures Ids(Rebodied(deferred, i, body)) == Ids(deferred)
  {
    var r := Rebodied(deferred, i, body);
    forall id | id in Ids(deferred) ensures id in Ids(r) {
      var j :| 0 <= j < |deferred| && deferred[j].0 == id;
      assert r[j] in r && r[j].0 == id;
    }
    forall id | id in Ids(r) ensures id in Ids(deferred) {
      var j :| 0 <= j < |r| && r[j].0 == id;
      assert deferred[j] in deferred && deferred[j].0 == id;
    }
  }

  /** An image that was kept back changes; so do the contents of its page, if it is the last one and no dirty frame is
      before it. */
  lemma KeptKeeps(view: Frames, data: DataFile, deferred: seq<(nat, PageVal)>, logical: Pages, i: nat, body: Bytes)
    requires Coherent(view, data, deferred, logical) && i < |deferred| && deferred[i].0 in logical
    ensures var id := deferred[i].0;
            && Coherent(view, data, Rebodied(deferred, i, body),
                        if IsLast(deferred, i) && !(id in view && view[id].dirty)
                        then logical[id := PageVal(body, deferred[i].1.lsn)] else logical)
            && (IsLast(deferred, i) && !(id in view && view[id].dirty) ==> logical[id] == deferred[i].1)
  {
    var id, r := deferred[i].0, Rebodied(deferred, i, body);
    var logical' := if IsLast(deferred, i) && !(id in view && view[id].dirty)
                    then logical[id := PageVal(body, deferred[i].1.lsn)] else logical;
    assert PageAt(view, data, deferred, id, logical[id]);
    assert deferred[i] in deferred && id in Ids(deferred);
    if IsLast(deferred, i) {
      LastAt(deferred, i);
    }
    forall q | q in logical' ensures PageAt(view, data, r, q, logical'[q]) {
      assert PageAt(view, data, deferred, q, logical[q]);
      LastRebodied(deferred, i, body, q);
    }
  }

  lemma {:induction false} LastAt(deferred: seq<(nat, PageVal)>, i: nat)
    requires i < |deferred| && IsLast(deferred, i)
    ensures LastOf(deferred, deferred[i].0) == Some(deferred[i].1)
    decreases |deferred|
  {
    if i < |deferred| - 1 {
      LastAt(deferred[..|deferred| - 1], i);
    }
  }

  // ---- Pages and their log records -----------------------------------------------------------------

  /** The record with the page's number is a write of this page. The records are numbered from `from` on. */
  ghost predicate Described(live: seq<LogRecord>, from: nat, id: nat, p: PageVal) {
    && from <= p.lsn < from + |live|
    && live[p.lsn - from].kind.PageWrite? && live[p.lsn - from].kind.id == id
  }

  /** The record with this number is a write of this page with this body. */
  ghost predicate Logs(live: seq<LogRecord>, from: nat, id: nat, lsn: nat, body: Bytes) {
    && from <= lsn < from + |live|
    && var k := live[lsn - from].kind;
       k.PageWrite? && k.id == id && |k.image| == PAGE_SIZE && k.image[8..] == body
  }

  /** Pages in the pool fit; a dirty one is described by its record. */
  ghost predicate FramesFit(view: Frames, live: seq<LogRecord>, from: nat, next: nat) {
    forall id :: id in view ==>
        id < next && Sized(view[id].page)
        && (view[id].dirty ==> Described(live, from, id, view[id].page))
  }

  ghost predicate DeferredFit(deferred: seq<(nat, PageVal)>, live: seq<LogRecord>, from: nat, next: nat) {
    forall i :: 0 <= i < |deferred| ==>
      deferred[i].0 < next && Sized(deferred[i].1) && Described(live, from, deferred[i].0, deferred[i].1)
  }

  /** The body of a page after a replay of the log over the data file. */
  ghost predicate BodyKept(live: seq<LogRecord>, data: DataFile, id: nat, body: Bytes) {
    match LastImage(PagesOf(live), id)
    case None => id in data && |data[id]| >= 8 && data[id][8..] == body
    case Some(image) => |image| == PAGE_SIZE && image[8..] == body
  }

  /** The log remembers of every page what was logged of it last, or what it was when the meta page was written. */
  ghost predicate Remembered(live: seq<LogRecord>, data: DataFile, logged: map<nat, Bytes>, next: nat) {
    && (forall i :: 0 <= i < |live| && live[i].kind.PageWrite? ==> live[i].kind.id < next)
    && (forall id :: id in logged ==> id < next && BodyKept(live, data, id, logged[id]))
    && (forall id :: id in logged ==> id in data && |data[id]| == PAGE_SIZE)
  }

  /** A page that was logged since the last checkpoint has the number of the record that logged it last. */
  ghost predicate Tied(live: seq<LogRecord>, from: nat, id: nat, lsn: nat, body: Bytes) {
    id in Written(PagesOf(live)) ==> Logs(live, from, id, lsn, body)
  }

  /** What the pages contain, against what was logged of them. */
  ghost predicate Paired(live: seq<LogRecord>, from: nat, logical: Pages, logged: map<nat, Bytes>) {
    && logical.Keys == logged.Keys && (forall id :: id in logical ==> Sized(logical[id]))
    && forall id {:trigger Tied(live, from, id, logical[id].lsn, logged[id])} :: id in logical ==>
         Tied(live, from, id, logical[id].lsn, logged[id])
  }

  ghost predicate RootKept(live: seq<LogRecord>, metaRoot: Option<nat>, root: Option<nat>) {
    root == if MetasOf(live) == [] then metaRoot else MetasOf(live)[|MetasOf(live)| - 1]
  }

  /** One more record that does not write a page. */
  lemma {:induction false} RememberedMore(live: seq<LogRecord>, data: DataFile, logged: map<nat, Bytes>, next: nat,
      r: LogRecord)
    requires Remembered(live, data, logged, next) && !r.kind.PageWrite?
    ensures Remembered(live + [r], data, logged, next)
  {
    forall id | id in logged ensures BodyKept(live + [r], data, id, logged[id]) {
      LastOfMore(live, r, id);
    }
  }

  /** A page is logged. */
  lemma {:induction false} RememberedMark(live: seq<LogRecord>, data: DataFile, logged: map<nat, Bytes>, next: nat,
      r: LogRecord)
    requires Remembered(live, data, logged, next) && r.kind.PageWrite? && r.kind.id in logged
    requires |r.kind.image| == PAGE_SIZE
    ensures Remembered(live + [r], data, logged[r.kind.id := r.kind.image[8..]], next)
  {
    var logged' := logged[r.kind.id := r.kind.image[8..]];
    forall id | id in logged' ensures BodyKept(live + [r], data, id, logged'[id]) {
      LastOfMore(live, r, id);
    }
  }

  /** A page that has a record is written: the log has its contents anyway. */
  lemma {:induction false} RememberedWrite(live: seq<LogRecord>, data: DataFile, logged: map<nat, Bytes>, next: nat,
      id: nat, bs: Bytes, i: nat)
    requires |bs| == PAGE_SIZE && Remembered(live, data, logged, next) && i < |live| && live[i].kind.PageWrite?
             && live[i].kind.id == id
    ensures Remembered(live, data[id := bs], logged, next)
  {
    PageIn(live, i);
    LastOfWritten(PagesOf(live), id);
    forall q | q in logged ensures BodyKept(live, data[id := bs], q, logged[q]) {
    }
  }

  /** A new page gets its first contents, in the file only. */
  lemma {:induction false} RememberedBlank(live: seq<LogRecord>, data: DataFile, logged: map<nat, Bytes>, id: nat,
      p: PageVal)
    requires Remembered(live, data, logged, id + 1) && Sized(p) && id !in logged && id !in Written(PagesOf(live))
    ensures Remembered(live, data[id := ToBytes(p)], logged[id := p.body], id + 1)
  {
    PageTrip(p);
    assert ToBytes(p)[8..] == p.body;
    var data', logged' := data[id := ToBytes(p)], logged[id := p.body];
    forall q | q in logged' ensures BodyKept(live, data', q, logged'[q]) {
      if q == id {
        LastOfWritten(PagesOf(live), id);
      }
    }
  }

  /** One more record, of this page or of none. */
  lemma {:induction false} PairedMore(live: seq<LogRecord>, from: nat, logical: Pages, logged: map<nat, Bytes>,
      r: LogRecord)
    requires Paired(live, from, logical, logged) && !r.kind.PageWrite?
    ensures Paired(live + [r], from, logical, logged)
  {
    forall id | id in logical ensures Tied(live + [r], from, id, logical[id].lsn, logged[id]) {
      WrittenMore(live, r, id);
      assert Tied(live, from, id, logical[id].lsn, logged[id]);
    }
  }

  lemma {:induction false} PairedMark(live: seq<LogRecord>, from: nat, logical: Pages, logged: map<nat, Bytes>,
      r: LogRecord, p: PageVal)
    requires Paired(live, from, logical, logged) && r.kind.PageWrite? && r.kind.id in logical && Sized(p)
    requires |r.kind.image| == PAGE_SIZE && r.kind.image[8..] == p.body && p.lsn == from + |live|
    ensures Paired(live + [r], from, logical[r.kind.id := p], logged[r.kind.id := p.body])
  {
    var logical', logged' := logical[r.kind.id := p], logged[r.kind.id := p.body];
    forall id | id in logical' ensures Tied(live + [r], from, id, logical'[id].lsn, logged'[id]) {
      WrittenMore(live, r, id);
      if id != r.kind.id {
        assert Tied(live, from, id, logical[id].lsn, logged[id]);
      }
    }
  }

  lemma WrittenMore(live: seq<LogRecord>, r: LogRecord, id: nat)
    ensures id in Written(PagesOf(live + [r])) <==>
              id in Written(PagesOf(live)) || (r.kind.PageWrite? && r.kind.id == id)
  {
    LastOfMore(live, r, id);
    LastOfWritten(PagesOf(live), id);
    LastOfWritten(PagesOf(live + [r]), id);
  }

  lemma {:induction false} NotBelow(live: seq<LogRecord>, id: nat)
    requires forall i :: 0 <= i < |live| && live[i].kind.PageWrite? ==> live[i].kind.id < id
    ensures id !in Written(PagesOf(live))
    decreases |live|
  {
    if live != [] {
      var n := |live| - 1;
      NotBelow(live[..n], id);
      LastOfWritten(PagesOf(live), id);
      LastOfWritten(PagesOf(live[..n]), id);
      LastOfMore(live[..n], live[n], id);
      assert live == live[..n] + [live[n]];
    }
  }

  // ---- The state of the pager, as values -----------------------------------------------------------

  /** The log since the last checkpoint, with how much of it is durable and where the transaction that is being applied
      begins; the data file, now and when its meta page was last written; what the pages contain, and what was logged of
      them last; pool and deferred images. */
  datatype Snap = Snap(live: seq<LogRecord>, from: nat, durable: nat, open: Option<nat>, data: DataFile,
                       stable: DataFile, bound: nat, metaRoot: Option<nat>, root: Option<nat>, next: nat,
                       logical: Pages, logged: map<nat, Bytes>, view: Frames, writing: bool,
                       deferred: seq<(nat, PageVal)>)

  /** What has to hold of it, one aspect at a time. */
  datatype Aspect = LogOrder | WriteAhead | Memory | Frames

  ghost predicate Keeps(s: Snap, a: Aspect) {
    match a
    case LogOrder =>
      && InOrder(s.live, s.durable, s.open) && AllFit(s.live)
      && (s.open.Some? ==> s.writing) && (!s.writing ==> s.deferred == [])
    case WriteAhead => Guarded(s.data, s.stable, s.bound, s.live, s.durable) && s.bound <= s.next
    case Memory =>
      && Remembered(s.live, s.data, s.logged, s.next) && Paired(s.live, s.from, s.logical, s.logged)
      && RootKept(s.live, s.metaRoot, s.root)
    case Frames => FramesFit(s.view, s.live, s.from, s.next) && DeferredFit(s.deferred, s.live, s.from, s.next)
  }

  ghost predicate Sound(s: Snap) {
    forall a: Aspect :: Keeps(s, a)
  }

  lemma Look(s: Snap)
    requires Sound(s)
    ensures Keeps(s, LogOrder) && Keeps(s, WriteAhead) && Keeps(s, Memory) && Keeps(s, Frames)
  {
  }

  lemma Settles(s: Snap)
    requires Sound(s)
    ensures s.bound <= s.next && s.durable <= |s.live| && (s.open.Some? ==> s.writing)
            && (!s.writing ==> s.deferred == [])
  {
    Look(s);
  }

  /** More of the log becomes durable. */
  lemma {:induction false} SoundSync(s: Snap, durable: nat)
    requires Sound(s) && s.open == None && s.durable <= durable <= |s.live|
    ensures Sound(s.(durable := durable))
  {
    Look(s);
    OrderDurable(s.live, s.durable, durable);
    GuardedMore(s.data, s.stable, s.bound, s.live, s.durable, [], durable);
    assert s.live + [] == s.live;
  }

  /** A dirty page whose record is durable is written. */
  lemma {:induction false} SoundWrite(s: Snap, id: nat, p: PageVal)
    requires Sound(s) && Sized(p) && Described(s.live, s.from, id, p) && p.lsn - s.from < s.durable
    ensures Sound(s.(data := s.data[id := ToBytes(p)]))
  {
    Look(s);
    PageTrip(p);
    GuardedWrite(s.data, s.stable, s.bound, s.live, s.durable, id, ToBytes(p), p.lsn - s.from);
    RememberedWrite(s.live, s.data, s.logged, s.next, id, ToBytes(p), p.lsn - s.from);
  }

  /** A frame is replaced. */
  lemma SoundFrame(s: Snap, id: nat, f: Frame)
    requires Sound(s) && id < s.next && Sized(f.page) && (f.dirty ==> Described(s.live, s.from, id, f.page))
    ensures Sound(s.(view := s.view[id := f]))
  {
    Look(s);
  }

  /** What leaves the pool may be kept back. */
  lemma SoundDefer(s: Snap, evicted: seq<(nat, PageVal)>)
    requires Sound(s) && s.writing && DeferredFit(evicted, s.live, s.from, s.next)
    ensures Sound(s.(deferred := s.deferred + evicted))
  {
    Look(s);
  }

  /** The oldest image that was kept back can be written, and then forgotten. */
  lemma OldestFits(s: Snap)
    requires Sound(s) && s.deferred != []
    ensures Sized(s.deferred[0].1) && Described(s.live, s.from, s.deferred[0].0, s.deferred[0].1)
    ensures Sound(s.(deferred := s.deferred[1..]))
  {
    Look(s);
  }

  /** A frame comes in, another may go. */
  lemma SoundSwap(s: Snap, id: nat, f: Frame, victim: Option<nat>)
    requires Sound(s) && id < s.next && Sized(f.page) && (f.dirty ==> Described(s.live, s.from, id, f.page))
    requires victim.Some? ==> victim.value in s.view
    ensures Sound(s.(view := Rest(s.view, victim)[id := f]))
    ensures DeferredFit(Evicted(s.view, victim), s.live, s.from, s.next)
  {
    Look(s);
  }

  /** One more record, and perhaps more of the log durable: all but the order of the log. */
  lemma {:induction false} AppendRest(s: Snap, r: LogRecord, s': Snap)
    requires Sound(s) && !r.kind.PageWrite? && s.durable <= s'.durable <= |s.live| + 1
    requires s' == s.(live := s.live + [r], root := s'.root, durable := s'.durable, open := s'.open,
             writing := s'.writing)
    requires s'.root == if r.kind.MetaUpdate? then r.kind.root else s.root
    ensures Keeps(s', WriteAhead) && Keeps(s', Memory) && Keeps(s', Frames)
  {
    Look(s);
    GuardedMore(s.data, s.stable, s.bound, s.live, s.durable, [r], s'.durable);
    RememberedMore(s.live, s.data, s.logged, s.next, r);
    PairedMore(s.live, s.from, s.logical, s.logged, r);
    LastOfMore(s.live, r, 0);
  }

  /** A record that writes no page is logged. */
  lemma {:induction false} SoundAppend(s: Snap, r: LogRecord)
    requires Sound(s) && Fits(r) && !r.kind.PageWrite? && if s.open.Some? then IsChange(r) else IsLoose(r)
    ensures Sound(s.(live := s.live + [r], root := if r.kind.MetaUpdate? then r.kind.root else s.root))
  {
    assert Keeps(s, LogOrder);
    OrderMore(s.live, s.durable, s.open, r);
    AppendRest(s, r, s.(live := s.live + [r], root := if r.kind.MetaUpdate? then r.kind.root else s.root));
  }

  /** A page is logged; from now on it contains what was logged, under the number of the record. */
  lemma {:induction false} SoundMark(s: Snap, r: LogRecord, p: PageVal)
    requires Sound(s) && Fits(r) && r.kind.PageWrite? && r.kind.id in s.logical && r.kind.image[8..] == p.body
             && Sized(p)
    requires p.lsn == s.from + |s.live|
    ensures Sound(s.(live := s.live + [r], logical := s.logical[r.kind.id := p],
                     logged := s.logged[r.kind.id := p.body]))
    ensures Described(s.live + [r], s.from, r.kind.id, p)
  {
    MarkOrder(s, r);
    MarkMemory(s, r, p);
    assert Keeps(s, Frames);
  }

  lemma {:induction false} MarkOrder(s: Snap, r: LogRecord)
    requires Sound(s) && Fits(r) && r.kind.PageWrite?
    ensures InOrder(s.live + [r], s.durable, s.open) && AllFit(s.live + [r])
    ensures Guarded(s.data, s.stable, s.bound, s.live + [r], s.durable)
    ensures (s.open.Some? ==> s.writing) && (!s.writing ==> s.deferred == []) && s.bound <= s.next
  {
    Look(s);
    OrderMore(s.live, s.durable, s.open, r);
    GuardedMore(s.data, s.stable, s.bound, s.live, s.durable, [r], s.durable);
  }

  lemma {:induction false} MarkMemory(s: Snap, r: LogRecord, p: PageVal)
    requires Sound(s) && Fits(r) && r.kind.PageWrite? && r.kind.id in s.logical && r.kind.image[8..] == p.body
             && Sized(p) && p.lsn == s.from + |s.live|
    ensures Remembered(s.live + [r], s.data, s.logged[r.kind.id := p.body], s.next)
            && RootKept(s.live + [r], s.metaRoot, s.root)
    ensures Paired(s.live + [r], s.from, s.logical[r.kind.id := p], s.logged[r.kind.id := p.body])
  {
    assert Keeps(s, Memory);
    RememberedMark(s.live, s.data, s.logged, s.next, r);
    PairedMark(s.live, s.from, s.logical, s.logged, r, p);
    LastOfMore(s.live, r, 0);
  }

  /** A transaction begins to be applied. */
  lemma {:induction false} SoundOpens(s: Snap, r: LogRecord)
    requires Sound(s) && s.open == None && !s.writing && Fits(r) && r.kind.TxnBegin?
    ensures Sound(s.(live := s.live + [r], open := Some(|s.live|), writing := true))
  {
    assert Keeps(s, LogOrder);
    OrderOpens(s.live, s.durable, r);
    AppendRest(s, r, s.(live := s.live + [r], open := Some(|s.live|), writing := true));
  }

  /** Its commit record is logged and all of the log is durable. */
  lemma {:induction false} SoundCommits(s: Snap, r: LogRecord)
    requires Sound(s) && s.open.Some? && Fits(r) && s.open.value < |s.live| && s.live[s.open.value].kind.TxnBegin?
    requires r.kind == TxnCommit(s.live[s.open.value].kind.txn)
    ensures Sound(s.(live := s.live + [r], open := None, durable := |s.live| + 1))
  {
    assert Keeps(s, LogOrder);
    OrderCommits(s.live, s.durable, s.open.value, r);
    AppendRest(s, r, s.(live := s.live + [r], open := None, durable := |s.live| + 1));
  }

  /** A page is allocated: the next id moves on. */
  lemma SoundNext(s: Snap)
    requires Sound(s)
    ensures Sound(s.(next := s.next + 1))
    ensures s.next !in Written(PagesOf(s.live)) && s.next !in Ids(s.deferred) && s.next !in s.logical
            && s.next !in s.view
  {
    Look(s);
    NotBelow(s.live, s.next);
  }

  /** A new page gets its first image. */
  lemma {:induction false} SoundBlank(s: Snap, id: nat, p: PageVal)
    requires Sound(s) && s.bound <= id && id + 1 == s.next && id !in s.logical && id !in Written(PagesOf(s.live))
             && Sized(p)
    ensures Sound(s.(data := s.data[id := ToBytes(p)], logical := s.logical[id := p], logged := s.logged[id := p.body]))
  {
    Look(s);
    RememberedBlank(s.live, s.data, s.logged, id, p);
    assert Paired(s.live, s.from, s.logical[id := p], s.logged[id := p.body]) by {
      forall q | q in s.logical ensures Tied(s.live, s.from, q, s.logical[q].lsn, s.logged[q]) {
      }
    }
    GuardedWrite(s.data, s.stable, s.bound, s.live, s.durable, id, ToBytes(p), 0);
  }

  /** The meta page is written. */
  lemma SoundMeta(s: Snap)
    requires Sound(s)
    ensures Sound(s.(stable := s.data, bound := s.next, metaRoot := s.root))
  {
    Look(s);
  }

  /** The log is emptied, all pages being on disk. */
  lemma {:induction false} SoundEmpty(s: Snap, from: nat)
    requires Sound(s) && s.metaRoot == s.root && s.bound == s.next && s.stable == s.data && s.deferred == []
             && s.open == None
    requires (forall id :: id in s.view ==> !s.view[id].dirty) && forall id :: id in s.logical ==>
             OnDisk(s.data, id, s.logical[id])
    ensures Sound(s.(live := [], from := from, durable := 0, logged := Bodies(s.logical)))
  {
    Look(s);
    EmptyMemory(s, from);
  }

  lemma {:induction false} EmptyMemory(s: Snap, from: nat)
    requires Keeps(s, Memory) && forall id :: id in s.logical ==> OnDisk(s.data, id, s.logical[id])
    ensures Remembered([], s.data, Bodies(s.logical), s.next) && Paired([], from, s.logical, Bodies(s.logical))
  {
    forall id | id in s.logical ensures BodyKept([], s.data, id, s.logical[id].body) {
      PageTrip(s.logical[id]);
    }
  }

  function Bodies(pages: Pages): map<nat, Bytes> {
    map id | id in pages :: pages[id].body
  }

  /** A page changes after it was logged. */
  lemma SoundChange(s: Snap, id: nat, body: Bytes)
    requires Sound(s) && id in s.logical && |body| == BODY_SIZE
    ensures Sound(s.(logical := s.logical[id := PageVal(body, s.logical[id].lsn)]))
  {
    Look(s);
    var logical' := s.logical[id := PageVal(body, s.logical[id].lsn)];
    forall q | q in logical' ensures Tied(s.live, s.from, q, logical'[q].lsn, s.logged[q]) {
      assert Tied(s.live, s.from, q, s.logical[q].lsn, s.logged[q]);
    }
    assert Paired(s.live, s.from, logical', s.logged);
  }

  /** It changes in its frame. */
  lemma SoundFrameChange(s: Snap, id: nat, p: PageVal)
    requires Sound(s) && id in s.logical && id in s.view && |p.body| == BODY_SIZE && p.lsn == s.view[id].page.lsn
    requires s.view[id].dirty ==> s.logical[id] == s.view[id].page
    ensures Sound(s.(view := s.view[id := s.view[id].(page := p)],
                     logical := if s.view[id].dirty then s.logical[id := p] else s.logical))
  {
    Look(s);
    SoundFrame(s, id, s.view[id].(page := p));
    if s.view[id].dirty {
      SoundChange(s.(view := s.view[id := s.view[id].(page := p)]), id, p.body);
    }
  }

  /** It changes in an image that was kept back. */
  lemma SoundKeptChange(s: Snap, i: nat, body: Bytes)
    requires Sound(s) && i < |s.deferred| && s.deferred[i].0 in s.logical && |body| == BODY_SIZE
    ensures var id := s.deferred[i].0;
            s.logical[id] == s.deferred[i].1 ==>
              Sound(s.(deferred := Rebodied(s.deferred, i, body),
                       logical := s.logical[id := PageVal(body, s.deferred[i].1.lsn)]))
    ensures Sound(s.(deferred := Rebodied(s.deferred, i, body)))
  {
    Look(s);
    var s' := s.(deferred := Rebodied(s.deferred, i, body));
    assert Keeps(s', Frames);
    assert Sound(s');
    SoundChange(s', s.deferred[i].0, body);
  }

  /** The pages whose frame has other contents than the page. */
  ghost function StaleIn(view: Frames, logical: Pages): set<nat> {
    set id | id in view && id in logical && view[id].page != logical[id]
  }

  /** A frame with the contents of its page makes nothing stale, whatever frame goes for it. */
  lemma StaleShrinks(view: Frames, logical: Pages, id: nat, f: Frame, victim: Option<nat>)
    ensures StaleIn(Rest(view, victim)[id := f], logical[id := f.page]) <= StaleIn(view, logical) - {id}
  {
  }

  /** The log is cut after n records. */
  ghost predicate CutAt(s: Snap, n: nat, lsn: nat) {
    && s.durable <= n <= |s.live| && Effective(s.open, n) <= |s.live|
    && var r, done := TakeAll(Begin(lsn), s.live[..n]), s.live[..Effective(s.open, n)];
       && r.writes == PagesOf(done) && r.root == LastOr(MetasOf(done), None)
       && forall id: nat :: id < s.bound ==> Same(WriteAll(s.data, r.writes), WriteAll(s.stable, r.writes), id)
  }

  lemma {:induction false} CutAnywhere(s: Snap, n: nat, lsn: nat)
    requires Sound(s) && s.durable <= n <= |s.live|
    ensures CutAt(s, n, lsn)
  {
    Look(s);
    CutReplay(s.live, s.durable, s.open, n);
    LsnApart(s.live[..n], lsn);
    forall id: nat | id < s.bound
      ensures var r := TakeAll(Begin(lsn), s.live[..n]);
              Same(WriteAll(s.data, r.writes), WriteAll(s.stable, r.writes), id)
    {
      GuardedReplay(s.data, s.stable, s.bound, s.live, s.durable, s.open, n, lsn, id);
    }
  }

  lemma Recalls(s: Snap)
    requires Sound(s)
    ensures RootKept(s.live, s.metaRoot, s.root)
    ensures forall id {:trigger BodyKept(s.live, s.data, id, s.logged[id])} :: id in s.logged ==>
            BodyKept(s.live, s.data, id, s.logged[id])
  {
    assert Keeps(s, Memory);
  }

  /** Replay of a whole log outside transactions. */
  lemma {:induction false} RecoverAll(s: Snap, lsn: nat)
    requires Sound(s) && s.open == None && s.durable == |s.live|
    ensures var r := WalRecovery.Recover(Db(s.data, s.metaRoot, s.bound), TakeAll(Begin(lsn), s.live));
            r.root == s.root && forall id :: id in s.logged ==> BodyIs(r.data, id, s.logged[id])
  {
    CutAnywhere(s, |s.live|, lsn);
    assert s.live[..|s.live|] == s.live;
    Recalls(s);
    forall id | id in s.logged ensures BodyIs(WriteAll(s.data, PagesOf(s.live)), id, s.logged[id]) {
      RecoveredBody(s.live, s.data, id, s.logged[id]);
    }
  }

  predicate BodyIs(data: DataFile, id: nat, body: Bytes) {
    id in data && |data[id]| >= 8 && data[id][8..] == body
  }

  lemma {:induction false} RecoveredBody(live: seq<LogRecord>, data: DataFile, id: nat, body: Bytes)
    requires BodyKept(live, data, id, body)
    ensures BodyIs(WriteAll(data, PagesOf(live)), id, body)
  {
    LastWritten(data, PagesOf(live), id);
  }

  // ---- Opening ---------------------------------------------------------------------------------

  ghost function RecoveredDb(db: Db, crc: CrcFn, bytes: Bytes, lsn: nat): Db {
    WalRecovery.Recover(db, TakeAll(Begin(lsn), ParseAll(crc, bytes)))
  }

  /** The pages of a data file, as they are read back. */
  ghost function OpenPages(data: DataFile, next: nat): Pages {
    map id | id in data && id < next && |data[id]| == PAGE_SIZE :: FromBytes(data[id])
  }

  /** Bytes of the right size are the bytes of the page that is read from them. */
  lemma BytesTrip(bs: Bytes)
    requires |bs| == PAGE_SIZE
    ensures Sized(FromBytes(bs)) && ToBytes(FromBytes(bs)) == bs
  {
    LEBack(bs[..8]);
    Widths();
    assert bs == bs[..8] + bs[8..];
  }

  lemma NoRecords(crc: CrcFn)
    ensures MaxLsn(1, ParseAll(crc, [])) == 1
  {
  }

  lemma OpenCoherent(data: DataFile, next: nat)
    ensures Coherent(map[], data, [], OpenPages(data, next))
    ensures forall from, root :: Sound(Snap([], from, 0, None, data, data, next, root, root, next,
            OpenPages(data, next), Bodies(OpenPages(data, next)), map[], false, []))
  {
    forall id | id in OpenPages(data, next) ensures OnDisk(data, id, OpenPages(data, next)[id])
      && Sized(OpenPages(data, next)[id]) {
      BytesTrip(data[id]);
    }
  }

  /** A new page would push this one out: the pool is full, and of the pages that can go it was left unused longest. */
  ghost predicate Pushes(view: Frames, used: map<nat, nat>, capacity: nat, id: nat) {
    |view| >= capacity && LeastRecent(view, used, id)
  }

  /** The state after other frames came and went: the file, what is durable or kept back, and the pool are as in
      `at`. */
  function Settling(s: Snap, at: Snap): Snap {
    s.(durable := at.durable, data := at.data, deferred := at.deferred, view := at.view)
  }

  /** A page was logged. */
  function Marked(s: Snap, n: nat, id: nat, page: PageVal): Snap {
    s.(live := s.live + [LogRecord(n, PageWrite(id, ToBytes(page)))],
       logical := s.logical[id := PageVal(page.body, n)], logged := s.logged[id := page.body])
  }

  /** A page was allocated. */
  function Allotted(s: Snap, id: nat, body: Bytes): Snap {
    s.(next := id + 1, logical := s.logical[id := PageVal(body, 0)], logged := s.logged[id := body])
  }

  /** A page was changed, where the pager keeps it. */
  function Altered(s: Snap, id: nat, body: Bytes, kept: bool): Snap
    requires id in s.logical
  {
    s.(logical := if kept then s.logical[id := PageVal(body, s.logical[id].lsn)] else s.logical)
  }

  /** A page was logged whole, and a new one allocated. */
  ghost predicate HalfSplit(s: Snap, s': Snap, n: nat, id: nat, page: PageVal, right: nat, blank: Bytes) {
    match page
    case PageVal(_, _) => id != right && s' == Settling(Allotted(Marked(s, n, id, page), right, blank), s')
  }

  /** A page was split: logged whole, a new one allocated and logged, and the first one cut, where the pager kept it. */
  ghost predicate WasSplit(s: Snap, s': Snap, n: nat, id: nat, page: PageVal, right: nat, half: Bytes, upper: Bytes,
                           kept: bool) {
    match page
    case PageVal(body, _) =>
      && s'.live == s.live + [LogRecord(n, PageWrite(id, ToBytes(page))),
                              LogRecord(n + 1, PageWrite(right, ToBytes(PageVal(upper, 0))))]
      && s'.logical == s.logical[id := PageVal(if kept then half else body, n)][right := PageVal(upper, n + 1)]
      && s'.logged == s.logged[id := body][right := upper]
      && s' == Settling(s.(live := s'.live, next := right + 1, logical := s'.logical, logged := s'.logged), s')
  }

  lemma HalfSplits(s: Snap, s1: Snap, s2: Snap, n: nat, id: nat, page: PageVal, right: nat, blank: Bytes)
    requires id != right && s1 == Settling(Marked(s, n, id, page), s1) && s2 == Settling(Allotted(s1, right, blank), s2)
    ensures HalfSplit(s, s2, n, id, page, right, blank)
  {
  }

  lemma Splits(s: Snap, s2: Snap, s3: Snap, s4: Snap, n: nat, id: nat, page: PageVal, right: nat, blank: Bytes,
               half: Bytes, upper: Bytes, kept: bool)
    requires HalfSplit(s, s2, n, id, page, right, blank) && s3 == Settling(Altered(s2, id, half, kept), s3)
    requires s4 == Settling(Marked(s3, n + 1, right, PageVal(upper, 0)), s4)
    ensures WasSplit(s, s4, n, id, page, right, half, upper, kept)
  {
    var a := LogRecord(n, PageWrite(id, ToBytes(page)));
    var b := LogRecord(n + 1, PageWrite(right, ToBytes(PageVal(upper, 0))));
    assert s4.live == s.live + [a] + [b] == s.live + [a, b];
    SplitContents(s.logical, id, page.body, right, blank, half, upper, n, kept);
    assert s4.logged == s.logged[id := page.body][right := blank][right := upper];
    assert s4.logged == s.logged[id := page.body][right := upper];
  }

  lemma SplitContents(l: Pages, id: nat, whole: Bytes, right: nat, blank: Bytes, half: Bytes, upper: Bytes, n: nat,
                      kept: bool)
    requires id != right
    ensures var m := l[id := PageVal(whole, n)][right := PageVal(blank, 0)];
            (if kept then m[id := PageVal(half, m[id].lsn)] else m)[right := PageVal(upper, n + 1)] ==
            l[id := PageVal(if kept then half else whole, n)][right := PageVal(upper, n + 1)]
  {
  }

  lemma OneMore(view: Frames, before: Frames, id: nat)
    requires view.Keys <= before.Keys + {id}
    ensures |view| <= |before| + 1
  {
    Fewer(view.Keys, before.Keys + {id});
    assert |view| == |view.Keys| && |before| == |before.Keys|;
  }

  lemma Fewer(a: set<nat>, b: set<nat>)
    requires a <= b
    ensures |a| <= |b|
    decreases |a|
  {
    if a != {} {
      var x :| x in a;
      Fewer(a - {x}, b - {x});
    }
  }

  /** Which frame goes: none while there is room or every frame is pinned, else the one least recently used. */
  ghost predicate Chosen(view: Frames, used: map<nat, nat>, capacity: nat, victim: Option<nat>) {
    match victim
    case None => |view| < capacity || AllPinned(view)
    case Some(v) => |view| >= capacity && !AllPinned(view) && LeastRecent(view, used, v)
  }

  class FilePager {
    const pool: BufferPool
    const wal: WAL
    /** The data file: page images, and the meta page's root and next page id. */
    var data: DataFile
    var metaRoot: Option<nat>
    var metaNext: nat
    var nextId: nat
    var rootId: Option<nat>
    var txnWriting: bool
    var deferred: seq<(nat, PageVal)>
    /** What every allocated page contains: what it was last changed to where the pager keeps it. */
    ghost var logical: Pages
    /** What was logged of it last; without a record since the last checkpoint, what it contained then. */
    ghost var logged: map<nat, Bytes>
    /** The page images when the meta page was last written. */
    ghost var stable: DataFile
    /** Where the begin record of the transaction that is being applied stands, until its commit record is durable. */
    ghost var open: Option<nat>

    /** The log is sound, and was empty when this process began to write it. */
    ghost predicate LogOk()
      reads wal
    {
      wal.Valid() && wal.Logged() && wal.Truthful() && wal.base == []
    }

    /** The next number follows those of the records since the last checkpoint. */
    lemma NextNumber()
      requires LogOk()
      ensures wal.nextLsn == Now().from + |Now().live|
    {
      assert |wal.history| == |wal.encoded|;
    }

    ghost function Now(): Snap
      requires LogOk()
      reads this, pool, wal
    {
      Snap(wal.history[wal.dropped..], wal.first + wal.dropped, wal.wrote - wal.dropped, open, data, stable, metaNext,
           metaRoot, rootId, nextId, logical, logged, pool.view, txnWriting, deferred)
    }

    /** Every invariant but that of where the pages are. */
    ghost predicate Base()
      reads this, pool, wal
    {
      pool.Valid() && LogOk() && Sound(Now())
    }

    ghost predicate Valid()
      reads this, pool, wal
    {
      Base() && Coherent(pool.view, data, deferred, logical)
    }

    ghost function Stale(): set<nat>
      reads this, pool
    {
      StaleIn(pool.view, logical)
    }

    /** A new database: an empty data file and an empty log. */
    constructor (capacity: nat, crc: CrcFn)
      requires capacity >= 1
      ensures Valid() && fresh(pool) && fresh(wal) && logical == map[] && pool.view == map[]
              && pool.capacity == capacity
      ensures !txnWriting && nextId == 0 && rootId == None && wal.crc == crc && Now().live == [] && wal.nextLsn == 1
    {
      pool := new BufferPool(capacity);
      wal := new WAL(crc, []);
      data, metaRoot, metaNext, nextId, rootId := map[], None, 0, 0, None;
      txnWriting, deferred, logical, logged, stable, open := false, [], map[], map[], map[], None;
      new;
      OpenCoherent(map[], 0);
      NoRecords(crc);
      assert Now() == Snap([], wal.first, 0, None, map[], map[], 0, None, None, 0, map[], map[], map[], false, []);
    }

    /** Open a database after a crash or a clean close: replay the log into the data file, write the meta page, empty
        the log. */
    constructor Open(capacity: nat, crc: CrcFn, data0: DataFile, root0: Option<nat>, next0: nat, bytes: Bytes)
      requires capacity >= 1
      ensures Valid() && fresh(pool) && fresh(wal) && !txnWriting && pool.view == map[] && wal.crc == crc
      ensures exists lsn: nat :: Db(data, rootId, nextId) == RecoveredDb(Db(data0, root0, next0), crc, bytes, lsn)
      ensures AsTheLogSays(crc, data0, root0, next0, bytes, data, rootId, nextId)
      ensures metaRoot == rootId && metaNext == nextId && wal.file == []
      ensures logical == OpenPages(data, nextId) && logged == Bodies(logical) && stable == data
    {
      var log, d, r, n := ReplayLog(crc, data0, root0, next0, bytes);
      pool := new BufferPool(capacity);
      wal := log;
      data, rootId, nextId, metaRoot, metaNext := d, r, n, r, n;
      txnWriting, deferred, stable, open := false, [], d, None;
      logical := OpenPages(d, n);
      logged := Bodies(OpenPages(d, n));
      new;
      OpenCoherent(d, nextId);
    }

    /** Open the log file, replay it over the data file, and empty it. */
    static method ReplayLog(crc: CrcFn, data0: DataFile, root0: Option<nat>, next0: nat, bytes: Bytes)
      returns (log: WAL, d: DataFile, r: Option<nat>, n: nat)
      ensures fresh(log) && log.crc == crc && log.Valid() && log.Logged() && log.Truthful() && log.base == []
              && log.file == []
      ensures log.dropped == log.wrote == |log.history|
      ensures exists lsn: nat :: Db(d, r, n) == RecoveredDb(Db(data0, root0, next0), crc, bytes, lsn)
      ensures AsTheLogSays(crc, data0, root0, next0, bytes, d, r, n)
    {
      log := new WAL(crc, bytes);
      ghost var lsn := log.nextLsn;
      var maxId, root, next;
      d, maxId, root, next := Wal.Recover(crc, bytes, data0, log.nextLsn);
      if bytes != [] {
        log.Checkpoint();
      }
      r := if root.Some? then root.value else root0;
      n := Max(next0, maxId + 1);
      assert Db(d, r, n) == RecoveredDb(Db(data0, root0, next0), crc, bytes, lsn);
      WalCounts.RecoverRestores(Db(data0, root0, next0), ParseAll(crc, bytes), lsn);
    }

    /** Each page has the image that the last effective record of it has, the root is that of the last effective root
        record, and the next page id is the least beyond the old one and the ids of the effective page records. */
    static ghost predicate AsTheLogSays(crc: CrcFn, data0: DataFile, root0: Option<nat>, next0: nat, bytes: Bytes,
                                        d: DataFile, r: Option<nat>, n: nat)
    {
      WalCounts.Restores(Db(data0, root0, next0), ParseAll(crc, bytes), |ParseAll(crc, bytes)|, Db(d, r, n))
    }

    // ---- Writing pages ------------------------------------------------------------------------

    /** The write-ahead rule: a dirty page may go to the data file only when the record that describes it, and all
        before it, are durable. */
    method WritePage(id: nat, page: PageVal)
      requires Base() && Sized(page) && Described(Now().live, Now().from, id, page)
      requires page.lsn <= wal.flushedLsn && page.lsn - Now().from < Now().durable && wal.Durable(page.lsn)
      modifies this`data
      ensures Base() && Now() == old(Now()).(data := old(data)[id := ToBytes(page)])
    {
      ghost var s := Now();
      SoundWrite(s, id, page);
      data := data[id := ToBytes(page)];
      assert pool.Valid() && LogOk();
      assert Now() == s.(data := data);
    }

    /** Make the log durable up to a record. */
    method SyncUpTo(lsn: nat)
      requires Base() && open == None && Now().from <= lsn < Now().from + |Now().live|
      modifies wal
      ensures Base() && Now() == old(Now()).(durable := Now().durable) && Now().durable >= old(Now().durable)
      ensures lsn <= wal.flushedLsn && lsn - Now().from < Now().durable && wal.Durable(lsn)
    {
      if lsn > wal.flushedLsn {
        SyncLog(lsn);
      }
      wal.RecordDurable(lsn);
    }

    method SyncLog(lsn: nat)
      requires Base() && open == None && wal.flushedLsn < lsn && Now().from <= lsn < Now().from + |Now().live|
      modifies wal
      ensures Base() && Now() == old(Now()).(durable := Now().durable) && Now().durable >= old(Now().durable)
      ensures lsn <= wal.flushedLsn
    {
      ghost var s := Now();
      NextNumber();
      WriteLog(lsn);
      SoundSync(s, Now().durable);
    }

    /** The part of the log up to a record goes to the file. */
    method WriteLog(lsn: nat)
      requires LogOk() && wal.flushedLsn < lsn < wal.nextLsn && Now().from <= lsn
      modifies wal
      ensures LogOk() && Now() == old(Now()).(durable := Now().durable)
      ensures old(Now().durable) <= Now().durable <= |Now().live| && lsn <= wal.flushedLsn
    {
      wal.FsyncUpTo(lsn);
    }

    /** Write a dirty page back: first the log up to its number, then the page. */
    method WriteBack(id: nat, page: PageVal)
      requires Base() && open == None && Sized(page) && Described(Now().live, Now().from, id, page)
      modifies this`data, wal
      ensures Base() && Now() == old(Now()).(durable := Now().durable, data := old(data)[id := ToBytes(page)])
      ensures Now().durable >= old(Now().durable)
    {
      SyncUpTo(page.lsn);
      WritePage(id, page);
    }

    /** A dirty page that has left the pool is kept back while a transaction applies, else written. */
    method LetGo(evicted: seq<(nat, PageVal)>)
      requires Base() && |evicted| <= 1 && DeferredFit(evicted, Now().live, Now().from, nextId)
      modifies this`data, this`deferred, wal
      ensures Base() && Now() == old(Now()).(durable := Now().durable, data := data, deferred := deferred)
      ensures data == if evicted == [] || txnWriting then old(data)
              else old(data)[evicted[0].0 := ToBytes(evicted[0].1)]
      ensures deferred == if txnWriting then old(deferred) + evicted else old(deferred)
      ensures Now().durable >= old(Now().durable)
    {
      Settles(Now());
      if evicted == [] {
        assert deferred + evicted == deferred;
      } else if txnWriting {
        ghost var s := Now();
        SoundDefer(s, evicted);
        deferred := deferred + evicted;
        assert pool.Valid() && LogOk();
        assert Now() == s.(deferred := deferred);
      } else {
        WriteBack(evicted[0].0, evicted[0].1);
      }
    }

    /** The pool takes a page in, and gives back the dirty one that has to leave. */
    method Admit(id: nat, page: PageVal, dirty: bool) returns (evicted: seq<(nat, PageVal)>, ghost victim: Option<nat>)
      requires Base() && id !in pool.view && id < nextId && Sized(page)
               && (dirty ==> Described(Now().live, Now().from, id, page))
      modifies pool
      ensures victim.Some? ==> victim.value != id && LeastRecent(old(pool.view), old(pool.used), victim.value)
      ensures victim == None <==> |old(pool.view)| < pool.capacity || AllPinned(old(pool.view))
      ensures Base() && Now() == old(Now()).(view := Rest(old(pool.view), victim)[id := Frame(page, dirty, 0)])
      ensures evicted == Evicted(old(pool.view), victim) && DeferredFit(evicted, Now().live, Now().from, nextId)
    {
      ghost var s := Now();
      evicted, victim := pool.Put(id, page, dirty);
      SoundSwap(s, id, Frame(page, dirty, 0), victim);
      assert pool.Valid() && LogOk();
      assert Now() == s.(view := pool.view);
    }

    /** Put a page into the pool; a dirty page that has to leave is written back, or deferred while a transaction
        applies. */
    method PoolPut(id: nat, page: PageVal, dirty: bool) returns (ghost victim: Option<nat>)
      requires Base() && Coherent(pool.view, data, deferred, logical - {id})
      requires id !in pool.view && id < nextId && Sized(page) && (dirty ==> Described(Now().live, Now().from, id, page))
      requires id in logical ==> if dirty then page == logical[id] else Backed(data, deferred, id, logical[id])
      modifies this`data, this`deferred, pool, wal
      ensures Valid() && Now() == old(Now()).(durable := Now().durable, data := data, deferred := deferred,
                view := pool.view)
      ensures Swapped(old(pool.view), old(data), old(deferred), id, Frame(page, dirty, 0), victim, pool.view, data,
              deferred)
      ensures deferred == if txnWriting then old(deferred) + Evicted(old(pool.view), victim) else old(deferred)
      ensures txnWriting || victim == None ==> data == old(data)
      ensures Chosen(old(pool.view), old(pool.used), pool.capacity, victim)
    {
      ghost var view0, data0, deferred0 := pool.view, data, deferred;
      Settles(Now());
      var evicted;
      evicted, victim := Admit(id, page, dirty);
      LetGo(evicted);
      PutKeeps(view0, data0, deferred0, logical, id, Frame(page, dirty, 0), victim, pool.view, data, deferred);
    }

    // ---- What the tree calls --------------------------------------------------------------------

    /** Allocate a page: it is in the pool and, at once, in the data file. */
    method NewPage(body: Bytes) returns (id: nat, ghost victim: Option<nat>)
      requires Valid() && |body| == BODY_SIZE
      modifies this`nextId, this`data, this`deferred, this`logical, this`logged, pool, wal
      ensures Valid() && id == old(nextId) && Stale() <= old(Stale()) && wal.nextLsn == old(wal.nextLsn)
      ensures Now() == Settling(Allotted(old(Now()), id, body), Now())
      ensures Chosen(old(pool.view), old(pool.used), pool.capacity, victim)
      ensures pool.view == Rest(old(pool.view), victim)[id := Frame(PageVal(body, 0), false, 0)]
      ensures deferred == if txnWriting then old(deferred) + Evicted(old(pool.view), victim) else old(deferred)
      ensures txnWriting || victim == None ==> data == old(data)[id := ToBytes(PageVal(body, 0))]
    {
      NextNumber();
      var page := PageVal(body, 0);
      id, victim := Allocate(page);
      StaleShrinks(old(pool.view), old(logical), id, Frame(page, false, 0), victim);
      FirstWrite(id, page);
      NextNumber();
    }

    /** The next id, with a clean frame, and nothing on disk yet. */
    method Allocate(page: PageVal) returns (id: nat, ghost victim: Option<nat>)
      requires Valid() && Sized(page)
      modifies this`nextId, this`data, this`deferred, pool, wal
      ensures Valid() && Unwritten(id, page) && id == old(nextId)
              && (txnWriting || victim == None ==> data == old(data))
      ensures Now() == old(Now()).(next := id + 1, durable := Now().durable, data := data, deferred := deferred,
                view := pool.view)
      ensures Chosen(old(pool.view), old(pool.used), pool.capacity, victim)
      ensures pool.view == Rest(old(pool.view), victim)[id := Frame(page, false, 0)]
      ensures deferred == if txnWriting then old(deferred) + Evicted(old(pool.view), victim) else old(deferred)
    {
      id := nextId;
      TakeId();
      victim := PoolPut(id, page, false);
    }

    /** The newest page: a clean frame, and no image in the file, the log or what was kept back. */
    ghost predicate Unwritten(id: nat, page: PageVal)
      requires LogOk()
      reads this, pool, wal
    {
      && metaNext <= id && id + 1 == nextId && id !in logical && id !in Ids(deferred)
      && id !in Written(PagesOf(Now().live))
      && id in pool.view && !pool.view[id].dirty && pool.view[id].page == page
    }

    method TakeId()
      requires Valid()
      modifies this`nextId
      ensures Valid() && nextId == old(nextId) + 1 && Now() == old(Now()).(next := nextId)
      ensures var id := old(nextId);
              && id !in Written(PagesOf(Now().live)) && id !in Ids(deferred) && id !in logical && id !in pool.view
              && metaNext <= id && logical - {id} == logical
    {
      ghost var s := Now();
      Settles(s);
      SoundNext(s);
      nextId := nextId + 1;
      assert pool.Valid() && LogOk();
      assert Now() == s.(next := nextId);
    }

    /** The first image of a new page goes to the file without a record. */
    method FirstWrite(id: nat, page: PageVal)
      requires Valid() && Sized(page) && Unwritten(id, page)
      modifies this`data, this`logical, this`logged
      ensures Valid() && Now() == old(Now()).(data := old(data)[id := ToBytes(page)],
                logical := old(logical)[id := page], logged := old(logged)[id := page.body])
    {
      ghost var s := Now();
      BlankKeeps(pool.view, data, deferred, logical, id, page);
      SoundBlank(s, id, page);
      data := data[id := ToBytes(page)];
      logical, logged := logical[id := page], logged[id := page.body];
      assert pool.Valid() && LogOk();
      assert Now() == s.(data := data, logical := logical, logged := logged);
    }

    /** What reading a page gives: its frame, else the data file; deferred images are not looked at. */
    ghost function Reads(id: nat): PageVal
      requires id in data
      reads this, pool
    {
      if id in pool.view then pool.view[id].page else FromBytes(data[id])
    }

    /** Reading a page gives its contents if and only if its frame is not stale, or it has no frame and the file is not
        behind a deferred image. */
    lemma CurrentIff(id: nat)
      requires Valid() && id in logical
      ensures id in data
      ensures Reads(id) == logical[id] <==>
                if id in pool.view then id !in Stale() else id !in Ids(deferred) || data[id] == ToBytes(logical[id])
    {
      InData(id);
      if id !in pool.view {
        InFile(id);
      }
    }

    /** With nothing deferred, every page reads as its contents if and only if no frame is stale. */
    lemma AllCurrent()
      requires Valid() && deferred == []
      ensures forall id :: id in logical ==> id in data
      ensures (forall id :: id in logical ==> Reads(id) == logical[id]) <==> Stale() == {}
    {
      forall id | id in logical ensures id in data && (Reads(id) == logical[id] <==> id !in Stale()) {
        CurrentIff(id);
      }
      assert Stale() == {} <==> forall id :: id in logical ==> id !in Stale() by {
        assert forall id :: id in Stale() ==> id in logical;
      }
    }

    /** Read a page, and keep what was read in the pool. */
    method GetPage(id: nat) returns (p: PageVal)
      requires Valid() && id in logical
      modifies this`data, this`deferred, pool, wal
      ensures Valid() && Now() == old(Now()).(durable := Now().durable, data := data, deferred := deferred,
                view := pool.view)
      ensures id in old(data) && p == old(Reads(id)) && id in pool.view && pool.view[id].page == p
      ensures if id in old(pool.view) then Now() == old(Now())
              else Stale() <= old(Stale()) + {id} && !pool.view[id].dirty
      ensures wal.nextLsn == old(wal.nextLsn) && pool.view.Keys <= old(pool.view.Keys) + {id}
      ensures !txnWriting ==> Stale() <= old(Stale())
    {
      NextNumber();
      CurrentIff(id);
      Settles(Now());
      var hit := Cached(id);
      if hit.Some? {
        NextNumber();
        return hit.value;
      }
      InFile(id);
      p := FromBytes(data[id]);
      var _ := PoolPut(id, p, false);
      NextNumber();
    }

    method Cached(id: nat) returns (hit: Option<PageVal>)
      requires Valid()
      modifies pool
      ensures Valid() && Now() == old(Now()) && hit == if id in pool.view then Some(pool.view[id].page) else None
    {
      ghost var s := Now();
      hit := pool.Get(id);
      assert LogOk();
      assert Now() == s;
    }

    lemma InData(id: nat)
      requires Valid() && id in logical
      ensures id in data && |data[id]| == PAGE_SIZE && id < nextId && Sized(logical[id])
    {
      Look(Now());
    }

    /** What the file has of a page that has no frame. */
    lemma InFile(id: nat)
      requires Valid() && id in logical && id !in pool.view
      ensures id in data && id < nextId && Sized(FromBytes(data[id])) && Backed(data, deferred, id, logical[id])
      ensures FromBytes(data[id]) == logical[id] <==> id !in Ids(deferred) || data[id] == ToBytes(logical[id])
      ensures Coherent(pool.view, data, deferred, logical - {id})
    {
      InData(id);
      assert PageAt(pool.view, data, deferred, id, logical[id]);
      BytesTrip(data[id]);
      PageTrip(logical[id]);
      Without(id);
    }

    lemma Without(id: nat)
      requires Valid()
      ensures Coherent(pool.view, data, deferred, logical - {id})
    {
      forall q | q in logical - {id} ensures PageAt(pool.view, data, deferred, q, (logical - {id})[q]) {
        assert PageAt(pool.view, data, deferred, q, logical[q]);
      }
    }

    /** Log the page as it is now, give it the number of that record, and mark its frame dirty; a page that was evicted
        meanwhile comes back into the pool. */
    method MarkDirty(id: nat, page: PageVal)
      requires Valid() && id in logical && Sized(page) && wal.nextLsn < LIMIT64 && id < LIMIT32
      modifies this`data, this`deferred, this`logical, this`logged, pool, wal
      ensures Valid() && wal.nextLsn == old(wal.nextLsn) + 1
      ensures Now() == Settling(Marked(old(Now()), old(wal.nextLsn), id, page), Now())
      ensures Stale() <= old(Stale()) - {id}
      ensures id in old(pool.view) ==>
                && data == old(data) && deferred == old(deferred)
                && pool.view == old(pool.view)[id := Frame(logical[id], true, old(pool.view)[id].pins)]
                && pool.used == old(pool.used)
      ensures id in pool.view && pool.view[id].dirty && pool.view[id].page == logical[id]
      ensures pool.view.Keys <= old(pool.view.Keys) + {id}
    {
      NextNumber();
      Without(id);
      var numbered := LogPage(id, page);
      ghost var view := pool.view;
      var pooled := pool.Contains(id);
      if pooled {
        StaleShrinks(view, old(logical), id, Frame(numbered, true, view[id].pins), None);
        DirtyKeeps(view, data, deferred, logical, id, numbered);
        assert logical[id := numbered] == logical;
        Redirty(id, numbered);
      } else {
        ghost var victim := PoolPut(id, numbered, true);
        StaleShrinks(view, old(logical), id, Frame(numbered, true, 0), victim);
      }
      NextNumber();
    }

    method LogPage(id: nat, page: PageVal) returns (numbered: PageVal)
      requires Base() && id in logical && Sized(page) && wal.nextLsn < LIMIT64 && id < LIMIT32
      modifies this`logical, this`logged, wal
      ensures Base() && numbered == PageVal(page.body, old(wal.nextLsn)) && Sized(numbered) && id < nextId
      ensures Now().live == old(Now().live) + [LogRecord(old(wal.nextLsn), PageWrite(id, ToBytes(page)))]
      ensures Now() == old(Now()).(live := Now().live, logical := old(logical)[id := numbered],
                logged := old(logged)[id := page.body])
      ensures Described(Now().live, Now().from, id, numbered)
    {
      ghost var s := Now();
      ghost var r := LogRecord(wal.nextLsn, PageWrite(id, ToBytes(page)));
      Loggable(id, page);
      SoundMark(s, r, PageVal(page.body, wal.nextLsn));
      var lsn := wal.Append(PageWrite(id, ToBytes(page)));
      numbered := PageVal(page.body, lsn);
      logical, logged := logical[id := numbered], logged[id := page.body];
      assert pool.Valid() && LogOk();
      assert Now() == s.(live := s.live + [r], logical := logical, logged := logged);
    }

    lemma Loggable(id: nat, page: PageVal)
      requires Base() && id in logical && Sized(page)
      ensures |ToBytes(page)| == PAGE_SIZE && ToBytes(page)[8..] == page.body && id < nextId
    {
      PageTrip(page);
      Look(Now());
    }

    /** The frame of a page takes its new contents. */
    method Redirty(id: nat, page: PageVal)
      requires Base() && id in pool.view && Sized(page) && id < nextId && Described(Now().live, Now().from, id, page)
      modifies pool
      ensures Base() && Now() == old(Now()).(view := old(pool.view)[id := Frame(page, true, old(pool.view)[id].pins)])
      ensures pool.used == old(pool.used)
    {
      ghost var s := Now();
      SoundFrame(s, id, Frame(page, true, pool.view[id].pins));
      pool.MarkDirty(id, page);
      assert LogOk();
      assert Now() == s.(view := pool.view);
    }

    // ---- Changes that are not logged ----------------------------------------------------------------

    /** The pages whose contents are not what was logged of them last. */
    ghost function Changed(): set<nat>
      reads this
    {
      set id | id in logical && id in logged && logical[id].body != logged[id]
    }

    /** The page object in the pool is changed in place, without a record: the left half of a split, after it was
        logged. In a dirty frame that is from now on what the page contains; in a clean one it is lost when the frame
        goes. */
    method ChangeFrame(id: nat, body: Bytes)
      requires Valid() && id in logical && id in pool.view && |body| == BODY_SIZE
      modifies this`logical, pool
      ensures Valid()
      ensures var f := old(pool.view)[id];
              && pool.view == old(pool.view)[id := Rewritten(f, body)]
              && Now() == old(Now()).(view := pool.view,
                   logical := if f.dirty then old(logical)[id := PageVal(body, f.page.lsn)] else old(logical))
    {
      ghost var s := Now();
      ghost var page := PageVal(body, pool.view[id].page.lsn);
      ChangeKeeps(pool.view, data, deferred, logical, id, page);
      SoundFrameChange(s, id, page);
      if pool.view[id].dirty {
        logical := logical[id := page];
      }
      pool.Change(id, body);
      assert LogOk();
      assert Now() == s.(view := pool.view, logical := logical);
    }

    /** The page object is one of those that were kept back: the image that will be written changes with it. */
    method ChangeKept(i: nat, body: Bytes)
      requires Valid() && i < |deferred| && deferred[i].0 in logical && |body| == BODY_SIZE
      modifies this`logical, this`deferred
      ensures Valid() && deferred == Rebodied(old(deferred), i, body)
      ensures var id := old(deferred)[i].0;
              Now() == old(Now()).(deferred := deferred,
                logical := if IsLast(old(deferred), i) && !(id in pool.view && pool.view[id].dirty)
                           then old(logical)[id := deferred[i].1] else old(logical))
    {
      ghost var s := Now();
      ghost var id := deferred[i].0;
      KeptKeeps(pool.view, data, deferred, logical, i, body);
      SoundKeptChange(s, i, body);
      if IsLast(deferred, i) && !(id in pool.view && pool.view[id].dirty) {
        logical := logical[id := PageVal(body, deferred[i].1.lsn)];
      }
      deferred := Rebodied(deferred, i, body);
      assert pool.Valid() && LogOk();
      assert Now() == s.(deferred := deferred, logical := logical);
    }

    /** The tree changes the page object it holds: the one in the pool, else the one that was kept back last. What is
        not in a dirty frame or kept back is lost. */
    method Alter(id: nat, body: Bytes) returns (ghost kept: bool)
      requires Valid() && id in logical && |body| == BODY_SIZE
      modifies this`logical, this`deferred, pool
      ensures Valid()
      ensures kept <==> if id in old(pool.view) then old(pool.view)[id].dirty else id in Ids(old(deferred))
      ensures Now() == Settling(Altered(old(Now()), id, body, kept), Now()) && data == old(data)
      ensures pool.view == if id in old(pool.view) then old(pool.view)[id := Rewritten(old(pool.view)[id], body)]
                           else old(pool.view)
      ensures kept || id !in old(pool.view) ==> Stale() == old(Stale())
    {
      kept := id in pool.view && pool.view[id].dirty;
      assert PageAt(pool.view, data, deferred, id, logical[id]);
      var pooled := pool.Contains(id);
      if pooled {
        ChangeFrame(id, body);
        return;
      }
      var i := LastKept(id);
      if i.Some? {
        kept := true;
        LastAt(deferred, i.value);
        assert deferred[i.value] in deferred && id in Ids(deferred);
        ChangeKept(i.value, body);
      }
    }

    /** Which image was kept back last of a page. */
    method LastKept(id: nat) returns (r: Option<nat>)
      ensures r == None <==> id !in Ids(deferred)
      ensures r.Some? ==> r.value < |deferred| && deferred[r.value].0 == id && IsLast(deferred, r.value)
    {
      var n := |deferred|;
      while n > 0
        invariant 0 <= n <= |deferred| && forall j :: n <= j < |deferred| ==> deferred[j].0 != id
      {
        n := n - 1;
        if deferred[n].0 == id {
          assert deferred[n] in deferred;
          return Some(n);
        }
      }
      assert forall d :: d in deferred ==> d.0 != id;
      r := None;
    }

    /** A page is split as the tree does it: it is logged whole, a new page is allocated, the page object loses its
        upper half, and the new page is logged. The cut is kept unless the new page pushed the whole one out. */
    method SplitPage(id: nat, page: PageVal, half: Bytes, blank: Bytes, upper: Bytes)
      returns (right: nat, ghost kept: bool, ghost pushed: bool)
      requires Valid() && id in logical && id < LIMIT32 && nextId < LIMIT32 && wal.nextLsn + 1 < LIMIT64
      requires Sized(page) && |half| == |blank| == |upper| == BODY_SIZE
      modifies this`nextId, this`data, this`deferred, this`logical, this`logged, pool, wal
      ensures Valid() && right == old(nextId) && Stale() <= old(Stale()) && wal.nextLsn == old(wal.nextLsn) + 2
      ensures kept <==> txnWriting || !pushed
      ensures id in old(pool.view) ==> pushed == Pushes(old(pool.view), old(pool.used), pool.capacity, id)
      ensures pool.view.Keys <= old(pool.view.Keys) + {id, right}
      ensures |old(pool.view)| + 1 < pool.capacity ==> kept
      ensures WasSplit(old(Now()), Now(), old(wal.nextLsn), id, page, right, half, upper, kept)
    {
      ghost var s, n := Now(), wal.nextLsn;
      right, pushed := MarkThenAllot(id, page, blank);
      kept := CutThenMark(id, page, half, right, blank, upper, s, n);
    }

    /** The page is logged whole, and the new page may push it out again. */
    method MarkThenAllot(id: nat, page: PageVal, blank: Bytes) returns (right: nat, ghost pushed: bool)
      requires Valid() && id in logical && id < LIMIT32 && wal.nextLsn < LIMIT64 && Sized(page) && |blank| == BODY_SIZE
      modifies this`nextId, this`data, this`deferred, this`logical, this`logged, pool, wal
      ensures Valid() && right == old(nextId) && right != id && Stale() <= old(Stale())
      ensures wal.nextLsn == old(wal.nextLsn) + 1 && id in logical && right in logical
      ensures if pushed then id !in pool.view && (id in Ids(deferred) <==> txnWriting)
              else id in pool.view && pool.view[id].dirty
      ensures id in old(pool.view) ==> pushed == Pushes(old(pool.view), old(pool.used), pool.capacity, id)
      ensures pool.view.Keys <= old(pool.view.Keys) + {id, right}
      ensures |old(pool.view)| + 1 < pool.capacity ==> !pushed
      ensures HalfSplit(old(Now()), Now(), old(wal.nextLsn), id, page, right, blank) && txnWriting == old(txnWriting)
    {
      ghost var n, s := wal.nextLsn, Now();
      InData(id);
      MarkDirty(id, page);
      OneMore(pool.view, old(pool.view), id);
      ghost var s1 := Now();
      right, pushed := Allot(id, blank);
      HalfSplits(s, s1, Now(), n, id, page, right, blank);
    }

    /** The page object loses its upper half where the pager still has it, and the new page is logged. */
    method CutThenMark(id: nat, page: PageVal, half: Bytes, right: nat, blank: Bytes, upper: Bytes, ghost s: Snap,
                       ghost n: nat)
      returns (ghost kept: bool)
      requires Valid() && id in logical && right in logical && right != id && right < LIMIT32 && wal.nextLsn < LIMIT64
      requires |half| == |upper| == BODY_SIZE && (id in pool.view ==> pool.view[id].dirty) && wal.nextLsn == n + 1
      requires HalfSplit(s, Now(), n, id, page, right, blank)
      modifies this`data, this`deferred, this`logical, this`logged, pool, wal
      ensures Valid() && Stale() <= old(Stale()) && wal.nextLsn == old(wal.nextLsn) + 1 && txnWriting == old(txnWriting)
      ensures kept <==> id in old(pool.view) || id in Ids(old(deferred))
      ensures pool.view.Keys <= old(pool.view.Keys) + {right}
      ensures WasSplit(s, Now(), n, id, page, right, half, upper, kept)
    {
      ghost var s2 := Now();
      kept := Alter(id, half);
      ghost var s3 := Now();
      MarkDirty(right, PageVal(upper, 0));
      Splits(s, s2, s3, Now(), n, id, page, right, blank, half, upper, kept);
    }

    /** A new page; does it push this one out? */
    method Allot(id: nat, blank: Bytes) returns (right: nat, ghost pushed: bool)
      requires Valid() && id in logical && id in pool.view && pool.view[id].dirty && |blank| == BODY_SIZE
      modifies this`nextId, this`data, this`deferred, this`logical, this`logged, pool, wal
      ensures Valid() && right == old(nextId) && right != id && Stale() <= old(Stale())
      ensures wal.nextLsn == old(wal.nextLsn)
      ensures if pushed then id !in pool.view && (id in Ids(deferred) <==> txnWriting)
              else id in pool.view && pool.view[id].dirty
      ensures pool.view.Keys <= old(pool.view.Keys) + {right}
      ensures pushed == Pushes(old(pool.view), old(pool.used), pool.capacity, id)
      ensures Now() == Settling(Allotted(old(Now()), right, blank), Now())
    {
      InData(id);
      Settles(Now());
      ghost var view, used, kept := pool.view, pool.used, deferred;
      ghost var slots, now := pool.slots, pool.now;
      ghost var victim;
      right, victim := NewPage(blank);
      if victim.Some? && LeastRecent(view, used, id) {
        LeastOnly(slots, view, used, now, victim.value, id);
      }
      pushed := victim == Some(id);
      if pushed {
        LastSnoc(kept, (id, view[id].page), id);
      }
    }

    /** The image of a dirty frame is that of its record, if and only if the page has not changed since. */
    lemma SameImage(id: nat)
      requires Valid() && id in logical && id in pool.view && pool.view[id].dirty
      ensures Described(Now().live, Now().from, id, pool.view[id].page)
      ensures Logs(Now().live, Now().from, id, pool.view[id].page.lsn, pool.view[id].page.body) <==> id !in Changed()
    {
      Look(Now());
      assert PageAt(pool.view, data, deferred, id, logical[id]);
      assert Tied(Now().live, Now().from, id, logical[id].lsn, logged[id]);
      PageIn(Now().live, pool.view[id].page.lsn - Now().from);
    }

    // ---- What is logged beside pages ---------------------------------------------------------------

    /** Any record that writes no page: the abort record of a rollback, or a root change. */
    method LogOther(kind: Kind, root: Option<nat>)
      requires Valid() && Fits(LogRecord(wal.nextLsn, kind)) && !kind.PageWrite?
      requires if open.Some? then IsChange(LogRecord(0, kind)) else IsLoose(LogRecord(0, kind))
      requires root == if kind.MetaUpdate? then kind.root else rootId
      modifies this`rootId, wal
      ensures wal.nextLsn == old(wal.nextLsn) + 1
      ensures Valid() && Now() == old(Now()).(live := old(Now().live) + [LogRecord(old(wal.nextLsn), kind)],
                root := root)
    {
      ghost var s := Now();
      SoundAppend(s, LogRecord(wal.nextLsn, kind));
      var lsn := wal.Append(kind);
      rootId := root;
      assert pool.Valid() && LogOk();
      assert Now() == s.(live := s.live + [LogRecord(lsn, kind)], root := root);
    }

    /** The tree has a new root. */
    method LogMetaUpdate(root: nat)
      requires Valid() && root < NO_ROOT && wal.nextLsn < LIMIT64
      modifies this`rootId, wal
      ensures Valid() && rootId == Some(root) && Stale() == old(Stale()) && wal.nextLsn == old(wal.nextLsn) + 1
      ensures Now() == old(Now()).(live := old(Now().live) + [LogRecord(old(wal.nextLsn), MetaUpdate(Some(root)))],
                root := rootId)
    {
      LogOther(MetaUpdate(Some(root)), Some(root));
    }

    /** Make the whole log durable. */
    method Sync()
      requires Valid() && open == None
      modifies wal
      ensures Valid() && Now() == old(Now()).(durable := |Now().live|)
    {
      ghost var s := Now();
      wal.Fsync();
      Settles(s);
      SoundSync(s, wal.wrote - wal.dropped);
      assert pool.Valid() && LogOk();
      assert Now() == s.(durable := |s.live|);
    }

    // ---- Applying a transaction -------------------------------------------------------------------

    /** The first steps of a commit: log that it begins, and keep evicted pages back from now on. */
    method BeginTxnWrite(txn: nat)
      requires Valid() && !txnWriting && txn < LIMIT64 && wal.nextLsn < LIMIT64
      modifies this`txnWriting, this`deferred, this`open, wal
      ensures Valid() && Stale() == old(Stale()) && deferred == [] && wal.nextLsn == old(wal.nextLsn) + 1
      ensures Now() == old(Now()).(live := old(Now().live) + [LogRecord(old(wal.nextLsn), TxnBegin(txn))],
                writing := true, open := Some(|old(Now().live)|))
    {
      ghost var s := Now();
      ghost var r := LogRecord(wal.nextLsn, TxnBegin(txn));
      Settles(s);
      SoundOpens(s, r);
      var lsn := wal.Append(TxnBegin(txn));
      txnWriting, deferred, open := true, [], Some(|s.live|);
      assert pool.Valid() && LogOk();
      assert Now() == s.(live := s.live + [r], open := open, writing := true);
    }

    /** Log that the transaction has committed, and make that durable. */
    method CommitTxn(txn: nat)
      requires Valid() && open.Some? && open.value < |Now().live| && Now().live[open.value].kind == TxnBegin(txn)
      requires txn < LIMIT64 && wal.nextLsn < LIMIT64
      modifies this`open, wal
      ensures Valid() && Stale() == old(Stale()) && wal.nextLsn == old(wal.nextLsn) + 1
      ensures Now() == old(Now()).(live := old(Now().live) + [LogRecord(old(wal.nextLsn), TxnCommit(txn))],
                open := None, durable := |old(Now().live)| + 1)
    {
      ghost var s := Now();
      ghost var r := LogRecord(wal.nextLsn, TxnCommit(txn));
      Settles(s);
      SoundCommits(s, r);
      var lsn := wal.Append(TxnCommit(txn));
      wal.Fsync();
      open := None;
      assert pool.Valid() && LogOk();
      assert Now() == s.(live := s.live + [r], open := None, durable := |s.live| + 1);
    }

    /** Write the pages that were kept back, oldest first. Which frames are stale does not change by it. */
    method EndTxnWrite()
      requires Valid() && open == None
      modifies this`txnWriting, this`deferred, this`data, wal
      ensures Valid() && !txnWriting && deferred == [] && Stale() == old(Stale())
      ensures Now() == old(Now()).(writing := false, deferred := [], data := data, durable := Now().durable)
    {
      while deferred != []
        invariant Valid() && Now() == old(Now()).(deferred := deferred, data := data, durable := Now().durable)
        decreases |deferred|
      {
        Drain();
      }
      ghost var s := Now();
      Look(s);
      txnWriting := false;
      assert Sound(s.(writing := false));
      assert pool.Valid() && LogOk();
      assert Now() == s.(writing := false);
    }

    method Drain()
      requires Valid() && open == None && deferred != []
      modifies this`deferred, this`data, wal
      ensures Valid() && deferred == old(deferred)[1..]
      ensures Now() == old(Now()).(deferred := deferred, data := data, durable := Now().durable)
    {
      DrainKeeps(pool.view, data, deferred, logical);
      OldestFits(Now());
      WriteBack(deferred[0].0, deferred[0].1);
      DropOldest();
    }

    method DropOldest()
      requires Base() && open == None && deferred != []
      modifies this`deferred
      ensures Base() && Now() == old(Now()).(deferred := old(deferred)[1..])
    {
      ghost var s := Now();
      OldestFits(s);
      deferred := deferred[1..];
      assert pool.Valid() && LogOk();
      assert Now() == s.(deferred := s.deferred[1..]);
    }

    // ---- What a crash leaves ------------------------------------------------------------------------

    /** At every point of every run: the log file is the encoding of the durable records, and each page that existed
        when the meta page was last written still has the image it had then, or a record in the log file writes it. */
    lemma WriteAheadRule()
      requires Valid()
      ensures wal.file == EncodeAll(wal.crc, Now().live[..Now().durable])
      ensures forall id: nat :: id < metaNext ==>
                Same(data, stable, id)
                || id in Written(PagesOf(Now().live[..Now().durable]))
    {
      Look(Now());
      wal.FileRecords();
      assert wal.history[wal.dropped..wal.wrote] == wal.history[wal.dropped..][..wal.wrote - wal.dropped];
    }

    /** Crash at any point, with any byte prefix of the log on disk that holds what was durable: exactly the whole
        records count, and nothing of a transaction whose commit record is missing; and recovery over the pages as they
        were left gives every page that existed at the last checkpoint as it does over the pages of that checkpoint. */
    lemma TornCrash(m: nat, lsn: nat)
      requires Valid() && |wal.file| <= m <= |EncodeAll(wal.crc, Now().live)|
      ensures var bytes, n := EncodeAll(wal.crc, Now().live)[..m], Whole(wal.crc, Now().live, m);
              ParseAll(wal.crc, bytes) == Now().live[..n] && CutAt(Now(), n, lsn)
    {
      Look(Now());
      WriteAheadRule();
      WholeLeast(wal.crc, Now().live, Now().durable, m);
      TornLog(wal.crc, Now().live, m);
      CutAnywhere(Now(), Whole(wal.crc, Now().live, m), lsn);
    }

    /** When the log is durable and no transaction is being applied, recovery brings back the root and the body of every
        page as it was last marked dirty, whatever the pool had not written and whatever it had read behind a deferred
        image. */
    lemma Recovered(lsn: nat)
      requires Valid() && open == None && Now().durable == |Now().live|
      ensures var r := RecoveredDb(Db(data, metaRoot, metaNext), wal.crc, wal.file, lsn);
              r.root == rootId && logged.Keys == logical.Keys
              && forall id :: id in logged ==> BodyIs(r.data, id, logged[id])
    {
      WriteAheadRule();
      assert Now().live[..|Now().live|] == Now().live;
      ReadBack();
      Look(Now());
      RecoverAll(Now(), lsn);
    }

    lemma ReadBack()
      requires Valid()
      ensures ParseAll(wal.crc, EncodeAll(wal.crc, Now().live)) == Now().live
    {
      Look(Now());
      var live := Now().live;
      assert live[..|live|] == live;
      var bytes := EncodeAll(wal.crc, live);
      WholeLeast(wal.crc, live, |live|, |bytes|);
      TornLog(wal.crc, live, |bytes|);
      assert bytes[..|bytes|] == bytes;
    }

    // ---- Flushing --------------------------------------------------------------------------------

    /** Write one dirty page; the whole log is durable by now. */
    method FlushOne(id: nat, page: PageVal)
      requires Valid() && !txnWriting && Now().durable == |Now().live|
      requires id in pool.view && pool.view[id].dirty && pool.view[id].page == page
      modifies this`data, pool
      ensures Valid() && Now() == old(Now()).(data := data, view := pool.view)
      ensures pool.view == old(pool.view)[id := old(pool.view)[id].(dirty := false)] && Stale() == old(Stale())
    {
      FlushedAll(id, page);
      CleanKeeps(pool.view, data, logical, id);
      WritePage(id, page);
      Clean(id);
    }

    lemma FlushedAll(id: nat, page: PageVal)
      requires Valid() && !txnWriting && Now().durable == |Now().live|
      requires id in pool.view && pool.view[id].dirty && pool.view[id].page == page
      ensures deferred == [] && Sized(page) && Described(Now().live, Now().from, id, page)
      ensures page.lsn <= wal.flushedLsn && page.lsn - Now().from < Now().durable && wal.Durable(page.lsn)
    {
      Settles(Now());
      Look(Now());
      assert |wal.history| == |wal.encoded|;
      wal.RecordDurable(page.lsn);
    }

    method Clean(id: nat)
      requires Base() && id in pool.view
      modifies pool
      ensures Base() && Now() == old(Now()).(view := old(pool.view)[id := old(pool.view)[id].(dirty := false)])
    {
      ghost var s := Now();
      Look(s);
      SoundFrame(s, id, pool.view[id].(dirty := false));
      pool.ClearDirty(id);
      assert LogOk();
      assert Now() == s.(view := pool.view);
    }

    method FlushNext(dirty: seq<(nat, PageVal)>, i: nat)
      requires Valid() && !txnWriting && Now().durable == |Now().live| && i < |dirty| && StillDirty(pool.view, dirty, i)
      modifies this`data, pool
      ensures Valid() && Now() == old(Now()).(data := data, view := pool.view) && Stale() == old(Stale())
      ensures StillDirty(pool.view, dirty, i + 1)
    {
      StillStep(pool.view, dirty, i);
      FlushOne(dirty[i].0, dirty[i].1);
    }

    method FlushDirty()
      requires Valid() && !txnWriting && Now().durable == |Now().live|
      modifies this`data, pool
      ensures Valid() && Now() == old(Now()).(data := data, view := pool.view)
      ensures (forall id :: id in pool.view ==> !pool.view[id].dirty) && Stale() == old(Stale())
    {
      var dirty := pool.DirtyPages();
      for i := 0 to |dirty|
        invariant Valid() && Now() == old(Now()).(data := data, view := pool.view) && Stale() == old(Stale())
        invariant StillDirty(pool.view, dirty, i)
      {
        FlushNext(dirty, i);
      }
    }

    /** Write every dirty page and the meta page, then empty the log: the data file equals the logical pages. */
    method Flush()
      requires Valid() && !txnWriting
      modifies this`data, this`stable, this`metaRoot, this`metaNext, this`logged, pool, wal
      ensures Valid() && wal.file == [] && Stale() == old(Stale()) && rootId == old(rootId) && logical == old(logical)
      ensures forall id :: id in logical ==> OnDisk(data, id, logical[id]) && Sized(logical[id])
      ensures metaRoot == rootId && metaNext == nextId && stable == data && Now().live == []
    {
      Settles(Now());
      Sync();
      FlushDirty();
      AllOnDisk();
      WriteMeta();
      Truncate();
    }

    lemma AllOnDisk()
      requires Valid() && !txnWriting && forall id :: id in pool.view ==> !pool.view[id].dirty
      ensures forall id :: id in logical ==> OnDisk(data, id, logical[id]) && Sized(logical[id])
    {
      Settles(Now());
      forall id | id in logical ensures OnDisk(data, id, logical[id]) && Sized(logical[id]) {
        InData(id);
        assert PageAt(pool.view, data, deferred, id, logical[id]);
      }
    }

    method WriteMeta()
      requires Valid()
      modifies this`metaRoot, this`metaNext, this`stable
      ensures Valid() && Now() == old(Now()).(stable := data, bound := nextId, metaRoot := rootId)
    {
      ghost var s := Now();
      SoundMeta(s);
      metaRoot, metaNext, stable := rootId, nextId, data;
      assert pool.Valid() && LogOk();
      assert Now() == s.(stable := data, bound := nextId, metaRoot := rootId);
    }

    method Truncate()
      requires Valid() && !txnWriting && metaRoot == rootId && metaNext == nextId && stable == data
      requires (forall id :: id in pool.view ==> !pool.view[id].dirty) && forall id :: id in logical ==>
               OnDisk(data, id, logical[id])
      modifies this`logged, wal
      ensures Valid() && wal.file == []
      ensures Now() == old(Now()).(live := [], from := Now().from, durable := 0, logged := Bodies(logical))
    {
      ghost var s := Now();
      Settles(s);
      wal.Checkpoint();
      logged := Bodies(logical);
      SoundEmpty(s, wal.first + wal.dropped);
      assert pool.Valid() && LogOk();
      assert Now() == s.(live := [], from := wal.first + wal.dropped, durable := 0, logged := logged);
    }
  }

  // ---- A page that changes after its record --------------------------------------------------------

  /** The shortest run that writes an image which is not that of its record: a page is logged, changed, and flushed. The
      log before the flush has another image under the number that the page carries in the file. */
  method ChangedRun(crc: CrcFn, capacity: nat, whole: Bytes, half: Bytes) returns (pager: FilePager, ghost before: Snap)
    requires capacity >= 1 && |whole| == |half| == BODY_SIZE && whole != half
    ensures pager.Valid() && OnDisk(pager.data, 0, PageVal(half, 1))
    ensures Logs(before.live, before.from, 0, 1, whole) && !Logs(before.live, before.from, 0, 1, half)
  {
    pager := new FilePager(capacity, crc);
    LogThenChange(pager, whole, half);
    before := pager.Now();
    pager.Flush();
    assert OnDisk(pager.data, 0, pager.logical[0]);
  }

  method LogThenChange(pager: FilePager, whole: Bytes, half: Bytes)
    requires pager.Valid() && pager.pool.view == map[] && pager.logical == map[] && !pager.txnWriting
    requires pager.nextId == 0 && pager.wal.nextLsn == 1 && |whole| == |half| == BODY_SIZE && whole != half
    modifies pager, pager.pool, pager.wal
    ensures pager.Valid() && !pager.txnWriting && pager.logical == map[0 := PageVal(half, 1)]
    ensures Logs(pager.Now().live, pager.Now().from, 0, 1, whole)
            && !Logs(pager.Now().live, pager.Now().from, 0, 1, half)
  {
    LogFirst(pager, whole);
    pager.ChangeFrame(0, half);
  }

  method LogFirst(pager: FilePager, whole: Bytes)
    requires pager.Valid() && pager.pool.view == map[] && pager.logical == map[] && !pager.txnWriting
    requires pager.nextId == 0 && pager.wal.nextLsn == 1 && |whole| == BODY_SIZE
    modifies pager, pager.pool, pager.wal
    ensures pager.Valid() && !pager.txnWriting && pager.logical == map[0 := PageVal(whole, 1)]
    ensures 0 in pager.pool.view && pager.pool.view[0].dirty && pager.pool.view[0].page == PageVal(whole, 1)
    ensures Logs(pager.Now().live, pager.Now().from, 0, 1, whole)
  {
    var a, _ := pager.NewPage(whole);
    PageTrip(PageVal(whole, 0));
    assert ToBytes(PageVal(whole, 0))[8..] == whole;
    ghost var n, live := pager.wal.nextLsn, pager.Now().live;
    pager.MarkDirty(a, PageVal(whole, 0));
    assert pager.Now().live == live + [LogRecord(n, PageWrite(a, ToBytes(PageVal(whole, 0))))];
  }

  // ---- A stale read ------------------------------------------------------------------------------

  /** The shortest run that reads old contents: with one frame, a page that a transaction has changed is evicted and
      read again. The commit does not mend it: the file has the new contents, and the frame the old ones. */
  method StaleRead(crc: CrcFn, before: Bytes, after: Bytes) returns (pager: FilePager, during: PageVal, later: PageVal)
    requires |before| == |after| == BODY_SIZE && before != after
    ensures pager.Valid() && !pager.txnWriting && pager.logical.Keys == {0, 1} && pager.logical[0].body == after
    ensures during.body == later.body == before && pager.Stale() == {0}
    ensures OnDisk(pager.data, 0, pager.logical[0])
  {
    pager := new FilePager(1, crc);
    during := ReadBehind(pager, before, after);
    pager.CommitTxn(1);
    pager.EndTxnWrite();
    pager.CurrentIff(0);
    assert PageAt(pager.pool.view, pager.data, pager.deferred, 0, pager.logical[0]);
    later := pager.GetPage(0);
  }

  /** A page in the only frame, changed by a transaction that is being applied. */
  method ReadySetup(pager: FilePager, before: Bytes, after: Bytes)
    requires |before| == |after| == BODY_SIZE
    requires pager.Valid() && pager.pool.capacity == 1 && pager.pool.view == map[] && pager.logical == map[]
             && !pager.txnWriting
    requires pager.nextId == 0 && pager.wal.nextLsn == 1
    modifies pager, pager.pool, pager.wal
    ensures pager.Valid() && pager.txnWriting && pager.nextId == 1 && pager.wal.nextLsn == 3 && pager.deferred == []
    ensures pager.logical == map[0 := PageVal(after, 2)]
            && pager.pool.view == map[0 := Frame(PageVal(after, 2), true, 0)]
    ensures OnDisk(pager.data, 0, PageVal(before, 0))
    ensures pager.open.Some? && pager.open.value < |pager.Now().live|
            && pager.Now().live[pager.open.value].kind == TxnBegin(1)
  {
    NewInTxn(pager, before);
    pager.MarkDirty(0, PageVal(after, 0));
  }

  method NewInTxn(pager: FilePager, before: Bytes)
    requires |before| == BODY_SIZE
    requires pager.Valid() && pager.pool.capacity == 1 && pager.pool.view == map[] && pager.logical == map[]
             && !pager.txnWriting
    requires pager.nextId == 0 && pager.wal.nextLsn == 1
    modifies pager, pager.pool, pager.wal
    ensures pager.Valid() && pager.txnWriting && pager.nextId == 1 && pager.wal.nextLsn == 2 && pager.deferred == []
    ensures pager.logical == map[0 := PageVal(before, 0)]
            && pager.pool.view == map[0 := Frame(PageVal(before, 0), false, 0)]
    ensures OnDisk(pager.data, 0, PageVal(before, 0))
    ensures pager.open.Some? && pager.open.value < |pager.Now().live|
            && pager.Now().live[pager.open.value].kind == TxnBegin(1)
  {
    var a, _ := pager.NewPage(before);
    pager.BeginTxnWrite(1);
  }

  method ReadBehind(pager: FilePager, before: Bytes, after: Bytes) returns (p: PageVal)
    requires |before| == |after| == BODY_SIZE && before != after
    requires pager.Valid() && pager.pool.capacity == 1 && pager.pool.view == map[] && pager.logical == map[]
             && !pager.txnWriting
    requires pager.nextId == 0 && pager.wal.nextLsn == 1
    modifies pager, pager.pool, pager.wal
    ensures pager.Valid() && pager.txnWriting && pager.logical.Keys == {0, 1} && pager.logical[0].body == after
            && p.body == before
    ensures pager.open.Some? && pager.open.value < |pager.Now().live|
            && pager.Now().live[pager.open.value].kind == TxnBegin(1)
    ensures pager.Stale() == {0} && 0 in pager.pool.view && !pager.pool.view[0].dirty && pager.pool.view[0].page == p
    ensures pager.wal.nextLsn == 3
  {
    ReadySetup(pager, before, after);
    Displace(pager, before, after);
    p := ReadOld(pager, before, after);
  }

  method ReadOld(pager: FilePager, before: Bytes, after: Bytes) returns (p: PageVal)
    requires |before| == |after| == BODY_SIZE && before != after && pager.Valid()
    requires pager.pool.view == map[1 := Frame(PageVal(before, 0), false, 0)]
             && pager.deferred == [(0, PageVal(after, 2))]
    requires OnDisk(pager.data, 0, PageVal(before, 0))
             && pager.logical == map[0 := PageVal(after, 2), 1 := PageVal(before, 0)]
    modifies pager`data, pager`deferred, pager.pool, pager.wal
    ensures pager.Valid() && p.body == before && pager.wal.nextLsn == old(pager.wal.nextLsn)
            && pager.Now().live == old(pager.Now().live)
    ensures pager.Stale() == {0} && 0 in pager.pool.view && !pager.pool.view[0].dirty && pager.pool.view[0].page == p
  {
    PageTrip(PageVal(before, 0));
    p := pager.GetPage(0);
  }

  /** A new page takes the frame; the changed page is kept back, and the file still has its old contents. */
  method Displace(pager: FilePager, before: Bytes, after: Bytes)
    requires |before| == BODY_SIZE
    requires pager.Valid() && pager.pool.capacity == 1 && pager.txnWriting && pager.nextId == 1
             && pager.wal.nextLsn == 3
    requires pager.pool.view == map[0 := Frame(PageVal(after, 2), true, 0)] && pager.deferred == []
    requires OnDisk(pager.data, 0, PageVal(before, 0))
    modifies pager, pager.pool, pager.wal
    ensures pager.Valid() && pager.pool.capacity == 1 && pager.txnWriting && pager.wal.nextLsn == 3
    ensures pager.pool.view == map[1 := Frame(PageVal(before, 0), false, 0)]
            && pager.deferred == [(0, PageVal(after, 2))]
    ensures OnDisk(pager.data, 0, PageVal(before, 0)) && pager.logical == old(pager.logical)[1 := PageVal(before, 0)]
    ensures pager.open == old(pager.open) && pager.Now().live == old(pager.Now().live)
  {
    assert !AllPinned(pager.pool.view) && |pager.pool.view| == 1 by {
      assert pager.pool.view[0].pins == 0;
    }
    var b, victim := pager.NewPage(before);
    assert victim == Some(0);
  }

  /** From position i on, the list names exactly the dirty frames, each once. */
  ghost predicate StillDirty(view: Frames, dirty: seq<(nat, PageVal)>, i: nat) {
    && i <= |dirty|
    && (forall a, b :: i <= a < b < |dirty| ==> dirty[a].0 != dirty[b].0)
    && (forall j :: i <= j < |dirty| ==>
        dirty[j].0 in view && view[dirty[j].0].dirty
        && view[dirty[j].0].page == dirty[j].1)
    && (forall id :: id in view && view[id].dirty ==> exists j :: i <= j < |dirty| && dirty[j].0 == id)
  }

  lemma StillStep(view: Frames, dirty: seq<(nat, PageVal)>, i: nat)
    requires StillDirty(view, dirty, i) && i < |dirty|
    ensures StillDirty(view[dirty[i].0 := view[dirty[i].0].(dirty := false)], dirty, i + 1)
  {
    var view' := view[dirty[i].0 := view[dirty[i].0].(dirty := false)];
    forall id | id in view' && view'[id].dirty ensures exists j :: i + 1 <= j < |dirty| && dirty[j].0 == id {
      assert id in view && view[id].dirty;
      var j :| i <= j < |dirty| && dirty[j].0 == id;
      assert j != i;
    }
  }
}
