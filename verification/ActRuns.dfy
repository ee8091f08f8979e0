/** What operations do can be done: pages are there when they are logged or changed, new ones get the next id, and all
    of them fit. */
module ActRuns {
  import opened Entries
  import opened Tree
  import opened Log
  import opened TreeInsert
  import opened TreeDelete
  import opened TreeRecovery
  import opened TreeDeleteRecovery
  import opened TreeLive
  import opened TreeSteps
  import opened TreeClimb
  import opened CrashReplay
  import opened Restored
  import opened PageCodec
  import opened PageBytes
  import opened Capacity
  import opened LogLinks
  import opened TreeActs

  /** The pages fit their bytes. */
  ghost predicate FitAct(a: Act) {
    match a
    case Mark(_, page) => Writable(page)
    case Halve(_, whole, lower, _, upper) => Writable(whole) && Writable(lower) && Writable(upper)
    case NewRoot(_, page) => Writable(page)
    case Alter(_, page) => Writable(page)
    case _ => true
  }

  /** Pages that are logged, cut, changed or read are there, and new ones get the next id. */
  ghost predicate CanDo(a: Act, there: set<PageId>, next: nat) {
    match a
    case Mark(id, _) => id in there
    case Halve(id, _, _, right, _) => id in there && right == next
    case NewRoot(id, _) => id == next
    case Alter(id, _) => id in there
    case Root(id) => id < next
    case Read(id) => id in there
  }

  function NextAfter(next: nat, a: Act): nat {
    if a.Halve? || a.NewRoot? then next + 1 else next
  }

  function ThereAfter(there: set<PageId>, a: Act): set<PageId> {
    match a
    case Halve(_, _, _, right, _) => there + {right}
    case NewRoot(id, _) => there + {id}
    case _ => there
  }

  function NextAll(next: nat, acts: seq<Act>): nat
    decreases |acts|
  {
    if acts == [] then next else NextAfter(NextAll(next, acts[..|acts| - 1]), acts[|acts| - 1])
  }

  function ThereAll(there: set<PageId>, acts: seq<Act>): set<PageId>
    decreases |acts|
  {
    if acts == [] then there else ThereAfter(ThereAll(there, acts[..|acts| - 1]), acts[|acts| - 1])
  }

  /** Each act can be done after those before it. */
  ghost predicate Orderly(acts: seq<Act>, there: set<PageId>, next: nat) {
    forall i {:trigger acts[i]} :: 0 <= i < |acts| ==> InTurn(acts, there, next, i)
  }

  ghost predicate InTurn(acts: seq<Act>, there: set<PageId>, next: nat, i: nat)
    requires i < |acts|
  {
    CanDo(acts[i], ThereAll(there, acts[..i]), NextAll(next, acts[..i]))
  }

  ghost predicate AllFit(acts: seq<Act>) {
    forall a :: a in acts ==> FitAct(a)
  }

  ghost predicate Able(acts: seq<Act>, there: set<PageId>, next: nat) {
    AllFit(acts) && Orderly(acts, there, next)
  }

  lemma {:induction false} AllAppend(there: set<PageId>, next: nat, a: seq<Act>, b: seq<Act>)
    ensures ThereAll(there, a + b) == ThereAll(ThereAll(there, a), b)
    ensures NextAll(next, a + b) == NextAll(NextAll(next, a), b)
    decreases |b|
  {
    if b == [] {
      assert a + b == a;
    } else {
      assert (a + b)[..|a + b| - 1] == a + b[..|b| - 1];
      AllAppend(there, next, a, b[..|b| - 1]);
    }
  }

  lemma {:induction false} OrderlyAppend(there: set<PageId>, next: nat, a: seq<Act>, b: seq<Act>)
    requires Orderly(a, there, next) && Orderly(b, ThereAll(there, a), NextAll(next, a))
    ensures Orderly(a + b, there, next)
  {
    forall i | 0 <= i < |a + b| ensures InTurn(a + b, there, next, i) {
      if i < |a| {
        assert InTurn(a, there, next, i) && (a + b)[..i] == a[..i] && (a + b)[i] == a[i];
      } else {
        var j := i - |a|;
        assert InTurn(b, ThereAll(there, a), NextAll(next, a), j) && (a + b)[i] == b[j];
        assert (a + b)[..i] == a + b[..j];
        AllAppend(there, next, a, b[..j]);
      }
    }
  }

  lemma OrderlyOne(there: set<PageId>, next: nat, a: Act)
    requires CanDo(a, there, next)
    ensures Orderly([a], there, next) && ThereAll(there, [a]) == ThereAfter(there, a)
    ensures NextAll(next, [a]) == NextAfter(next, a)
  {
    assert [a][..0] == [];
    assert InTurn([a], there, next, 0);
  }

  lemma {:induction false} ThereGrows(there: set<PageId>, acts: seq<Act>)
    ensures there <= ThereAll(there, acts)
    decreases |acts|
  {
    if acts != [] {
      ThereGrows(there, acts[..|acts| - 1]);
    }
  }

  // ---- Insertion -----------------------------------------------------------------------------

  lemma {:induction false} InsOrderly(t: Tree, k: Key, v: Bytes, order: nat, next: PageId, least: nat, lo: int, hi: int,
                                      h: nat, there: set<PageId>)
    requires order >= 2 && Shape(t, order, least, lo, hi, h) && lo <= k < hi
    requires forall id :: id in Ids(t) ==> id in there
    ensures Orderly(InsActs(t, k, v, order, next), there, next)
    ensures NextAll(next, InsActs(t, k, v, order, next)) == Ins(t, k, v, order, next).next
    decreases t
  {
    assert t.id in Ids(t);
    if t.Lf? {
      OrderlyOne(there, next, LeafAct(t, k, v, order, next));
    } else {
      var j, g, n := InsStep(t, k, v, order, next, least, lo, hi, h);
      var below := InsActs(t.kids[j], k, v, order, next);
      KidAmong(t.kids, j);
      InsOrderly(t.kids[j], k, v, order, next, order / 2, Lower(t.keys, lo, j), Upper(t.keys, hi, j), h - 1, there);
      NodeNext(t, k, v, order, next, j);
      if g.split.Some? {
        var a := NodeAct(t, g.split.value, order, g.next);
        ThereGrows(there, below);
        OrderlyOne(ThereAll(there, below), g.next, a);
        OrderlyAppend(there, next, below, [a]);
        AllAppend(there, next, below, [a]);
      } else {
        assert below + [] == below;
      }
    }
  }

  /** The node takes a new page exactly when it splits. */
  lemma {:induction false} NodeNext(t: Tree, k: Key, v: Bytes, order: nat, next: PageId, j: nat)
    requires order >= 2 && t.Nd? && |t.kids| == |t.keys| + 1 && |t.keys| <= order && j == Route(t.keys, k)
    ensures var g := Ins(t.kids[j], k, v, order, next);
            Ins(t, k, v, order, next).next ==
            if g.split.None? then g.next else NextAfter(g.next, NodeAct(t, g.split.value, order, g.next))
  {
    var g := Ins(t.kids[j], k, v, order, next);
    InsNoMeta(t.kids[j], k, v, order, next, 0);
    if g.split.Some? {
      AdoptImage(t, j, g.left, g.split.value);
    }
  }

  // ---- Deletion ----------------------------------------------------------------------------------

  /** Acts on pages that are there, none of them new. */
  ghost predicate OnPages(acts: seq<Act>, ids: set<PageId>) {
    forall a :: a in acts ==> (a.Mark? || a.Alter?) && a.id in ids
  }

  lemma {:induction false} OnPagesOrderly(acts: seq<Act>, ids: set<PageId>, there: set<PageId>, next: nat)
    requires OnPages(acts, ids) && ids <= there
    ensures Orderly(acts, there, next) && NextAll(next, acts) == next && ThereAll(there, acts) == there
    decreases |acts|
  {
    if acts != [] {
      var n := |acts| - 1;
      assert acts == acts[..n] + [acts[n]] && acts[n] in acts;
      OnPagesOrderly(acts[..n], ids, there, next);
      OrderlyOne(there, next, acts[n]);
      OrderlyAppend(there, next, acts[..n], [acts[n]]);
    }
  }

  lemma {:induction false} RepairOn(log: seq<Change>)
    requires forall c :: c in log ==> c.PageWrite?
    ensures OnPages(RepairActs(log), Touched(log))
    ensures forall a :: a in RepairActs(log) ==> PageWrite(a.id, a.page) in log
  {
    forall a | a in RepairActs(log) ensures (a.Mark? || a.Alter?) && PageWrite(a.id, a.page) in log {
      var i :| 0 <= i < |RepairActs(log)| && RepairActs(log)[i] == a;
      var c := if i < |log| then log[i] else log[i - |log|];
      assert c in log && c == PageWrite(a.id, a.page);
    }
  }

  lemma {:induction false} DelOn(t: Tree, k: int, order: nat)
    requires order >= 2
    ensures OnPages(DelActs(t, k, order), Touched(Del(t, k, order).log))
    ensures forall a :: a in DelActs(t, k, order) ==>
              (a.Mark? || a.Alter?) && PageWrite(a.id, a.page) in Del(t, k, order).log
    decreases t
  {
    DelNoMeta(t, k, order, 0);
    if t.Lf? {
      assert Del(t, k, order).log[0] in Del(t, k, order).log;
    } else if |t.kids| == |t.keys| + 1 {
      var j := Route(t.keys, k);
      var d := Del(t.kids[j], k, order);
      var n := Nd(t.id, t.keys, t.kids[j := d.node]);
      DelOn(t.kids[j], k, order);
      if !(NumKeys(d.node) >= order / 2 || !Mendable(n, j)) {
        var log := Mend(n, j, order).log;
        forall c | c in log ensures c.PageWrite? {
          assert c in d.log + log;
        }
        RepairOn(log);
        TouchedAppend(d.log, log);
      }
    }
  }

  // ---- Pages fit -----------------------------------------------------------------------------------

  /** The lower part of a page. */
  predicate IsPart(whole: Page, lower: Page) {
    match lower
    case Leaf(es, _) => whole.Leaf? && es <= whole.entries
    case Index(keys, children) => whole.Index? && |keys| <= |whole.keys| && |children| == |keys| + 1
  }

  lemma PartWritable(whole: Page, lower: Page)
    requires Writable(whole) && IsPart(whole, lower)
    ensures Writable(lower)
  {
    if lower.Leaf? {
      assert lower.entries == whole.entries[..|lower.entries|];
      RoomPrefix(whole.entries, |lower.entries|);
    }
  }

  /** What an act writes is in the log, and what it cuts is a part of that. */
  ghost predicate Sourced(a: Act, log: seq<Change>) {
    match a
    case Mark(id, page) => PageWrite(id, page) in log
    case Halve(id, whole, lower, right, upper) =>
      PageWrite(id, whole) in log && PageWrite(right, upper) in log && IsPart(whole, lower)
    case NewRoot(id, page) => PageWrite(id, page) in log
    case Alter(id, page) => PageWrite(id, page) in log
    case _ => true
  }

  ghost predicate AllSourced(acts: seq<Act>, log: seq<Change>) {
    forall a :: a in acts ==> Sourced(a, log)
  }

  lemma SourcedMore(acts: seq<Act>, log: seq<Change>, more: seq<Act>, log': seq<Change>)
    requires AllSourced(acts, log) && AllSourced(more, log') && (forall c :: c in log ==> c in log')
    ensures AllSourced(acts + more, log')
  {
    forall a | a in acts + more ensures Sourced(a, log') {
      assert a in acts || a in more;
    }
  }

  lemma SourcedFit(acts: seq<Act>, log: seq<Change>)
    requires AllSourced(acts, log) && LogWritable(log)
    ensures AllFit(acts)
  {
    forall a | a in acts ensures FitAct(a) {
      assert Sourced(a, log);
      forall c | c in log && c.PageWrite? ensures Writable(c.page) {
        var i :| 0 <= i < |log| && log[i] == c;
      }
      if a.Halve? {
        assert Writable(PageWrite(a.id, a.whole).page) && Writable(PageWrite(a.right, a.upper).page);
        PartWritable(a.whole, a.lower);
      } else if a.Mark? || a.NewRoot? || a.Alter? {
        assert Writable(PageWrite(a.id, a.page).page);
      }
    }
  }

  lemma {:induction false} InsSourced(t: Tree, k: Key, v: Bytes, order: nat, next: PageId, least: nat, lo: int, hi: int,
                                      h: nat)
    requires order >= 2 && Shape(t, order, least, lo, hi, h) && lo <= k < hi
    ensures AllSourced(InsActs(t, k, v, order, next), Ins(t, k, v, order, next).log)
    decreases t
  {
    if t.Lf? {
      LeafSourced(t, k, v, order, next);
    } else {
      var j, g, n := InsStep(t, k, v, order, next, least, lo, hi, h);
      InsSourced(t.kids[j], k, v, order, next, order / 2, Lower(t.keys, lo, j), Upper(t.keys, hi, j), h - 1);
      if g.split.Some? {
        NodeSourced(t, k, v, order, next, j);
        SourcedMore(InsActs(t.kids[j], k, v, order, next), g.log, [NodeAct(t, g.split.value, order, g.next)],
          Ins(t, k, v, order, next).log);
      } else {
        assert InsActs(t, k, v, order, next) == InsActs(t.kids[j], k, v, order, next);
      }
    }
  }

  lemma LeafSourced(t: Tree, k: Key, v: Bytes, order: nat, next: PageId)
    requires t.Lf? && order >= 2
    ensures Sourced(LeafAct(t, k, v, order, next), InsLeaf(t, k, v, order, next).log)
  {
    var es, log := Put(t.entries, k, v), InsLeaf(t, k, v, order, next).log;
    assert log[0] in log && log[0] == PageWrite(t.id, Leaf(es, t.next));
    if |es| > order {
      assert log[1] in log && log[1] == PageWrite(next, Leaf(es[|es| / 2..], t.next));
    }
  }

  lemma {:induction false} NodeSourced(t: Tree, k: Key, v: Bytes, order: nat, next: PageId, j: nat)
    requires order >= 2 && t.Nd? && |t.kids| == |t.keys| + 1 && j == Route(t.keys, k)
    requires Ins(t.kids[j], k, v, order, next).split.Some?
    ensures var g, log := Ins(t.kids[j], k, v, order, next), Ins(t, k, v, order, next).log;
            Sourced(NodeAct(t, g.split.value, order, g.next), log) && forall c :: c in g.log ==> c in log
  {
    var g := Ins(t.kids[j], k, v, order, next);
    InsNoMeta(t.kids[j], k, v, order, next, 0);
    AdoptImage(t, j, g.left, g.split.value);
    NodeLog(t, k, v, order, next, j, g);
    TakenSourced(t.id, Widened(t, g.split.value), order, g.next, g.log);
  }

  /** A node that takes in a separator logs itself, and its new half if it is too full. */
  lemma NodeLog(t: Tree, k: Key, v: Bytes, order: nat, next: PageId, j: nat, g: Grown)
    requires order >= 2 && t.Nd? && |t.kids| == |t.keys| + 1 && j == Route(t.keys, k)
    requires g == Ins(t.kids[j], k, v, order, next) && g.split.Some?
    requires Image(Joined(t, j, g)) == Widened(t, g.split.value)
    ensures var w := Widened(t, g.split.value);
            Ins(t, k, v, order, next).log == g.log + [PageWrite(t.id, w)]
              + if |w.keys| <= order then [] else [PageWrite(g.next, UpperHalf(w))]
  {
    var n := Joined(t, j, g);
    assert Ins(t, k, v, order, next) == Settle(n, order, g.next, g.log + [Write(n)]);
    SettleLog(n, order, g.next, g.log + [Write(n)]);
  }

  lemma TakenSourced(id: PageId, w: Page, order: nat, next: PageId, log: seq<Change>)
    requires w.Index? && |w.children| == |w.keys| + 1 && |w.keys| > 0
    ensures var a := if |w.keys| <= order then Mark(id, w) else Halve(id, w, LowerHalf(w), next, UpperHalf(w));
            var all := log + [PageWrite(id, w)] + if |w.keys| <= order then [] else [PageWrite(next, UpperHalf(w))];
            Sourced(a, all) && forall c :: c in log ==> c in all
  {
    var b := PageWrite(next, UpperHalf(w));
    ListEnds(log, PageWrite(id, w), b);
    assert log + [PageWrite(id, w)] + [] == log + [PageWrite(id, w)];
  }

  lemma SettleLog(n: Tree, order: nat, next: PageId, log: seq<Change>)
    requires n.Nd? && |n.kids| == |n.keys| + 1 && order >= 2
    ensures Settle(n, order, next, log).log ==
            if |n.keys| <= order then log else log + [PageWrite(next, UpperHalf(Image(n)))]
  {
    if |n.keys| > order {
      CutImage(n, |n.keys| / 2, next);
    }
  }

  lemma ListEnds(log: seq<Change>, a: Change, b: Change)
    ensures (forall c :: c in log ==> c in log + [a] && c in log + [a] + [b]) && a in log + [a]
    ensures a in log + [a] + [b] && b in log + [a] + [b]
  {
  }

  // ---- Operations and runs -------------------------------------------------------------------------

  lemma {:induction false} OpAble(db: Db, op: Op, order: nat, there: set<PageId>)
    requires Healthy(db, order) && LogWritable(DoLog(db, op, order)) && forall id :: id in Ids(db.tree) ==> id in there
    ensures Able(OpActs(db, op, order), there, db.next)
    ensures NextAll(db.next, OpActs(db, op, order)) == Do(db, op, order).next
  {
    match op
    case Insert(k, v) => InsertAble(db, k, v, order, there);
    case Delete(k) =>
      if HasKey(db.tree, k) {
        DeleteAble(db, k, order, there);
      }
  }

  lemma {:induction false} InsertAble(db: Db, k: Key, v: Bytes, order: nat, there: set<PageId>)
    requires Healthy(db, order) && LogWritable(DoLog(db, Insert(k, v), order))
    requires forall id :: id in Ids(db.tree) ==> id in there
    ensures Able(OpActs(db, Insert(k, v), order), there, db.next)
    ensures NextAll(db.next, OpActs(db, Insert(k, v), order)) == Do(db, Insert(k, v), order).next
  {
    var t, least := db.tree, RootLeast(db.tree);
    var g, below := Ins(t, k, v, order, db.next), InsActs(t, k, v, order, db.next);
    InsOrderly(t, k, v, order, db.next, least, 0, KEY_LIMIT, db.height, there);
    InsSourced(t, k, v, order, db.next, least, 0, KEY_LIMIT, db.height);
    RootOrderly(g, ThereAll(there, below));
    OrderlyAppend(there, db.next, below, RootActs(g));
    AllAppend(there, db.next, below, RootActs(g));
    SourcedMore(below, g.log, RootActs(g), GrowLog(g));
    SourcedFit(below + RootActs(g), GrowLog(g));
  }

  lemma {:induction false} RootOrderly(g: Grown, there: set<PageId>)
    ensures Orderly(RootActs(g), there, g.next) && NextAll(g.next, RootActs(g)) == GrowNext(g)
    ensures AllSourced(RootActs(g), GrowLog(g))
  {
    if g.split.Some? {
      var a, b := NewRoot(g.next, Image(Grow(g))), Root(g.next);
      OrderlyOne(there, g.next, a);
      OrderlyOne(there + {g.next}, g.next + 1, b);
      OrderlyAppend(there, g.next, [a], [b]);
      AllAppend(there, g.next, [a], [b]);
      assert RootActs(g) == [a] + [b];
      ListEnds(g.log, Write(Grow(g)), MetaUpdate(g.next));
      assert GrowLog(g) == g.log + [Write(Grow(g))] + [MetaUpdate(g.next)];
    }
  }

  lemma {:induction false} DeleteAble(db: Db, k: Key, order: nat, there: set<PageId>)
    requires Healthy(db, order) && HasKey(db.tree, k) && LogWritable(DoLog(db, Delete(k), order))
    requires forall id :: id in Ids(db.tree) ==> id in there
    ensures Able(OpActs(db, Delete(k), order), there, db.next)
    ensures NextAll(db.next, OpActs(db, Delete(k), order)) == db.next
  {
    var t, least := db.tree, RootLeast(db.tree);
    var d, below := Del(t, k, order), DelActs(t, k, order);
    DelOn(t, k, order);
    DelTouchesOnly(t, k, order, least, 0, KEY_LIMIT, db.height, None);
    OnPagesOrderly(below, Touched(d.log), there, db.next);
    DelContents(t, k, order, least, 0, KEY_LIMIT, db.height, None);
    CollapseOrderly(d, there, db.next, Ids(t));
    OrderlyAppend(there, db.next, below, CollapseActs(d));
    AllAppend(there, db.next, below, CollapseActs(d));
    SourcedMore(below, d.log, CollapseActs(d), CollapseLog(d));
    SourcedFit(below + CollapseActs(d), CollapseLog(d));
  }

  lemma {:induction false} CollapseOrderly(d: Fixed, there: set<PageId>, next: nat, ids: multiset<PageId>)
    requires Ids(d.node) <= ids && forall id :: id in ids ==> id < next
    ensures Orderly(CollapseActs(d), there, next) && NextAll(next, CollapseActs(d)) == next
    ensures AllSourced(CollapseActs(d), CollapseLog(d)) && forall c :: c in d.log ==> c in CollapseLog(d)
  {
    if Collapse(d) != d.node {
      KidAmong(d.node.kids, 0);
      assert Collapse(d).id in Ids(d.node);
      OrderlyOne(there, next, Root(Collapse(d).id));
    }
  }

  function AllKept(acts: seq<Act>): (r: seq<Event>)
    ensures Acts(r) == acts && NoneLost(r)
  {
    seq(|acts|, i requires 0 <= i < |acts| => Event(acts[i], true))
  }

  lemma {:induction false} KeysThere(s: Store, es: seq<Event>, next: nat)
    requires Orderly(Acts(es), s.Keys, next)
    ensures Effects(s, es).Keys == ThereAll(s.Keys, Acts(es))
    decreases |es|
  {
    if es != [] {
      var n := |es| - 1;
      assert Acts(es[..n]) == Acts(es)[..n] && Acts(es)[n] == es[n].act;
      assert InTurn(Acts(es), s.Keys, next, n);
      forall i | 0 <= i < n ensures InTurn(Acts(es[..n]), s.Keys, next, i) {
        assert InTurn(Acts(es), s.Keys, next, i) && Acts(es[..n])[..i] == Acts(es)[..i];
      }
      KeysThere(s, es[..n], next);
    }
  }

  /** Everything a run does can be done, when its log fits. */
  lemma {:induction false} RunAble(s: Store, db: Db, ops: seq<Op>, order: nat)
    requires Healthy(db, order) && Spelled(s, db) && LogWritable(LogAll(db, ops, order))
    ensures Able(RunActs(db, ops, order), s.Keys, db.next)
    ensures NextAll(db.next, RunActs(db, ops, order)) == DoAll(db, ops, order).next
    decreases |ops|
  {
    if ops != [] {
      var n := |ops| - 1;
      var mid, a := DoAll(db, ops[..n], order), RunActs(db, ops[..n], order);
      var b := OpActs(mid, ops[n], order);
      var log, more := LogAll(db, ops[..n], order), DoLog(mid, ops[n], order);
      WritableParts(log, more);
      RunAble(s, db, ops[..n], order);
      HealthyRun(db, ops[..n], order);
      RunExact(s, db, ops[..n], order, AllKept(a));
      KeysThere(s, AllKept(a), db.next);
      TreeThere(Effects(s, AllKept(a)), mid.tree);
      OpAble(mid, ops[n], order, ThereAll(s.Keys, a));
      OrderlyAppend(s.Keys, db.next, a, b);
      AllAppend(s.Keys, db.next, a, b);
    }
  }

  lemma WritableParts(log: seq<Change>, more: seq<Change>)
    requires LogWritable(log + more)
    ensures LogWritable(log) && LogWritable(more)
  {
    forall i | 0 <= i < |log| && log[i].PageWrite? ensures Writable(log[i].page) {
      assert (log + more)[i] == log[i];
    }
    forall i | 0 <= i < |more| && more[i].PageWrite? ensures Writable(more[i].page) {
      assert (log + more)[|log| + i] == more[i];
    }
  }

  lemma {:induction false} TreeThere(s: Store, t: Tree)
    requires Holds(s, t, KEY_LIMIT, true)
    ensures forall id :: id in Ids(t) ==> id in s
  {
    forall id | id in Ids(t) ensures id in s {
      HeldPage(s, t, KEY_LIMIT, id);
    }
  }

  // ---- Changes that are not logged yet -------------------------------------------------------------

  /** Pages that were changed and not logged since. */
  function Unsettled(pending: set<PageId>, a: Act): set<PageId> {
    match a
    case Mark(id, _) => pending - {id}
    case Alter(id, _) => pending + {id}
    case _ => pending
  }

  function UnsettledAll(pending: set<PageId>, acts: seq<Act>): set<PageId>
    decreases |acts|
  {
    if acts == [] then pending else Unsettled(UnsettledAll(pending, acts[..|acts| - 1]), acts[|acts| - 1])
  }

  lemma {:induction false} UnsettledAppend(pending: set<PageId>, a: seq<Act>, b: seq<Act>)
    ensures UnsettledAll(pending, a + b) == UnsettledAll(UnsettledAll(pending, a), b)
    decreases |b|
  {
    if b == [] {
      assert a + b == a;
    } else {
      assert (a + b)[..|a + b| - 1] == a + b[..|b| - 1];
      UnsettledAppend(pending, a, b[..|b| - 1]);
    }
  }

  lemma {:induction false} AltersPend(pending: set<PageId>, log: seq<Change>)
    ensures UnsettledAll(pending, AltersOf(log)) == pending + Touched(log)
    ensures UnsettledAll(pending, MarksOf(log)) == pending - Touched(log)
    decreases |log|
  {
    if log != [] {
      var n := |log| - 1;
      assert AltersOf(log[..n]) == AltersOf(log)[..n] && MarksOf(log[..n]) == MarksOf(log)[..n];
      AltersPend(pending, log[..n]);
      TouchedAppend(log[..n], [log[n]]);
      assert log == log[..n] + [log[n]] && log[n] in [log[n]];
    }
  }

  lemma {:induction false} DelSettles(t: Tree, k: int, order: nat)
    requires order >= 2
    ensures UnsettledAll({}, DelActs(t, k, order)) == {}
    decreases t
  {
    if t.Lf? {
      var a := DelActs(t, k, order);
      assert a[..0] == [];
    } else if |t.kids| == |t.keys| + 1 {
      var j := Route(t.keys, k);
      DelSettles(t.kids[j], k, order);
      var d := Del(t.kids[j], k, order);
      var n := Nd(t.id, t.keys, t.kids[j := d.node]);
      if !(NumKeys(d.node) >= order / 2 || !Mendable(n, j)) {
        var log := Mend(n, j, order).log;
        UnsettledAppend({}, DelActs(t.kids[j], k, order), RepairActs(log));
        UnsettledAppend({}, AltersOf(log), MarksOf(log));
        AltersPend({}, log);
        AltersPend(Touched(log), log);
        assert {} + Touched(log) == Touched(log) && Touched(log) - Touched(log) == {};
      }
    }
  }

  /** After a run every page that was changed has been logged, the left halves of splits apart. */
  lemma {:induction false} RunSettles(db: Db, ops: seq<Op>, order: nat)
    requires order >= 2
    ensures UnsettledAll({}, RunActs(db, ops, order)) == {}
    decreases |ops|
  {
    if ops != [] {
      var n := |ops| - 1;
      var mid := DoAll(db, ops[..n], order);
      RunSettles(db, ops[..n], order);
      UnsettledAppend({}, RunActs(db, ops[..n], order), OpActs(mid, ops[n], order));
      match ops[n]
      case Insert(k, v) => NothingPends(OpActs(mid, ops[n], order), mid, k, v, order);
      case Delete(k) =>
        if HasKey(mid.tree, k) {
          DelSettles(mid.tree, k, order);
          var d := Del(mid.tree, k, order);
          UnsettledAppend({}, DelActs(mid.tree, k, order), CollapseActs(d));
          assert UnsettledAll({}, CollapseActs(d)) == {};
        }
    }
  }

  lemma {:induction false} NothingPends(acts: seq<Act>, db: Db, k: Key, v: Bytes, order: nat)
    requires order >= 2 && acts == OpActs(db, Insert(k, v), order)
    ensures UnsettledAll({}, acts) == {}
  {
    var es := AllKept(acts);
    LostOfInsert(db, k, v, order, es);
    forall a | a in acts ensures !a.Alter? {
      var i :| 0 <= i < |acts| && acts[i] == a;
      assert es[i].act == a;
    }
    NoPending(acts);
  }

  lemma {:induction false} NoPending(acts: seq<Act>)
    requires forall a :: a in acts ==> !a.Alter?
    ensures UnsettledAll({}, acts) == {}
    decreases |acts|
  {
    if acts != [] {
      assert acts[|acts| - 1] in acts;
      NoPending(acts[..|acts| - 1]);
    }
  }

  // ---- The root, and reads in between ----------------------------------------------------------------

  function RootAfter(root: Option<nat>, a: Act): Option<nat> {
    if a.Root? then Some(a.id) else root
  }

  function RootAll(root: Option<nat>, acts: seq<Act>): Option<nat>
    decreases |acts|
  {
    if acts == [] then root else RootAfter(RootAll(root, acts[..|acts| - 1]), acts[|acts| - 1])
  }

  /** The last root is the one that the log names. */
  lemma {:induction false} RootTold(root: PageId, es: seq<Event>)
    ensures RootAll(Some(root), Acts(es)) == Some(ReplayRoot(root, ToldAll(es)))
    decreases |es|
  {
    if es != [] {
      var n := |es| - 1;
      assert Acts(es[..n]) == Acts(es)[..n] && Acts(es)[n] == es[n].act;
      RootTold(root, es[..n]);
      ReplayRootAppend(root, ToldAll(es[..n]), Told(es[n].act));
      ToldRoot(ReplayRoot(root, ToldAll(es[..n])), es[n].act);
    }
  }

  lemma ToldRoot(root: PageId, a: Act)
    ensures ReplayRoot(root, Told(a)) == if a.Root? then a.id else root
  {
    var told := Told(a);
    if |told| == 1 {
      assert told[..0] == [] && ReplayRoot(root, told[..0]) == root;
    } else if |told| == 2 {
      assert told[..1] == [told[0]] && told[..1][..0] == [];
      assert ReplayRoot(root, told[..1]) == ReplayRoot(root, told[..1][..0]) == root;
    }
  }

  /** What is done beside reading pages. */
  function Moves(es: seq<Event>): seq<Event>
    decreases |es|
  {
    if es == [] then []
    else Moves(es[..|es| - 1]) + if es[|es| - 1].act.Read? then [] else [es[|es| - 1]]
  }

  lemma MovesStep(es: seq<Event>)
    requires es != []
    ensures var n, e := |es| - 1, es[|es| - 1];
            && Acts(es[..n]) == Acts(es)[..n] && Acts(es)[n] == e.act
            && (e.act.Read? ==> Moves(es) == Moves(es[..n]))
            && (!e.act.Read? ==>
                  && Moves(es) == Moves(es[..n]) + [e]
                  && Acts(Moves(es)) == Acts(Moves(es[..n])) + [e.act])
  {
    var n := |es| - 1;
    assert Moves(es[..n]) + [] == Moves(es[..n]);
  }

  /** Reads make no difference. */
  lemma {:induction false} ReadsAside(s: Store, es: seq<Event>)
    ensures Effects(s, Moves(es)) == Effects(s, es)
    decreases |es|
  {
    if es != [] {
      var init, e := es[..|es| - 1], es[|es| - 1];
      ReadsAside(s, init);
      MovesStep(es);
      EffectsSnoc(s, Moves(init), e);
      EffectsSnoc(s, init, e);
      assert es == init + [e];
    }
  }

  lemma EffectsSnoc(s: Store, es: seq<Event>, e: Event)
    ensures Effects(s, es + [e]) == Effect(Effects(s, es), e)
    ensures e.act.Read? ==> Effects(s, es + [e]) == Effects(s, es)
  {
    assert (es + [e])[..|es|] == es;
  }

  lemma {:induction false} ReadsUntold(es: seq<Event>)
    ensures ToldAll(Moves(es)) == ToldAll(es)
    decreases |es|
  {
    if es != [] {
      var init := es[..|es| - 1];
      ReadsUntold(init);
      MovesStep(es);
      if !es[|es| - 1].act.Read? {
        assert Moves(es)[..|Moves(es)| - 1] == Moves(init);
      } else {
        assert ToldAll(init) + [] == ToldAll(init);
      }
    }
  }

  lemma {:induction false} ReadsSettle(es: seq<Event>, next: nat)
    ensures NextAll(next, Acts(Moves(es))) == NextAll(next, Acts(es))
    ensures UnsettledAll({}, Acts(Moves(es))) == UnsettledAll({}, Acts(es))
    decreases |es|
  {
    if es != [] {
      var n, e := |es| - 1, es[|es| - 1];
      ReadsSettle(es[..n], next);
      MovesStep(es);
      if !e.act.Read? {
        assert Acts(Moves(es))[..|Moves(es)| - 1] == Acts(Moves(es[..n]));
      }
    }
  }

  lemma {:induction false} MovesKept(es: seq<Event>)
    requires NoneLost(es)
    ensures NoneLost(Moves(es))
    decreases |es|
  {
    if es != [] {
      MovesKept(es[..|es| - 1]);
    }
  }

  /** The acts beside reads. */
  function Unread(acts: seq<Act>): seq<Act>
    decreases |acts|
  {
    if acts == [] then []
    else Unread(acts[..|acts| - 1]) + if acts[|acts| - 1].Read? then [] else [acts[|acts| - 1]]
  }

  lemma {:induction false} MovesActs(es: seq<Event>)
    ensures Acts(Moves(es)) == Unread(Acts(es))
    decreases |es|
  {
    if es != [] {
      MovesActs(es[..|es| - 1]);
      MovesStep(es);
      assert Unread(Acts(es[..|es| - 1])) + [] == Unread(Acts(es[..|es| - 1]));
    }
  }

  /** What a run does, with reads anywhere in between. */
  lemma {:induction false} RunActed(s: Store, db: Db, ops: seq<Op>, order: nat, es: seq<Event>)
    requires Healthy(db, order) && Spelled(s, db) && Unread(Acts(es)) == RunActs(db, ops, order)
    requires LogWritable(LogAll(db, ops, order))
    ensures ToldAll(es) == LogAll(db, ops, order)
    ensures NoneLost(es) ==> Spelled(Effects(s, es), DoAll(db, ops, order))
    ensures NextAll(db.next, Acts(es)) == DoAll(db, ops, order).next
    ensures RootAll(Some(db.tree.id), Acts(es)) == Some(ReplayRoot(db.tree.id, LogAll(db, ops, order)))
    ensures UnsettledAll({}, Acts(es)) == {}
  {
    var m := Moves(es);
    MovesActs(es);
    ReadsAside(s, es);
    ReadsUntold(es);
    ReadsSettle(es, db.next);
    RunSettles(db, ops, order);
    RunAble(s, db, ops, order);
    RunTold(s, db, ops, order, m);
    RootTold(db.tree.id, es);
    if NoneLost(es) {
      MovesKept(es);
      RunExact(s, db, ops, order, m);
    }
  }

  /** The log does not depend on which cuts are kept. */
  lemma {:induction false} RunTold(s: Store, db: Db, ops: seq<Op>, order: nat, es: seq<Event>)
    requires Healthy(db, order) && Spelled(s, db) && Acts(es) == RunActs(db, ops, order)
    ensures ToldAll(es) == LogAll(db, ops, order)
  {
    RunExact(s, db, ops, order, AllKept(RunActs(db, ops, order)));
    ToldByActs(es, AllKept(RunActs(db, ops, order)));
  }

  /** Nor does that of a run that is not over. */
  lemma {:induction false} Underway(s: Store, db: Db, ops: seq<Op>, order: nat, es: seq<Event>)
    requires Healthy(db, order) && Spelled(s, db) && Unread(Acts(es)) <= RunActs(db, ops, order)
    ensures ToldAll(es) <= LogAll(db, ops, order)
  {
    var all := AllKept(RunActs(db, ops, order));
    MovesActs(es);
    ReadsUntold(es);
    RunExact(s, db, ops, order, all);
    ToldPrefix(Moves(es), all);
  }

  lemma {:induction false} ToldPrefix(a: seq<Event>, b: seq<Event>)
    requires Acts(a) <= Acts(b)
    ensures ToldAll(a) <= ToldAll(b)
  {
    var n := |Acts(a)|;
    assert Acts(b[..n]) == Acts(b)[..n] == Acts(a);
    ToldByActs(a, b[..n]);
    ToldAppend(b[..n], b[n..]);
    assert b[..n] + b[n..] == b;
  }

  lemma {:induction false} ToldByActs(a: seq<Event>, b: seq<Event>)
    requires Acts(a) == Acts(b)
    ensures ToldAll(a) == ToldAll(b)
    decreases |a|
  {
    assert |a| == |Acts(a)| == |b|;
    if a != [] {
      var n := |a| - 1;
      assert Acts(a[..n]) == Acts(a)[..n] == Acts(b[..n]) && Acts(a)[n] == a[n].act == b[n].act;
      ToldByActs(a[..n], b[..n]);
    }
  }
}
