/** Range scans after a crash: when they are right after any run of operations. */
module ScanRuns {
  import opened Entries
  import opened Tree
  import opened Log
  import opened TreeInsert
  import opened TreeDelete
  import opened TreeRecovery
  import opened TreeDeleteRecovery
  import opened TreeLive
  import opened TreeLeaves
  import opened TreeSteps
  import opened TreeClimb
  import opened CrashReplay
  import opened Restored
  import opened LeafOrder
  import opened DeadLeaves
  import opened Scans

  // ---- Leaves and their pages ------------------------------------------------------------------------------

  /** A page that is a leaf of the tree. */
  lemma {:induction false} LeafPage(t: Tree, p: PageId)
    requires PageOf(t, p).Some? && PageOf(t, p).value.Leaf?
    ensures p in LeafIds(t)
    decreases t, 1
  {
    if t.Lf? {
      assert LeafIds(t)[0] == t.id;
    } else {
      LeafAmong(t.kids, p);
    }
  }

  lemma {:induction false} LeafAmong(ts: seq<Tree>, p: PageId)
    requires PageAmong(ts, p).Some? && PageAmong(ts, p).value.Leaf?
    ensures p in LeafIdsOf(ts)
    decreases ts, 0
  {
    KidIdsAppend(Leaves(ts[0]), LeavesOf(ts[1..]));
    if PageOf(ts[0], p).Some? {
      LeafPage(ts[0], p);
    } else {
      LeafAmong(ts[1..], p);
    }
  }

  /** In the tree itself, a leaf's link is none, or names a later leaf. */
  lemma {:induction false} LiveLink(db: Db, order: nat, p: PageId)
    requires Healthy(db, order) && p in LeafIds(db.tree)
    ensures var page := PageOf(db.tree, p);
            && page.Some? && page.value.Leaf?
            && (page.value.next.Some? ==>
                page.value.next.value < db.next
                && Later(LeafIds(db.tree), p, page.value.next.value))
  {
    var t, ls := db.tree, Leaves(db.tree);
    var i :| 0 <= i < |LeafIds(t)| && LeafIds(t)[i] == p;
    StoreHolds(t, order, RootLeast(t), 0, KEY_LIMIT, db.height);
    LeafPageAt(StoreOf(t), t, order, RootLeast(t), 0, KEY_LIMIT, db.height, i);
    LeafIdsOnce(t);
    HeldPage(StoreOf(t), t, KEY_LIMIT, p);
    if i + 1 < |ls| {
      assert LeafIds(t)[i + 1] == ls[i + 1].id && LeafIds(t)[i + 1] in LeafIds(t);
    }
  }

  /** A link that was fine stays fine: leaves keep their order, and new leaves have new ids. */
  lemma {:induction false} LinkCarries(db: Db, op: Op, order: nat, p: PageId, q: PageId)
    requires Healthy(db, order) && p in LeafIds(db.tree) && p in LeafIds(Do(db, op, order).tree) && q < db.next
    requires Later(LeafIds(db.tree), p, q) || q !in LeafIds(db.tree)
    ensures Later(LeafIds(Do(db, op, order).tree), p, q) || q !in LeafIds(Do(db, op, order).tree)
  {
    var u, v := LeafIds(db.tree), LeafIds(Do(db, op, order).tree);
    OpOrder(db, op, order);
    if q in v {
      assert q in u;
      LeafIdsOnce(db.tree);
      if Sub(u, v) {
        SubLater(u, v, p, q);
      } else {
        LaterBack(v, u, p, q);
      }
    }
  }

  // ---- Stretches through a run -------------------------------------------------------------------

  /** The entries of a leaf of the tree. */
  function OwnOf(t: Tree, p: PageId): seq<Entry> {
    var page := PageOf(t, p);
    if page.Some? && page.value.Leaf? then page.value.entries else []
  }

  /** The stretch of page p ends: it has no cell before those of the leaf, passes over old pages only, and ends the
      chain or leads to a page that comes later in the list. */
  ghost predicate Ends(s: Store, live: set<PageId>, u: seq<PageId>, own: seq<Entry>, next: PageId, p: PageId,
      fuel: nat) {
    var r := StretchOf(s, live, p, fuel);
    && r.Some? && NotBefore(own, r.value.cells) && (forall d :: d in r.value.dead ==> d < next)
    && (r.value.next.Some? ==> Later(u, p, r.value.next.value))
  }

  ghost predicate Fine(s: Store, live: set<PageId>, u: seq<PageId>, own: seq<Entry>, next: PageId, p: PageId) {
    exists fuel: nat :: Ends(s, live, u, own, next, p, fuel)
  }

  /** The stretch of a leaf of the tree. */
  ghost predicate LeafFine(s: Store, t: Tree, next: PageId, p: PageId) {
    Fine(s, LiveIds(t), LeafIds(t), OwnOf(t, p), next, p)
  }

  ghost predicate AllFine(s: Store, t: Tree, next: PageId) {
    forall p {:trigger LeafFine(s, t, next, p)} :: p in LeafIds(t) ==> LeafFine(s, t, next, p)
  }

  /** More fuel changes nothing. */
  lemma {:induction false} MoreFuel(s: Store, live: set<PageId>, p: PageId, f: nat, f': nat)
    requires StretchOf(s, live, p, f).Some? && f <= f'
    ensures StretchOf(s, live, p, f') == StretchOf(s, live, p, f)
    decreases f
  {
    if s[p].next.Some? && s[p].next.value !in live {
      MoreFuel(s, live, s[p].next.value, f - 1, f' - 1);
    }
  }

  /** A stretch whose pages have not changed is as before while the page it leads to is in the tree. */
  lemma {:induction false} StretchKept(s: Store, s': Store, live: set<PageId>, live': set<PageId>, p: PageId, f: nat)
    requires StretchOf(s, live, p, f).Some? && p in s' && s'[p] == s[p]
    requires var r := StretchOf(s, live, p, f).value;
             && (forall d :: d in r.dead ==> d in s && d in s' && s'[d] == s[d] && d !in live')
             && (r.next.Some? ==> r.next.value in live')
    ensures StretchOf(s', live', p, f) == StretchOf(s, live, p, f)
    decreases f
  {
    var next := s[p].next;
    if next.Some? && next.value !in live {
      var r := StretchOf(s, live, next.value, f - 1).value;
      assert ([next.value] + r.dead)[0] == next.value;
      assert forall d :: d in r.dead ==> d in [next.value] + r.dead;
      StretchKept(s, s', live, live', next.value, f - 1);
    }
  }

  /** And it goes on from there when that page is not. */
  lemma {:induction false} StretchOn(s: Store, s': Store, live: set<PageId>, live': set<PageId>, p: PageId, f: nat,
                                     q: PageId, g: nat)
    requires StretchOf(s, live, p, f).Some? && p in s' && s'[p] == s[p]
    requires var r := StretchOf(s, live, p, f).value;
             && (forall d :: d in r.dead ==> d in s && d in s' && s'[d] == s[d] && d !in live')
             && r.next == Some(q) && q !in live' && StretchOf(s', live', q, g).Some?
    ensures StretchOf(s', live', p, f + g) ==
            Some(Join(StretchOf(s, live, p, f).value, q, StretchOf(s', live', q, g).value))
    decreases f
  {
    var next, rest := s[p].next, StretchOf(s', live', q, g).value;
    if next.value !in live {
      var r := StretchOf(s, live, next.value, f - 1).value;
      assert ([next.value] + r.dead)[0] == next.value;
      assert forall d :: d in r.dead ==> d in [next.value] + r.dead;
      StretchOn(s, s', live, live', next.value, f - 1, q, g);
      JoinStep(s[p].entries, next.value, r, q, rest);
    } else {
      MoreFuel(s', live', q, g, f + g - 1);
      assert [] + [q] + rest.dead == [q] + rest.dead;
    }
  }

  /** A stretch that led to q, and the one from q. */
  function Join(r: Stretch, q: PageId, rest: Stretch): Stretch {
    Stretch(r.cells + rest.cells, r.dead + [q] + rest.dead, rest.next)
  }

  lemma JoinStep(es: seq<Entry>, p: PageId, r: Stretch, q: PageId, rest: Stretch)
    ensures Join(Stretch(es + r.cells, [p] + r.dead, r.next), q, rest) ==
            Stretch(es + Join(r, q, rest).cells, [p] + Join(r, q, rest).dead, rest.next)
  {
    assert es + r.cells + rest.cells == es + (r.cells + rest.cells);
    assert [p] + r.dead + [q] + rest.dead == [p] + (r.dead + [q] + rest.dead);
  }

  /** A page outside the tree stays as it is, and outside. */
  lemma {:induction false} OpAside(s: Store, db: Db, op: Op, order: nat, d: PageId)
    requires Healthy(db, order) && d < db.next && d !in LiveIds(db.tree) && d in s
    ensures var s' := Replay(s, DoLog(db, op, order));
            d !in LiveIds(Do(db, op, order).tree) && d in s' && s'[d] == s[d]
  {
    var t, least, log := db.tree, RootLeast(db.tree), DoLog(db, op, order);
    match op {
      case Insert(k, v) =>
        var g := Ins(t, k, v, order, db.next);
        InsertIds(t, k, v, order, db.next, least, db.height);
        InsTouchesOnly(t, k, v, order, db.next, least, 0, KEY_LIMIT, db.height);
        SpanExact(db.next, GrowNext(g), d);
        GrowAside(g, db.next, d);
      case Delete(k) =>
        if HasKey(t, k) {
          var r := Del(t, k, order);
          DelContents(t, k, order, least, 0, KEY_LIMIT, db.height, None);
          DelTouchesOnly(t, k, order, least, 0, KEY_LIMIT, db.height, None);
          MetaAside(s, r, d);
          if Collapse(r) != r.node {
            KidAmong(r.node.kids, 0);
          }
        }
    }
    ReplayTouches(s, log, d);
  }

  lemma GrowAside(g: Grown, next: PageId, d: PageId)
    requires next <= g.next && d < next && d !in Touched(g.log)
    ensures d !in Touched(GrowLog(g))
  {
  }

  // ---- One operation ---------------------------------------------------------------------------------

  /** The page of leaf i is that leaf. */
  lemma {:induction false} LeafAt(db: Db, order: nat, i: nat)
    requires Healthy(db, order) && i < |LeafIds(db.tree)|
    ensures var t, l := db.tree, Leaves(db.tree)[i];
            LeafIds(t)[i] == l.id && l.Lf? && PageOf(t, l.id) == Some(Image(l)) && OwnOf(t, l.id) == l.entries
  {
    var t := db.tree;
    StoreHolds(t, order, RootLeast(t), 0, KEY_LIMIT, db.height);
    LeafPageAt(StoreOf(t), t, order, RootLeast(t), 0, KEY_LIMIT, db.height, i);
    LeafIdsOnce(t);
    HeldPage(StoreOf(t), t, KEY_LIMIT, Leaves(t)[i].id);
  }

  /** Leaves are in the order of their keys. */
  lemma {:induction false} LaterFirst(db: Db, order: nat, p: PageId, q: PageId)
    requires Healthy(db, order) && Later(LeafIds(db.tree), p, q)
    ensures var t := db.tree;
            OwnOf(t, p) != [] && OwnOf(t, q) != [] && OwnOf(t, p)[0].key <= OwnOf(t, q)[0].key
  {
    var t, ls := db.tree, Leaves(db.tree);
    var i, j :| 0 <= i < j < |LeafIds(t)| && LeafIds(t)[i] == p && LeafIds(t)[j] == q;
    LeafAt(db, order, i);
    LeafAt(db, order, j);
    LeavesFilled(t, order, RootLeast(t), 0, KEY_LIMIT, db.height, ls[i]);
    LeavesFilled(t, order, RootLeast(t), 0, KEY_LIMIT, db.height, ls[j]);
    SuffixParts(t, order, db.height, i);
    SortedFirst(ls[i].entries, ContentsOf(ls[i + 1..]));
    FirstIn(ls[i + 1..], j - i - 1);
  }

  lemma LaterTrans(u: seq<PageId>, p: PageId, q: PageId, r: PageId)
    requires Once(u) && Later(u, p, q) && Later(u, q, r)
    ensures Later(u, p, r)
  {
    var i, j :| 0 <= i < j < |u| && u[i] == p && u[j] == q;
    var m, n :| 0 <= m < n < |u| && u[m] == q && u[n] == r;
    assert j == m;
  }

  /** A stretch that goes on where another begins. */
  lemma Onward(db: Db, order: nat, r: Stretch, rest: Stretch, p: PageId, q: PageId)
    requires Healthy(db, order) && Later(LeafIds(db.tree), p, q)
    requires NotBefore(OwnOf(db.tree, p), r.cells) && NotBefore(OwnOf(db.tree, q), rest.cells)
    requires rest.next.Some? ==> Later(LeafIds(db.tree), q, rest.next.value)
    ensures NotBefore(OwnOf(db.tree, p), r.cells + rest.cells)
    ensures rest.next.Some? ==> Later(LeafIds(db.tree), p, rest.next.value)
  {
    LaterFirst(db, order, p, q);
    LeafIdsOnce(db.tree);
    if rest.next.Some? {
      LaterTrans(LeafIds(db.tree), p, q, rest.next.value);
    }
  }

  /** The stretches of old leaves after an operation that has left them as they were, or has taken them away. */
  lemma {:induction false} OldFine(s: Store, db: Db, op: Op, order: nat, i: nat)
    requires Healthy(db, order) && AllFine(s, db.tree, db.next) && i < |LeafIds(db.tree)|
    requires LeafIds(db.tree)[i] !in Touched(DoLog(db, op, order))
             || LeafIds(db.tree)[i] !in LeafIds(Do(db, op, order).tree)
    ensures Fine(Replay(s, DoLog(db, op, order)), LiveIds(Do(db, op, order).tree), LeafIds(db.tree),
                 OwnOf(db.tree, LeafIds(db.tree)[i]), db.next, LeafIds(db.tree)[i])
    decreases |LeafIds(db.tree)| - i
  {
    var t, log, p := db.tree, DoLog(db, op, order), LeafIds(db.tree)[i];
    var s', live' := Replay(s, log), LiveIds(Do(db, op, order).tree);
    if p in Touched(log) {
      OpDead(s, db, op, order, p);
      LiveLink(db, order, p);
      var next := PageOf(t, p).value.next;
      if next.Some? && next.value !in live' {
        var m := OldIndex(db, order, i, next.value, Do(db, op, order).tree);
        OldFine(s, db, op, order, m);
      }
      DeadFine(s', live', db, order, p, op.key);
    } else {
      assert LeafFine(s, t, db.next, p);
      var f: nat :| Ends(s, LiveIds(t), LeafIds(t), OwnOf(t, p), db.next, p, f);
      var next := StretchOf(s, LiveIds(t), p, f).value.next;
      if next.Some? && next.value !in live' {
        var m := OldIndex(db, order, i, next.value, Do(db, op, order).tree);
        OldFine(s, db, op, order, m);
      }
      ReplayTouches(s, log, p);
      StillFine(s, db, op, order, p, f);
    }
  }

  /** A later leaf that is in the tree no more. */
  lemma {:induction false} OldIndex(db: Db, order: nat, i: nat, q: PageId, t': Tree) returns (m: nat)
    requires Healthy(db, order) && i < |LeafIds(db.tree)| && Later(LeafIds(db.tree), LeafIds(db.tree)[i], q)
    requires q !in LiveIds(t')
    ensures i < m < |LeafIds(db.tree)| && LeafIds(db.tree)[m] == q && q !in LeafIds(t')
  {
    var u := LeafIds(db.tree);
    LeafIdsOnce(db.tree);
    var a, b :| 0 <= a < b < |u| && u[a] == u[i] && u[b] == q;
    m := b;
    LeafIdsAmong(t');
    assert q in LeafIds(t') ==> q in multiset(LeafIds(t'));
  }

  /** A leaf that was logged without its key, and taken away. */
  lemma {:induction false} DeadFine(s': Store, live': set<PageId>, db: Db, order: nat, p: PageId, k: Key)
    requires Healthy(db, order) && p in LeafIds(db.tree) && WithoutKey(s', PageOf(db.tree, p), k, p)
    requires var next := PageOf(db.tree, p).value.next;
             next.Some? && next.value !in live' ==>
               Fine(s', live', LeafIds(db.tree), OwnOf(db.tree, next.value), db.next, next.value)
    ensures Fine(s', live', LeafIds(db.tree), OwnOf(db.tree, p), db.next, p)
  {
    var t, u := db.tree, LeafIds(db.tree);
    LiveLink(db, order, p);
    var own, next := OwnOf(t, p), PageOf(t, p).value.next;
    OwnSorted(db, order, p);
    RemoveKeeps(own, k);
    if next.Some? && next.value !in live' {
      var q := next.value;
      var g: nat :| Ends(s', live', u, OwnOf(t, q), db.next, q, g);
      var rest := StretchOf(s', live', q, g).value;
      Onward(db, order, Stretch(s'[p].entries, [], next), rest, p, q);
      assert Ends(s', live', u, own, db.next, p, g + 1);
    } else {
      assert Ends(s', live', u, own, db.next, p, 1);
    }
  }

  lemma {:induction false} OwnSorted(db: Db, order: nat, p: PageId)
    requires Healthy(db, order) && p in LeafIds(db.tree)
    ensures Sorted(OwnOf(db.tree, p))
  {
    var i :| 0 <= i < |LeafIds(db.tree)| && LeafIds(db.tree)[i] == p;
    LeafAt(db, order, i);
    LeafSorted(db.tree, order, RootLeast(db.tree), 0, KEY_LIMIT, db.height, i);
  }

  lemma {:induction false} RemoveKeeps(es: seq<Entry>, k: Key)
    requires Sorted(es)
    ensures NotBefore(es, Remove(es, k)) && forall e :: e in Remove(es, k) ==> e in es
  {
    if es != [] {
      SortedTail(es);
      RemoveKeeps(es[1..], k);
      assert forall e :: e in es ==> es[0].key <= e.key;
    }
  }

  /** A leaf that was not logged. */
  lemma {:induction false} StillFine(s: Store, db: Db, op: Op, order: nat, p: PageId, f: nat)
    requires Healthy(db, order) && p in LeafIds(db.tree)
    requires Ends(s, LiveIds(db.tree), LeafIds(db.tree), OwnOf(db.tree, p), db.next, p, f)
    requires p in Replay(s, DoLog(db, op, order)) && Replay(s, DoLog(db, op, order))[p] == s[p]
    requires var next := StretchOf(s, LiveIds(db.tree), p, f).value.next;
             next.Some? && next.value !in LiveIds(Do(db, op, order).tree) ==>
               Fine(Replay(s, DoLog(db, op, order)), LiveIds(Do(db, op, order).tree), LeafIds(db.tree),
                    OwnOf(db.tree, next.value), db.next, next.value)
    ensures Fine(Replay(s, DoLog(db, op, order)), LiveIds(Do(db, op, order).tree), LeafIds(db.tree),
                 OwnOf(db.tree, p), db.next, p)
  {
    var t, s' := db.tree, Replay(s, DoLog(db, op, order));
    var live, live' := LiveIds(t), LiveIds(Do(db, op, order).tree);
    var r := StretchOf(s, live, p, f).value;
    StretchEnds(s, live, p, f);
    forall d | d in r.dead ensures d in s && d in s' && s'[d] == s[d] && d !in live' {
      OpAside(s, db, op, order, d);
    }
    StillEnds(s, s', live', db, order, p, f);
  }

  lemma {:induction false} StillEnds(s: Store, s': Store, live': set<PageId>, db: Db, order: nat, p: PageId, f: nat)
    requires Healthy(db, order) && p in LeafIds(db.tree) && p in s && p in s' && s'[p] == s[p]
    requires Ends(s, LiveIds(db.tree), LeafIds(db.tree), OwnOf(db.tree, p), db.next, p, f)
    requires var r := StretchOf(s, LiveIds(db.tree), p, f).value;
             && (forall d :: d in r.dead ==> d in s && d in s' && s'[d] == s[d] && d !in live')
             && (r.next.Some? && r.next.value !in live' ==>
                   Fine(s', live', LeafIds(db.tree), OwnOf(db.tree, r.next.value), db.next, r.next.value))
    ensures Fine(s', live', LeafIds(db.tree), OwnOf(db.tree, p), db.next, p)
  {
    var t, u, live, own := db.tree, LeafIds(db.tree), LiveIds(db.tree), OwnOf(db.tree, p);
    var r := StretchOf(s, live, p, f).value;
    if r.next.Some? && r.next.value !in live' {
      var q := r.next.value;
      var g: nat :| Ends(s', live', u, OwnOf(t, q), db.next, q, g);
      StretchOn(s, s', live, live', p, f, q, g);
      Onward(db, order, r, StretchOf(s', live', q, g).value, p, q);
      LiveLink(db, order, q);
      LeafIdsOnce(t);
      assert Ends(s', live', u, own, db.next, p, f + g);
    } else {
      StretchKept(s, s', live, live', p, f);
      assert Ends(s', live', u, own, db.next, p, f);
    }
  }

  lemma {:induction false} OpFine(s: Store, db: Db, op: Op, order: nat, p: PageId)
    requires Healthy(db, order) && AllFine(s, db.tree, db.next) && Holds(s, db.tree, KEY_LIMIT, false)
    requires p in LeafIds(Do(db, op, order).tree) && db.next <= Do(db, op, order).next
    ensures LeafFine(Replay(s, DoLog(db, op, order)), Do(db, op, order).tree, Do(db, op, order).next, p)
  {
    var db', log := Do(db, op, order), DoLog(db, op, order);
    DoKeeps(db, op, order);
    LiveLink(db', order, p);
    LeafIdsOnce(db'.tree);
    OpFate(s, db, op, order, p);
    if p !in Touched(log) {
      LeafPage(db.tree, p);
      var i :| 0 <= i < |LeafIds(db.tree)| && LeafIds(db.tree)[i] == p;
      OldFine(s, db, op, order, i);
      FineCarries(s, db, op, order, p);
    } else {
      LoggedFine(s, db, op, order, p);
    }
  }

  /** The leaf that a stretch leads to is a leaf still. */
  lemma {:induction false} FineCarries(s: Store, db: Db, op: Op, order: nat, p: PageId)
    requires Healthy(db, order) && p in LeafIds(db.tree) && p in LeafIds(Do(db, op, order).tree)
    requires db.next <= Do(db, op, order).next && PageOf(db.tree, p) == PageOf(Do(db, op, order).tree, p)
    requires Fine(Replay(s, DoLog(db, op, order)), LiveIds(Do(db, op, order).tree), LeafIds(db.tree),
                  OwnOf(db.tree, p), db.next, p)
    ensures LeafFine(Replay(s, DoLog(db, op, order)), Do(db, op, order).tree, Do(db, op, order).next, p)
  {
    var db', s' := Do(db, op, order), Replay(s, DoLog(db, op, order));
    var live', u := LiveIds(db'.tree), LeafIds(db.tree);
    var f: nat :| Ends(s', live', u, OwnOf(db.tree, p), db.next, p, f);
    StretchEnds(s', live', p, f);
    var next := StretchOf(s', live', p, f).value.next;
    if next.Some? {
      var q := next.value;
      LeafIdsOnce(db.tree);
      LiveLink(db, order, q);
      if q !in LeafIds(db'.tree) {
        OpDead(s, db, op, order, q);
        assert false;
      }
      LinkCarries(db, op, order, p, q);
    }
    assert Ends(s', live', LeafIds(db'.tree), OwnOf(db'.tree, p), db'.next, p, f);
  }

  /** A leaf that was logged, as it is or before it was cut. */
  lemma {:induction false} LoggedFine(s: Store, db: Db, op: Op, order: nat, p: PageId)
    requires Healthy(db, order) && Holds(s, db.tree, KEY_LIMIT, false)
    requires p in LeafIds(Do(db, op, order).tree) && p in Touched(DoLog(db, op, order))
    ensures LeafFine(Replay(s, DoLog(db, op, order)), Do(db, op, order).tree, Do(db, op, order).next, p)
  {
    var db', s' := Do(db, op, order), Replay(s, DoLog(db, op, order));
    DoKeeps(db, op, order);
    DoReplay(s, db, op, order);
    LiveLink(db', order, p);
    LeafIdsOnce(db'.tree);
    OpFate(s, db, op, order, p);
    RecordSorted(s', db', order, p);
    if p in CutsOf(db, op, order) {
      LeafPage(db.tree, p);
      LiveLink(db, order, p);
      OpOrder(db, op, order);
      if s'[p].next.Some? {
        SubIn(LeafIds(db.tree), LeafIds(db'.tree), s'[p].next.value);
        SubLater(LeafIds(db.tree), LeafIds(db'.tree), p, s'[p].next.value);
        LeafIdsOnce(db'.tree);
      }
    }
    assert Ends(s', LiveIds(db'.tree), LeafIds(db'.tree), OwnOf(db'.tree, p), db'.next, p, 1);
  }

  lemma {:induction false} RecordSorted(s: Store, db: Db, order: nat, p: PageId)
    requires Healthy(db, order) && Holds(s, db.tree, KEY_LIMIT, false) && p in LeafIds(db.tree)
    ensures p in s && s[p].Leaf? && NotBefore(OwnOf(db.tree, p), s[p].entries)
  {
    var t := db.tree;
    var i :| 0 <= i < |LeafIds(t)| && LeafIds(t)[i] == p;
    LeafAt(db, order, i);
    LeafRecorded(s, t, order, RootLeast(t), 0, KEY_LIMIT, db.height, Leaves(t)[i]);
  }

  lemma {:induction false} NextGrows(db: Db, op: Op, order: nat)
    requires Healthy(db, order)
    ensures db.next <= Do(db, op, order).next
  {
    match op
    case Insert(k, v) => InsIds(db.tree, k, v, order, db.next, RootLeast(db.tree), 0, KEY_LIMIT, db.height);
    case Delete(_) =>
  }

  lemma {:induction false} BaseFine(base: Store, db: Db, order: nat)
    requires Healthy(db, order) && Holds(base, db.tree, KEY_LIMIT, true)
    ensures AllFine(base, db.tree, db.next)
  {
    HoldsInexact(base, db.tree, KEY_LIMIT);
    LeafIdsOnce(db.tree);
    forall p | p in LeafIds(db.tree) ensures LeafFine(base, db.tree, db.next, p) {
      LiveLink(db, order, p);
      HeldPage(base, db.tree, KEY_LIMIT, p);
      RecordSorted(base, db, order, p);
      assert Ends(base, LiveIds(db.tree), LeafIds(db.tree), OwnOf(db.tree, p), db.next, p, 1);
    }
  }

  /** After any run, what is read from a leaf on never has a smaller key than the leaf, passes over pages that were
      merged away only, and ends or comes to a later leaf. */
  lemma {:induction false} RunStretches(base: Store, db: Db, ops: seq<Op>, order: nat)
    requires Healthy(db, order) && Holds(base, db.tree, KEY_LIMIT, true)
    ensures AllFine(Replay(base, LogAll(db, ops, order)), DoAll(db, ops, order).tree, DoAll(db, ops, order).next)
    decreases |ops|
  {
    if ops == [] {
      BaseFine(base, db, order);
    } else {
      var n := |ops| - 1;
      var mid, log := DoAll(db, ops[..n], order), LogAll(db, ops[..n], order);
      RunStretches(base, db, ops[..n], order);
      HoldsInexact(base, db.tree, KEY_LIMIT);
      RunReplay(base, db, ops[..n], order);
      NextGrows(mid, ops[n], order);
      ReplayAppend(base, log, DoLog(mid, ops[n], order));
      var end := DoAll(db, ops, order);
      forall p | p in LeafIds(end.tree) ensures LeafFine(Replay(base, LogAll(db, ops, order)), end.tree, end.next, p) {
        OpFine(Replay(base, log), mid, ops[n], order, p);
      }
    }
  }

  // ---- Scans after a run -----------------------------------------------------------------------------

  lemma {:induction false} RunRecovered(base: Store, db: Db, ops: seq<Op>, order: nat)
    requires Healthy(db, order) && Holds(base, db.tree, KEY_LIMIT, true)
    ensures Recovered(Replay(base, LogAll(db, ops, order)), DoAll(db, ops, order).tree, order,
            DoAll(db, ops, order).height)
    ensures ReplayRoot(db.tree.id, LogAll(db, ops, order)) == DoAll(db, ops, order).tree.id
  {
    HoldsInexact(base, db.tree, KEY_LIMIT);
    RunReplay(base, db, ops, order);
  }

  /** The stretches of the leaves that are stale stand for leaves of the tree. */
  ghost predicate StaleCovered(s: Store, t: Tree, stale: set<PageId>) {
    forall i :: 0 <= i < |Leaves(t)| && Leaves(t)[i].id in stale ==> Covered(s, t, i)
  }

  /** A leaf that is not stale stands for itself. */
  lemma {:induction false} FreshCovered(base: Store, db: Db, ops: seq<Op>, order: nat, i: nat)
    requires Healthy(db, order) && Holds(base, db.tree, KEY_LIMIT, true)
    requires i < |Leaves(DoAll(db, ops, order).tree)|
             && Leaves(DoAll(db, ops, order).tree)[i].id !in Stale(db, ops, order)
    ensures Covered(Replay(base, LogAll(db, ops, order)), DoAll(db, ops, order).tree, i)
  {
    var s, end := Replay(base, LogAll(db, ops, order)), DoAll(db, ops, order);
    var t, l := end.tree, Leaves(end.tree)[i];
    RunRecovered(base, db, ops, order);
    HealthyRun(db, ops, order);
    LeafAt(end, order, i);
    LeafIdsOnce(t);
    assert LeafIds(t)[i] in LeafIds(t);
    PageRestored(base, db, ops, order, l.id);
    ExactCovers(s, t, order, end.height, i);
  }

  /** After any run, all range scans over the recovered pages are right if and only if what is read of each leaf that
      was cut and not logged since stands for leaves of the tree; in particular when there is no such leaf. */
  lemma {:induction false} RunScansIff(base: Store, db: Db, ops: seq<Op>, order: nat)
    requires Healthy(db, order) && Holds(base, db.tree, KEY_LIMIT, true)
    ensures var s, end := Replay(base, LogAll(db, ops, order)), DoAll(db, ops, order);
            ScansRight(s, end.tree, end.height) <==> StaleCovered(s, end.tree, Stale(db, ops, order))
  {
    var s, end := Replay(base, LogAll(db, ops, order)), DoAll(db, ops, order);
    RunRecovered(base, db, ops, order);
    RunStretches(base, db, ops, order);
    HealthyRun(db, ops, order);
    forall i | 0 <= i < |Leaves(end.tree)| ensures Forward(s, end.tree, i) {
      LeafForward(s, end, order, i);
    }
    forall i | 0 <= i < |Leaves(end.tree)| && Leaves(end.tree)[i].id !in Stale(db, ops, order)
      ensures Covered(s, end.tree, i)
    {
      FreshCovered(base, db, ops, order, i);
    }
    ScansIff(s, end.tree, order, end.height);
  }

  lemma {:induction false} LeafForward(s: Store, db: Db, order: nat, i: nat)
    requires Healthy(db, order) && Recovered(s, db.tree, order, db.height) && i < |Leaves(db.tree)|
    requires AllFine(s, db.tree, db.next)
    ensures Forward(s, db.tree, i)
  {
    var t, ls, u := db.tree, Leaves(db.tree), LeafIds(db.tree);
    LeafRecorded(s, t, order, RootLeast(t), 0, KEY_LIMIT, db.height, ls[i]);
    LeafAt(db, order, i);
    LeafIdsOnce(t);
    assert u[i] in u && LeafFine(s, t, db.next, u[i]);
    var f: nat :| Ends(s, LiveIds(t), u, OwnOf(t, u[i]), db.next, u[i], f);
    var next := StretchOf(s, LiveIds(t), u[i], f).value.next;
    if next.Some? {
      var a, b :| 0 <= a < b < |u| && u[a] == u[i] && u[b] == next.value;
      assert a == i && ls[b].id == next.value;
    }
    assert Leads(s, t, i, f);
  }

  // ---- The smallest run with a wrong scan ------------------------------------------------------------

  /** The smallest run that shows it: a leaf of two rows, order 2, then two more rows. */
  function Rows12(): Tree {
    Lf(0, [Entry(1, []), Entry(2, [])], None)
  }

  function Insert34(): seq<Op> {
    [Insert(3, []), Insert(4, [])]
  }

  lemma FirstInsert()
    ensures var g := Ins(Rows12(), 3, [], 2, 1);
            && g.log == [PageWrite(0, Leaf([Entry(1, []), Entry(2, []), Entry(3, [])], None)),
            PageWrite(1, Leaf([Entry(2, []), Entry(3, [])], None))]
            && g.next == 2
            && Grow(g) == Nd(2, [2], [Lf(0, [Entry(1, [])], Some(1)), Lf(1, [Entry(2, []), Entry(3, [])], None)])
  {
    var es := [Entry(1, []), Entry(2, [])];
    assert es[1..] == [Entry(2, [])] && es[1..][1..] == [];
    var all := Put(es, 3, []);
    assert all == [Entry(1, []), Entry(2, []), Entry(3, [])];
    assert all[..1] == [Entry(1, [])] && all[1..] == [Entry(2, []), Entry(3, [])];
  }

  lemma SecondInsert()
    ensures var t := Nd(2, [2], [Lf(0, [Entry(1, [])], Some(1)), Lf(1, [Entry(2, []), Entry(3, [])], None)]);
            Touched(Ins(t, 4, [], 2, 3).log) <= {1, 2, 3} && Ins(t, 4, [], 2, 3).split.None?
  {
    var c := Lf(1, [Entry(2, []), Entry(3, [])], None);
    var t := Nd(2, [2], [Lf(0, [Entry(1, [])], Some(1)), c]);
    assert Route(t.keys, 4) == 1;
    var g := Ins(c, 4, [], 2, 3);
    assert g.next == 4 && g.log == [g.log[0], g.log[1]] && g.log[0].PageWrite? && g.log[0].id == 1 && g.log[1].id == 3;
    var n := Joined(t, 1, g);
    assert Ins(t, 4, [], 2, 3) == Settle(n, 2, 4, g.log + [Write(n)]);
  }

  /** The left leaf as the first insertion logged it: from before its split. */
  function StaleLeaf(): Page {
    Leaf([Entry(1, []), Entry(2, []), Entry(3, [])], None)
  }

  lemma {:induction false} AfterFirst(base: Store)
    ensures var s := Replay(base, GrowLog(Ins(Rows12(), 3, [], 2, 1)));
            0 in s && s[0] == StaleLeaf()
  {
    FirstInsert();
    var g := Ins(Rows12(), 3, [], 2, 1);
    var tail := [Write(Grow(g)), MetaUpdate(Grow(g).id)];
    ReplayAppend(base, g.log, tail);
    ReplayTwo(base, g.log[0], g.log[1]);
    ReplayTwo(Replay(base, g.log), tail[0], tail[1]);
  }

  lemma AfterSecond(s: Store, t: Tree)
    requires t == Nd(2, [2], [Lf(0, [Entry(1, [])], Some(1)), Lf(1, [Entry(2, []), Entry(3, [])], None)]) && 0 in s
    ensures var s' := Replay(s, GrowLog(Ins(t, 4, [], 2, 3)));
            0 in s' && s'[0] == s[0]
  {
    SecondInsert();
    ReplayTouches(s, Ins(t, 4, [], 2, 3).log, 0);
  }

  lemma TwoInserts(db: Db)
    requires db == Db(Rows12(), 0, 1)
    ensures var g := Ins(Rows12(), 3, [], 2, 1);
            LogAll(db, Insert34(), 2) == GrowLog(g) + GrowLog(Ins(Grow(g), 4, [], 2, GrowNext(g)))
  {
    var ops := Insert34();
    assert ops[..1] == [ops[0]] && ops[..1][..0] == [];
    assert DoAll(db, [], 2) == db && LogAll(db, [], 2) == [];
    var g := Ins(Rows12(), 3, [], 2, 1);
    assert LogAll(db, ops[..1], 2) == GrowLog(g);
    assert DoAll(db, ops[..1], 2) == Db(Grow(g), GrowHeight(g, 0), GrowNext(g));
  }

  /** Page 0 after recovery is the stale one. */
  lemma {:induction false} RecoveredLeaf(base: Store)
    ensures var s := Replay(base, LogAll(Db(Rows12(), 0, 1), Insert34(), 2));
            0 in s && s[0] == StaleLeaf()
  {
    TwoInserts(Db(Rows12(), 0, 1));
    var g := Ins(Rows12(), 3, [], 2, 1);
    FirstInsert();
    AfterFirst(base);
    AfterSecond(Replay(base, GrowLog(g)), Grow(g));
    ReplayAppend(base, GrowLog(g), GrowLog(Ins(Grow(g), 4, [], 2, 3)));
  }

  lemma StartHealthy()
    ensures Healthy(Db(Rows12(), 0, 1), 2) && Holds(map[0 := Image(Rows12())], Rows12(), KEY_LIMIT, true)
  {
  }

  lemma {:induction false} ScanOfStale(s: Store, fuel: nat)
    requires 0 in s && s[0] == StaleLeaf()
    ensures Entry(4, []) !in ScanPages(s, 0, 1, 4, fuel)
  {
    RangeExact(UpTo(StaleLeaf().entries, 4), 1, 4);
    assert Entry(4, []) !in StaleLeaf().entries && UpTo(StaleLeaf().entries, 4) <= StaleLeaf().entries;
  }

  lemma LastInsertFound(m: map<Key, Bytes>)
    ensures 4 in UpdateAll(m, Insert34()) && UpdateAll(m, Insert34())[4] == []
  {
  }

  /** The row is in the tree. */
  lemma {:induction false} LastRow(db: Db)
    requires Healthy(db, 2)
    ensures var t := DoAll(db, Insert34(), 2).tree; Entry(4, []) in Range(Contents(t), 1, 4)
  {
    var end := DoAll(db, Insert34(), 2);
    StoreHolds(db.tree, 2, RootLeast(db.tree), 0, KEY_LIMIT, db.height);
    HoldsInexact(StoreOf(db.tree), db.tree, KEY_LIMIT);
    RunReplay(StoreOf(db.tree), db, Insert34(), 2);
    LastInsertFound(AsMap(Contents(db.tree)));
    MapAgrees(Contents(end.tree), 4);
    GetFound(Contents(end.tree), 4);
    Ordered(end.tree, 2, RootLeast(end.tree), 0, KEY_LIMIT, end.height);
    RangeExact(Contents(end.tree), 1, 4);
  }

  /** A range scan after recovery can lose a row that a point lookup finds: the stale left leaf still ends the chain. */
  lemma {:induction false} RangeScanNotRestored()
    ensures var db, base := Db(Rows12(), 0, 1), map[0 := Image(Rows12())];
            var s := Replay(base, LogAll(db, Insert34(), 2));
            && Healthy(db, 2) && Holds(base, db.tree, KEY_LIMIT, true)
            && Lookup(s, ReplayRoot(0, LogAll(db, Insert34(), 2)), 4, DoAll(db, Insert34(), 2).height) == Some([])
            && (forall fuel :: Entry(4, []) !in ScanPages(s, 0, 1, 4, fuel))
            && Entry(4, []) in Range(Contents(DoAll(db, Insert34(), 2).tree), 1, 4)
  {
    var db, base := Db(Rows12(), 0, 1), map[0 := Image(Rows12())];
    StartHealthy();
    LastRow(db);
    LastLookup(base, db);
    RecoveredLeaf(base);
    forall fuel: nat ensures Entry(4, []) !in ScanPages(Replay(base, LogAll(db, Insert34(), 2)), 0, 1, 4, fuel) {
      ScanOfStale(Replay(base, LogAll(db, Insert34(), 2)), fuel);
    }
  }

  lemma {:induction false} LastLookup(base: Store, db: Db)
    requires Healthy(db, 2) && Holds(base, db.tree, KEY_LIMIT, true)
    ensures Lookup(Replay(base, LogAll(db, Insert34(), 2)), ReplayRoot(db.tree.id, LogAll(db, Insert34(), 2)), 4,
                   DoAll(db, Insert34(), 2).height) == Some([])
  {
    CrashRefinement(base, db, Insert34(), 2, 4);
    LastInsertFound(AsMap(Contents(db.tree)));
  }
}
