/** Operations on a recovered tree: when they act as on the tree before the crash, and a run on which they do not. */
module RecoveredOps {
  import opened Entries
  import opened Tree
  import opened Log
  import opened TreeInsert
  import opened TreeDelete
  import opened TreeRecovery
  import opened TreeDeleteRecovery
  import opened TreeLive
  import opened TreeSteps
  import opened TreeClimb
  import opened CrashReplay
  import opened BPlusTree
  import PageStore
  import opened Restored
  import opened TreeActs
  import opened ReadPages

  // ---- A tree without stale pages ------------------------------------------------------------------------

  /** After a crash without stale pages the tree is opened on what recovery has made of the checkpoint, and goes on as
      the map does. */
  method ReopenAndRun(pages: Store, root: PageId, next: PageId, order: nat, later: seq<Op>, ghost base: Store,
                      ghost db: Db, ghost ops: seq<Op>)
    returns (t: BPlusTree)
    requires Healthy(db, order) && Holds(base, db.tree, KEY_LIMIT, true)
    requires pages == Replay(base, LogAll(db, ops, order))
    requires root == ReplayRoot(db.tree.id, LogAll(db, ops, order)) && next == DoAll(db, ops, order).next
    requires (forall id :: id in pages ==> id < next)
             && forall id :: id in Ids(DoAll(db, ops, order).tree) ==> id !in Stale(db, ops, order)
    ensures t.Valid() && t.View() == UpdateAll(UpdateAll(AsMap(Contents(db.tree)), ops), later)
    ensures fresh(t) && fresh(t.pager.Repr) && t.pager.order == order
  {
    ghost var end := DoAll(db, ops, order);
    HoldsInexact(base, db.tree, KEY_LIMIT);
    RunReplay(base, db, ops, order);
    ImagesRestored(base, db, ops, order);
    var p := new PageStore.Pager.Load(order, pages, next);
    t := new BPlusTree.Reopen(p, root, end.tree, end.height);
    RunAndRecover(t, later);
  }

  // ---- The pages that an operation reads ---------------------------------------------------------------

  /** Those on the way to the leaf of a key. */
  function PathIds(t: Tree, k: Key): set<PageId>
    decreases t
  {
    {t.id} + if t.Nd? && |t.kids| == |t.keys| + 1 then PathIds(t.kids[Route(t.keys, k)], k) else {}
  }

  /** And of a deletion, those that its repairs read beside them. */
  function RepairIds(t: Tree, k: Key, order: nat): set<PageId>
    requires order >= 2
    decreases t
  {
    {t.id} +
    if t.Nd? && |t.kids| == |t.keys| + 1 then
      var j := Route(t.keys, k);
      RepairIds(t.kids[j], k, order) +
      if NumKeys(Del(t.kids[j], k, order).node) < order / 2 then SiblingIds(t, j, order) else {}
    else {}
  }

  function SiblingIds(t: Tree, j: nat, order: nat): set<PageId>
    requires t.Nd? && j < |t.kids|
  {
    (if j + 1 < |t.kids| then {t.kids[j + 1].id} else {}) + if ReadsLeft(t, j, order) then {t.kids[j - 1].id} else {}
  }

  function ReadIds(t: Tree, op: Op, order: nat): set<PageId>
    requires order >= 2
  {
    if op.Delete? && HasKey(t, op.key) then RepairIds(t, op.key, order) else PathIds(t, op.key)
  }

  /** The pages of a tree that a store has not exactly. */
  function StaleIn(s: Store, t: Tree): set<PageId> {
    set id | id in Ids(t) && !(id in s && PageOf(t, id) == Some(s[id]))
  }

  /** After replay these are the pages that were cut and not logged since. */
  lemma {:induction false} StaleAfterReplay(base: Store, db: Db, ops: seq<Op>, order: nat)
    requires Healthy(db, order) && Holds(base, db.tree, KEY_LIMIT, true)
    ensures var end := DoAll(db, ops, order).tree;
            StaleIn(Replay(base, LogAll(db, ops, order)), end) == set id | id in Ids(end) && id in Stale(db, ops, order)
  {
    var s, end := Replay(base, LogAll(db, ops, order)), DoAll(db, ops, order).tree;
    forall id | id in Ids(end) ensures id in StaleIn(s, end) <==> id in Stale(db, ops, order) {
      PageRestored(base, db, ops, order, id);
    }
  }

  // ---- Reading only exact pages ---------------------------------------------------------------------------

  /** The root of a tree, and below it the pages of child j, are exact when those of the tree are. */
  lemma {:induction false} KidStale(s: Store, t: Tree, j: nat, ids: set<PageId>)
    requires t.Nd? && j < |t.kids| && Distinct(Ids(t)) && ids !! StaleIn(s, t)
    ensures ids !! StaleIn(s, t.kids[j]) && Distinct(Ids(t.kids[j]))
    ensures t.kids[j].id in ids ==> Exact(s, t.kids[j])
  {
    KidsDistinct(t);
    KidAmong(t.kids, j);
    forall id | id in Ids(t.kids[j]) ensures id in StaleIn(s, t.kids[j]) ==> id in StaleIn(s, t) {
      KidPage(t, j, id);
    }
    assert t.kids[j].id in Ids(t.kids[j]);
  }

  /** The node of a sound tree, as a store spells it, is of the same kind. */
  lemma {:induction false} KindSame(s: Store, t: Tree, order: nat, least: nat, lo: int, hi: int, h: nat)
    requires Shape(t, order, least, lo, hi, h) && Holds(s, t, hi, false)
    ensures SameKind(TreeIn(s, t.id, h), t) && (Exact(s, t) ==> Same(TreeIn(s, t.id, h), t))
  {
    if Exact(s, t) {
      ExactSame(s, t, h);
    }
  }

  lemma {:induction false} PathSame(s: Store, t: Tree, k: Key, order: nat, least: nat, lo: int, hi: int, h: nat)
    requires Shape(t, order, least, lo, hi, h) && Holds(s, t, hi, false) && Distinct(Ids(t))
    requires PathIds(t, k) !! StaleIn(s, t)
    ensures Along(TreeIn(s, t.id, h), t, k)
    decreases t
  {
    assert t.id in PathIds(t, k) && t.id in Ids(t) && Exact(s, t);
    ExactSame(s, t, h);
    if t.Nd? {
      var j := Route(t.keys, k);
      KidStale(s, t, j, PathIds(t.kids[j], k));
      PathSame(s, t.kids[j], k, order, order / 2, Lower(t.keys, lo, j), Upper(t.keys, hi, j), h - 1);
    }
  }

  lemma LevelReads(s: Store, t: Tree, k: Key, order: nat)
    requires order >= 2 && t.Nd? && |t.kids| == |t.keys| + 1 && RepairIds(t, k, order) !! StaleIn(s, t)
    ensures var j := Route(t.keys, k);
            && RepairIds(t.kids[j], k, order) !! StaleIn(s, t)
            && (NumKeys(Del(t.kids[j], k, order).node) < order / 2 ==> SiblingIds(t, j, order) !! StaleIn(s, t))
  {
    var j := Route(t.keys, k);
    assert RepairIds(t.kids[j], k, order) <= RepairIds(t, k, order);
    if NumKeys(Del(t.kids[j], k, order).node) < order / 2 {
      assert SiblingIds(t, j, order) <= RepairIds(t, k, order);
    }
  }

  lemma {:induction false} RepairSame(s: Store, t: Tree, k: Key, order: nat, least: nat, lo: int, hi: int, h: nat)
    requires order >= 2 && Shape(t, order, least, lo, hi, h) && Holds(s, t, hi, false) && Distinct(Ids(t))
    requires RepairIds(t, k, order) !! StaleIn(s, t)
    ensures AlongRepairs(TreeIn(s, t.id, h), t, k, order)
    decreases t
  {
    assert t.id in RepairIds(t, k, order) && t.id in Ids(t) && Exact(s, t);
    ExactSame(s, t, h);
    if t.Nd? {
      var j := Route(t.keys, k);
      LevelReads(s, t, k, order);
      KidStale(s, t, j, RepairIds(t.kids[j], k, order));
      RepairSame(s, t.kids[j], k, order, order / 2, Lower(t.keys, lo, j), Upper(t.keys, hi, j), h - 1);
      if NumKeys(Del(t.kids[j], k, order).node) < order / 2 {
        SiblingsSame(s, t, j, order, least, lo, hi, h);
      }
    }
  }

  /** A child as it is spelled is of the same kind, and the same page when that is exact. */
  lemma {:induction false} SiblingSame(s: Store, t: Tree, i: nat, order: nat, least: nat, lo: int, hi: int, h: nat)
    requires Shape(t, order, least, lo, hi, h) && Holds(s, t, hi, false) && Distinct(Ids(t)) && h > 0
    requires t.Nd? && i < |t.kids|
    ensures var a := TreeIn(s, t.kids[i].id, h - 1);
            SameKind(a, t.kids[i]) && (t.kids[i].id !in StaleIn(s, t) ==> Same(a, t.kids[i]))
  {
    var c := t.kids[i];
    KindSame(s, c, order, order / 2, Lower(t.keys, lo, i), Upper(t.keys, hi, i), h - 1);
    KidStale(s, t, i, {c.id} - StaleIn(s, t));
  }

  lemma {:induction false} SiblingsSame(s: Store, t: Tree, j: nat, order: nat, least: nat, lo: int, hi: int, h: nat)
    requires Shape(t, order, least, lo, hi, h) && Holds(s, t, hi, false) && Distinct(Ids(t)) && Exact(s, t) && h > 0
    requires t.Nd? && j < |t.kids| && SiblingIds(t, j, order) !! StaleIn(s, t)
    ensures Same(TreeIn(s, t.id, h), t) && Beside(TreeIn(s, t.id, h), t, j, order)
  {
    ExactSame(s, t, h);
    if j + 1 < |t.kids| {
      assert t.kids[j + 1].id in SiblingIds(t, j, order);
      SiblingSame(s, t, j + 1, order, least, lo, hi, h);
    }
    if j > 0 {
      assert ReadsLeft(t, j, order) ==> t.kids[j - 1].id in SiblingIds(t, j, order);
      SiblingSame(s, t, j - 1, order, least, lo, hi, h);
    }
    BesideFrom(s, TreeIn(s, t.id, h), t, j, order, h);
  }

  lemma BesideFrom(s: Store, a: Tree, t: Tree, j: nat, order: nat, h: nat)
    requires a.Nd? && t.Nd? && |a.kids| == |t.kids| && j < |t.kids| && h > 0
    requires forall i {:trigger t.kids[i]} :: 0 <= i < |t.kids| ==> a.kids[i] == TreeIn(s, t.kids[i].id, h - 1)
    requires j + 1 < |t.kids| ==> SameKind(TreeIn(s, t.kids[j + 1].id, h - 1), t.kids[j + 1])
                                  && Same(TreeIn(s, t.kids[j + 1].id, h - 1), t.kids[j + 1])
    requires j > 0 ==> SameKind(TreeIn(s, t.kids[j - 1].id, h - 1), t.kids[j - 1])
    requires ReadsLeft(t, j, order) ==> Same(TreeIn(s, t.kids[j - 1].id, h - 1), t.kids[j - 1])
    ensures Beside(a, t, j, order)
  {
  }

  // ---- What the pages hold afterwards ----------------------------------------------------------------------

  /** Acts that log a page leave it the same, whatever it was before. */
  lemma {:induction false} EffectsTouch(s: Store, s': Store, es: seq<Event>, id: PageId)
    requires NoAlters(es)
    ensures id in Touched(ToldAll(es)) ==> Agree(Effects(s, es), Effects(s', es), id)
    ensures id !in Touched(ToldAll(es)) ==> Agree(Effects(s, es), s, id)
    decreases |es|
  {
    if es != [] {
      var n := |es| - 1;
      EffectsTouch(s, s', es[..n], id);
      TouchedAppend(ToldAll(es[..n]), Told(es[n].act));
      ToldTouch(es[n].act, id);
    }
  }

  lemma ToldTouch(a: Act, id: PageId)
    ensures id in Touched(Told(a)) <==>
            match a
            case Mark(p, _) => id == p
            case Halve(p, _, _, right, _) => id == p || id == right
            case NewRoot(p, _) => id == p
            case _ => false
  {
    assert forall i :: 0 <= i < |Told(a)| ==> Told(a)[i] in Told(a);
  }

  /** An insertion over pages that hold the tree only up to stale upper halves. */
  lemma {:induction false} InsertOver(s: Store, db: Db, k: Key, v: Bytes, order: nat, es: seq<Event>)
    requires Healthy(db, order) && Holds(s, db.tree, KEY_LIMIT, false) && Acts(es) == OpActs(db, Insert(k, v), order)
    ensures var t := Do(db, Insert(k, v), order).tree;
            Holds(Effects(s, es), t, KEY_LIMIT, false) && StaleIn(Effects(s, es), t) <= StaleIn(s, db.tree) + Lost(es)
  {
    var op := Insert(k, v);
    var t, log, lost := Do(db, op, order).tree, DoLog(db, op, order), Replay(s, DoLog(db, op, order));
    LostOfInsert(db, k, v, order, es);
    DoKeeps(db, op, order);
    DoReplay(s, db, op, order);
    forall id | id in Ids(t) ensures PageLeft(s, Effects(s, es), lost, db.tree, t, id, Lost(es)) {
      InsertedPage(s, db, k, v, order, es, id);
    }
    PagesLeft(s, Effects(s, es), lost, db.tree, t, Lost(es));
  }

  /** What becomes of a page: it is as the log has it, or exact; and not stale unless it was, or its cut was lost. */
  ghost predicate PageLeft(s: Store, s1: Store, lost: Store, before: Tree, t: Tree, id: PageId, gone: set<PageId>) {
    && id in s1 && ((id in lost && s1[id] == lost[id]) || PageOf(t, id) == Some(s1[id]))
    && (PageOf(t, id) != Some(s1[id]) ==> id in StaleIn(s, before) + gone)
  }

  lemma {:induction false} PagesLeft(s: Store, s1: Store, lost: Store, before: Tree, t: Tree, gone: set<PageId>)
    requires Holds(lost, t, KEY_LIMIT, false) && Distinct(Ids(t))
    requires forall id {:trigger PageLeft(s, s1, lost, before, t, id, gone)} :: id in Ids(t) ==>
               PageLeft(s, s1, lost, before, t, id, gone)
    ensures Holds(s1, t, KEY_LIMIT, false) && StaleIn(s1, t) <= StaleIn(s, before) + gone
  {
    forall id | id in Ids(t) ensures id in s1 && ((id in lost && s1[id] == lost[id]) || PageOf(t, id) == Some(s1[id])) {
      assert PageLeft(s, s1, lost, before, t, id, gone);
    }
    MixHolds(lost, s1, t, KEY_LIMIT);
    forall id | id in StaleIn(s1, t) ensures id in StaleIn(s, before) + gone {
      assert PageLeft(s, s1, lost, before, t, id, gone);
    }
  }

  lemma {:induction false} PageThere(s: Store, t: Tree, hi: int, id: PageId)
    requires Holds(s, t, hi, false) && id in Ids(t)
    ensures id in s
    decreases t
  {
    if t.Nd? && id != t.id {
      KidOf(t.kids, id);
      var i :| 0 <= i < |t.kids| && id in Ids(t.kids[i]);
      PageThere(s, t.kids[i], Upper(t.keys, hi, i), id);
    }
  }

  lemma {:induction false} KidOf(ts: seq<Tree>, id: PageId)
    requires id in IdsOf(ts)
    ensures exists i :: 0 <= i < |ts| && id in Ids(ts[i])
  {
    if id in Ids(ts[0]) {
      assert id in Ids(ts[0]);
    } else {
      KidOf(ts[1..], id);
      var i :| 0 <= i < |ts[1..]| && id in Ids(ts[1..][i]);
      assert ts[1..][i] == ts[i + 1];
    }
  }

  lemma {:induction false} InsertedPage(s: Store, db: Db, k: Key, v: Bytes, order: nat, es: seq<Event>, id: PageId)
    requires Healthy(db, order) && Holds(s, db.tree, KEY_LIMIT, false) && Acts(es) == OpActs(db, Insert(k, v), order)
    requires NoAlters(es) && id in Ids(Do(db, Insert(k, v), order).tree)
    ensures PageLeft(s, Effects(s, es), Replay(s, DoLog(db, Insert(k, v), order)), db.tree,
                     Do(db, Insert(k, v), order).tree, id, Lost(es))
  {
    InsertTold(db, k, v, order, es);
    if id in Lost(es) {
      LostPage(s, db, k, v, order, es, id);
    } else if id in Touched(ToldAll(es)) {
      KeptPage(s, db, k, v, order, es, id);
    } else {
      OpFate(s, db, Insert(k, v), order, id);
      PageIds(db.tree, id);
      PageIds(Do(db, Insert(k, v), order).tree, id);
      PageThere(s, db.tree, KEY_LIMIT, id);
      EffectsTouch(s, s, es, id);
      ReplayTouches(s, DoLog(db, Insert(k, v), order), id);
    }
  }

  lemma {:induction false} InsertTold(db: Db, k: Key, v: Bytes, order: nat, es: seq<Event>)
    requires Healthy(db, order) && Acts(es) == OpActs(db, Insert(k, v), order)
    ensures ToldAll(es) == DoLog(db, Insert(k, v), order)
    ensures var s1 := Effects(StoreOf(db.tree), With(es, true));
            Holds(s1, Do(db, Insert(k, v), order).tree, KEY_LIMIT, true)
  {
    StoreHolds(db.tree, order, RootLeast(db.tree), 0, KEY_LIMIT, db.height);
    InsertExact(StoreOf(db.tree), db, k, v, order, With(es, true));
    ToldWith(es, true);
  }

  lemma {:induction false} LostPage(s: Store, db: Db, k: Key, v: Bytes, order: nat, es: seq<Event>, id: PageId)
    requires Healthy(db, order) && Holds(s, db.tree, KEY_LIMIT, false) && NoAlters(es) && id in Lost(es)
    requires ToldAll(es) == DoLog(db, Insert(k, v), order) && id in Ids(Do(db, Insert(k, v), order).tree)
    ensures var lost := Replay(s, DoLog(db, Insert(k, v), order));
            id in lost && id in Effects(s, es) && Effects(s, es)[id] == lost[id]
  {
    Mixed(s, es, id);
    ToldWith(es, false);
    AllLost(s, With(es, false));
    DoReplay(s, db, Insert(k, v), order);
    PageThere(Replay(s, DoLog(db, Insert(k, v), order)), Do(db, Insert(k, v), order).tree, KEY_LIMIT, id);
  }

  lemma {:induction false} KeptPage(s: Store, db: Db, k: Key, v: Bytes, order: nat, es: seq<Event>, id: PageId)
    requires NoAlters(es) && id !in Lost(es) && id in Touched(ToldAll(es)) && order >= 2
    requires id in Ids(Do(db, Insert(k, v), order).tree)
    requires Holds(Effects(StoreOf(db.tree), With(es, true)), Do(db, Insert(k, v), order).tree, KEY_LIMIT, true)
    ensures id in Effects(s, es) && PageOf(Do(db, Insert(k, v), order).tree, id) == Some(Effects(s, es)[id])
  {
    var all := With(es, true);
    Mixed(s, es, id);
    ToldWith(es, true);
    WithNoAlters(es);
    EffectsTouch(s, StoreOf(db.tree), all, id);
    HeldPage(Effects(StoreOf(db.tree), all), Do(db, Insert(k, v), order).tree, KEY_LIMIT, id);
  }

  lemma WithNoAlters(es: seq<Event>)
    requires NoAlters(es)
    ensures NoAlters(With(es, true)) && NoAlters(With(es, false))
  {
  }

  lemma {:induction false} DeleteEffects(s: Store, db: Db, k: Key, order: nat, es: seq<Event>)
    requires order >= 2 && Acts(es) == OpActs(db, Delete(k), order)
    ensures Effects(s, es) == Replay(s, DoLog(db, Delete(k), order))
  {
    if HasKey(db.tree, k) {
      var d, below := Del(db.tree, k, order), DelActs(db.tree, k, order);
      ActsParts(es, below, CollapseActs(d));
      var a, b := es[..|below|], es[|below|..];
      DelEffects(s, db.tree, k, order, a);
      CollapseEffects(s, d, Effects(s, a), b);
      Append(s, a, b);
    } else {
      assert es == [];
    }
  }

  /** A deletion over such pages: it leaves no page stale that was not. */
  lemma {:induction false} DeleteOver(s: Store, db: Db, k: Key, order: nat, es: seq<Event>)
    requires Healthy(db, order) && Holds(s, db.tree, KEY_LIMIT, false) && Acts(es) == OpActs(db, Delete(k), order)
    ensures var t := Do(db, Delete(k), order).tree;
            Holds(Effects(s, es), t, KEY_LIMIT, false) && StaleIn(Effects(s, es), t) <= StaleIn(s, db.tree)
  {
    var op := Delete(k);
    var t, log, s1 := Do(db, op, order).tree, DoLog(db, op, order), Effects(s, es);
    DeleteEffects(s, db, k, order, es);
    DoKeeps(db, op, order);
    DoReplay(s, db, op, order);
    forall id | id in StaleIn(s1, t) ensures id in StaleIn(s, db.tree) {
      OpFate(s, db, op, order, id);
      PageIds(db.tree, id);
      ReplayTouches(s, log, id);
      PageThere(s1, t, KEY_LIMIT, id);
    }
  }

  // ---- A program on the pages ---------------------------------------------------------------------------------

  /** Pages, and what the program has opened: the root, the height of the tree below it, the next page id. */
  datatype Disk = Disk(pages: Store, root: PageId, height: nat, next: PageId)

  /** The tree that it finds. */
  function Opened(d: Disk): Db {
    Db(TreeIn(d.pages, d.root, d.height), d.height, d.next)
  }

  /** A deletion goes ahead when the descent to the leaf finds the key. */
  predicate Finds(d: Disk, k: Key) {
    Lookup(d.pages, d.root, k, d.height).Some?
  }

  /** What an operation does to the pager, from the pages as they are. */
  function ActsOn(d: Disk, op: Op, order: nat): seq<Act>
    requires order >= 2
  {
    match op
    case Insert(_, _) => OpActs(Opened(d), op, order)
    case Delete(k) =>
      var t := Opened(d).tree;
      if Finds(d, k) then DelActs(t, k, order) + CollapseActs(Del(t, k, order)) else []
  }

  /** What is on the pages, and opened, after the events of an operation. */
  function After(d: Disk, op: Op, order: nat, es: seq<Event>): Disk
    requires order >= 2
  {
    var t := Opened(d).tree;
    match op
    case Insert(k, v) =>
      var g := Ins(t, k, v, order, d.next);
      Disk(Effects(d.pages, es), Grow(g).id, GrowHeight(g, d.height), GrowNext(g))
    case Delete(k) =>
      if Finds(d, k) then
        var f := Del(t, k, order);
        Disk(Effects(d.pages, es), Collapse(f).id, ShrinkHeight(f, d.height), d.next)
      else d
  }

  /** The pages hold a sound tree up to stale upper halves. */
  ghost predicate Serves(d: Disk, db: Db, order: nat) {
    && Healthy(db, order) && Holds(d.pages, db.tree, KEY_LIMIT, false)
    && d.root == db.tree.id && d.height == db.height && d.next == db.next
  }

  lemma {:induction false} ServesLookup(d: Disk, db: Db, order: nat, q: Key)
    requires Serves(d, db, order)
    ensures Lookup(d.pages, d.root, q, d.height) ==
            if q in AsMap(Contents(db.tree)) then Some(AsMap(Contents(db.tree))[q]) else None
  {
    LookupCorrect(d.pages, db.tree, q, order, RootLeast(db.tree), 0, KEY_LIMIT, db.height, false);
    MapAgrees(Contents(db.tree), q);
  }

  /** An operation that reads no stale page does what it would have done to the tree itself: the pages still hold the
      tree, and no page is stale that was not, but those whose cut was lost. */
  lemma {:induction false} StepServes(d: Disk, db: Db, op: Op, order: nat, es: seq<Event>)
    requires Serves(d, db, order) && Acts(es) == ActsOn(d, op, order)
    requires ReadIds(db.tree, op, order) !! StaleIn(d.pages, db.tree)
    ensures ActsOn(d, op, order) == OpActs(db, op, order)
    ensures Serves(After(d, op, order, es), Do(db, op, order), order)
    ensures StaleIn(After(d, op, order, es).pages, Do(db, op, order).tree) <= StaleIn(d.pages, db.tree) + Lost(es)
  {
    var a, t := Opened(d).tree, db.tree;
    DoKeeps(db, op, order);
    match op
    case Insert(k, v) =>
      PathSame(d.pages, t, k, order, RootLeast(t), 0, KEY_LIMIT, db.height);
      InsSame(a, t, k, v, order, db.next);
      GrowSame(Ins(a, k, v, order, db.next), Ins(t, k, v, order, db.next));
      InsertOver(d.pages, db, k, v, order, es);
    case Delete(k) =>
      ServesLookup(d, db, order, k);
      if HasKey(t, k) {
        RepairSame(d.pages, t, k, order, RootLeast(t), 0, KEY_LIMIT, db.height);
        DelSame(a, t, k, order);
        CollapseSame(Del(a, k, order), Del(t, k, order));
      }
      DeleteOver(d.pages, db, k, order, es);
  }

  // ---- Runs -------------------------------------------------------------------------------------------------------

  function AfterAll(d: Disk, ops: seq<Op>, order: nat, ess: seq<seq<Event>>): Disk
    requires order >= 2 && |ess| == |ops|
    decreases |ops|
  {
    if ops == [] then d
    else
      var n := |ops| - 1;
      After(AfterAll(d, ops[..n], order, ess[..n]), ops[n], order, ess[n])
  }

  /** Each operation does to the pager what it does from the pages as those before it have left them, and reads no stale
      page. */
  ghost predicate Clean(d: Disk, db: Db, ops: seq<Op>, order: nat, ess: seq<seq<Event>>, i: nat)
    requires order >= 2 && |ess| == |ops| && i < |ops|
  {
    var mid, t := AfterAll(d, ops[..i], order, ess[..i]), DoAll(db, ops[..i], order).tree;
    Acts(ess[i]) == ActsOn(mid, ops[i], order) && ReadIds(t, ops[i], order) !! StaleIn(mid.pages, t)
  }

  ghost predicate AllClean(d: Disk, db: Db, ops: seq<Op>, order: nat, ess: seq<seq<Event>>)
    requires order >= 2 && |ess| == |ops|
  {
    forall i {:trigger Clean(d, db, ops, order, ess, i)} :: 0 <= i < |ops| ==> Clean(d, db, ops, order, ess, i)
  }

  lemma {:induction false} CleanBefore(d: Disk, db: Db, ops: seq<Op>, order: nat, ess: seq<seq<Event>>)
    requires order >= 2 && |ess| == |ops| && ops != [] && AllClean(d, db, ops, order, ess)
    ensures AllClean(d, db, ops[..|ops| - 1], order, ess[..|ops| - 1])
  {
    var n := |ops| - 1;
    forall i | 0 <= i < n ensures Clean(d, db, ops[..n], order, ess[..n], i) {
      assert ops[..n][..i] == ops[..i] && ess[..n][..i] == ess[..i];
      assert Clean(d, db, ops, order, ess, i);
    }
  }

  lemma {:induction false} RunServes(d: Disk, db: Db, ops: seq<Op>, order: nat, ess: seq<seq<Event>>)
    requires Serves(d, db, order) && |ess| == |ops|
    requires AllClean(d, db, ops, order, ess)
    ensures Serves(AfterAll(d, ops, order, ess), DoAll(db, ops, order), order)
    ensures AsMap(Contents(DoAll(db, ops, order).tree)) == UpdateAll(AsMap(Contents(db.tree)), ops)
    decreases |ops|
  {
    if ops != [] {
      var n := |ops| - 1;
      CleanBefore(d, db, ops, order, ess);
      RunServes(d, db, ops[..n], order, ess[..n]);
      assert Clean(d, db, ops, order, ess, n);
      StepServes(AfterAll(d, ops[..n], order, ess[..n]), DoAll(db, ops[..n], order), ops[n], order, ess[n]);
      DoKeeps(DoAll(db, ops[..n], order), ops[n], order);
    }
  }

  /** What recovery makes of the pages of a checkpoint, after a run. */
  function Recovered(base: Store, db: Db, ops: seq<Op>, order: nat): Disk
    requires order >= 2
  {
    var end := DoAll(db, ops, order);
    Disk(Replay(base, LogAll(db, ops, order)), end.tree.id, end.height, end.next)
  }

  /** After a run, a crash and recovery, further operations that read no stale page are right: every lookup answers as
      the map of both runs. */
  lemma {:induction false} RecoveredRun(base: Store, db: Db, ops: seq<Op>, later: seq<Op>, order: nat,
                                        ess: seq<seq<Event>>, q: Key)
    requires Healthy(db, order) && Holds(base, db.tree, KEY_LIMIT, true) && |ess| == |later|
    requires AllClean(Recovered(base, db, ops, order), DoAll(db, ops, order), later, order, ess)
    ensures var d := AfterAll(Recovered(base, db, ops, order), later, order, ess);
            var m := UpdateAll(UpdateAll(AsMap(Contents(db.tree)), ops), later);
            Lookup(d.pages, d.root, q, d.height) == if q in m then Some(m[q]) else None
  {
    HoldsInexact(base, db.tree, KEY_LIMIT);
    RunReplay(base, db, ops, order);
    var d, end := Recovered(base, db, ops, order), DoAll(db, ops, order);
    RunServes(d, end, later, order, ess);
    ServesLookup(AfterAll(d, later, order, ess), DoAll(end, later, order), order, q);
  }
}
