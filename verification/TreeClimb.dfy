/** The way up after a deletion: what is done at each depth of the path, and when the climb may stop. */
module TreeClimb {
  import opened Entries
  import opened Tree
  import opened Log
  import opened TreeInsert
  import opened TreeDelete
  import opened TreeRecovery
  import opened TreeDeleteRecovery
  import opened TreeLive
  import opened TreeSteps
  import opened Rebalance

  /** A whole sound tree in the store. */
  ghost predicate Whole(s0: Store, root: Spot, k: int, order: nat) {
    match root
    case Spot(node, least, _, hi, _, _) =>
      Sound(root, k, order) && Holds(s0, node, hi, true) && Distinct(Ids(node)) && least == RootLeast(node)
  }

  /** Everything from depth d down is as the model has it, and so is the log. */
  ghost predicate Climbing(s0: Store, log0: seq<Change>, root: Spot, k: int, order: nat, d: nat, store: Store,
      log: seq<Change>)
    requires order >= 2
  {
    && Done(s0, store, SpotAt(root, k, order, d), k, order)
    && log == log0 + Del(SpotAt(root, k, order, d).node, k, order).log
  }

  /** The whole deletion is done, the collapse of the root included. */
  ghost predicate Deleted(log0: seq<Change>, root: Spot, k: int, order: nat, store: Store, log: seq<Change>,
      rootId: PageId)
    requires order >= 2
  {
    match Del(root.node, k, order)
    case Fixed(node, merged, l) =>
      var d := Fixed(node, merged, l);
      && Holds(store, Collapse(d), root.hi, true)
      && rootId == Collapse(d).id
      && log == log0 + CollapseLog(d)
  }

  /** A step of the climb: it goes on at depth d, or the deletion is done. */
  ghost predicate Climbed(more: bool, s0: Store, log0: seq<Change>, root: Spot, k: int, order: nat, d: nat,
      store: Store, log: seq<Change>)
    requires order >= 2
  {
    match more
    case true => Climbing(s0, log0, root, k, order, d, store, log)
    case false => Deleted(log0, root, k, order, store, log, root.node.id)
  }

  lemma {:induction false} LeafDone(s0: Store, log0: seq<Change>, root: Spot, k: Key, order: nat, store: Store)
    requires Whole(s0, root, k, order)
    requires var l := SpotAt(root, k, order, root.h).node;
             l.Lf? && store == s0[l.id := Leaf(Remove(l.entries, k), l.next)]
    ensures var l := SpotAt(root, k, order, root.h).node;
            Climbing(s0, log0, root, k, order, root.h, store, log0 + [PageWrite(l.id, store[l.id])])
  {
  }

  /** The page at depth d shows how many keys the outcome has. */
  lemma {:induction false} OutcomePage(s0: Store, log0: seq<Change>, root: Spot, k: Key, order: nat, d: nat,
      store: Store, log: seq<Change>)
    requires Whole(s0, root, k, order) && d <= root.h && Climbing(s0, log0, root, k, order, d, store, log)
    ensures var s := SpotAt(root, k, order, d);
            s.node.id in store && Count(store[s.node.id]) == NumKeys(Del(s.node, k, order).node)
  {
    DelId(SpotAt(root, k, order, d).node, k, order);
  }

  /** A page with enough keys ends the climb: nothing above it changes. */
  lemma {:induction false} Enough(s0: Store, log0: seq<Change>, root: Spot, k: Key, order: nat, d: nat, store: Store,
      log: seq<Change>)
    requires Whole(s0, root, k, order) && 0 < d <= root.h && Climbing(s0, log0, root, k, order, d, store, log)
    requires NumKeys(Del(SpotAt(root, k, order, d).node, k, order).node) >= order / 2
    ensures Deleted(log0, root, k, order, store, log, root.node.id)
  {
    Climb(s0, store, root, k, order, d);
    AboveKeys(root, k, order);
  }

  /** The parent at depth d of a child with too few keys, before the repair. */
  lemma {:induction false} TooFew(s0: Store, log0: seq<Change>, root: Spot, k: Key, order: nat, d: nat, store: Store,
      log: seq<Change>)
    requires Whole(s0, root, k, order) && d < root.h && Climbing(s0, log0, root, k, order, d + 1, store, log)
    requires NumKeys(Del(SpotAt(root, k, order, d + 1).node, k, order).node) < order / 2
    ensures var s := SpotAt(root, k, order, d);
            && Sound(s, k, order) && s.node.Nd?
            && Broken(store, Above(s.node, k, order), Route(s.node.keys, k), order, s.lo, s.hi, s.h)
            && Above(s.node, k, order).id == s.node.id
  {
    Level(s0, root, k, order, d);
    var s := SpotAt(root, k, order, d);
    DelAt(s, k, order);
    AboveLive(s0, store, s, k, order);
    AbovePages(s, k, order);
  }

  lemma {:induction false} Level(s0: Store, root: Spot, k: Key, order: nat, d: nat)
    requires Whole(s0, root, k, order) && d < root.h
    ensures var s := SpotAt(root, k, order, d);
            && Sound(s, k, order) && s.node.Nd? && Holds(s0, s.node, s.hi, true) && Distinct(Ids(s.node))
            && SpotAt(root, k, order, d + 1) == Descend(s, k, order)
            && s.least == if d == 0 then 1 else order / 2
  {
    SpotSound(root, k, order, d);
    SpotHolds(s0, root, k, order, d);
    SpotNext(root, k, order, d);
    DescendSound(SpotAt(root, k, order, d), k, order);
  }

  /** The repair makes the parent done; after a borrowed key the climb is over. */
  lemma {:induction false} AfterRepair(s0: Store, log0: seq<Change>, root: Spot, k: Key, order: nat, d: nat,
                                       store: Store, log: seq<Change>, merged: bool, store': Store, log': seq<Change>)
    requires Whole(s0, root, k, order) && d < root.h && Climbing(s0, log0, root, k, order, d + 1, store, log)
    requires NumKeys(Del(SpotAt(root, k, order, d + 1).node, k, order).node) < order / 2
    requires var s := SpotAt(root, k, order, d);
             s.node.Nd? && Mended(store, log, Above(s.node, k, order), Route(s.node.keys, k), order, merged, store',
             log')
    ensures Climbing(s0, log0, root, k, order, d, store', log')
    ensures !merged ==> Deleted(log0, root, k, order, store', log', root.node.id)
  {
    var s := SpotAt(root, k, order, d);
    Level(s0, root, k, order, d);
    RepairSpot(s0, log0, s, k, order, store, log, merged, store', log');
    if !merged {
      if d > 0 {
        Enough(s0, log0, root, k, order, d, store', log');
      } else {
        assert s == root;
        DelId(root.node, k, order);
      }
    }
  }

  lemma {:induction false} RepairSpot(s0: Store, log0: seq<Change>, s: Spot, k: Key, order: nat,
                                      store: Store, log: seq<Change>, merged: bool, store': Store, log': seq<Change>)
    requires Sound(s, k, order) && s.node.Nd? && Holds(s0, s.node, s.hi, true) && Distinct(Ids(s.node))
    requires Done(s0, store, Descend(s, k, order), k, order)
             && log == log0 + Del(Descend(s, k, order).node, k, order).log
    requires NumKeys(Del(Descend(s, k, order).node, k, order).node) < order / 2
    requires Mended(store, log, Above(s.node, k, order), Route(s.node.keys, k), order, merged, store', log')
    ensures Done(s0, store', s, k, order) && log' == log0 + Del(s.node, k, order).log
    ensures !merged ==> NumKeys(Del(s.node, k, order).node) >= s.least
  {
    var n, j := Above(s.node, k, order), Route(s.node.keys, k);
    DelAt(s, k, order);
    AboveLive(s0, store, s, k, order);
    AbovePages(s, k, order);
    AboveKeys(s, k, order);
    RepairDone(s0, store, s, k, order, n, j);
    LogJoin(log0, Del(Descend(s, k, order).node, k, order).log, Mend(n, j, order).log);
  }

  lemma {:induction false} RepairDone(s0: Store, store: Store, s: Spot, k: Key, order: nat, n: Tree, j: nat)
    requires SameOutside(s0, store, Ids(s.node)) && Broken(store, n, j, order, s.lo, s.hi, s.h) && Ids(n) <= Ids(s.node)
    ensures Mendable(n, j)
    ensures var f := Mend(n, j, order);
            && Holds(Replay(store, f.log), f.node, s.hi, true) && SameOutside(s0, Replay(store, f.log), Ids(s.node))
            && (!f.merged ==> NumKeys(f.node) == NumKeys(n))
  {
    var i, cut := MendIsRepair(n, j, order, s.lo, s.hi, s.h);
    RepairReplay(store, n, i, cut, i == j, s.hi, true);
    var log := Mend(n, j, order).log;
    OutsideIs(s0, store, Ids(s.node));
    forall id | id in s0 && id !in Ids(s.node) ensures id in Replay(store, log) && Replay(store, log)[id] == s0[id] {
      if id in Touched(log) {
        RepairTouches(n, i, cut, i == j, id);
      }
      ReplayTouches(store, log, id);
    }
  }

  /** At the top: an index root without keys gives way to its only child. */
  lemma {:induction false} AtRoot(s0: Store, log0: seq<Change>, root: Spot, k: Key, order: nat, store: Store,
      log: seq<Change>)
    requires Whole(s0, root, k, order) && Climbing(s0, log0, root, k, order, 0, store, log)
    ensures root.node.id in store
    ensures var p, d := store[root.node.id], Del(root.node, k, order);
            if p.Index? && |p.keys| == 0 then
              |p.children| == 1 && Deleted(log0, root, k, order, store, log + [MetaUpdate(p.children[0])],
              p.children[0])
            else Deleted(log0, root, k, order, store, log, root.node.id)
  {
    var d := Del(root.node, k, order);
    DelId(root.node, k, order);
    DelSound(root.node, k, order, root.least, root.lo, root.hi, root.h, root.after);
    assert SpotAt(root, k, order, 0) == root;
    assert store[root.node.id] == Image(d.node);
    if d.node.Nd? && |d.node.keys| == 0 {
      assert Holds(store, d.node.kids[0], Upper(d.node.keys, root.hi, 0), true);
      assert log + [MetaUpdate(d.node.kids[0].id)] == log0 + CollapseLog(d);
    }
  }

  // ---- The whole tree ---------------------------------------------------------------------

  function ShrinkHeight(d: Fixed, h: nat): nat {
    if Collapse(d) == d.node || h == 0 then h else h - 1
  }

  predicate HasKey(t: Tree, k: Key) {
    k in AsMap(Contents(t))
  }

  /** The tree, its height and the new log records after a deletion; nothing happens when the key is absent. */
  function TreeAfter(t: Tree, k: Key, order: nat): Tree
    requires order >= 2
  {
    if HasKey(t, k) then Collapse(Del(t, k, order)) else t
  }

  function HeightAfter(t: Tree, k: Key, order: nat, h: nat): nat
    requires order >= 2
  {
    if HasKey(t, k) then ShrinkHeight(Del(t, k, order), h) else h
  }

  function LogAfter(t: Tree, k: Key, order: nat): seq<Change>
    requires order >= 2
  {
    if HasKey(t, k) then CollapseLog(Del(t, k, order)) else []
  }

  /** All that a deletion from a whole tree needs and gives. */
  lemma {:induction false} DeleteWhole(store: Store, t: Tree, k: Key, order: nat, next: PageId, h: nat)
    requires Sound(RootSpot(t, h), 0, order) && Stored(store, next, t)
    ensures Whole(store, RootSpot(t, h), k, order)
    ensures var r := TreeAfter(t, k, order);
            && Sound(RootSpot(r, HeightAfter(t, k, order, h)), 0, order)
            && Distinct(Ids(r)) && (forall id :: id in Ids(r) ==> id < next)
  {
    DeleteSound(t, k, order, h);
  }

  /** A deletion is a removal from the map, also when the key is absent. */
  lemma {:induction false} DeleteView(t: Tree, k: Key, order: nat, h: nat)
    requires Sound(RootSpot(t, h), 0, order)
    ensures AsMap(Contents(TreeAfter(t, k, order))) == map q | q in AsMap(Contents(t))
            && q != k :: AsMap(Contents(t))[q]
  {
    DeleteContents(t, k, order, h);
  }

  /** The leaf at the end of the path decides whether the key is in the tree. */
  lemma {:induction false} SpotGet(s: Spot, k: Key, order: nat, d: nat)
    requires Sound(s, k, order) && d <= s.h
    ensures Get(Contents(SpotAt(s, k, order, d).node), k) == Get(Contents(s.node), k)
    decreases d
  {
    if d > 0 {
      DescendSound(s, k, order);
      SpotGet(Descend(s, k, order), k, order, d - 1);
      ChildHasAnswer(s.node, k, order, s.lo, s.hi, s.h);
    }
  }

  /** The leaf of the path, in the store. */
  lemma {:induction false} PathLeaf(s0: Store, root: Spot, k: Key, order: nat)
    requires Whole(s0, root, k, order)
    ensures var l := SpotAt(root, k, order, root.h).node;
            && l.Lf? && l.id in s0 && s0[l.id] == Leaf(l.entries, l.next) && Sorted(l.entries)
            && (Get(l.entries, k).Some? <==> k in AsMap(Contents(root.node)))
  {
    SpotPage(s0, root, k, order, root.h);
    SpotGet(root, k, order, root.h);
    MapAgrees(Contents(root.node), k);
  }
}
