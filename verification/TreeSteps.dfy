/** The steps of an insertion over pages: from what was written to what the model computes. */
module TreeSteps {
  import opened Entries
  import opened Tree
  import opened Log
  import opened TreeInsert
  import opened TreeRecovery
  import opened TreeLive

  /** What a recursive insertion reports: the separator and the page of a new right sibling, if there is one. */
  datatype Split = NoSplit | Split(key: Key, page: PageId)

  ghost predicate Reports(s: Split, g: Grown) {
    match g.split
    case None => s == NoSplit
    case Some(Half(sep, right)) => s == Split.Split(sep, right.id)
  }

  /** The position of a page in the tree at the start of a call. */
  ghost predicate At(store: Store, order: nat, next: PageId, s: Spot, k: int) {
    && Shape(s.node, order, s.least, s.lo, s.hi, s.h) && s.lo <= k < s.hi
    && Holds(store, s.node, s.hi, true)
    && Distinct(Ids(s.node))
    && (forall id :: id in Ids(s.node) ==> id < next)
    && (forall id :: id in store ==> id < next)
  }

  /** The store and the log after an insertion below s. */
  ghost predicate Inserted(s0: Store, log0: seq<Change>, s: Spot, g: Grown, store: Store, next: PageId,
      log: seq<Change>) {
    match g
    case Grown(_, _, after, written) =>
      && next == after
      && log == log0 + written
      && GrownHolds(store, g, s.hi, true)
      && SameOutside(s0, store, Ids(s.node))
  }

  /** The store and the log after the record was put into the leaf of s. */
  ghost function AfterPut(s0: Store, t: Tree, k: Key, v: Bytes): Store
    requires t.Lf?
  {
    s0[t.id := Leaf(Put(t.entries, k, v), t.next)]
  }

  lemma LeafFits(s0: Store, log0: seq<Change>, s: Spot, k: Key, v: Bytes, order: nat, next: PageId)
    requires At(s0, order, next, s, k) && s.node.Lf? && |Put(s.node.entries, k, v)| <= order
    ensures var t := s.node;
            var g := InsLeaf(t, k, v, order, next);
            && g.split.None?
            && Inserted(s0, log0, s, g, AfterPut(s0, t, k, v), next,
            log0 + [PageWrite(t.id, AfterPut(s0, t, k, v)[t.id])])
  {
  }

  lemma LeafSplits(s0: Store, log0: seq<Change>, s: Spot, k: Key, v: Bytes, order: nat, next: PageId)
    requires At(s0, order, next, s, k) && s.node.Lf? && |Put(s.node.entries, k, v)| > order
    ensures var t := s.node;
            var g := InsLeaf(t, k, v, order, next);
            var s1 := AfterPut(s0, t, k, v);
            var es := s1[t.id].entries;
            var mid := |es| / 2;
            var upper := Leaf(es[mid..], t.next);
            && g.split == Some(Half(es[mid].key, Lf(next, es[mid..], t.next)))
            && Inserted(s0, log0, s, g, s1[next := Leaf([], None)][next := upper][t.id := Leaf(es[..mid], Some(next))],
              next + 1,
                        log0 + [PageWrite(t.id, s1[t.id])] + [PageWrite(next, upper)])
  {
    var t := s.node;
    var g := InsLeaf(t, k, v, order, next);
    var s1 := AfterPut(s0, t, k, v);
    assert g.log == [PageWrite(t.id, s1[t.id])] + [PageWrite(next, Image(g.split.value.right))];
    assert log0 + [PageWrite(t.id, s1[t.id])] + [PageWrite(next, Image(g.split.value.right))] == log0 + g.log;
  }

  /** The routed child of a node is in place for the recursive call. */
  lemma {:induction false} ChildAt(s0: Store, order: nat, next: PageId, s: Spot, k: Key)
    requires order >= 2 && At(s0, order, next, s, k) && s.node.Nd?
    ensures s.h > 0 && |s.node.kids| == |s.node.keys| + 1
    ensures At(s0, order, next, Descend(s, k, order), k)
    ensures Descend(s, k, order).node == s.node.kids[Route(s.node.keys, k)] && Descend(s, k, order).h == s.h - 1
    ensures s0[s.node.id] == Index(s.node.keys, KidIds(s.node.kids))
  {
    RouteBounds(s.node.keys, s.lo, s.hi, k);
    KidPages(s0, s.node, s.hi, true, Route(s.node.keys, k), next);
  }

  /** The outcome of the recursive call, as seen from the parent. */
  function ChildOutcome(s: Spot, k: Key, v: Bytes, order: nat, next: PageId): Grown {
    Ins(Descend(s, k, order).node, k, v, order, next)
  }

  /** The node that takes this outcome in. */
  function NodeAfter(s: Spot, k: Key, v: Bytes, order: nat, next: PageId): Tree
    requires s.node.Nd? && |s.node.kids| == |s.node.keys| + 1
  {
    Joined(s.node, Route(s.node.keys, k), ChildOutcome(s, k, v, order, next))
  }

  function Widened(t: Tree, half: Half): Page
    requires t.Nd? && |t.kids| == |t.keys| + 1
  {
    WidenedPage(Index(t.keys, KidIds(t.kids)), half.sep, half.right.id)
  }

  /** The two pages an overfull index page splits into. */
  function UpperHalf(w: Page): Page
    requires w.Index? && |w.children| == |w.keys| + 1 && |w.keys| > 0
  {
    Index(w.keys[|w.keys| / 2 + 1..], w.children[|w.keys| / 2 + 1..])
  }

  function LowerHalf(w: Page): Page
    requires w.Index? && |w.children| == |w.keys| + 1 && |w.keys| > 0
  {
    Index(w.keys[..|w.keys| / 2], w.children[..|w.keys| / 2 + 1])
  }

  /** An insertion below a spot that has room for the recursive call. */
  ghost predicate Ready(s0: Store, s: Spot, k: Key, order: nat, next: PageId) {
    order >= 2 && At(s0, order, next, s, k) && s.node.Nd? && s.h > 0 && |s.node.kids| == |s.node.keys| + 1
  }

  /** The recursive call is over. */
  ghost predicate ChildDone(s0: Store, s1: Store, s: Spot, k: Key, v: Bytes, order: nat, next: PageId) {
    var c := Descend(s, k, order);
    SameOutside(s0, s1, Ids(c.node)) && GrownHolds(s1, ChildOutcome(s, k, v, order, next), c.hi, true)
  }

  lemma NodeIs(s: Spot, k: Key, v: Bytes, order: nat, next: PageId)
    requires s.node.Nd? && |s.node.kids| == |s.node.keys| + 1 && s.h > 0
    ensures var g := ChildOutcome(s, k, v, order, next);
            var n := NodeAfter(s, k, v, order, next);
            && n.Nd? && n.id == s.node.id && |n.kids| == |n.keys| + 1
            && Ins(s.node, k, v, order, next) == Settle(n, order, g.next, if g.split.None? then g.log
            else g.log + [Write(n)])
            && (g.split.None? ==> n.keys == s.node.keys)
  {
  }

  lemma {:induction false} NodeKids(s0: Store, s1: Store, s: Spot, k: Key, v: Bytes, order: nat, next: PageId)
    requires Ready(s0, s, k, order, next) && ChildDone(s0, s1, s, k, v, order, next)
    ensures var g := ChildOutcome(s, k, v, order, next);
            var n := NodeAfter(s, k, v, order, next);
            && KidsOk(s1, n.kids, n.keys, s.hi, true)
            && g.next !in Ids(n) && n.id !in IdsOf(n.kids)
            && s.node.id in s1 && s1[s.node.id] == Image(s.node)
            && (g.split.None? ==> Image(n) == Image(s.node))
  {
    var j, g, n := InsStep(s.node, k, v, order, next, s.least, s.lo, s.hi, s.h);
    InsKidsLive(s0, s1, s.node, k, v, order, next, s.lo, s.hi, s.h, j, g, n);
  }

  /** The node's own page is still there after the recursive call. */
  lemma {:induction false} NodePage(s0: Store, s1: Store, s: Spot, k: Key, v: Bytes, order: nat, next: PageId)
    requires Ready(s0, s, k, order, next) && ChildDone(s0, s1, s, k, v, order, next)
    ensures s.node.id in s1 && s1[s.node.id] == Index(s.node.keys, KidIds(s.node.kids))
  {
    NodeKids(s0, s1, s, k, v, order, next);
  }

  /** What the recursive call left alone is still there for the node and for its own parent. */
  lemma {:induction false} OutsideWiden(s0: Store, s1: Store, s: Spot, k: Key, order: nat)
    requires s.node.Nd? && |s.node.kids| == |s.node.keys| + 1 && s.h > 0
    requires SameOutside(s0, s1, Ids(Descend(s, k, order).node))
    ensures SameOutside(s0, s1, Ids(s.node))
  {
    KidAmong(s.node.kids, Route(s.node.keys, k));
    OutsideMore(s0, s1, Ids(Descend(s, k, order).node), Ids(s.node));
  }

  lemma {:induction false} NextGrows(s0: Store, s: Spot, k: Key, v: Bytes, order: nat, next: PageId)
    requires Ready(s0, s, k, order, next)
    ensures next <= ChildOutcome(s, k, v, order, next).next
  {
    var c := Descend(s, k, order);
    ChildAt(s0, order, next, s, k);
    InsIds(c.node, k, v, order, next, c.least, c.lo, c.hi, c.h);
  }

  lemma {:induction false} NodeWidens(s0: Store, s: Spot, k: Key, v: Bytes, order: nat, next: PageId)
    requires Ready(s0, s, k, order, next) && ChildOutcome(s, k, v, order, next).split.Some?
    ensures Image(NodeAfter(s, k, v, order, next)) == Widened(s.node, ChildOutcome(s, k, v, order, next).split.value)
  {
    var j, g := Route(s.node.keys, k), ChildOutcome(s, k, v, order, next);
    InsNoMeta(s.node.kids[j], k, v, order, next, 0);
    AdoptImage(s.node, j, g.left, g.split.value);
  }

  // ---- The three ways an insertion below a node can end -----------------------------

  lemma {:induction false} ChildKept(s0: Store, log0: seq<Change>, s: Spot, k: Key, v: Bytes, order: nat, next: PageId,
      s1: Store)
    requires Ready(s0, s, k, order, next) && ChildDone(s0, s1, s, k, v, order, next)
    requires ChildOutcome(s, k, v, order, next).split.None?
    ensures var r := Ins(s.node, k, v, order, next);
            var g := ChildOutcome(s, k, v, order, next);
            r.split.None? && r.next == g.next && Inserted(s0, log0, s, r, s1, r.next, log0 + g.log)
  {
    NodeIs(s, k, v, order, next);
    NodeKids(s0, s1, s, k, v, order, next);
    OutsideWiden(s0, s1, s, k, order);
  }

  lemma {:induction false} NodeFits(s0: Store, log0: seq<Change>, s: Spot, k: Key, v: Bytes, order: nat, next: PageId,
      s1: Store)
    requires Ready(s0, s, k, order, next) && ChildDone(s0, s1, s, k, v, order, next)
    requires var g := ChildOutcome(s, k, v, order, next);
             g.split.Some? && |Widened(s.node, g.split.value).keys| <= order
    ensures var r := Ins(s.node, k, v, order, next);
            var g := ChildOutcome(s, k, v, order, next);
            var w := Widened(s.node, g.split.value);
            && r.split.None? && r.next == g.next
            && Inserted(s0, log0, s, r, s1[s.node.id := w], r.next, log0 + g.log + [PageWrite(s.node.id, w)])
  {
    var n := NodeAfter(s, k, v, order, next);
    NodeIs(s, k, v, order, next);
    NodeKids(s0, s1, s, k, v, order, next);
    NodeWidens(s0, s, k, v, order, next);
    OutsideWiden(s0, s1, s, k, order);
    OutsideIs(s0, s1, Ids(s.node));
    KidsFrame(s1, s1[n.id := Image(n)], n.kids, n.keys, s.hi, true);
    assert log0 + ChildOutcome(s, k, v, order, next).log + [Write(n)] == log0 +
      (ChildOutcome(s, k, v, order, next).log + [Write(n)]);
  }

  ghost function AfterSplit(s1: Store, id: PageId, right: PageId, w: Page): Store
    requires w.Index? && |w.children| == |w.keys| + 1 && |w.keys| > 0
  {
    s1[id := w][right := Index([], [])][right := UpperHalf(w)][id := LowerHalf(w)]
  }

  lemma {:induction false} NodeSplits(s0: Store, log0: seq<Change>, s: Spot, k: Key, v: Bytes, order: nat, next: PageId,
      s1: Store)
    requires Ready(s0, s, k, order, next) && ChildDone(s0, s1, s, k, v, order, next)
    requires var g := ChildOutcome(s, k, v, order, next);
             g.split.Some? && |Widened(s.node, g.split.value).keys| > order
    ensures var r := Ins(s.node, k, v, order, next);
            var g := ChildOutcome(s, k, v, order, next);
            var w := Widened(s.node, g.split.value);
            && r.split.Some? && r.split.value.sep == w.keys[|w.keys| / 2] && r.split.value.right.id == g.next
            && r.next == g.next + 1
            && Inserted(s0, log0, s, r, AfterSplit(s1, s.node.id, g.next, w), r.next,
                        log0 + g.log + [PageWrite(s.node.id, w)] + [PageWrite(g.next, UpperHalf(w))])
  {
    var g, n := ChildOutcome(s, k, v, order, next), NodeAfter(s, k, v, order, next);
    NodeIs(s, k, v, order, next);
    NodeKids(s0, s1, s, k, v, order, next);
    NodeWidens(s0, s, k, v, order, next);
    OutsideWiden(s0, s1, s, k, order);
    NextGrows(s0, s, k, v, order, next);
    SplitOutcome(s1, n, order, g, s.hi);
    var w, upper := Image(n), UpperHalf(Image(n));
    LogFour(log0, g.log, PageWrite(n.id, w), PageWrite(g.next, upper));
    OutsideSplit(s0, s1, s, g.next, w, next);
  }

  /** An index page took in a new child: it was logged once, and cut in two pages when it was too full. */
  ghost predicate TookIn(s1: Store, log1: seq<Change>, next1: PageId, order: nat, id: PageId, w: Page,
                         split: Split, store: Store, log: seq<Change>, next: PageId)
  {
    && w.Index? && |w.children| == |w.keys| + 1 && |w.keys| > 0
    && if |w.keys| <= order then
         split == NoSplit && next == next1 && store == s1[id := w] && log == log1 + [PageWrite(id, w)]
       else
         && split == Split.Split(w.keys[|w.keys| / 2], next1) && next == next1 + 1
         && store == AfterSplit(s1, id, next1, w) && log == log1 + [PageWrite(id, w)] + [PageWrite(next1, UpperHalf(w))]
  }

  /** Then the node is as the model has it. */
  lemma {:induction false} NodeTaken(s0: Store, log0: seq<Change>, s: Spot, k: Key, v: Bytes, order: nat, next: PageId,
                                     s1: Store,
                                     below: Split, split: Split, store: Store, log: seq<Change>, next': PageId)
    requires Ready(s0, s, k, order, next) && ChildDone(s0, s1, s, k, v, order, next)
    requires var g := ChildOutcome(s, k, v, order, next);
             && g.split.Some? && Reports(below, g)
             && TookIn(s1, log0 + g.log, g.next, order, s.node.id,
             WidenedPage(Index(s.node.keys, KidIds(s.node.kids)), below.key, below.page),
                       split, store, log, next')
    ensures var r := Ins(s.node, k, v, order, next);
            Reports(split, r) && Inserted(s0, log0, s, r, store, next', log)
  {
    var g := ChildOutcome(s, k, v, order, next);
    var w := Widened(s.node, g.split.value);
    if |w.keys| <= order {
      NodeFits(s0, log0, s, k, v, order, next, s1);
    } else {
      NodeSplits(s0, log0, s, k, v, order, next, s1);
    }
  }

  lemma LogJoin(a: seq<Change>, b: seq<Change>, c: seq<Change>)
    ensures a + b + c == a + (b + c)
  {
  }

  lemma LogFour(a: seq<Change>, b: seq<Change>, c: Change, d: Change)
    ensures a + b + [c] + [d] == a + (b + [c] + [d])
  {
  }

  lemma OutsideSplit(s0: Store, s1: Store, s: Spot, right: PageId, w: Page, next: PageId)
    requires w.Index? && |w.children| == |w.keys| + 1 && |w.keys| > 0
    requires SameOutside(s0, s1, Ids(s.node)) && s.node.id in Ids(s.node) && next <= right && forall id :: id in s0 ==>
             id < next
    ensures SameOutside(s0, AfterSplit(s1, s.node.id, right, w), Ids(s.node))
  {
    OutsideIs(s0, s1, Ids(s.node));
  }

  lemma {:induction false} SplitOutcome(s1: Store, n: Tree, order: nat, g: Grown, hi: int)
    requires n.Nd? && |n.keys| > order && KidsOk(s1, n.kids, n.keys, hi, true)
    requires g.next !in Ids(n) && n.id !in IdsOf(n.kids)
    ensures var w := Image(n);
            var r := Settle(n, order, g.next, g.log + [Write(n)]);
            && r.split.Some? && r.split.value.sep == w.keys[|w.keys| / 2] && r.split.value.right.id == g.next
            && r.next == g.next + 1
            && r.log == g.log + [PageWrite(n.id, w)] + [PageWrite(g.next, UpperHalf(w))]
            && GrownHolds(AfterSplit(s1, n.id, g.next, w), r, hi, true)
  {
    var mid := |n.keys| / 2;
    CutImage(n, mid, g.next);
    var (left, half) := SplitIndex(n, g.next);
    SettleLive(s1, AfterSplit(s1, n.id, g.next, Image(n)), n, order, g.next, g.log + [Write(n)], hi);
  }

  // ---- The whole tree ---------------------------------------------------------------

  function RootLeast(t: Tree): nat {
    if t.Lf? then 0 else 1
  }

  /** The root of a tree of height h. */
  function RootSpot(t: Tree, h: nat): Spot {
    Spot(t, RootLeast(t), 0, KEY_LIMIT, h, None)
  }

  /** The root with bounds that leave room for any key. */
  function WideSpot(t: Tree, h: nat, k: int): Spot {
    Spot(t, RootLeast(t), if k < 0 then k else 0, if k < KEY_LIMIT then KEY_LIMIT else k + 1, h, None)
  }

  lemma {:induction false} WideSound(store: Store, t: Tree, h: nat, k: int, order: nat)
    requires Sound(RootSpot(t, h), 0, order) && Holds(store, t, KEY_LIMIT, true)
    ensures var s := WideSpot(t, h, k);
            Sound(s, k, order) && Holds(store, t, s.hi, true) && (0 <= k < KEY_LIMIT ==> s == RootSpot(t, h))
  {
    var s := WideSpot(t, h, k);
    ShapeWider(t, order, RootLeast(t), 0, KEY_LIMIT, h, s.lo, s.hi);
    ExactBound(store, t, KEY_LIMIT, s.hi);
  }

  /** The pages of the store spell the tree, each page once, below the next page id. */
  ghost predicate Stored(store: Store, next: PageId, t: Tree) {
    Holds(store, t, KEY_LIMIT, true) && Distinct(Ids(t)) && forall id :: id in Ids(t) ==> id < next
  }

  function GrowHeight(g: Grown, h: nat): nat {
    if g.split.None? then h else h + 1
  }

  /** A split root gets a new root above it; the whole tree is sound again. */
  lemma {:induction false} GrownSound(t: Tree, k: Key, v: Bytes, order: nat, next: PageId, h: nat)
    requires Sound(RootSpot(t, h), k, order) && Distinct(Ids(t)) && forall id :: id in Ids(t) ==> id < next
    ensures var g := Ins(t, k, v, order, next);
            && Sound(RootSpot(Grow(g), GrowHeight(g, h)), k, order)
            && Distinct(Ids(Grow(g)))
            && (forall id :: id in Ids(Grow(g)) ==> id < GrowNext(g))
            && next <= g.next
  {
    InsertShape(t, k, v, order, next, RootLeast(t), h);
    InsertChain(t, k, v, order, next, RootLeast(t), h);
    InsertIds(t, k, v, order, next, RootLeast(t), h);
    InsKind(t, k, v, order, next);
  }

  /** All that an insertion into a whole tree needs and gives. */
  lemma {:induction false} InsertWhole(store: Store, t: Tree, k: Key, v: Bytes, order: nat, next: PageId, h: nat)
    requires Sound(RootSpot(t, h), 0, order) && Stored(store, next, t) && forall id :: id in store ==> id < next
    ensures At(store, order, next, RootSpot(t, h), k)
    ensures var g := Ins(t, k, v, order, next);
            && Sound(RootSpot(Grow(g), GrowHeight(g, h)), 0, order)
            && Distinct(Ids(Grow(g))) && (forall id :: id in Ids(Grow(g)) ==> id < GrowNext(g))
            && AsMap(Contents(Grow(g))) == AsMap(Contents(t))[k := v]
  {
    GrownSound(t, k, v, order, next, h);
    InsertContents(t, k, v, order, next, RootLeast(t), h);
  }

  lemma {:induction false} InsKind(t: Tree, k: Key, v: Bytes, order: nat, next: PageId)
    ensures Ins(t, k, v, order, next).left.Lf? == t.Lf?
    ensures Grow(Ins(t, k, v, order, next)).Lf? ==> t.Lf?
  {
  }

  /** The new root in the pages. */
  lemma {:induction false} RootGrown(s1: Store, g: Grown)
    requires GrownHolds(s1, g, KEY_LIMIT, true) && g.split.Some? && Distinct(Ids(Grow(g)))
    ensures var p := Index([g.split.value.sep], [g.left.id, g.split.value.right.id]);
            && p == Image(Grow(g))
            && Holds(s1[g.next := Index([], [])][g.next := p], Grow(g), KEY_LIMIT, true)
  {
    var r := Grow(g);
    KidsDistinct(r);
    assert KidsOk(s1, r.kids, r.keys, KEY_LIMIT, true) by {
      assert r.kids[0] == g.left && r.kids[1] == g.split.value.right;
    }
    KidsFrame(s1, s1[r.id := Index([], [])][r.id := Image(r)], r.kids, r.keys, KEY_LIMIT, true);
  }

  // ---- The path of a deletion over pages ------------------------------------------------

  /** The path lists the page of every spot from the root down, and where each lies below the one before. */
  ghost predicate PathTo(root: Spot, k: int, order: nat, path: seq<(PageId, nat)>) {
    forall i :: 0 <= i < |path| ==> StepTo(root, k, order, path[i], i)
  }

  ghost predicate StepTo(root: Spot, k: int, order: nat, step: (PageId, nat), i: nat) {
    && step.0 == SpotAt(root, k, order, i).node.id
    && (i > 0 ==> step.1 == Route(KeysOf(SpotAt(root, k, order, i - 1).node), k))
  }

  function KeysOf(t: Tree): seq<Key> {
    if t.Lf? then [] else t.keys
  }

  /** The page of a spot, in the store. */
  ghost predicate OnPath(store: Store, page: Page, s: Spot, k: int, order: nat) {
    && Sound(s, k, order) && s.node.id in store && store[s.node.id] == page == Image(s.node)
    && (s.node.Lf? <==> s.h == 0)
    && (s.node.Nd? ==> |s.node.kids| == |s.node.keys| + 1)
  }

  lemma {:induction false} SpotPage(store: Store, root: Spot, k: int, order: nat, d: nat)
    requires Sound(root, k, order) && d <= root.h && Holds(store, root.node, root.hi, true) && Distinct(Ids(root.node))
    ensures var s := SpotAt(root, k, order, d);
            s.node.id in store && OnPath(store, store[s.node.id], s, k, order) && s.h == root.h - d
  {
    SpotSound(root, k, order, d);
    SpotHolds(store, root, k, order, d);
    DescendSound(SpotAt(root, k, order, d), k, order);
  }

  /** One step down: the path grows by the routed child, whose page is next. */
  lemma {:induction false} PathGrows(store: Store, page: Page, root: Spot, k: int, order: nat, d: nat,
      path: seq<(PageId, nat)>)
    requires Sound(root, k, order) && d <= root.h && Holds(store, root.node, root.hi, true) && Distinct(Ids(root.node))
    requires OnPath(store, page, SpotAt(root, k, order, d), k, order) && page.Index?
    requires SpotAt(root, k, order, d).h == root.h - d && |path| == d + 1 && PathTo(root, k, order, path)
    ensures d < root.h && |page.children| == |page.keys| + 1
    ensures var j := Route(page.keys, k);
            var s := SpotAt(root, k, order, d + 1);
            && PathTo(root, k, order, path + [(page.children[j], j)])
            && page.children[j] == s.node.id && s.node.id in store && OnPath(store, store[s.node.id], s, k, order)
            && s.h == root.h - (d + 1)
  {
    var s := SpotAt(root, k, order, d);
    var j := Route(page.keys, k);
    SpotNext(root, k, order, d);
    SpotPage(store, root, k, order, d + 1);
    DescendSound(s, k, order);
    var longer := path + [(page.children[j], j)];
    assert StepTo(root, k, order, longer[d + 1], d + 1);
    forall i | 0 <= i < |longer| ensures StepTo(root, k, order, longer[i], i) {
      if i <= d { assert StepTo(root, k, order, path[i], i); }
    }
  }
}
