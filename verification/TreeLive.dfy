/** How the live pages follow the tree: the page-level steps of insertion and of the climb after a deletion. */
module TreeLive {
  import opened Entries
  import opened Tree
  import opened Log
  import opened TreeInsert
  import opened TreeDelete
  import opened TreeRecovery
  import opened TreeDeleteRecovery

  /** Pages that exist in s and are not in ids are the same in s'. */
  ghost predicate SameOutside(s: Store, s': Store, ids: multiset<PageId>) {
    forall id :: SameAt(s, s', ids, id)
  }

  ghost predicate SameAt(s: Store, s': Store, ids: multiset<PageId>, id: PageId) {
    id in s && id !in ids ==> id in s' && s'[id] == s[id]
  }

  lemma OutsideIs(s: Store, s': Store, ids: multiset<PageId>)
    requires SameOutside(s, s', ids)
    ensures forall id :: id in s && id !in ids ==> id in s' && s'[id] == s[id]
  {
    forall id | id in s && id !in ids ensures id in s' && s'[id] == s[id] { assert SameAt(s, s', ids, id); }
  }

  lemma OutsideMore(s: Store, s': Store, ids: multiset<PageId>, more: multiset<PageId>)
    requires SameOutside(s, s', ids) && ids <= more
    ensures SameOutside(s, s', more)
  {
    OutsideIs(s, s', ids);
  }

  lemma KidIdsSplice(ts: seq<Tree>, i: nat, c: Tree, j: nat, left: Tree)
    requires i < |ts| && j < |ts| && left.id == ts[j].id
    ensures var us := ts[j := left];
            KidIds(us[..i + 1] + [c] + us[i + 1..]) == KidIds(ts)[..i + 1] + [c.id] + KidIds(ts)[i + 1..]
  {
  }

  /** The image of a node that adopted a split child is its old page with the separator and the new child inserted. */
  lemma AdoptImage(t: Tree, j: nat, left: Tree, half: Half)
    requires t.Nd? && |t.kids| == |t.keys| + 1 && j < |t.kids| && left.id == t.kids[j].id
    ensures var i := Slot(t.keys, half.sep);
            Image(Adopt(t, j, left, half)) ==
            Index(t.keys[..i] + [half.sep] + t.keys[i..],
              KidIds(t.kids)[..i + 1] + [half.right.id] + KidIds(t.kids)[i + 1..])
  {
    KidIdsSplice(t.kids, Slot(t.keys, half.sep), half.right, j, left);
  }

  lemma CutImage(n: Tree, c: nat, right: PageId)
    requires n.Nd? && c < |n.keys| && |n.kids| == |n.keys| + 1
    ensures var (left, half) := CutIndex(n, c, right);
            && Image(left) == Index(n.keys[..c], KidIds(n.kids)[..c + 1])
            && Image(half.right) == Index(n.keys[c + 1..], KidIds(n.kids)[c + 1..])
  {
  }

  /** After the recursive call: the children of the node, old and new, hold in the live store. */
  lemma {:induction false} InsKidsLive(s0: Store, s1: Store, t: Tree, k: Key, v: Bytes, order: nat, next: PageId,
                                       lo: int, hi: int, h: nat, j: nat, g: Grown, n: Tree)
    requires order >= 2 && Formed(t, order, lo, hi, h) && j < |t.kids|
    requires g == Ins(t.kids[j], k, v, order, next) && n == Joined(t, j, g)
    requires Lower(t.keys, lo, j) <= k < Upper(t.keys, hi, j)
    requires Halves(g, order, order / 2, Lower(t.keys, lo, j), Upper(t.keys, hi, j), h - 1)
    requires Holds(s0, t, hi, true) && Distinct(Ids(t)) && forall id :: id in Ids(t) ==> id < next
    requires SameOutside(s0, s1, Ids(t.kids[j])) && GrownHolds(s1, g, Upper(t.keys, hi, j), true)
    ensures KidsOk(s1, n.kids, n.keys, hi, true)
    ensures t.id in s1 && s1[t.id] == Image(t)
    ensures g.next !in Ids(n) && n.id !in IdsOf(n.kids)
    ensures g.split.None? ==> Image(n) == Image(t)
  {
    OwnPage(s0, s1, t, hi, j);
    JoinedHolds(s1, t, order, lo, hi, h, j, g, true);
    JoinedFormed(t, order, lo, hi, h, j, g);
    InsIds(t.kids[j], k, v, order, next, order / 2, Lower(t.keys, lo, j), Upper(t.keys, hi, j), h - 1);
    JoinedFresh(t, j, g, n, next);
    InsNoMeta(t.kids[j], k, v, order, next, 0);
  }

  /** What happens below child j leaves the node's page and the other children alone. */
  lemma {:induction false} OwnPage(s0: Store, s1: Store, t: Tree, hi: int, j: nat)
    requires t.Nd? && j < |t.kids| && Holds(s0, t, hi, true) && Distinct(Ids(t)) && SameOutside(s0, s1, Ids(t.kids[j]))
    ensures OthersOk(s1, t, hi, j, true) && t.id in s1 && s1[t.id] == Image(t)
  {
    KidsDistinct(t);
    KidAmong(t.kids, j);
    OutsideIs(s0, s1, Ids(t.kids[j]));
    SiblingsAll(s0, s1, t, hi, true, j);
  }

  /** The node itself: written once when it fits, cut in two pages when it does not. */
  lemma {:induction false} SettleLive(s1: Store, s2: Store, n: Tree, order: nat, next: PageId, log: seq<Change>,
      hi: int)
    requires n.Nd? && KidsOk(s1, n.kids, n.keys, hi, true)
    requires next !in Ids(n) && n.id !in IdsOf(n.kids)
    requires forall id :: id in s1 && id != n.id && id != next ==> id in s2 && s2[id] == s1[id]
    requires var g := Settle(n, order, next, log);
             && g.left.id in s2 && s2[g.left.id] == Image(g.left)
             && (g.split.Some? ==> next in s2 && s2[next] == Image(g.split.value.right))
    ensures GrownHolds(s2, Settle(n, order, next, log), hi, true)
  {
    KidsFrame(s1, s2, n.kids, n.keys, hi, true);
    var g := Settle(n, order, next, log);
    if g.split.Some? {
      CutHolds(s2, n, |n.keys| / 2, next, hi, true);
    }
  }

  // ---- The path of a deletion -------------------------------------------------

  /** A node on the path, with its least number of keys, its bounds, its height and the leaf that follows it. */
  datatype Spot = Spot(node: Tree, least: nat, lo: int, hi: int, h: nat, after: Option<PageId>)

  ghost predicate Sound(s: Spot, k: int, order: nat) {
    match s
    case Spot(node, least, lo, hi, h, after) => Deletable(node, order, least, lo, hi, h, after) && lo <= k < hi
  }

  /** The routed child of a spot. */
  function Descend(s: Spot, k: int, order: nat): Spot {
    if s.node.Lf? || |s.node.kids| != |s.node.keys| + 1 || s.h == 0 then s
    else
      var j := Route(s.node.keys, k);
      Spot(s.node.kids[j], order / 2, Lower(s.node.keys, s.lo, j), Upper(s.node.keys, s.hi, j), s.h - 1,
           Follower(s.node.kids, s.after, j))
  }

  /** The spot at depth d below s. */
  function SpotAt(s: Spot, k: int, order: nat, d: nat): Spot
    decreases d
  {
    if d == 0 then s else SpotAt(Descend(s, k, order), k, order, d - 1)
  }

  lemma {:induction false} SpotNext(s: Spot, k: int, order: nat, d: nat)
    ensures SpotAt(s, k, order, d + 1) == Descend(SpotAt(s, k, order, d), k, order)
    decreases d
  {
    if d > 0 {
      SpotNext(Descend(s, k, order), k, order, d - 1);
    }
  }

  lemma {:induction false} DescendSound(s: Spot, k: int, order: nat)
    requires Sound(s, k, order)
    ensures Sound(Descend(s, k, order), k, order)
    ensures s.node.Nd? ==> s.h > 0 && |s.node.kids| == |s.node.keys| + 1
    ensures s.node.Nd? ==> Descend(s, k, order).node == s.node.kids[Route(s.node.keys, k)]
    ensures s.node.Lf? <==> s.h == 0
  {
    if s.node.Nd? {
      RouteBounds(s.node.keys, s.lo, s.hi, k);
    }
  }

  /** Every node on the path keeps the requirements of a deletion within its own bounds; the leaf is at depth h. */
  lemma {:induction false} SpotSound(s: Spot, k: int, order: nat, d: nat)
    requires Sound(s, k, order) && d <= s.h
    ensures Sound(SpotAt(s, k, order, d), k, order)
    ensures SpotAt(s, k, order, d).h == s.h - d
    ensures d > 0 ==> SpotAt(s, k, order, d).least == order / 2
    decreases d
  {
    if d > 0 {
      DescendSound(s, k, order);
      SpotSound(Descend(s, k, order), k, order, d - 1);
      assert SpotAt(s, k, order, d) == SpotAt(Descend(s, k, order), k, order, d - 1);
    } else {
      assert SpotAt(s, k, order, d) == s;
    }
  }

  lemma {:induction false} DescendHolds(st: Store, s: Spot, k: int, order: nat)
    requires Holds(st, s.node, s.hi, true) && Distinct(Ids(s.node))
    ensures var c := Descend(s, k, order);
            Holds(st, c.node, c.hi, true) && Distinct(Ids(c.node)) && Ids(c.node) <= Ids(s.node)
  {
    if Descend(s, k, order) != s {
      KidAmong(s.node.kids, Route(s.node.keys, k));
      KidsDistinct(s.node);
    }
  }

  lemma {:induction false} SpotHolds(st: Store, s: Spot, k: int, order: nat, d: nat)
    requires Holds(st, s.node, s.hi, true) && Distinct(Ids(s.node))
    ensures var c := SpotAt(s, k, order, d);
            Holds(st, c.node, c.hi, true) && Distinct(Ids(c.node)) && Ids(c.node) <= Ids(s.node)
    decreases d
  {
    if d > 0 {
      DescendHolds(st, s, k, order);
      SpotHolds(st, Descend(s, k, order), k, order, d - 1);
    }
  }

  /** The node above a finished child, before any repair. */
  function Above(t: Tree, k: int, order: nat): Tree
    requires order >= 2
  {
    if t.Lf? || |t.kids| != |t.keys| + 1 then t
    else
      var j := Route(t.keys, k);
      Nd(t.id, t.keys, t.kids[j := Del(t.kids[j], k, order).node])
  }

  /** The outcome of the deletion below a spot is in the store, and nothing else has changed since s0. */
  ghost predicate Done(s0: Store, st: Store, s: Spot, k: int, order: nat)
    requires order >= 2
  {
    SameOutside(s0, st, Ids(s.node)) && Holds(st, Del(s.node, k, order).node, s.hi, true)
  }

  /** Once the child is done, the node above it holds with the child's outcome in place. */
  lemma {:induction false} AboveLive(s0: Store, st: Store, s: Spot, k: Key, order: nat)
    requires Sound(s, k, order) && s.node.Nd? && Holds(s0, s.node, s.hi, true) && Distinct(Ids(s.node))
    requires Done(s0, st, Descend(s, k, order), k, order)
    ensures Holds(st, Above(s.node, k, order), s.hi, true)
    ensures Image(Above(s.node, k, order)) == Image(s.node)
    ensures SameOutside(s0, st, Ids(s.node))
  {
    var t := s.node;
    var j := Route(t.keys, k);
    DescendSound(s, k, order);
    KidAmong(t.kids, j);
    OwnPage(s0, st, t, s.hi, j);
    OutsideMore(s0, st, Ids(t.kids[j]), Ids(t));
    DelId(t.kids[j], k, order);
    SpliceOne(st, t, s.hi, j, Del(t.kids[j], k, order).node, true);
  }

  lemma {:induction false} AbovePages(s: Spot, k: Key, order: nat)
    requires Sound(s, k, order) && s.node.Nd? && Distinct(Ids(s.node))
    ensures Ids(Above(s.node, k, order)) <= Ids(s.node) && Distinct(Ids(Above(s.node, k, order)))
  {
    var c := Descend(s, k, order);
    DescendSound(s, k, order);
    DelContents(c.node, k, order, c.least, c.lo, c.hi, c.h, c.after);
    OneReplaced(s.node, Route(s.node.keys, k), Del(c.node, k, order).node);
  }

  /** What the deletion below a node is, given what it is below its routed child. */
  lemma {:induction false} DelAt(s: Spot, k: Key, order: nat)
    requires Sound(s, k, order) && s.node.Nd?
    ensures var t := s.node;
            var c := Descend(s, k, order).node;
            var j := Route(t.keys, k);
            var n := Above(t, k, order);
            && c == t.kids[j] && n.Nd? && n.keys == t.keys
            && (NumKeys(Del(c, k, order).node) >= order / 2 ==>
            Del(t, k, order) == Fixed(n, false, Del(c, k, order).log))
            && (NumKeys(Del(c, k, order).node) < order / 2 ==>
                  && Deficient(n, j, order, s.lo, s.hi, s.h) && Linked(n) && Mendable(n, j)
                  && Del(t, k, order) ==
                       Fixed(Mend(n, j, order).node, Mend(n, j, order).merged,
                         Del(c, k, order).log + Mend(n, j, order).log))
  {
    DescendSound(s, k, order);
    var j, d, n := DelStep(s.node, k, order, s.least, s.lo, s.hi, s.h, s.after);
  }

  /** Once the routed child is done and full enough, the node above it is done as well. */
  lemma {:induction false} ClimbOne(s0: Store, st: Store, s: Spot, k: Key, order: nat)
    requires Sound(s, k, order) && s.node.Nd? && Holds(s0, s.node, s.hi, true) && Distinct(Ids(s.node))
    requires Done(s0, st, Descend(s, k, order), k, order)
    requires NumKeys(Del(Descend(s, k, order).node, k, order).node) >= order / 2
    ensures Done(s0, st, s, k, order)
    ensures Del(s.node, k, order) == Fixed(Above(s.node, k, order), false, Del(Descend(s, k, order).node, k, order).log)
  {
    DelAt(s, k, order);
    AboveLive(s0, st, s, k, order);
  }

  /** Hence nothing above a node that is done and full enough changes any more. */
  lemma {:induction false} Climb(s0: Store, st: Store, s: Spot, k: Key, order: nat, d: nat)
    requires Sound(s, k, order) && d <= s.h && Holds(s0, s.node, s.hi, true) && Distinct(Ids(s.node))
    requires Done(s0, st, SpotAt(s, k, order, d), k, order)
    requires d > 0 ==> NumKeys(Del(SpotAt(s, k, order, d).node, k, order).node) >= order / 2
    ensures Done(s0, st, s, k, order)
    ensures Del(s.node, k, order).log == Del(SpotAt(s, k, order, d).node, k, order).log
    ensures d > 0 ==> s.node.Nd? && Del(s.node, k, order).node == Above(s.node, k, order)
    decreases d
  {
    if d > 0 {
      var c := Descend(s, k, order);
      DescendSound(s, k, order);
      DescendHolds(s0, s, k, order);
      assert SpotAt(s, k, order, d) == SpotAt(c, k, order, d - 1);
      Climb(s0, st, c, k, order, d - 1);
      AboveKeys(c, k, order);
      ClimbOne(s0, st, s, k, order);
    } else {
      assert SpotAt(s, k, order, d) == s;
    }
  }

  lemma AboveKeys(s: Spot, k: Key, order: nat)
    requires Sound(s, k, order)
    ensures s.node.Nd? ==> NumKeys(Above(s.node, k, order)) == NumKeys(s.node) >= s.least
  {
  }
}
