/** Replaying the log of a deletion, and the point lookup that is blind to stale pages. */
module TreeDeleteRecovery {
  import opened Entries
  import opened Tree
  import opened Log
  import opened TreeInsert
  import opened TreeDelete
  import opened TreeRecovery

  // ---- Pairs of neighbours in a store --------------------------------------

  /** The subtrees below a page hold; a leaf has none. */
  ghost predicate BelowOk(s: Store, t: Tree, hi: int, exact: bool) {
    t.Nd? ==> KidsOk(s, t.kids, t.keys, hi, exact)
  }

  lemma {:induction false} MergedBelow(s: Store, a: Tree, sep: Key, b: Tree, hi: int, exact: bool)
    requires Alike(a, b) && BelowOk(s, a, sep, exact) && BelowOk(s, b, hi, exact)
    ensures BelowOk(s, Merged(a, sep, b), hi, exact)
  {
    if a.Nd? {
      var m := Merged(a, sep, b);
      forall i {:trigger m.kids[i]} | 0 <= i < |m.kids| ensures Holds(s, m.kids[i], Upper(m.keys, hi, i), exact) {
        if i < |a.kids| {
          assert m.kids[i] == a.kids[i];
          assert Upper(m.keys, hi, i) == Upper(a.keys, sep, i);
        } else {
          assert m.kids[i] == b.kids[i - |a.kids|];
          assert Upper(m.keys, hi, i) == Upper(b.keys, hi, i - |a.kids|);
        }
      }
    }
  }

  /** The page of every subtree in the list has its exact image in the store. */
  ghost predicate Imaged(s: Store, ts: seq<Tree>) {
    forall i :: 0 <= i < |ts| ==> ts[i].id in s && s[ts[i].id] == Image(ts[i])
  }

  /** The outcome of a repair holds where its pages were written and the subtrees below were left alone. */
  lemma {:induction false} OutcomeHolds(s: Store, a: Tree, sep: Key, b: Tree, cut: Option<nat>, hi: int, exact: bool)
    requires Alike(a, b) && (cut.Some? ==> cut.value < NumKeys(Merged(a, sep, b)))
    requires BelowOk(s, a, sep, exact) && BelowOk(s, b, hi, exact)
    requires Imaged(s, Outcome(a, sep, b, cut))
    ensures cut.None? ==> Holds(s, Merged(a, sep, b), hi, exact)
    ensures cut.Some? ==>
              var p := Cut(Merged(a, sep, b), cut.value, b.id);
              Holds(s, p.left, p.sep, exact) && Holds(s, p.right, hi, exact)
  {
    var m := Merged(a, sep, b);
    MergedBelow(s, a, sep, b, hi, exact);
    var out := Outcome(a, sep, b, cut);
    assert out[0].id in s && s[out[0].id] == Image(out[0]);
    if cut.Some? {
      assert out[1].id in s && s[out[1].id] == Image(out[1]);
      if m.Nd? {
        CutHolds(s, m, cut.value, b.id, hi, exact);
      }
    }
  }

  /** All children but the pair at i hold. */
  ghost predicate RestOk(s: Store, n: Tree, hi: int, i: nat, exact: bool)
    requires n.Nd?
  {
    |n.kids| == |n.keys| + 1 &&
    forall q {:trigger n.kids[q]} :: 0 <= q < |n.kids| && q != i && q != i + 1 ==>
      Holds(s, n.kids[q], Upper(n.keys, hi, q), exact)
  }

  lemma {:induction false} PairHolds(s: Store, n: Tree, i: nat, p: Two, hi: int, exact: bool)
    requires n.Nd? && i < |n.keys| && RestOk(s, n, hi, i, exact)
    requires Holds(s, p.left, p.sep, exact) && Holds(s, p.right, Upper(n.keys, hi, i + 1), exact)
    ensures KidsOk(s, SetPair(n, i, p).kids, SetPair(n, i, p).keys, hi, exact)
  {
    var r := SetPair(n, i, p);
    forall q {:trigger r.kids[q]} | 0 <= q < |r.kids| ensures Holds(s, r.kids[q], Upper(r.keys, hi, q), exact) {
      if q != i && q != i + 1 {
        assert r.kids[q] == n.kids[q];
      }
    }
  }

  lemma {:induction false} MergedPairHolds(s: Store, n: Tree, i: nat, m: Tree, hi: int, exact: bool)
    requires n.Nd? && i < |n.keys| && RestOk(s, n, hi, i, exact)
    requires Holds(s, m, Upper(n.keys, hi, i + 1), exact)
    ensures KidsOk(s, SetMerged(n, i, m).kids, SetMerged(n, i, m).keys, hi, exact)
  {
    var r := SetMerged(n, i, m);
    forall q {:trigger r.kids[q]} | 0 <= q < |r.kids| ensures Holds(s, r.kids[q], Upper(r.keys, hi, q), exact) {
      if q < i {
        assert r.kids[q] == n.kids[q];
      } else if q > i {
        assert r.kids[q] == n.kids[q + 1];
      }
    }
  }

  /** Writing the pages of a pair and of their parent leaves everything below and beside them alone. */
  lemma {:induction false} PairFrame(s: Store, s': Store, n: Tree, i: nat, hi: int, exact: bool)
    requires n.Nd? && i < |n.keys| && KidsOk(s, n.kids, n.keys, hi, exact) && Distinct(Ids(n))
    requires forall id :: id in s && id != n.id && id != n.kids[i].id && id != n.kids[i + 1].id ==>
             id in s' && s'[id] == s[id]
    ensures RestOk(s', n, hi, i, exact)
    ensures BelowOk(s', n.kids[i], n.keys[i], exact) && BelowOk(s', n.kids[i + 1], Upper(n.keys, hi, i + 1), exact)
  {
    forall q {:trigger n.kids[q]} | 0 <= q < |n.kids| && q != i && q != i + 1
      ensures Holds(s', n.kids[q], Upper(n.keys, hi, q), exact)
    {
      ThirdFrame(s, s', n, q, i, i + 1, hi, exact);
    }
    BelowFrame(s, s', n, i, i + 1, hi, exact);
    BelowFrame(s, s', n, i + 1, i, hi, exact);
  }

  lemma {:induction false} ThirdFrame(s: Store, s': Store, n: Tree, q: nat, i: nat, o: nat, hi: int, exact: bool)
    requires n.Nd? && q < |n.kids| && i < |n.kids| && o < |n.kids| && q != i && q != o
    requires KidsOk(s, n.kids, n.keys, hi, exact) && Distinct(Ids(n))
    requires forall id :: id in s && id != n.id && id != n.kids[i].id && id != n.kids[o].id ==>
             id in s' && s'[id] == s[id]
    ensures Holds(s', n.kids[q], Upper(n.keys, hi, q), exact)
  {
    NotWithin(n, q, i);
    NotWithin(n, q, o);
    HoldsFrame(s, s', n.kids[q], Upper(n.keys, hi, q), exact);
  }

  /** The node and another child are not among the pages of a child. */
  lemma NotWithin(n: Tree, q: nat, i: nat)
    requires n.Nd? && q < |n.kids| && i < |n.kids| && q != i && Distinct(Ids(n))
    ensures n.id !in Ids(n.kids[q]) && n.kids[i].id !in Ids(n.kids[q])
  {
    KidsDistinct(n);
    KidsApart(n.kids, q, i);
    KidAmong(n.kids, q);
    KidAmong(n.kids, i);
  }

  lemma {:induction false} BelowFrame(s: Store, s': Store, n: Tree, i: nat, o: nat, hi: int, exact: bool)
    requires n.Nd? && i < |n.kids| && o < |n.kids| && i != o && KidsOk(s, n.kids, n.keys, hi, exact) && Distinct(Ids(n))
    requires forall id :: id in s && id != n.id && id != n.kids[i].id && id != n.kids[o].id ==>
             id in s' && s'[id] == s[id]
    ensures BelowOk(s', n.kids[i], Upper(n.keys, hi, i), exact)
  {
    var c := n.kids[i];
    if c.Nd? {
      BelowApart(n, i, o);
      KidsFrame(s, s', c.kids, c.keys, Upper(n.keys, hi, i), exact);
    }
  }

  lemma {:induction false} BelowApart(n: Tree, i: nat, o: nat)
    requires n.Nd? && i < |n.kids| && o < |n.kids| && i != o && n.kids[i].Nd? && Distinct(Ids(n))
    ensures n.id !in IdsOf(n.kids[i].kids) && n.kids[i].id !in IdsOf(n.kids[i].kids)
            && n.kids[o].id !in IdsOf(n.kids[i].kids)
  {
    KidsDistinct(n);
    KidsApart(n.kids, i, o);
    KidAmong(n.kids, i);
    KidAmong(n.kids, o);
    assert Distinct(Ids(n.kids[i]));
    KidsDistinct(n.kids[i]);
    assert IdsOf(n.kids[i].kids) <= Ids(n.kids[i]);
  }

  // ---- Replaying a repair and a deletion ------------------------------------

  /** Writing one or two distinct pages and then their parent, in either order of the two. */
  lemma WriteOutcome(s: Store, out: seq<Tree>, r: Tree, log: seq<Change>, x: PageId, y: PageId)
    requires x != y && r.id != x && r.id != y
    requires |out| == 1 || |out| == 2
    requires out[0].id == x && (|out| == 2 ==> out[1].id == y)
    requires log == RepairLog(out, r, true) || log == RepairLog(out, r, false)
    ensures var s' := Replay(s, log);
            && (forall id :: id in s && id != r.id && id != x && id != y ==> id in s' && s'[id] == s[id])
            && r.id in s' && s'[r.id] == Image(r)
            && Imaged(s', out)
  {
    if |out| == 1 {
      WriteTwo(s, out[0], r);
    } else if log == RepairLog(out, r, true) {
      WriteThree(s, out[0], out[1], r);
    } else {
      WriteThree(s, out[1], out[0], r);
    }
  }

  lemma {:induction false} PairIds(n: Tree, i: nat)
    requires n.Nd? && i + 1 < |n.kids| && Distinct(Ids(n))
    ensures n.kids[i].id != n.kids[i + 1].id && n.id != n.kids[i].id && n.id != n.kids[i + 1].id
  {
    KidsDistinct(n);
    KidAmong(n.kids, i);
    KidAmong(n.kids, i + 1);
    KidsApart(n.kids, i, i + 1);
  }

  lemma WriteTwo(s: Store, x: Tree, r: Tree)
    requires x.id != r.id
    ensures Replay(s, [Write(x), Write(r)]) == s[x.id := Image(x)][r.id := Image(r)]
  {
    ReplayTwo(s, Write(x), Write(r));
  }

  lemma WriteThree(s: Store, x: Tree, y: Tree, r: Tree)
    requires x.id != y.id && x.id != r.id && y.id != r.id
    ensures Replay(s, [Write(x), Write(y), Write(r)]) == s[x.id := Image(x)][y.id := Image(y)][r.id := Image(r)]
  {
    ReplayThree(s, Write(x), Write(y), Write(r));
  }

  lemma ReplayThree(s: Store, c: Change, d: Change, e: Change)
    ensures Replay(s, [c, d, e]) == Apply(Apply(Apply(s, c), d), e)
  {
    ReplayTwo(s, c, d);
    assert [c, d, e][..2] == [c, d];
  }

  /** Replaying the log of a repair brings its pages into the store, and leaves the other children alone. */
  lemma {:induction false} RepairReplay(s: Store, n: Tree, i: nat, cut: Option<nat>, leftFirst: bool, hi: int,
      exact: bool)
    requires Repairable(n, i, cut) && Distinct(Ids(n)) && KidsOk(s, n.kids, n.keys, hi, exact)
    ensures Holds(Replay(s, RepairLog(OutcomeAt(n, i, cut), Repaired(n, i, cut), leftFirst)), Repaired(n, i, cut), hi,
            exact)
  {
    var out, r := OutcomeAt(n, i, cut), Repaired(n, i, cut);
    var s' := Replay(s, RepairLog(out, r, leftFirst));
    RepairedKids(n, i, cut);
    PairIds(n, i);
    WriteOutcome(s, out, r, RepairLog(out, r, leftFirst), n.kids[i].id, n.kids[i + 1].id);
    PairFrame(s, s', n, i, hi, exact);
    RepairHolds(s', n, i, cut, hi, exact);
  }

  /** A repaired node holds once its pages are written and its subtrees are where they were. */
  lemma {:induction false} RepairHolds(s: Store, n: Tree, i: nat, cut: Option<nat>, hi: int, exact: bool)
    requires Repairable(n, i, cut) && RestOk(s, n, hi, i, exact)
    requires BelowOk(s, n.kids[i], n.keys[i], exact) && BelowOk(s, n.kids[i + 1], Upper(n.keys, hi, i + 1), exact)
    requires Imaged(s, OutcomeAt(n, i, cut))
    requires n.id in s && s[n.id] == Image(Repaired(n, i, cut))
    ensures Holds(s, Repaired(n, i, cut), hi, exact)
  {
    var a, sep, b := n.kids[i], n.keys[i], n.kids[i + 1];
    OutcomeHolds(s, a, sep, b, cut, Upper(n.keys, hi, i + 1), exact);
    if cut.Some? {
      PairHolds(s, n, i, Cut(Merged(a, sep, b), cut.value, b.id), hi, exact);
    } else {
      MergedPairHolds(s, n, i, Merged(a, sep, b), hi, exact);
    }
  }

  /** A deletion logs pages of the subtree only. */
  lemma {:induction false} DelTouches(t: Tree, k: Key, order: nat, least: nat, lo: int, hi: int, h: nat,
      after: Option<PageId>, id: PageId)
    requires Deletable(t, order, least, lo, hi, h, after) && lo <= k < hi && id in Touched(Del(t, k, order).log)
    ensures id in Ids(t)
    decreases t
  {
    if t.Nd? {
      var j, d, n := DelStep(t, k, order, least, lo, hi, h, after);
      var l, u := Lower(t.keys, lo, j), Upper(t.keys, hi, j);
      RouteBounds(t.keys, lo, hi, k);
      KidAmong(t.kids, j);
      if id in Touched(d.log) {
        DelTouches(t.kids[j], k, order, order / 2, l, u, h - 1, Follower(t.kids, after, j), id);
      } else {
        TouchedAppend(d.log, Mend(n, j, order).log);
        DelContents(t.kids[j], k, order, order / 2, l, u, h - 1, Follower(t.kids, after, j));
        NodeMendTouches(t, j, d.node, n, order, lo, hi, h, id);
      }
    }
  }

  lemma {:induction false} DelTouchesOnly(t: Tree, k: Key, order: nat, least: nat, lo: int, hi: int, h: nat,
      after: Option<PageId>)
    requires Deletable(t, order, least, lo, hi, h, after) && lo <= k < hi
    ensures forall id {:trigger id in Touched(Del(t, k, order).log)} :: id in Touched(Del(t, k, order).log) ==>
            id in Ids(t)
  {
    forall id | id in Touched(Del(t, k, order).log) ensures id in Ids(t) {
      DelTouches(t, k, order, least, lo, hi, h, after, id);
    }
  }

  lemma TouchedAppend(a: seq<Change>, b: seq<Change>)
    ensures Touched(a + b) == Touched(a) + Touched(b)
  {
  }

  lemma TouchedThree(x: Tree, y: Tree, r: Tree)
    ensures Touched([Write(x), Write(r)]) == {x.id, r.id}
    ensures Touched([Write(x), Write(y), Write(r)]) == {x.id, y.id, r.id}
  {
    var two, three := [Write(x), Write(r)], [Write(x), Write(y), Write(r)];
    assert two[0] in two && two[1] in two;
    assert three[0] in three && three[1] in three && three[2] in three;
  }

  lemma {:induction false} RepairTouches(n: Tree, i: nat, cut: Option<nat>, leftFirst: bool, id: PageId)
    requires Repairable(n, i, cut) && id in Touched(RepairLog(OutcomeAt(n, i, cut), Repaired(n, i, cut), leftFirst))
    ensures id in Ids(n)
  {
    var out, r := OutcomeAt(n, i, cut), Repaired(n, i, cut);
    RepairedKids(n, i, cut);
    KidAmong(n.kids, i);
    KidAmong(n.kids, i + 1);
    var o := if cut.Some? then out[1] else out[0];
    TouchedThree(out[0], o, r);
    TouchedThree(o, out[0], r);
  }

  lemma {:induction false} NodeMendTouches(t: Tree, j: nat, c: Tree, n: Tree, order: nat, lo: int, hi: int, h: nat,
      id: PageId)
    requires t.Nd? && j < |t.kids| && n == Nd(t.id, t.keys, t.kids[j := c]) && Ids(c) <= Ids(t.kids[j])
    requires Deficient(n, j, order, lo, hi, h) && Linked(n) && Mendable(n, j) && id in Touched(Mend(n, j, order).log)
    ensures id in Ids(t)
  {
    OneReplaced(t, j, c);
    var i, cut := MendIsRepair(n, j, order, lo, hi, h);
    RepairTouches(n, i, cut, i == j, id);
  }

  /** Replaying what a deletion below child j logged leaves the other children and the node alone. */
  lemma {:induction false} DelSiblings(s: Store, t: Tree, k: Key, order: nat, j: nat, l: int, u: int, hi: int, h: nat,
                                       after: Option<PageId>, exact: bool)
    requires t.Nd? && KidsOk(s, t.kids, t.keys, hi, exact) && Distinct(Ids(t)) && j < |t.kids| && t.id in s
    requires Deletable(t.kids[j], order, order / 2, l, u, h, after) && l <= k < u
    ensures var s1 := Replay(s, Del(t.kids[j], k, order).log);
            OthersOk(s1, t, hi, j, exact) && t.id in s1 && s1[t.id] == s[t.id]
  {
    var log := Del(t.kids[j], k, order).log;
    var s1 := Replay(s, log);
    KidsDistinct(t);
    KidAmong(t.kids, j);
    forall id | id in Ids(t) && id !in Ids(t.kids[j]) && id in s ensures id in s1 && s1[id] == s[id] {
      if id in Touched(log) {
        DelTouches(t.kids[j], k, order, order / 2, l, u, h, after, id);
      }
      ReplayTouches(s, log, id);
    }
    SiblingsAll(s, s1, t, hi, exact, j);
  }

  lemma {:induction false} DelId(t: Tree, k: int, order: nat)
    requires order >= 2
    ensures Del(t, k, order).node.id == t.id
  {
  }

  lemma {:induction false} DelReplay(s: Store, t: Tree, k: Key, order: nat, least: nat, lo: int, hi: int, h: nat,
                                     after: Option<PageId>, exact: bool)
    requires Deletable(t, order, least, lo, hi, h, after) && lo <= k < hi
    requires Holds(s, t, hi, exact) && Distinct(Ids(t))
    ensures Holds(Replay(s, Del(t, k, order).log), Del(t, k, order).node, hi, exact)
    decreases t
  {
    if t.Lf? {
      ReplayTwo(s, Del(t, k, order).log[0], Del(t, k, order).log[0]);
    } else {
      var j, d, n := DelStep(t, k, order, least, lo, hi, h, after);
      var l, u := Lower(t.keys, lo, j), Upper(t.keys, hi, j);
      RouteBounds(t.keys, lo, hi, k);
      KidOnly(s, t, hi, j, exact);
      DelReplay(s, t.kids[j], k, order, order / 2, l, u, h - 1, Follower(t.kids, after, j), exact);
      DelSiblings(s, t, k, order, j, l, u, hi, h - 1, Follower(t.kids, after, j), exact);
      DelContents(t.kids[j], k, order, order / 2, l, u, h - 1, Follower(t.kids, after, j));
      DelNodeReplay(s, t, k, order, lo, hi, h, j, d, n, exact);
    }
  }

  lemma {:induction false} KidOnly(s: Store, t: Tree, hi: int, j: nat, exact: bool)
    requires t.Nd? && j < |t.kids| && Holds(s, t, hi, exact) && Distinct(Ids(t))
    ensures Holds(s, t.kids[j], Upper(t.keys, hi, j), exact) && Distinct(Ids(t.kids[j]))
  {
    KidAmong(t.kids, j);
    KidsDistinct(t);
  }

  lemma {:induction false} DelNodeReplay(s: Store, t: Tree, k: Key, order: nat, lo: int, hi: int, h: nat, j: nat,
                                         d: Fixed, n: Tree, exact: bool)
    requires order >= 2 && t.Nd? && j < |t.kids| && j == Route(t.keys, k)
    requires d == Del(t.kids[j], k, order) && n == Nd(t.id, t.keys, t.kids[j := d.node])
    requires PageOk(s, t, hi, exact) && Distinct(Ids(t)) && Ids(d.node) <= Ids(t.kids[j])
    requires var s1 := Replay(s, d.log);
             && OthersOk(s1, t, hi, j, exact) && t.id in s1 && s1[t.id] == s[t.id]
             && Holds(s1, d.node, Upper(t.keys, hi, j), exact)
    requires NumKeys(d.node) >= order / 2 ==> Del(t, k, order) == Fixed(n, false, d.log)
    requires NumKeys(d.node) < order / 2 ==>
               && Deficient(n, j, order, lo, hi, h) && Linked(n) && Mendable(n, j)
               && Del(t, k, order) ==
                    Fixed(Mend(n, j, order).node, Mend(n, j, order).merged, d.log + Mend(n, j, order).log)
    ensures Holds(Replay(s, Del(t, k, order).log), Del(t, k, order).node, hi, exact)
  {
    var s1 := Replay(s, d.log);
    SpliceOne(s1, t, hi, j, d.node, exact);
    DelId(t.kids[j], k, order);
    assert Image(n) == Image(t);
    if NumKeys(d.node) < order / 2 {
      OneReplaced(t, j, d.node);
      ReplayAppend(s, d.log, Mend(n, j, order).log);
      var i, cut := MendIsRepair(n, j, order, lo, hi, h);
      RepairReplay(s1, n, i, cut, i == j, hi, exact);
    }
  }

  /** Replaying the log of a whole deletion rebuilds the new tree, and the last root change names its root. */
  lemma {:induction false} DeleteReplay(s: Store, t: Tree, k: Key, order: nat, h: nat, exact: bool)
    requires Deletable(t, order, if t.Lf? then 0 else 1, 0, KEY_LIMIT, h, None)
    requires Holds(s, t, KEY_LIMIT, exact) && Distinct(Ids(t))
    ensures var d := Del(t, k, order);
            && Holds(Replay(s, CollapseLog(d)), Collapse(d), KEY_LIMIT, exact)
            && ReplayRoot(t.id, CollapseLog(d)) == Collapse(d).id
  {
    var d := Del(t, k, order);
    DelReplay(s, t, k, order, if t.Lf? then 0 else 1, 0, KEY_LIMIT, h, None, exact);
    DelId(t, k, order);
    DelNoMeta(t, k, order, t.id);
    if Collapse(d) != d.node {
      assert CollapseLog(d)[..|d.log|] == d.log;
      assert Replay(s, CollapseLog(d)) == Replay(s, d.log);
      assert d.node.kids[0] == Collapse(d);
    }
  }

  lemma {:induction false} DelNoMeta(t: Tree, k: int, order: nat, root: PageId)
    requires order >= 2
    ensures forall c :: c in Del(t, k, order).log ==> c.PageWrite?
    ensures ReplayRoot(root, Del(t, k, order).log) == root
    decreases t
  {
    if t.Nd? && |t.kids| == |t.keys| + 1 {
      DelNoMeta(t.kids[Route(t.keys, k)], k, order, root);
    }
    NoMeta(root, Del(t, k, order).log);
  }

  // ---- Point lookups over pages ----------------------------------------------

  /** Descend from a page to a leaf and look the key up there, as a tree opened on the store would. */
  function Lookup(s: Store, id: PageId, k: int, h: nat): Option<Bytes>
    decreases h
  {
    if id !in s then None
    else
      match s[id]
      case Leaf(entries, _) => Get(entries, k)
      case Index(keys, children) =>
        if h == 0 || Route(keys, k) >= |children| then None
        else Lookup(s, children[Route(keys, k)], k, h - 1)
  }

  lemma {:induction false} GetStale(es: seq<Entry>, fs: seq<Entry>, k: int, hi: int)
    requires fs <= es && k < hi && forall i :: |fs| <= i < |es| ==> hi <= es[i].key
    ensures Get(es, k) == Get(fs, k)
  {
    assert es == fs + es[|fs|..];
    GetAppend(fs, es[|fs|..], k);
    AbsentKey(es[|fs|..], k);
  }

  lemma RouteStale(ks: seq<Key>, ls: seq<Key>, k: int, hi: int)
    requires ls <= ks && |ls| < |ks| && hi <= ks[|ls|] && k < hi
    ensures Route(ks, k) == Route(ls, k)
  {
    var i := Route(ls, k);
    var q := Route(ks, k);
    assert i < |ls| ==> ks[i] == ls[i];
    assert q < |ls| ==> ks[q] == ls[q];
  }

  lemma GetMiddle(a: seq<Entry>, m: seq<Entry>, b: seq<Entry>, k: int, lo: int, l: int, u: int, hi: int)
    requires Within(a, lo, l) && l <= k < u && Within(b, u, hi)
    ensures Get(a + m + b, k) == Get(m, k)
  {
    GetAppend(a + m, b, k);
    GetAppend(a, m, k);
    AbsentKey(a, k);
    AbsentKey(b, k);
  }

  /** A lookup by page descent finds exactly what the tree contains, even over stale pages: routing never reaches the
      stale part. */
  lemma {:induction false} LookupCorrect(s: Store, t: Tree, k: int, order: nat, least: nat, lo: int, hi: int, h: nat,
      exact: bool)
    requires Shape(t, order, least, lo, hi, h) && Holds(s, t, hi, exact) && lo <= k < hi
    ensures Lookup(s, t.id, k, h) == Get(Contents(t), k)
    decreases t
  {
    match t
    case Lf(_, entries, _) =>
      if s[t.id] != Image(t) {
        GetStale(s[t.id].entries, entries, k, hi);
      }
    case Nd(_, keys, kids) =>
      var j := Route(keys, k);
      DescendOne(s, t, k, hi, h, exact);
      LookupCorrect(s, kids[j], k, order, order / 2, Lower(keys, lo, j), Upper(keys, hi, j), h - 1, exact);
      ChildHasAnswer(t, k, order, lo, hi, h);
  }

  /** One step of the descent goes to the child that routing on the live node would choose. */
  lemma {:induction false} DescendOne(s: Store, t: Tree, k: int, hi: int, h: nat, exact: bool)
    requires t.Nd? && h > 0 && Holds(s, t, hi, exact) && k < hi
    ensures Lookup(s, t.id, k, h) == Lookup(s, t.kids[Route(t.keys, k)].id, k, h - 1)
  {
    if s[t.id] != Image(t) {
      RouteStale(s[t.id].keys, t.keys, k, hi);
    }
    var j := Route(t.keys, k);
    assert s[t.id].children[j] == KidIds(t.kids)[j] == t.kids[j].id;
  }

  /** The child a key is routed to decides the answer for the whole node. */
  lemma {:induction false} ChildHasAnswer(t: Tree, k: int, order: nat, lo: int, hi: int, h: nat)
    requires Formed(t, order, lo, hi, h) && lo <= k < hi
    ensures Get(Contents(t), k) == Get(Contents(t.kids[Route(t.keys, k)]), k)
  {
    var j := Route(t.keys, k);
    var l, u := Lower(t.keys, lo, j), Upper(t.keys, hi, j);
    Around(t.kids, j);
    LeftBelow(t.kids, order, t.keys, lo, hi, h - 1, j);
    RightAbove(t.kids, order, t.keys, lo, hi, h - 1, j);
    GetMiddle(ContentsOf(t.kids[..j]), Contents(t.kids[j]), ContentsOf(t.kids[j + 1..]), k, lo, l, u, hi);
  }
}
