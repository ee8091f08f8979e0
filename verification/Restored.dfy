/** Which pages replay restores exactly: all but those cut as the left half of a split and not logged again since. */
module Restored {
  import opened Entries
  import opened Tree
  import opened Log
  import opened TreeInsert
  import opened TreeDelete
  import opened TreeRecovery
  import opened TreeDeleteRecovery
  import opened TreeLive
  import opened TreeSteps
  import opened TreeClimb
  import opened CrashReplay

  // ---- The page of an id in a tree -----------------------------------------------------------

  function PageOf(t: Tree, id: PageId): Option<Page> {
    if t.id == id then Some(Image(t))
    else if t.Nd? then PageAmong(t.kids, id)
    else None
  }

  function PageAmong(ts: seq<Tree>, id: PageId): Option<Page> {
    if ts == [] then None
    else
      var p := PageOf(ts[0], id);
      if p.Some? then p else PageAmong(ts[1..], id)
  }

  lemma {:induction false} PageIds(t: Tree, id: PageId)
    ensures PageOf(t, id).Some? <==> id in Ids(t)
    decreases t, 1
  {
    if t.Nd? {
      AmongIds(t.kids, id);
    }
  }

  lemma {:induction false} AmongIds(ts: seq<Tree>, id: PageId)
    ensures PageAmong(ts, id).Some? <==> id in IdsOf(ts)
    decreases ts, 0
  {
    if ts != [] {
      PageIds(ts[0], id);
      AmongIds(ts[1..], id);
    }
  }

  lemma {:induction false} AmongAppend(a: seq<Tree>, b: seq<Tree>, id: PageId)
    ensures PageAmong(a + b, id) == if PageAmong(a, id).Some? then PageAmong(a, id) else PageAmong(b, id)
  {
    if a == [] {
      assert a + b == b;
    } else {
      assert (a + b)[1..] == a[1..] + b;
      AmongAppend(a[1..], b, id);
    }
  }

  lemma AmongOne(t: Tree, id: PageId)
    ensures PageAmong([t], id) == PageOf(t, id)
  {
    assert [t][1..] == [];
  }

  lemma {:induction false} AmongTwo(a: Tree, b: Tree, id: PageId)
    ensures PageAmong([a, b], id) == if PageOf(a, id).Some? then PageOf(a, id) else PageOf(b, id)
  {
    assert [a, b] == [a] + [b];
    AmongAppend([a], [b], id);
    AmongOne(a, id);
    AmongOne(b, id);
  }

  /** A store that has the tree exactly has the page of each of its ids. */
  lemma {:induction false} HeldPage(s: Store, t: Tree, hi: int, id: PageId)
    requires Holds(s, t, hi, true) && id in Ids(t)
    ensures id in s && PageOf(t, id) == Some(s[id])
    decreases t, 1
  {
    PageIds(t, id);
    if t.id != id {
      HeldAmong(s, t.kids, t.keys, hi, 0, id);
      assert t.kids[0..] == t.kids;
    }
  }

  lemma {:induction false} HeldAmong(s: Store, ts: seq<Tree>, keys: seq<Key>, hi: int, i: nat, id: PageId)
    requires i <= |ts| == |keys| + 1 && PageAmong(ts[i..], id).Some?
    requires forall q {:trigger ts[q]} :: 0 <= q < |ts| ==> Holds(s, ts[q], Upper(keys, hi, q), true)
    ensures id in s && PageAmong(ts[i..], id) == Some(s[id])
    decreases ts, 0, |ts| - i
  {
    assert ts[i..] != [];
    assert ts[i..][0] == ts[i] && ts[i..][1..] == ts[i + 1..];
    PageIds(ts[i], id);
    if PageOf(ts[i], id).Some? {
      HeldPage(s, ts[i], Upper(keys, hi, i), id);
    } else {
      HeldAmong(s, ts, keys, hi, i + 1, id);
    }
  }

  /** Conversely, a store with the page of each id has the tree exactly. */
  lemma {:induction false} PagesHold(s: Store, t: Tree, order: nat, least: nat, lo: int, hi: int, h: nat)
    requires Shape(t, order, least, lo, hi, h) && Distinct(Ids(t))
    requires forall id :: id in Ids(t) ==> id in s && PageOf(t, id) == Some(s[id])
    ensures Holds(s, t, hi, true)
    decreases t
  {
    assert t.id in Ids(t);
    if t.Nd? {
      KidsDistinct(t);
      forall i {:trigger t.kids[i]} | 0 <= i < |t.kids| ensures Holds(s, t.kids[i], Upper(t.keys, hi, i), true) {
        forall id | id in Ids(t.kids[i]) ensures id in s && PageOf(t.kids[i], id) == Some(s[id]) {
          KidPage(t, i, id);
        }
        KidAmong(t.kids, i);
        PagesHold(s, t.kids[i], order, order / 2, Lower(t.keys, lo, i), Upper(t.keys, hi, i), h - 1);
      }
    }
  }

  /** A page of child i is that page of the node. */
  lemma {:induction false} KidPage(t: Tree, i: nat, id: PageId)
    requires t.Nd? && Distinct(Ids(t)) && i < |t.kids| && id in Ids(t.kids[i])
    ensures id in Ids(t) && PageOf(t, id) == PageOf(t.kids[i], id)
  {
    KidsDistinct(t);
    KidAmong(t.kids, i);
    AmongParts(t.kids, i, id);
    PageIds(t.kids[i], id);
    AmongIds(t.kids[..i], id);
    Around(t.kids, i);
  }

  lemma {:induction false} AmongParts(ts: seq<Tree>, i: nat, id: PageId)
    requires i < |ts|
    ensures PageAmong(ts, id) == if PageAmong(ts[..i], id).Some? then PageAmong(ts[..i], id)
                                 else if PageOf(ts[i], id).Some? then PageOf(ts[i], id) else PageAmong(ts[i + 1..], id)
  {
    assert ts == ts[..i] + ([ts[i]] + ts[i + 1..]);
    AmongAppend(ts[..i], [ts[i]] + ts[i + 1..], id);
    AmongAppend([ts[i]], ts[i + 1..], id);
    AmongOne(ts[i], id);
  }

  // ---- Which pages an insertion cuts after it has logged them --------------------------------------

  /** The pages whose upper half moves to a new page. */
  function Cuts(t: Tree, k: Key, v: Bytes, order: nat, next: PageId): set<PageId>
    decreases t
  {
    if t.Lf? then if InsLeaf(t, k, v, order, next).split.Some? then {t.id} else {}
    else if |t.kids| != |t.keys| + 1 then {}
    else
      var j := Route(t.keys, k);
      var below := Cuts(t.kids[j], k, v, order, next);
      if Ins(t, k, v, order, next).split.Some? then below + {t.id} else below
  }

  /** What replay makes of a page after an operation: a page of the result that was logged is the live one unless it was
      cut since, and then a leaf has the link it had before; one that was not logged has not changed. */
  ghost predicate Fate(s: Store, log: seq<Change>, cuts: set<PageId>, id: PageId, before: Option<Page>,
      after: Option<Page>) {
    && after.Some?
    && (id in cuts ==> id in Touched(log))
    && (if id in Touched(log) then id in Replay(s, log) && (Some(Replay(s, log)[id]) == after <==> id !in cuts)
        else before == after)
    && (id in cuts && after.value.Leaf? ==>
          && before.Some? && before.value.Leaf? && Replay(s, log)[id].Leaf?
          && Replay(s, log)[id].next == before.value.next)
  }

  lemma {:induction false} LeafFate(s: Store, t: Tree, k: Key, v: Bytes, order: nat, next: PageId, id: PageId)
    requires t.Lf? && t.id < next
    requires id in IdsOf(Both(InsLeaf(t, k, v, order, next)))
    ensures var g := InsLeaf(t, k, v, order, next);
            Fate(s, g.log, if g.split.Some? then {t.id} else {}, id, PageOf(t, id), PageAmong(Both(g), id))
  {
    var g := InsLeaf(t, k, v, order, next);
    AmongIds(Both(g), id);
    assert g.log[0] in g.log && g.log[|g.log| - 1] in g.log;
    ReplayTwo(s, g.log[0], g.log[|g.log| - 1]);
    if g.split.Some? {
      AmongTwo(g.left, g.split.value.right, id);
      assert g.log == [g.log[0], g.log[1]];
    } else {
      AmongOne(g.left, id);
      assert g.log == [g.log[0]];
      ReplayOne(s, g.log[0]);
    }
  }

  lemma ReplayOne(s: Store, c: Change)
    ensures Replay(s, [c]) == Apply(s, c)
  {
    assert [c][..0] == [];
  }

  /** The node's own page, once the outcome below is in its log. */
  lemma {:induction false} SettleOwn(s: Store, n: Tree, order: nat, next: PageId, log: seq<Change>)
    requires n.Nd? && |n.kids| == |n.keys| + 1 && next !in Ids(n) && n.id != next
    requires n.id in Replay(s, log) && Replay(s, log)[n.id] == Image(n)
    ensures var r := Settle(n, order, next, log);
            && n.id in Replay(s, r.log) && Replay(s, r.log)[n.id] == Image(n)
            && PageAmong(Both(r), n.id) == Some(Image(r.left)) && (Image(n) == Image(r.left) <==> r.split.None?)
  {
    var r := Settle(n, order, next, log);
    SettleKids(n, order, next, log);
    if r.split.Some? {
      AmongTwo(r.left, r.split.value.right, n.id);
      ReplayAppend(s, log, [Write(r.split.value.right)]);
      ReplayOne(Replay(s, log), Write(r.split.value.right));
      assert |r.left.kids| < |n.kids|;
    } else {
      AmongOne(r.left, n.id);
    }
  }

  /** Pages below a node that settles are where they were, and so is what replay makes of them. */
  lemma {:induction false} SettleBelow(s: Store, n: Tree, order: nat, next: PageId, log: seq<Change>, id: PageId)
    requires n.Nd? && |n.kids| == |n.keys| + 1 && next !in Ids(n) && id in IdsOf(n.kids) && n.id !in IdsOf(n.kids)
    ensures var r := Settle(n, order, next, log);
            && id != n.id && id != next
            && PageAmong(Both(r), id) == PageAmong(n.kids, id)
            && (id in Touched(r.log) <==> id in Touched(log))
            && (id in Replay(s, log) ==> id in Replay(s, r.log) && Replay(s, r.log)[id] == Replay(s, log)[id])
  {
    var r := Settle(n, order, next, log);
    SettleKids(n, order, next, log);
    if r.split.Some? {
      var right := r.split.value.right;
      AmongTwo(r.left, right, id);
      AmongAppend(r.left.kids, right.kids, id);
      ReplayAppend(s, log, [Write(right)]);
      ReplayOne(Replay(s, log), Write(right));
      TouchedAppend(log, [Write(right)]);
    } else {
      AmongOne(n, id);
    }
  }

  /** The new page of a node that splits. */
  lemma {:induction false} SettleNew(s: Store, n: Tree, order: nat, next: PageId, log: seq<Change>)
    requires n.Nd? && |n.kids| == |n.keys| + 1 && next !in Ids(n) && Settle(n, order, next, log).split.Some?
    ensures var r := Settle(n, order, next, log);
            && next in Touched(r.log) && next in Replay(s, r.log)
            && PageAmong(Both(r), next) == Some(Replay(s, r.log)[next])
  {
    var r := Settle(n, order, next, log);
    var right := r.split.value.right;
    SettleKids(n, order, next, log);
    AmongTwo(r.left, right, next);
    AmongIds(r.left.kids, next);
    IdsAppend(r.left.kids, right.kids);
    ReplayAppend(s, log, [Write(right)]);
    ReplayOne(Replay(s, log), Write(right));
    TouchedAppend(log, [Write(right)]);
    assert Write(right) in [Write(right)];
  }

  lemma {:induction false} CutsInside(t: Tree, k: Key, v: Bytes, order: nat, next: PageId)
    ensures forall id :: id in Cuts(t, k, v, order, next) ==> id in Ids(t)
    decreases t
  {
    if t.Nd? && |t.kids| == |t.keys| + 1 {
      var j := Route(t.keys, k);
      CutsInside(t.kids[j], k, v, order, next);
      KidAmong(t.kids, j);
    }
  }

  /** What the fate of a page needs to know of the level below: the child's pages after the insertion, and the rest. */
  ghost predicate Level(t: Tree, j: nat, g: Grown, n: Tree, next: PageId, order: nat) {
    && t.Nd? && n.Nd? && j < |t.kids| && |t.kids| == |t.keys| + 1 && |n.kids| == |n.keys| + 1 && n.id == t.id
    && n.kids == t.kids[..j] + Both(g) + t.kids[j + 1..]
    && Fresh(t, next) && next <= g.next
    && IdsOf(Both(g)) == Ids(t.kids[j]) + Span(next, g.next)
    && g.next !in Ids(n) && n.id !in IdsOf(n.kids) && Distinct(Ids(n))
    && TouchesOnly(g, t.kids[j], next)
    && (g.split.None? ==> Image(n) == Image(t) && |n.keys| <= order)
  }

  /** An insertion below a child logs pages of the child and new ones. */
  ghost predicate TouchesOnly(g: Grown, c: Tree, next: PageId) {
    forall id {:trigger id in Touched(g.log)} :: id in Touched(g.log) ==> id in Ids(c) || next <= id < g.next
  }

  lemma {:induction false} InsTouchesOnly(t: Tree, k: Key, v: Bytes, order: nat, next: PageId, least: nat, lo: int,
      hi: int, h: nat)
    requires order >= 2 && Shape(t, order, least, lo, hi, h) && lo <= k < hi
    ensures TouchesOnly(Ins(t, k, v, order, next), t, next)
  {
    var g := Ins(t, k, v, order, next);
    forall id | id in Touched(g.log) ensures id in Ids(t) || next <= id < g.next {
      InsTouches(t, k, v, order, next, least, lo, hi, h, id);
    }
  }

  ghost predicate Fresh(t: Tree, next: PageId) {
    Distinct(Ids(t)) && forall id :: id in Ids(t) ==> id < next
  }

  lemma {:induction false} LevelHere(t: Tree, k: Key, v: Bytes, order: nat, next: PageId, least: nat, lo: int, hi: int,
      h: nat)
    returns (j: nat, g: Grown, n: Tree)
    requires order >= 2 && t.Nd? && Shape(t, order, least, lo, hi, h) && lo <= k < hi
    ensures |t.kids| == |t.keys| + 1 && j == Route(t.keys, k) && g == Ins(t.kids[j], k, v, order, next)
            && n == Joined(t, j, g)
    ensures n.Nd? && |n.kids| == |n.keys| + 1 && (Fresh(t, next) ==> Level(t, j, g, n, next, order))
    ensures Lower(t.keys, lo, j) <= k < Upper(t.keys, hi, j) && h > 0
    ensures Shape(t.kids[j], order, order / 2, Lower(t.keys, lo, j), Upper(t.keys, hi, j), h - 1)
    ensures Ins(t, k, v, order, next) == Settle(n, order, g.next, if g.split.None? then g.log else g.log + [Write(n)])
  {
    j, g, n := InsStep(t, k, v, order, next, least, lo, hi, h);
    var l, u := Lower(t.keys, lo, j), Upper(t.keys, hi, j);
    InsIds(t.kids[j], k, v, order, next, order / 2, l, u, h - 1);
    InsTouchesOnly(t.kids[j], k, v, order, next, order / 2, l, u, h - 1);
    InsNoMeta(t.kids[j], k, v, order, next, 0);
    if Fresh(t, next) {
      LevelFresh(t, j, g, n, next, order);
    }
  }

  lemma {:induction false} LevelFresh(t: Tree, j: nat, g: Grown, n: Tree, next: PageId, order: nat)
    requires Fresh(t, next) && t.Nd? && n.Nd? && j < |t.kids| && |t.kids| == |t.keys| + 1 && |n.kids| == |n.keys| + 1
             && n.id == t.id
    requires n.kids == t.kids[..j] + Both(g) + t.kids[j + 1..] && next <= g.next
    requires IdsOf(Both(g)) == Ids(t.kids[j]) + Span(next, g.next) && TouchesOnly(g, t.kids[j], next)
    requires g.split.None? ==>
               n == Nd(t.id, t.keys, t.kids[j := g.left]) && g.left.id == t.kids[j].id
               && |n.keys| <= order
    ensures Level(t, j, g, n, next, order)
  {
    JoinedFresh(t, j, g, n, next);
  }

  /** The node's own page. */
  lemma {:induction false} OwnFate(s: Store, t: Tree, j: nat, g: Grown, n: Tree, next: PageId, order: nat,
      below: set<PageId>)
    requires Level(t, j, g, n, next, order) && t.id !in below
    ensures var r := Settle(n, order, g.next, if g.split.None? then g.log else g.log + [Write(n)]);
            Fate(s, r.log, if r.split.Some? then below + {t.id}
              else below, t.id, PageOf(t, t.id), PageAmong(Both(r), t.id))
  {
    KidsDistinct(t);
    KidAmong(t.kids, j);
    assert t.id in Ids(t) && t.id !in Ids(t.kids[j]);
    if g.split.None? {
      AmongOne(n, n.id);
    } else {
      var log := g.log + [Write(n)];
      ReplayAppend(s, g.log, [Write(n)]);
      ReplayOne(Replay(s, g.log), Write(n));
      TouchedAppend(g.log, [Write(n)]);
      assert Write(n) in [Write(n)];
      assert n.id in Ids(n);
      SettleOwn(s, n, order, g.next, log);
      SettleTouched(n, order, g.next, log);
    }
  }

  lemma SettleTouched(n: Tree, order: nat, next: PageId, log: seq<Change>)
    requires n.Nd? && |n.kids| == |n.keys| + 1
    ensures Touched(log) <= Touched(Settle(n, order, next, log).log)
  {
  }

  /** A page below the node. */
  lemma {:induction false} BelowFate(s: Store, t: Tree, j: nat, g: Grown, n: Tree, next: PageId, order: nat,
      below: set<PageId>, id: PageId)
    requires Level(t, j, g, n, next, order) && id in IdsOf(n.kids) && (forall c :: c in below ==> c in Ids(t.kids[j]))
    requires id in IdsOf(Both(g)) ==> Fate(s, g.log, below, id, PageOf(t.kids[j], id), PageAmong(Both(g), id))
    ensures var r := Settle(n, order, g.next, if g.split.None? then g.log else g.log + [Write(n)]);
            Fate(s, r.log, if r.split.Some? then below + {t.id} else below, id, PageOf(t, id), PageAmong(Both(r), id))
  {
    var log := if g.split.None? then g.log else g.log + [Write(n)];
    SettleBelow(s, n, order, g.next, log, id);
    ParentAside(s, g, n, id);
    KidsPage(t, j, g, n, next, order, id);
    PageIds(t.kids[j], id);
    AmongIds(n.kids, id);
  }

  /** Writing the node itself does not change what replay makes of the pages below. */
  lemma {:induction false} ParentAside(s: Store, g: Grown, n: Tree, id: PageId)
    requires id != n.id
    ensures var log := if g.split.None? then g.log else g.log + [Write(n)];
            && (id in Touched(log) <==> id in Touched(g.log))
            && (id in Replay(s, g.log) ==> id in Replay(s, log) && Replay(s, log)[id] == Replay(s, g.log)[id])
  {
    ReplayAppend(s, g.log, [Write(n)]);
    ReplayOne(Replay(s, g.log), Write(n));
    TouchedAppend(g.log, [Write(n)]);
  }

  /** A page below the node is one of the child's, or one of a sibling's and then unchanged. */
  lemma {:induction false} KidsPage(t: Tree, j: nat, g: Grown, n: Tree, next: PageId, order: nat, id: PageId)
    requires Level(t, j, g, n, next, order) && id in IdsOf(n.kids)
    ensures if id in IdsOf(Both(g)) then
              && PageAmong(n.kids, id) == PageAmong(Both(g), id)
              && (id in Ids(t.kids[j]) ==> PageOf(t, id) == PageOf(t.kids[j], id))
              && (id in Ids(t.kids[j]) || id !in Ids(t))
            else
              && id != t.id && PageAmong(n.kids, id) == PageOf(t, id) && id !in Ids(t.kids[j]) && id < next
  {
    var a, b := t.kids[..j], t.kids[j + 1..];
    AmongAppend(a + Both(g), b, id);
    AmongAppend(a, Both(g), id);
    AmongIds(a, id);
    AmongIds(Both(g), id);
    IdsAppend(a + Both(g), b);
    IdsAppend(a, Both(g));
    Around(t.kids, j);
    AmongParts(t.kids, j, id);
    PageIds(t.kids[j], id);
    assert Ids(n)[id] <= 1;
    if id in IdsOf(Both(g)) && id in Ids(t.kids[j]) {
      KidPage(t, j, id);
    }
  }

  /** The fate of every page of an insertion. */
  lemma {:induction false} InsFate(s: Store, t: Tree, k: Key, v: Bytes, order: nat, next: PageId, least: nat, lo: int,
      hi: int, h: nat, id: PageId)
    requires order >= 2 && Shape(t, order, least, lo, hi, h) && lo <= k < hi
    requires Distinct(Ids(t)) && (forall id :: id in Ids(t) ==> id < next)
             && id in IdsOf(Both(Ins(t, k, v, order, next)))
    ensures var g := Ins(t, k, v, order, next);
            Fate(s, g.log, Cuts(t, k, v, order, next), id, PageOf(t, id), PageAmong(Both(g), id))
    decreases t
  {
    if t.Lf? {
      LeafFate(s, t, k, v, order, next, id);
    } else {
      var j, g, n := LevelHere(t, k, v, order, next, least, lo, hi, h);
      var below := Cuts(t.kids[j], k, v, order, next);
      CutsInside(t.kids[j], k, v, order, next);
      ChildIds(t, j, next);
      if id in IdsOf(Both(g)) {
        InsFate(s, t.kids[j], k, v, order, next, order / 2, Lower(t.keys, lo, j), Upper(t.keys, hi, j), h - 1, id);
      }
      NodeFate(s, t, j, g, n, next, order, below, id);
    }
  }

  lemma {:induction false} ChildIds(t: Tree, j: nat, next: PageId)
    requires t.Nd? && j < |t.kids| && Fresh(t, next)
    ensures Fresh(t.kids[j], next) && t.id !in Ids(t.kids[j])
  {
    KidsDistinct(t);
    KidAmong(t.kids, j);
    assert Ids(t.kids[j]) <= Ids(t);
  }

  lemma {:induction false} NodeFate(s: Store, t: Tree, j: nat, g: Grown, n: Tree, next: PageId, order: nat,
      below: set<PageId>, id: PageId)
    requires Level(t, j, g, n, next, order) && forall c :: c in below ==> c in Ids(t.kids[j])
    requires id in IdsOf(Both(g)) ==> Fate(s, g.log, below, id, PageOf(t.kids[j], id), PageAmong(Both(g), id))
    requires id in IdsOf(Both(Settle(n, order, g.next, if g.split.None? then g.log else g.log + [Write(n)])))
    ensures var r := Settle(n, order, g.next, if g.split.None? then g.log else g.log + [Write(n)]);
            Fate(s, r.log, if r.split.Some? then below + {t.id} else below, id, PageOf(t, id), PageAmong(Both(r), id))
  {
    if id == t.id {
      ChildIds(t, j, next);
      OwnFate(s, t, j, g, n, next, order, below);
    } else if id in IdsOf(n.kids) {
      BelowFate(s, t, j, g, n, next, order, below, id);
    } else {
      NewFate(s, t, j, g, n, next, order, below, id);
    }
  }

  lemma {:induction false} NewFate(s: Store, t: Tree, j: nat, g: Grown, n: Tree, next: PageId, order: nat,
      below: set<PageId>, id: PageId)
    requires Level(t, j, g, n, next, order) && id !in Ids(n) && forall c :: c in below ==> c in Ids(t.kids[j])
    requires id in IdsOf(Both(Settle(n, order, g.next, if g.split.None? then g.log else g.log + [Write(n)])))
    ensures var r := Settle(n, order, g.next, if g.split.None? then g.log else g.log + [Write(n)]);
            Fate(s, r.log, if r.split.Some? then below + {t.id} else below, id, PageOf(t, id), PageAmong(Both(r), id))
  {
    var log := if g.split.None? then g.log else g.log + [Write(n)];
    SettleIds(n, order, g.next, log);
    SettleKids(n, order, g.next, log);
    var r := Settle(n, order, g.next, log);
    assert r.split.Some? && id == g.next;
    SettleNew(s, n, order, g.next, log);
    KidAmong(t.kids, j);
    assert Ids(t.kids[j]) <= Ids(t);
  }

  // ---- Runs ------------------------------------------------------------------------------------

  function CutsOf(db: Db, op: Op, order: nat): set<PageId>
    requires order >= 2
  {
    match op
    case Insert(k, v) => Cuts(db.tree, k, v, order, db.next)
    case Delete(_) => {}
  }

  /** The pages that were cut as the left half of a split and have not been logged since. */
  function Stale(db: Db, ops: seq<Op>, order: nat): set<PageId>
    requires order >= 2
    decreases |ops|
  {
    if ops == [] then {}
    else
      var n := |ops| - 1;
      var mid := DoAll(db, ops[..n], order);
      (Stale(db, ops[..n], order) - Touched(DoLog(mid, ops[n], order))) + CutsOf(mid, ops[n], order)
  }

  /** A root that has grown is logged, and is not the page of any half. */
  lemma {:induction false} GrowFate(s: Store, g: Grown, cuts: set<PageId>, t: Tree, id: PageId)
    requires Distinct(Ids(Grow(g))) && id in Ids(Grow(g)) && (g.split.Some? ==> g.next !in cuts)
    requires id in IdsOf(Both(g)) ==> Fate(s, g.log, cuts, id, PageOf(t, id), PageAmong(Both(g), id))
    ensures Fate(s, GrowLog(g), cuts, id, PageOf(t, id), PageOf(Grow(g), id))
  {
    var r := Grow(g);
    if g.split.None? {
      AmongOne(g.left, id);
      Single(g.left);
    } else {
      var tail := [Write(r), MetaUpdate(r.id)];
      KidsDistinct(r);
      ReplayAppend(s, g.log, tail);
      ReplayTwo(Replay(s, g.log), tail[0], tail[1]);
      TouchedAppend(g.log, tail);
      assert tail[0] in tail && r.id in Touched(tail);
      PageIds(r, id);
    }
  }

  lemma {:induction false} InsertFate(s: Store, db: Db, k: Key, v: Bytes, order: nat, id: PageId)
    requires Healthy(db, order) && id in Ids(Do(db, Insert(k, v), order).tree)
    ensures Fate(s, DoLog(db, Insert(k, v), order), Cuts(db.tree, k, v, order, db.next), id, PageOf(db.tree, id),
                 PageOf(Do(db, Insert(k, v), order).tree, id))
  {
    var t, least := db.tree, RootLeast(db.tree);
    var g := Ins(t, k, v, order, db.next);
    GrownSound(t, k, v, order, db.next, db.height);
    CutsInside(t, k, v, order, db.next);
    InsIds(t, k, v, order, db.next, least, 0, KEY_LIMIT, db.height);
    if id in IdsOf(Both(g)) {
      InsFate(s, t, k, v, order, db.next, least, 0, KEY_LIMIT, db.height, id);
    }
    GrowFate(s, g, Cuts(t, k, v, order, db.next), t, id);
  }

  /** A store with exactly the pages of a tree. */
  function StoreOf(t: Tree): Store {
    map id | id in Ids(t) && PageOf(t, id).Some? :: PageOf(t, id).value
  }

  lemma {:induction false} StoreHolds(t: Tree, order: nat, least: nat, lo: int, hi: int, h: nat)
    requires Shape(t, order, least, lo, hi, h) && Distinct(Ids(t))
    ensures Holds(StoreOf(t), t, hi, true)
  {
    forall id | id in Ids(t) ensures id in StoreOf(t) && PageOf(t, id) == Some(StoreOf(t)[id]) {
      PageIds(t, id);
    }
    PagesHold(StoreOf(t), t, order, least, lo, hi, h);
  }

  /** A deletion logs every page it changes as it leaves it. */
  lemma {:induction false} DeleteFate(s: Store, db: Db, k: Key, order: nat, id: PageId)
    requires Healthy(db, order) && id in Ids(Do(db, Delete(k), order).tree)
    ensures Fate(s, DoLog(db, Delete(k), order), {}, id, PageOf(db.tree, id), PageOf(Do(db, Delete(k), order).tree, id))
  {
    var t, log, s0 := db.tree, LogAfter(db.tree, k, order), StoreOf(db.tree);
    StoreHolds(t, order, RootLeast(t), 0, KEY_LIMIT, db.height);
    PageIds(Do(db, Delete(k), order).tree, id);
    if HasKey(t, k) {
      DeleteReplay(s0, t, k, order, db.height, true);
      DeleteSound(t, k, order, db.height);
      HeldPage(Replay(s0, log), TreeAfter(t, k, order), KEY_LIMIT, id);
      HeldPage(s0, t, KEY_LIMIT, id);
      ReplayTouches(s0, log, id);
      ReplayTouches(s, log, id);
      if id in Touched(log) {
        ReplayAgrees(s0, s, log, id);
      }
    }
  }

  lemma {:induction false} OpFate(s: Store, db: Db, op: Op, order: nat, id: PageId)
    requires Healthy(db, order) && id in Ids(Do(db, op, order).tree)
    ensures Fate(s, DoLog(db, op, order), CutsOf(db, op, order), id, PageOf(db.tree, id),
            PageOf(Do(db, op, order).tree, id))
  {
    match op
    case Insert(k, v) => InsertFate(s, db, k, v, order, id);
    case Delete(k) => DeleteFate(s, db, k, order, id);
  }

  /** After any run, replay restores a page of the tree exactly if and only if it has been logged since it was last
      cut. */
  lemma {:induction false} PageRestored(base: Store, db: Db, ops: seq<Op>, order: nat, id: PageId)
    requires Healthy(db, order) && Holds(base, db.tree, KEY_LIMIT, true) && id in Ids(DoAll(db, ops, order).tree)
    ensures var s := Replay(base, LogAll(db, ops, order));
            id in s && (PageOf(DoAll(db, ops, order).tree, id) == Some(s[id]) <==> id !in Stale(db, ops, order))
    decreases |ops|
  {
    if ops == [] {
      HeldPage(base, db.tree, KEY_LIMIT, id);
    } else {
      var n := |ops| - 1;
      var mid, log := DoAll(db, ops[..n], order), LogAll(db, ops[..n], order);
      HealthyRun(db, ops[..n], order);
      OpFate(Replay(base, log), mid, ops[n], order, id);
      PageIds(mid.tree, id);
      ReplayAppend(base, log, DoLog(mid, ops[n], order));
      ReplayTouches(Replay(base, log), DoLog(mid, ops[n], order), id);
      if id !in Touched(DoLog(mid, ops[n], order)) {
        PageRestored(base, db, ops[..n], order, id);
      }
    }
  }

  /** After any run, replay restores the whole tree exactly if and only if no page of it has been cut and not logged
      since. */
  lemma {:induction false} ImagesRestored(base: Store, db: Db, ops: seq<Op>, order: nat)
    requires Healthy(db, order) && Holds(base, db.tree, KEY_LIMIT, true)
    ensures var end := DoAll(db, ops, order).tree;
            Holds(Replay(base, LogAll(db, ops, order)), end, KEY_LIMIT, true) <==> forall id :: id in Ids(end) ==>
              id !in Stale(db, ops, order)
  {
    var s, end, stale := Replay(base, LogAll(db, ops, order)), DoAll(db, ops, order), Stale(db, ops, order);
    HealthyRun(db, ops, order);
    forall id | id in Ids(end.tree) ensures id in s && (PageOf(end.tree, id) == Some(s[id]) <==> id !in stale) {
      PageRestored(base, db, ops, order, id);
    }
    if Holds(s, end.tree, KEY_LIMIT, true) {
      forall id | id in Ids(end.tree) ensures id !in stale {
        HeldPage(s, end.tree, KEY_LIMIT, id);
      }
    }
    if forall id :: id in Ids(end.tree) ==> id !in stale {
      PagesHold(s, end.tree, order, RootLeast(end.tree), 0, KEY_LIMIT, end.height);
    }
  }

  /** Some operation of the run cut the page, and none after it logs it. */
  ghost predicate CutLast(db: Db, ops: seq<Op>, order: nat, id: PageId, i: nat)
    requires order >= 2 && i < |ops|
  {
    && id in CutsOf(DoAll(db, ops[..i], order), ops[i], order)
    && id !in Touched(LogAll(DoAll(db, ops[..i + 1], order), ops[i + 1..], order))
  }

  ghost predicate EverCut(db: Db, ops: seq<Op>, order: nat, id: PageId)
    requires order >= 2
  {
    exists i :: 0 <= i < |ops| && CutLast(db, ops, order, id, i)
  }

  /** That is what it means for a page to be stale. */
  lemma {:induction false} StaleMeans(db: Db, ops: seq<Op>, order: nat, id: PageId)
    requires order >= 2
    ensures id in Stale(db, ops, order) <==> EverCut(db, ops, order, id)
    decreases |ops|
  {
    if ops != [] {
      StaleMeans(db, ops[..|ops| - 1], order, id);
      CutSnoc(db, ops, order, id);
    }
  }

  lemma {:induction false} CutSnoc(db: Db, ops: seq<Op>, order: nat, id: PageId)
    requires order >= 2 && ops != []
    ensures var n := |ops| - 1;
            var mid := DoAll(db, ops[..n], order);
            EverCut(db, ops, order, id) <==>
              || id in CutsOf(mid, ops[n], order)
              || (EverCut(db, ops[..n], order, id) && id !in Touched(DoLog(mid, ops[n], order)))
  {
    CutNow(db, ops, order, id);
    var n := |ops| - 1;
    if EverCut(db, ops, order, id) && !CutLast(db, ops, order, id, n) {
      CutBack(db, ops, order, id);
    }
    if EverCut(db, ops[..n], order, id) && id !in Touched(DoLog(DoAll(db, ops[..n], order), ops[n], order)) {
      CutOn(db, ops, order, id);
    }
  }

  lemma {:induction false} CutBack(db: Db, ops: seq<Op>, order: nat, id: PageId)
    requires order >= 2 && ops != [] && EverCut(db, ops, order, id) && !CutLast(db, ops, order, id, |ops| - 1)
    ensures EverCut(db, ops[..|ops| - 1], order, id)
    ensures id !in Touched(DoLog(DoAll(db, ops[..|ops| - 1], order), ops[|ops| - 1], order))
  {
    var i :| 0 <= i < |ops| && CutLast(db, ops, order, id, i);
    CutEarlier(db, ops, order, id, i);
  }

  lemma {:induction false} CutOn(db: Db, ops: seq<Op>, order: nat, id: PageId)
    requires order >= 2 && ops != [] && EverCut(db, ops[..|ops| - 1], order, id)
    requires id !in Touched(DoLog(DoAll(db, ops[..|ops| - 1], order), ops[|ops| - 1], order))
    ensures EverCut(db, ops, order, id)
  {
    var i :| 0 <= i < |ops| - 1 && CutLast(db, ops[..|ops| - 1], order, id, i);
    CutEarlier(db, ops, order, id, i);
  }

  lemma {:induction false} CutNow(db: Db, ops: seq<Op>, order: nat, id: PageId)
    requires order >= 2 && ops != []
    ensures var n := |ops| - 1;
            CutLast(db, ops, order, id, n) <==> id in CutsOf(DoAll(db, ops[..n], order), ops[n], order)
  {
    var n := |ops| - 1;
    assert ops[n + 1..] == [] && ops[..n + 1] == ops;
  }

  lemma {:induction false} CutEarlier(db: Db, ops: seq<Op>, order: nat, id: PageId, i: nat)
    requires order >= 2 && i < |ops| - 1
    ensures var n := |ops| - 1;
            CutLast(db, ops, order, id, i) <==>
              CutLast(db, ops[..n], order, id, i) && id !in Touched(DoLog(DoAll(db, ops[..n], order), ops[n], order))
  {
    LaterLog(db, ops, order, i);
  }

  lemma Slices(ops: seq<Op>, i: nat)
    requires i < |ops| - 1
    ensures var n := |ops| - 1;
            var rest := ops[..n][i + 1..];
            && ops[..n][..i] == ops[..i] && ops[..n][..i + 1] == ops[..i + 1] && ops[..n] == ops[..i + 1] + rest
            && ops[i + 1..] == rest + [ops[n]] && (rest + [ops[n]])[..|rest|] == rest
  {
  }

  lemma {:induction false} LaterLog(db: Db, ops: seq<Op>, order: nat, i: nat)
    requires order >= 2 && i < |ops| - 1
    ensures var n := |ops| - 1;
            var mid := DoAll(db, ops[..i + 1], order);
            && ops[..n][..i] == ops[..i] && ops[..n][..i + 1] == ops[..i + 1]
            && Touched(LogAll(mid, ops[i + 1..], order))
               == Touched(LogAll(mid, ops[..n][i + 1..], order)) +
               Touched(DoLog(DoAll(db, ops[..n], order), ops[n], order))
  {
    Slices(ops, i);
    LogSnoc(db, ops[..i + 1], ops[..|ops| - 1][i + 1..], ops[|ops| - 1], ops[i + 1..], ops[..|ops| - 1], order);
  }

  lemma {:induction false} LogSnoc(db: Db, a: seq<Op>, rest: seq<Op>, op: Op, tail: seq<Op>, before: seq<Op>,
      order: nat)
    requires order >= 2 && tail == rest + [op] && before == a + rest
    ensures Touched(LogAll(DoAll(db, a, order), tail, order))
         == Touched(LogAll(DoAll(db, a, order), rest, order)) + Touched(DoLog(DoAll(db, before, order), op, order))
  {
    assert tail[..|rest|] == rest;
    DoAppend(db, a, rest, order);
    TouchedAppend(LogAll(DoAll(db, a, order), rest, order), DoLog(DoAll(db, before, order), op, order));
  }

  // ---- One insertion -----------------------------------------------------------------------------

  /** The leaf for a new key is full: the insertion will split it. */
  predicate LeafOverflows(t: Tree, k: Key, v: Bytes, order: nat) {
    if t.Lf? then |Put(t.entries, k, v)| > order
    else if |t.kids| != |t.keys| + 1 then false
    else LeafOverflows(t.kids[Route(t.keys, k)], k, v, order)
  }

  lemma {:induction false} CutsIff(t: Tree, k: Key, v: Bytes, order: nat, next: PageId, least: nat, lo: int, hi: int,
      h: nat)
    requires order >= 2 && Shape(t, order, least, lo, hi, h) && lo <= k < hi
    ensures Cuts(t, k, v, order, next) == {} <==> !LeafOverflows(t, k, v, order)
    ensures Ins(t, k, v, order, next).split.Some? ==> LeafOverflows(t, k, v, order)
    decreases t
  {
    if t.Nd? {
      var j, g, n := InsStep(t, k, v, order, next, least, lo, hi, h);
      CutsIff(t.kids[j], k, v, order, next, order / 2, Lower(t.keys, lo, j), Upper(t.keys, hi, j), h - 1);
    }
  }

  /** Replay of a single insertion restores every page if and only if its leaf did not have to split. */
  lemma {:induction false} InsertRestored(base: Store, db: Db, k: Key, v: Bytes, order: nat)
    requires Healthy(db, order) && Holds(base, db.tree, KEY_LIMIT, true)
    ensures var op := Insert(k, v);
            Holds(Replay(base, DoLog(db, op, order)), Do(db, op, order).tree, KEY_LIMIT, true) <==>
              !LeafOverflows(db.tree, k, v, order)
  {
    var op, least := Insert(k, v), RootLeast(db.tree);
    var cuts := Cuts(db.tree, k, v, order, db.next);
    assert [op][..0] == [];
    assert DoAll(db, [], order) == db && LogAll(db, [], order) == [];
    assert LogAll(db, [op], order) == DoLog(db, op, order) && Stale(db, [op], order) == cuts;
    ImagesRestored(base, db, [op], order);
    CutsIff(db.tree, k, v, order, db.next, least, 0, KEY_LIMIT, db.height);
    CutsInside(db.tree, k, v, order, db.next);
    InsertIds(db.tree, k, v, order, db.next, least, db.height);
    forall id | id in cuts ensures id in Ids(Do(db, op, order).tree) {
    }
  }
}
