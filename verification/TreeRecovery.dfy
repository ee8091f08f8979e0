/** What replaying the logged page images rebuilds, and why stale left pages stay invisible to point lookups. */
module TreeRecovery {
  import opened Entries
  import opened Tree
  import opened Log
  import opened TreeInsert

  lemma {:induction false} ReplayAppend(s: Store, a: seq<Change>, b: seq<Change>)
    ensures Replay(s, a + b) == Replay(Replay(s, a), b)
    decreases |b|
  {
    if b == [] {
      assert a + b == a;
    } else {
      assert (a + b)[..|a + b| - 1] == a + b[..|b| - 1];
      ReplayAppend(s, a, b[..|b| - 1]);
    }
  }

  lemma {:induction false} ReplayRootAppend(root: PageId, a: seq<Change>, b: seq<Change>)
    ensures ReplayRoot(root, a + b) == ReplayRoot(ReplayRoot(root, a), b)
    decreases |b|
  {
    if b == [] {
      assert a + b == a;
    } else {
      assert (a + b)[..|a + b| - 1] == a + b[..|b| - 1];
      ReplayRootAppend(root, a, b[..|b| - 1]);
    }
  }

  lemma {:induction false} ReplayTouches(s: Store, log: seq<Change>, id: PageId)
    ensures id !in Touched(log) ==> (id in Replay(s, log) <==> id in s)
    ensures id !in Touched(log) && id in s ==> Replay(s, log)[id] == s[id]
    ensures id in Touched(log) ==> id in Replay(s, log)
    decreases |log|
  {
    if log != [] {
      var rest, last := log[..|log| - 1], log[|log| - 1];
      assert log == rest + [last];
      ReplayTouches(s, rest, id);
      if last.PageWrite? {
        assert last.id in Touched(log);
      }
      assert Touched(rest) <= Touched(log);
      if id in Touched(log) && id !in Touched(rest) {
        assert last.PageWrite? && last.id == id;
      }
    }
  }

  lemma ReplayTwo(s: Store, c: Change, d: Change)
    ensures Replay(s, [c]) == Apply(s, c)
    ensures Replay(s, [c, d]) == Apply(Apply(s, c), d)
  {
    assert [c][..0] == [] && [c, d][..1] == [c];
    assert Replay(s, [c]) == Apply(Replay(s, []), c);
  }

  // ---- One page at a time ------------------------------------------------

  /** The page of a node is in the store, exact or stale above hi. */
  ghost predicate PageOk(s: Store, t: Tree, hi: int, exact: bool) {
    t.id in s && (s[t.id] == Image(t) || (!exact && StaleAbove(s[t.id], Image(t), hi)))
  }

  ghost predicate KidsOk(s: Store, kids: seq<Tree>, keys: seq<Key>, hi: int, exact: bool) {
    |kids| == |keys| + 1 &&
    forall i {:trigger kids[i]} :: 0 <= i < |kids| ==> Holds(s, kids[i], Upper(keys, hi, i), exact)
  }

  lemma {:induction false} KidsFrame(s: Store, s': Store, kids: seq<Tree>, keys: seq<Key>, hi: int, exact: bool)
    requires KidsOk(s, kids, keys, hi, exact)
    requires forall id :: id in IdsOf(kids) && id in s ==> id in s' && s'[id] == s[id]
    ensures KidsOk(s', kids, keys, hi, exact)
  {
    forall i {:trigger kids[i]} | 0 <= i < |kids| ensures Holds(s', kids[i], Upper(keys, hi, i), exact) {
      KidAmong(kids, i);
      HoldsFrame(s, s', kids[i], Upper(keys, hi, i), exact);
    }
  }

  /** The store after one child was rebuilt: the other children are untouched. */
  lemma {:induction false} SiblingsHold(s: Store, s': Store, t: Tree, hi: int, exact: bool, j: nat, i: nat)
    requires t.Nd? && KidsOk(s, t.kids, t.keys, hi, exact) && Distinct(Ids(t))
    requires i < |t.kids| && j < |t.kids| && i != j
    requires forall id :: id in Ids(t) && id !in Ids(t.kids[j]) && id != t.id && id in s ==> id in s' && s'[id] == s[id]
    ensures Holds(s', t.kids[i], Upper(t.keys, hi, i), exact)
  {
    KidsDistinct(t);
    KidsApart(t.kids, i, j);
    KidAmong(t.kids, i);
    assert forall id :: id in Ids(t.kids[i]) ==> id in Ids(t) && id !in Ids(t.kids[j]) && id != t.id;
    HoldsFrame(s, s', t.kids[i], Upper(t.keys, hi, i), exact);
  }

  lemma KidsDistinct(t: Tree)
    requires t.Nd? && Distinct(Ids(t))
    ensures Distinct(IdsOf(t.kids)) && t.id !in IdsOf(t.kids)
  {
    assert forall id :: IdsOf(t.kids)[id] <= Ids(t)[id];
    assert Ids(t)[t.id] == 1;
  }

  /** Both halves of the outcome are in the store. */
  ghost predicate GrownHolds(s: Store, g: Grown, hi: int, exact: bool) {
    match g.split
    case None => Holds(s, g.left, hi, exact)
    case Some(Half(sep, right)) => Holds(s, g.left, sep, exact) && Holds(s, right, hi, exact)
  }

  /** All children but j hold. */
  ghost predicate OthersOk(s: Store, t: Tree, hi: int, j: nat, exact: bool)
    requires t.Nd?
  {
    |t.kids| == |t.keys| + 1 &&
    forall i {:trigger t.kids[i]} :: 0 <= i < |t.kids| && i != j ==> Holds(s, t.kids[i], Upper(t.keys, hi, i), exact)
  }

  lemma {:induction false} SpliceOne(s: Store, t: Tree, hi: int, j: nat, c: Tree, exact: bool)
    requires t.Nd? && j < |t.kids| && OthersOk(s, t, hi, j, exact)
    requires Holds(s, c, Upper(t.keys, hi, j), exact)
    ensures KidsOk(s, t.kids[j := c], t.keys, hi, exact)
  {
  }

  lemma {:induction false} SpliceTwo(s: Store, t: Tree, hi: int, j: nat, left: Tree, half: Half, exact: bool)
    requires t.Nd? && j < |t.kids| && OthersOk(s, t, hi, j, exact)
    requires Holds(s, left, half.sep, exact) && Holds(s, half.right, Upper(t.keys, hi, j), exact)
    ensures KidsOk(s, t.kids[..j] + [left, half.right] + t.kids[j + 1..], t.keys[..j] + [half.sep] + t.keys[j..], hi,
            exact)
  {
    var kids, keys := t.kids[..j] + [left, half.right] + t.kids[j + 1..], t.keys[..j] + [half.sep] + t.keys[j..];
    forall i {:trigger kids[i]} | 0 <= i < |kids| ensures Holds(s, kids[i], Upper(keys, hi, i), exact) {
      if i < j {
        assert kids[i] == t.kids[i];
      } else if i > j + 1 {
        assert kids[i] == t.kids[i - 1];
      }
    }
  }

  lemma {:induction false} SiblingsAll(s: Store, s': Store, t: Tree, hi: int, exact: bool, j: nat)
    requires t.Nd? && KidsOk(s, t.kids, t.keys, hi, exact) && Distinct(Ids(t)) && j < |t.kids|
    requires forall id :: id in Ids(t) && id !in Ids(t.kids[j]) && id != t.id && id in s ==> id in s' && s'[id] == s[id]
    ensures OthersOk(s', t, hi, j, exact)
  {
    forall i {:trigger t.kids[i]} | 0 <= i < |t.kids| && i != j
      ensures Holds(s', t.kids[i], Upper(t.keys, hi, i), exact) {
      SiblingsHold(s, s', t, hi, exact, j, i);
    }
  }

  /** A node that takes in the outcome of one child holds in any store that has its siblings and that outcome. */
  lemma {:induction false} JoinedHolds(s: Store, t: Tree, order: nat, lo: int, hi: int, h: nat, j: nat, g: Grown,
      exact: bool)
    requires Formed(t, order, lo, hi, h) && j < |t.kids|
    requires Halves(g, order, order / 2, Lower(t.keys, lo, j), Upper(t.keys, hi, j), h - 1)
    requires OthersOk(s, t, hi, j, exact)
    requires GrownHolds(s, g, Upper(t.keys, hi, j), exact)
    ensures KidsOk(s, Joined(t, j, g).kids, Joined(t, j, g).keys, hi, exact)
  {
    if g.split.Some? {
      AdoptFormed(t, order, lo, hi, h, j, g.left, g.split.value);
      SpliceTwo(s, t, hi, j, g.left, g.split.value, exact);
    } else {
      SpliceOne(s, t, hi, j, g.left, exact);
    }
  }

  /** An index page logged before it was cut is stale above the key between its parts. */
  lemma CutIndexStale(n: Tree, c: nat, right: PageId)
    requires n.Nd? && c < |n.keys| && |n.kids| == |n.keys| + 1
    ensures var (left, half) := CutIndex(n, c, right); StaleAbove(Image(n), Image(left), half.sep)
  {
  }

  /** So is a leaf. */
  lemma CutLeafStale(t: Tree, c: nat, right: PageId)
    requires t.Lf? && c < |t.entries| && Sorted(t.entries)
    ensures var (left, half) := CutLeaf(t, c, right); StaleAbove(Image(t), Image(left), half.sep)
  {
    assert t.entries[..c] <= t.entries;
  }

  /** The parts of a cut node hold in a store where its subtrees hold and the two pages are exact or stale. */
  lemma {:induction false} CutHolds(s: Store, n: Tree, c: nat, right: PageId, hi: int, exact: bool)
    requires n.Nd? && c < |n.keys| && KidsOk(s, n.kids, n.keys, hi, exact)
    requires var (left, half) := CutIndex(n, c, right);
             PageOk(s, left, half.sep, exact) && PageOk(s, half.right, hi, exact)
    ensures var (left, half) := CutIndex(n, c, right);
            Holds(s, left, half.sep, exact) && Holds(s, half.right, hi, exact)
  {
    var (left, half) := CutIndex(n, c, right);
    forall i {:trigger left.kids[i]} | 0 <= i < |left.kids|
      ensures Holds(s, left.kids[i], Upper(left.keys, half.sep, i), exact) {
      assert left.kids[i] == n.kids[i];
    }
    forall i {:trigger half.right.kids[i]} | 0 <= i < |half.right.kids|
      ensures Holds(s, half.right.kids[i], Upper(half.right.keys, hi, i), exact)
    {
      assert half.right.kids[i] == n.kids[c + 1 + i];
    }
  }

  // ---- Replaying an insertion --------------------------------------------

  /** An insertion logs pages of the subtree and fresh pages only. */
  lemma {:induction false} InsTouches(t: Tree, k: Key, v: Bytes, order: nat, next: PageId, least: nat, lo: int, hi: int,
      h: nat, id: PageId)
    requires order >= 2 && Shape(t, order, least, lo, hi, h) && lo <= k < hi
    requires id in Touched(Ins(t, k, v, order, next).log)
    ensures id in Ids(t) || next <= id < Ins(t, k, v, order, next).next
    decreases t
  {
    if t.Nd? {
      var j, g, n := InsStep(t, k, v, order, next, least, lo, hi, h);
      InsIds(t.kids[j], k, v, order, next, order / 2, Lower(t.keys, lo, j), Upper(t.keys, hi, j), h - 1);
      KidAmong(t.kids, j);
      SettleTouches(n, order, g, next, id);
      if id in Touched(g.log) {
        InsTouches(t.kids[j], k, v, order, next, order / 2, Lower(t.keys, lo, j), Upper(t.keys, hi, j), h - 1, id);
      }
    }
  }

  lemma SettleTouches(n: Tree, order: nat, g: Grown, next: PageId, id: PageId)
    requires n.Nd? && |n.kids| == |n.keys| + 1 && next <= g.next
    ensures var r := Settle(n, order, g.next, if g.split.None? then g.log else g.log + [Write(n)]);
            id in Touched(r.log) ==> id in Touched(g.log) || id == n.id || next <= id < r.next
  {
    SettleKids(n, order, g.next, if g.split.None? then g.log else g.log + [Write(n)]);
  }

  lemma {:induction false} SettleReplay(s: Store, n: Tree, order: nat, next: PageId, log: seq<Change>, hi: int)
    requires n.Nd? && KidsOk(Replay(s, log), n.kids, n.keys, hi, false)
    requires (PageOk(Replay(s, log), n, hi, false) && |n.keys| <= order)
             || (n.id in Replay(s, log) && Replay(s, log)[n.id] == Image(n))
    requires next !in Ids(n)
    ensures GrownHolds(Replay(s, Settle(n, order, next, log).log), Settle(n, order, next, log), hi, false)
  {
    var g := Settle(n, order, next, log);
    var s1 := Replay(s, log);
    if g.split.Some? {
      var right := g.split.value.right;
      ReplayAppend(s, log, [Write(right)]);
      ReplayTwo(s1, Write(right), Write(right));
      var s2 := s1[next := Image(right)];
      KidsFrame(s1, s2, n.kids, n.keys, hi, false);
      CutIndexStale(n, |n.keys| / 2, next);
      CutHolds(s2, n, |n.keys| / 2, next, hi, false);
    }
  }

  /** Replaying the log of an insertion rebuilds the tree it produced, up to stale upper halves. */
  lemma {:induction false} InsReplay(s: Store, t: Tree, k: Key, v: Bytes, order: nat, next: PageId, least: nat, lo: int,
      hi: int, h: nat)
    requires order >= 2 && Shape(t, order, least, lo, hi, h) && lo <= k < hi
    requires Holds(s, t, hi, false) && Distinct(Ids(t)) && forall id :: id in Ids(t) ==> id < next
    ensures var g := Ins(t, k, v, order, next); GrownHolds(Replay(s, g.log), g, hi, false)
    decreases t
  {
    if t.Lf? {
      InsLeafReplay(s, t, k, v, order, next, lo, hi);
    } else {
      var j, g, n := InsStep(t, k, v, order, next, least, lo, hi, h);
      var l, u := Lower(t.keys, lo, j), Upper(t.keys, hi, j);
      KidPages(s, t, hi, false, j, next);
      InsReplay(s, t.kids[j], k, v, order, next, order / 2, l, u, h - 1);
      InsNodeReplay(s, t, k, v, order, next, lo, hi, h, j, g, n);
    }
  }

  lemma {:induction false} InsNodeReplay(s: Store, t: Tree, k: Key, v: Bytes, order: nat, next: PageId, lo: int,
                                         hi: int, h: nat, j: nat, g: Grown, n: Tree)
    requires order >= 2 && Formed(t, order, lo, hi, h) && |t.keys| <= order && j < |t.kids|
    requires g == Ins(t.kids[j], k, v, order, next) && n == Joined(t, j, g)
    requires Lower(t.keys, lo, j) <= k < Upper(t.keys, hi, j)
    requires Halves(g, order, order / 2, Lower(t.keys, lo, j), Upper(t.keys, hi, j), h - 1)
    requires Holds(s, t, hi, false) && Distinct(Ids(t)) && forall id :: id in Ids(t) ==> id < next
    requires GrownHolds(Replay(s, g.log), g, Upper(t.keys, hi, j), false)
    ensures var log := if g.split.None? then g.log else g.log + [Write(n)];
            var r := Settle(n, order, g.next, log);
            GrownHolds(Replay(s, r.log), r, hi, false)
  {
    var l, u := Lower(t.keys, lo, j), Upper(t.keys, hi, j);
    JoinedFormed(t, order, lo, hi, h, j, g);
    InsIds(t.kids[j], k, v, order, next, order / 2, l, u, h - 1);
    InsSiblings(s, t, k, v, order, next, j, l, u, hi, h - 1, false);
    JoinedHolds(Replay(s, g.log), t, order, lo, hi, h, j, g, false);
    JoinedFresh(t, j, g, n, next);
    if g.split.None? {
      InsNoMeta(t.kids[j], k, v, order, next, 0);
    }
    NodeReplay(s, t, n, order, g, hi);
  }

  /** Replaying what an insertion below child j logged leaves the other children and the node itself alone. */
  lemma {:induction false} InsSiblings(s: Store, t: Tree, k: Key, v: Bytes, order: nat, next: PageId, j: nat, l: int,
                                       u: int, hi: int, h: nat, exact: bool)
    requires t.Nd? && KidsOk(s, t.kids, t.keys, hi, exact) && Distinct(Ids(t)) && j < |t.kids|
    requires order >= 2 && Shape(t.kids[j], order, order / 2, l, u, h) && l <= k < u
    requires (forall id :: id in Ids(t) ==> id < next) && t.id in s
    ensures var s1 := Replay(s, Ins(t.kids[j], k, v, order, next).log);
            OthersOk(s1, t, hi, j, exact) && t.id in s1 && s1[t.id] == s[t.id]
  {
    var log := Ins(t.kids[j], k, v, order, next).log;
    var s1 := Replay(s, log);
    KidsDistinct(t);
    KidAmong(t.kids, j);
    forall id | id in Ids(t) && id !in Ids(t.kids[j]) && id in s ensures id in s1 && s1[id] == s[id] {
      if id in Touched(log) {
        InsTouches(t.kids[j], k, v, order, next, order / 2, l, u, h, id);
      }
      ReplayTouches(s, log, id);
    }
    SiblingsAll(s, s1, t, hi, exact, j);
  }

  /** The last step of replaying an insertion: the node itself, once its children hold. */
  lemma {:induction false} NodeReplay(s: Store, t: Tree, n: Tree, order: nat, g: Grown, hi: int)
    requires t.Nd? && n.Nd? && n.id == t.id && |n.kids| == |n.keys| + 1
    requires var s1 := Replay(s, g.log); KidsOk(s1, n.kids, n.keys, hi, false) && PageOk(s1, t, hi, false)
    requires g.split.None? ==> Image(n) == Image(t) && |n.keys| <= order
    requires g.next !in Ids(n) && n.id !in IdsOf(n.kids)
    ensures var log := if g.split.None? then g.log else g.log + [Write(n)];
            var r := Settle(n, order, g.next, log);
            GrownHolds(Replay(s, r.log), r, hi, false)
  {
    if g.split.None? {
      SettleReplay(s, n, order, g.next, g.log, hi);
    } else {
      var s1 := Replay(s, g.log);
      ReplayAppend(s, g.log, [Write(n)]);
      ReplayTwo(s1, Write(n), Write(n));
      KidsFrame(s1, s1[n.id := Image(n)], n.kids, n.keys, hi, false);
      SettleReplay(s, n, order, g.next, g.log + [Write(n)], hi);
    }
  }

  lemma {:induction false} KidPages(s: Store, t: Tree, hi: int, exact: bool, j: nat, next: PageId)
    requires t.Nd? && j < |t.kids| && Holds(s, t, hi, exact)
    requires Distinct(Ids(t)) && forall id :: id in Ids(t) ==> id < next
    ensures Holds(s, t.kids[j], Upper(t.keys, hi, j), exact)
    ensures Distinct(Ids(t.kids[j])) && forall id :: id in Ids(t.kids[j]) ==> id < next
  {
    KidAmong(t.kids, j);
    KidsDistinct(t);
    assert Ids(t.kids[j]) <= Ids(t);
  }

  /** The node's own page is not a page of its children, and the next free id is not in use below it. */
  lemma {:induction false} JoinedFresh(t: Tree, j: nat, g: Grown, n: Tree, next: PageId)
    requires t.Nd? && n.Nd? && j < |t.kids| && n.id == t.id && n.kids == t.kids[..j] + Both(g) + t.kids[j + 1..]
    requires Distinct(Ids(t)) && (forall id :: id in Ids(t) ==> id < next)
    requires IdsOf(Both(g)) == Ids(t.kids[j]) + Span(next, g.next) && next <= g.next
    ensures g.next !in Ids(n) && n.id !in IdsOf(n.kids)
    ensures Distinct(Ids(n))
  {
    JoinedIds(t, j, Both(g), n, Span(next, g.next));
    SpanFresh(Ids(t), next, g.next);
    KidsDistinct(n);
  }

  lemma InsLeafReplay(s: Store, t: Tree, k: Key, v: Bytes, order: nat, next: PageId, lo: int, hi: int)
    requires t.Lf? && Sorted(t.entries) && Within(t.entries, lo, hi) && lo <= k < hi && t.id < next
    ensures var g := InsLeaf(t, k, v, order, next); GrownHolds(Replay(s, g.log), g, hi, false)
  {
    var g := InsLeaf(t, k, v, order, next);
    var l := Lf(t.id, Put(t.entries, k, v), t.next);
    PutSorted(t.entries, k, v, lo, hi);
    ReplayTwo(s, g.log[0], g.log[|g.log| - 1]);
    if g.split.Some? {
      CutLeafStale(l, |l.entries| / 2, next);
    }
  }

  /** Replaying the log of a whole insertion rebuilds the new tree, and the last root change names its root. */
  lemma {:induction false} InsertReplay(s: Store, t: Tree, k: Key, v: Bytes, order: nat, next: PageId, least: nat,
      h: nat)
    requires order >= 2 && Shape(t, order, least, 0, KEY_LIMIT, h)
    requires Holds(s, t, KEY_LIMIT, false) && Distinct(Ids(t)) && forall id :: id in Ids(t) ==> id < next
    ensures var g := Ins(t, k, v, order, next);
            && Holds(Replay(s, GrowLog(g)), Grow(g), KEY_LIMIT, false)
            && ReplayRoot(t.id, GrowLog(g)) == Grow(g).id
  {
    var g := Ins(t, k, v, order, next);
    InsReplay(s, t, k, v, order, next, least, 0, KEY_LIMIT, h);
    InsertIds(t, k, v, order, next, least, h);
    InsNoMeta(t, k, v, order, next, t.id);
    GrowReplay(s, g);
  }

  lemma {:induction false} GrowReplay(s: Store, g: Grown)
    requires GrownHolds(Replay(s, g.log), g, KEY_LIMIT, false) && Distinct(Ids(Grow(g)))
    ensures Holds(Replay(s, GrowLog(g)), Grow(g), KEY_LIMIT, false)
    ensures g.split.Some? ==> forall root :: ReplayRoot(root, GrowLog(g)) == Grow(g).id
  {
    if g.split.Some? {
      var r := Grow(g);
      var s1 := Replay(s, g.log);
      ReplayAppend(s, g.log, [Write(r), MetaUpdate(r.id)]);
      ReplayTwo(s1, Write(r), MetaUpdate(r.id));
      KidsDistinct(r);
      assert KidsOk(s1, r.kids, r.keys, KEY_LIMIT, false) by {
        assert r.kids[0] == g.left && r.kids[1] == g.split.value.right;
      }
      KidsFrame(s1, s1[r.id := Image(r)], r.kids, r.keys, KEY_LIMIT, false);
    }
  }

  lemma {:induction false} NoMeta(root: PageId, log: seq<Change>)
    requires forall c :: c in log ==> c.PageWrite?
    ensures ReplayRoot(root, log) == root
    decreases |log|
  {
    if log != [] {
      assert log[|log| - 1] in log;
      NoMeta(root, log[..|log| - 1]);
    }
  }

  /** An insertion logs page images only, until a new root is made. */
  lemma {:induction false} InsWrites(t: Tree, k: Key, v: Bytes, order: nat, next: PageId)
    ensures forall c :: c in Ins(t, k, v, order, next).log ==> c.PageWrite?
    ensures Ins(t, k, v, order, next).left.id == t.id
    decreases t
  {
    if t.Nd? && |t.kids| == |t.keys| + 1 {
      InsWrites(t.kids[Route(t.keys, k)], k, v, order, next);
    }
  }

  lemma {:induction false} InsNoMeta(t: Tree, k: Key, v: Bytes, order: nat, next: PageId, root: PageId)
    ensures ReplayRoot(root, Ins(t, k, v, order, next).log) == root
    ensures Ins(t, k, v, order, next).left.id == t.id
  {
    InsWrites(t, k, v, order, next);
    NoMeta(root, Ins(t, k, v, order, next).log);
  }
}
