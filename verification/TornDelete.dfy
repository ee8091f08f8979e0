/** A crash inside one deletion: which parts of its log leave every lookup right. */
module TornDelete {
  import opened Entries
  import opened Tree
  import opened Log
  import opened TreeInsert
  import opened TreeDelete
  import opened TreeRecovery
  import opened TreeDeleteRecovery
  import opened TreeLive
  import opened TreeSteps
  import opened TreeClimb
  import opened CrashReplay
  import opened Restored
  import opened TornInsert

  /** The last repair of the deletion borrows a key: the parent's record is then the last one. */
  predicate BorrowEnds(t: Tree, k: Key, order: nat)
    requires order >= 2
    decreases t
  {
    if t.Lf? || |t.kids| != |t.keys| + 1 then false
    else
      var j := Route(t.keys, k);
      var d := Del(t.kids[j], k, order);
      var n := Nd(t.id, t.keys, t.kids[j := d.node]);
      if NumKeys(d.node) >= order / 2 || !Mendable(n, j) then BorrowEnds(t.kids[j], k, order)
      else !Mend(n, j, order).merged
  }

  /** Then no node has lost a key. */
  lemma {:induction false} BorrowKeeps(t: Tree, k: Key, order: nat)
    requires order >= 2 && BorrowEnds(t, k, order)
    ensures NumKeys(Del(t, k, order).node) == NumKeys(t)
  {
  }

  function AfterRemove(es: seq<Entry>, k: Key, q: Key): Option<Bytes> {
    if q == k then None else Get(es, q)
  }

  lemma {:induction false} GetRemove(es: seq<Entry>, k: Key, q: int)
    requires Sorted(es)
    ensures Get(Remove(es, k), q) == if q == k then None else Get(es, q)
    decreases |es|
  {
    if es != [] {
      SortedTail(es);
      GetRemove(es[1..], k, q);
      if es[0].key == k {
        AbsentKey(es[1..], k);
      }
    }
  }

  // ---- The part before the node's own repair --------------------------------------------------------

  /** While only records from below child j are there, the child decides. */
  lemma {:induction false} DelEarly(s: Store, t: Tree, j: nat, log: seq<Change>, order: nat, lo: int, hi: int, h: nat,
      m: nat, q: Key)
    requires Formed(t, order, lo, hi, h) && j < |t.kids| && Distinct(Ids(t)) && Holds(s, t, hi, false) && lo <= q < hi
             && m <= |log|
    requires forall id {:trigger id in Touched(log)} :: id in Touched(log) ==> id in Ids(t.kids[j])
    ensures var s' := Replay(s, log[..m]);
            if Route(t.keys, q) == j then
              Lookup(s', t.id, q, h) == Lookup(s', t.kids[j].id, q, h - 1)
                && Get(Contents(t), q) == Get(Contents(t.kids[j]), q)
            else Lookup(s', t.id, q, h) == Get(Contents(t), q)
  {
    var s' := Replay(s, log[..m]);
    PartAside(s, t, j, log, m, hi);
    if Route(t.keys, q) == j {
      ChildAnswers(s', t, q, order, lo, hi, h);
    } else {
      SiblingAnswers(s', t, j, q, order, lo, hi, h);
    }
  }

  // ---- The node's own repair -----------------------------------------------------------------------

  /** The node t with child j replaced by what the deletion left of it, to be repaired at i. */
  ghost predicate Repairs(t: Tree, j: nat, c: Tree, n: Tree, k: Key, i: nat, cut: Option<nat>, order: nat, lo: int,
      hi: int, h: nat) {
    && Formed(t, order, lo, hi, h) && j == Route(t.keys, k) && j < |t.kids| && n == Nd(t.id, t.keys, t.kids[j := c])
      && c.id == t.kids[j].id
    && Distinct(Ids(t)) && Ids(c) <= Ids(t.kids[j]) && Contents(c) == Remove(Contents(t.kids[j]), k)
    && Deficient(n, j, order, lo, hi, h) && Linked(n) && Mendable(n, j) && IsMend(n, j, order, i, cut)
  }

  /** What the map says of a key is what the child it is routed to says. */
  lemma {:induction false} NodeTruth(t: Tree, j: nat, c: Tree, n: Tree, k: Key, i: nat, cut: Option<nat>, order: nat,
      lo: int, hi: int, h: nat, q: Key)
    requires Repairs(t, j, c, n, k, i, cut, order, lo, hi, h) && lo <= q < hi
    ensures AfterRemove(Contents(t), k, q) == Get(Contents(n.kids[Route(n.keys, q)]), q)
    ensures Lower(n.keys, lo, Route(n.keys, q)) <= q < Upper(n.keys, hi, Route(n.keys, q))
  {
    var r := Route(t.keys, q);
    RouteBounds(t.keys, lo, hi, q);
    ChildHasAnswer(t, q, order, lo, hi, h);
    if r == j {
      Ordered(t.kids[j], order, order / 2, Lower(t.keys, lo, j), Upper(t.keys, hi, j), h - 1);
      GetRemove(Contents(t.kids[j]), k, q);
    }
  }

  lemma {:induction false} RepairIds(t: Tree, j: nat, c: Tree, n: Tree, k: Key, i: nat, cut: Option<nat>, order: nat,
      lo: int, hi: int, h: nat)
    requires Repairs(t, j, c, n, k, i, cut, order, lo, hi, h)
    ensures Distinct(Ids(n)) && i + 1 < |n.kids|
    ensures n.kids[i].id != n.kids[i + 1].id && n.id != n.kids[i].id && n.id != n.kids[i + 1].id
  {
    OneReplaced(t, j, c);
    PairIds(n, i);
  }

  /** A child whose page was not written, at a node whose page was not written either. */
  lemma {:induction false} UnwrittenAnswers(s: Store, n: Tree, r: nat, q: Key, order: nat, lo: int, hi: int, h: nat,
      j: nat)
    requires Deficient(n, j, order, lo, hi, h) && PageOk(s, n, hi, false) && lo <= q < hi && r == Route(n.keys, q)
    requires Lower(n.keys, lo, r) <= q < Upper(n.keys, hi, r) && Holds(s, n.kids[r], Upper(n.keys, hi, r), false)
    ensures Lookup(s, n.id, q, h) == Get(Contents(n.kids[r]), q)
  {
    PageStep(s, n, q, hi, h);
    DeficientMendable(n, j, order, lo, hi, h);
    LookupBody(s, n.kids[r], q, order, Lower(n.keys, lo, r), Upper(n.keys, hi, r), h - 1);
  }

  lemma {:induction false} GetLeft(a: seq<Entry>, b: seq<Entry>, q: int)
    requires forall i :: 0 <= i < |b| ==> q < b[i].key
    ensures Get(a + b, q) == Get(a, q)
  {
    GetAppend(a, b, q);
    AbsentKey(b, q);
  }

  lemma {:induction false} GetRight(a: seq<Entry>, b: seq<Entry>, q: int)
    requires forall i :: 0 <= i < |a| ==> a[i].key < q
    ensures Get(a + b, q) == Get(b, q)
  {
    GetAppend(a, b, q);
    AbsentKey(a, q);
  }

  /** Contents of a well-formed subtree lie within its bounds. */
  lemma {:induction false} BodyWithin(t: Tree, order: nat, lo: int, hi: int, h: nat)
    requires Body(t, order, lo, hi, h)
    ensures Sorted(Contents(t)) && Within(Contents(t), lo, hi)
  {
    if t.Nd? {
      KidsWithin(t.kids, order, t.keys, lo, hi, h - 1);
    }
  }

  /** The page that a repair writes first, the merged page or the one that gains a key, answers for its child's keys as
      the child did. */
  ghost predicate Gains(x: Tree, c: Tree, order: nat, lo: int, hi: int, h: nat, xlo: int, xhi: int) {
    && Body(x, order, xlo, xhi, h) && x.id == c.id && xlo <= lo && hi <= xhi
    && forall q: int {:trigger Get(Contents(x), q)} :: lo <= q < hi ==> Get(Contents(x), q) == Get(Contents(c), q)
  }

  lemma {:induction false} MergedGains(a: Tree, sep: Key, b: Tree, order: nat, lo: int, hi: int, h: nat)
    requires Body(a, order, lo, sep, h) && Body(b, order, sep, hi, h)
    ensures Alike(a, b) && Gains(Merged(a, sep, b), a, order, lo, sep, h, lo, hi)
  {
    MergedBody(a, sep, b, order, lo, hi, h);
    MergedKeeps(a, sep, b);
    Pair(a, b);
    BodyWithin(a, order, lo, sep, h);
    BodyWithin(b, order, sep, hi, h);
    forall q: int | lo <= q < sep ensures Get(Contents(Merged(a, sep, b)), q) == Get(Contents(a), q) {
      GetLeft(Contents(a), Contents(b), q);
    }
  }

  /** A pair cut elsewhere: one key later, or one key earlier. */
  ghost predicate Recut(a: Tree, sep: Key, b: Tree, c: nat, left: bool, p: Two, order: nat, lo: int, hi: int, h: nat) {
    && Alike(a, b) && Body(a, order, lo, sep, h) && Body(b, order, sep, hi, h)
    && 0 < c < NumKeys(Merged(a, sep, b)) && p == Cut(Merged(a, sep, b), c, b.id)
    && if left then c == NumKeys(a) + 1 && NumKeys(b) >= 2 else c == NumKeys(a) - 1
  }

  lemma {:induction false} RecutParts(a: Tree, sep: Key, b: Tree, c: nat, left: bool, p: Two, order: nat, lo: int,
      hi: int, h: nat)
    requires Recut(a, sep, b, c, left, p, order, lo, hi, h)
    ensures if left then sep < p.sep < hi else lo < p.sep < sep
    ensures Body(p.left, order, lo, p.sep, h) && Body(p.right, order, p.sep, hi, h) && p.left.id == a.id
            && p.right.id == b.id
    ensures Contents(a) + Contents(b) == Contents(p.left) + Contents(p.right)
    ensures Within(Contents(a), lo, sep) && Within(Contents(b), sep, hi)
    ensures Within(Contents(p.left), lo, p.sep) && Within(Contents(p.right), p.sep, hi)
  {
    MergedBody(a, sep, b, order, lo, hi, h);
    CutBody(Merged(a, sep, b), c, b.id, order, lo, hi, h);
    CutSide(a, sep, b, c, left, order, lo, hi, h);
    OutcomeKeeps(a, sep, b, Some(c));
    Pair(p.left, p.right);
    BodyWithin(a, order, lo, sep, h);
    BodyWithin(b, order, sep, hi, h);
    BodyWithin(p.left, order, lo, p.sep, h);
    BodyWithin(p.right, order, p.sep, hi, h);
  }

  lemma {:induction false} LeftGains(a: Tree, sep: Key, b: Tree, c: nat, p: Two, order: nat, lo: int, hi: int, h: nat)
    requires Recut(a, sep, b, c, true, p, order, lo, hi, h)
    ensures Gains(p.left, a, order, lo, sep, h, lo, p.sep)
  {
    RecutParts(a, sep, b, c, true, p, order, lo, hi, h);
    forall q: int | lo <= q < sep ensures Get(Contents(p.left), q) == Get(Contents(a), q) {
      GetLeft(Contents(a), Contents(b), q);
      GetLeft(Contents(p.left), Contents(p.right), q);
    }
  }

  lemma {:induction false} RightGains(a: Tree, sep: Key, b: Tree, c: nat, p: Two, order: nat, lo: int, hi: int, h: nat)
    requires Recut(a, sep, b, c, false, p, order, lo, hi, h)
    ensures Gains(p.right, b, order, sep, hi, h, p.sep, hi)
  {
    RecutParts(a, sep, b, c, false, p, order, lo, hi, h);
    forall q: int | sep <= q < hi ensures Get(Contents(p.right), q) == Get(Contents(b), q) {
      GetRight(Contents(a), Contents(b), q);
      GetRight(Contents(p.left), Contents(p.right), q);
    }
  }

  /** On which side of the old separator the new one lies. */
  lemma {:induction false} CutSide(a: Tree, sep: Key, b: Tree, c: nat, left: bool, order: nat, lo: int, hi: int, h: nat)
    requires Body(a, order, lo, sep, h) && Body(b, order, sep, hi, h) && Alike(a, b)
             && 0 < c < NumKeys(Merged(a, sep, b))
    requires if left then c == NumKeys(a) + 1 && NumKeys(b) >= 2 else c == NumKeys(a) - 1
    ensures var p := Cut(Merged(a, sep, b), c, b.id); if left then sep < p.sep else p.sep < sep
  {
    var m := Merged(a, sep, b);
    if a.Lf? {
      if left {
        assert m.entries[c] == b.entries[1] && sep <= b.entries[0].key < b.entries[1].key;
      } else {
        assert m.entries[c] == a.entries[c];
      }
    } else if left {
      assert m.keys[c] == b.keys[0];
    } else {
      assert m.keys[c] == a.keys[c];
    }
  }

  // ---- The first record of a repair -----------------------------------------------------------------

  /** The left part of a cut page holds where its subtrees do, without the right part. */
  lemma {:induction false} LeftHolds(s: Store, m: Tree, c: nat, right: PageId, hi: int, exact: bool)
    requires c < NumKeys(m) && (m.Nd? ==> |m.kids| == |m.keys| + 1) && BelowOk(s, m, hi, exact)
    requires var p := Cut(m, c, right); p.left.id in s && s[p.left.id] == Image(p.left)
    ensures var p := Cut(m, c, right); Holds(s, p.left, p.sep, exact)
  {
    var p := Cut(m, c, right);
    if m.Nd? {
      forall i {:trigger p.left.kids[i]} | 0 <= i < |p.left.kids|
        ensures Holds(s, p.left.kids[i], Upper(p.left.keys, p.sep, i), exact) {
        assert p.left.kids[i] == m.kids[i];
      }
    }
  }

  lemma {:induction false} RightHolds(s: Store, m: Tree, c: nat, right: PageId, hi: int, exact: bool)
    requires c < NumKeys(m) && (m.Nd? ==> |m.kids| == |m.keys| + 1) && BelowOk(s, m, hi, exact)
    requires var p := Cut(m, c, right); p.right.id in s && s[p.right.id] == Image(p.right)
    ensures var p := Cut(m, c, right); Holds(s, p.right, hi, exact)
  {
    var p := Cut(m, c, right);
    if m.Nd? {
      forall i {:trigger p.right.kids[i]} | 0 <= i < |p.right.kids|
        ensures Holds(s, p.right.kids[i], Upper(p.right.keys, hi, i), exact) {
        assert p.right.kids[i] == m.kids[c + 1 + i];
      }
    }
  }

  /** Which child's page the repair writes first, and with what. */
  ghost function FirstAt(j: nat, i: nat, cut: Option<nat>): nat {
    if cut.None? || i == j then i else i + 1
  }

  ghost function FirstPage(n: Tree, j: nat, i: nat, cut: Option<nat>): Tree
    requires Repairable(n, i, cut)
  {
    var out := OutcomeAt(n, i, cut);
    if cut.None? || i == j then out[0] else out[1]
  }

  /** The bounds within which the first page is well formed. */
  ghost predicate FirstGains(x: Tree, n: Tree, r: nat, order: nat, lo: int, hi: int, h: nat, xlo: int, xhi: int)
    requires n.Nd? && |n.kids| == |n.keys| + 1 && h > 0
  {
    r < |n.kids| && Gains(x, n.kids[r], order, Lower(n.keys, lo, r), Upper(n.keys, hi, r), h - 1, xlo, xhi)
  }

  lemma {:induction false} FirstIsGained(n: Tree, j: nat, i: nat, cut: Option<nat>, order: nat, lo: int, hi: int,
      h: nat)
    returns (xlo: int, xhi: int)
    requires Deficient(n, j, order, lo, hi, h) && Linked(n) && Mendable(n, j) && IsMend(n, j, order, i, cut)
    ensures FirstGains(FirstPage(n, j, i, cut), n, FirstAt(j, i, cut), order, lo, hi, h, xlo, xhi)
    ensures cut.Some? ==> Recut(n.kids[i], n.keys[i], n.kids[i + 1], cut.value, i == j,
            Cut(Merged(n.kids[i], n.keys[i], n.kids[i + 1]), cut.value, n.kids[i + 1].id),
                                order, Lower(n.keys, lo, i), Upper(n.keys, hi, i + 1), h - 1)
    ensures xhi == if cut.None? then Upper(n.keys, hi, i + 1)
                   else if i == j then Cut(Merged(n.kids[i], n.keys[i], n.kids[i + 1]), cut.value, n.kids[i + 1].id).sep
                   else Upper(n.keys, hi, i + 1)
  {
    var a, sep, b := n.kids[i], n.keys[i], n.kids[i + 1];
    var l, u := Lower(n.keys, lo, i), Upper(n.keys, hi, i + 1);
    NeighbourBodies(n, j, i, order, lo, hi, h);
    if cut.None? {
      MergedGains(a, sep, b, order, l, u, h - 1);
      xlo, xhi := l, u;
    } else {
      var p := Cut(Merged(a, sep, b), cut.value, b.id);
      assert Recut(a, sep, b, cut.value, i == j, p, order, l, u, h - 1);
      if i == j {
        LeftGains(a, sep, b, cut.value, p, order, l, u, h - 1);
        xlo, xhi := l, p.sep;
      } else {
        RightGains(a, sep, b, cut.value, p, order, l, u, h - 1);
        xlo, xhi := p.sep, u;
      }
    }
  }

  /** The first page is in the store with everything below it. */
  lemma {:induction false} FirstHolds(s: Store, n: Tree, j: nat, i: nat, cut: Option<nat>, hi: int)
    requires Repairable(n, i, cut) && KidsOk(s, n.kids, n.keys, hi, false) && Distinct(Ids(n)) && (i == j || i + 1 == j)
    ensures var x := FirstPage(n, j, i, cut);
            var s' := s[x.id := Image(x)];
            && x.id == n.kids[FirstAt(j, i, cut)].id
            && Holds(s', x, if cut.None? || i != j then Upper(n.keys, hi, i + 1)
                            else Cut(Merged(n.kids[i], n.keys[i], n.kids[i + 1]), cut.value, n.kids[i + 1].id).sep,
                              false)
  {
    var a, sep, b := n.kids[i], n.keys[i], n.kids[i + 1];
    var x := FirstPage(n, j, i, cut);
    var s' := s[x.id := Image(x)];
    RepairedKids(n, i, cut);
    PairFrame(s, s', n, i, hi, false);
    MergedBelow(s', a, sep, b, Upper(n.keys, hi, i + 1), false);
    if cut.Some? {
      if i == j {
        LeftHolds(s', Merged(a, sep, b), cut.value, b.id, Upper(n.keys, hi, i + 1), false);
      } else {
        RightHolds(s', Merged(a, sep, b), cut.value, b.id, Upper(n.keys, hi, i + 1), false);
      }
    }
  }

  /** Writing the page of one child leaves the others alone. */
  lemma {:induction false} OtherKid(s: Store, n: Tree, c: nat, r: nat, p: Page, hi: int)
    requires n.Nd? && c < |n.kids| && r < |n.kids| && r != c && Distinct(Ids(n)) && KidsOk(s, n.kids, n.keys, hi, false)
    ensures Holds(s[n.kids[c].id := p], n.kids[r], Upper(n.keys, hi, r), false)
  {
    KidsDistinct(n);
    KidsApart(n.kids, c, r);
    KidAmong(n.kids, c);
    KidAmong(n.kids, r);
    HoldsFrame(s, s[n.kids[c].id := p], n.kids[r], Upper(n.keys, hi, r), false);
  }

  /** With only the first record of a repair, the node still answers every key. */
  lemma {:induction false} FirstRecord(s: Store, t: Tree, j: nat, c: Tree, n: Tree, k: Key, i: nat, cut: Option<nat>,
      order: nat, lo: int, hi: int, h: nat, q: Key)
    requires Repairs(t, j, c, n, k, i, cut, order, lo, hi, h) && lo <= q < hi
    requires KidsOk(s, n.kids, n.keys, hi, false) && PageOk(s, n, hi, false)
    ensures var x := FirstPage(n, j, i, cut); Lookup(s[x.id := Image(x)], n.id, q, h) == AfterRemove(Contents(t), k, q)
  {
    var r := Route(n.keys, q);
    RepairIds(t, j, c, n, k, i, cut, order, lo, hi, h);
    NodeTruth(t, j, c, n, k, i, cut, order, lo, hi, h, q);
    if r == FirstAt(j, i, cut) {
      FirstReached(s, n, j, i, cut, order, lo, hi, h, q);
    } else {
      FirstPassed(s, n, j, i, cut, order, lo, hi, h, q);
    }
  }

  /** A key of the child whose page was written. */
  lemma {:induction false} FirstReached(s: Store, n: Tree, j: nat, i: nat, cut: Option<nat>, order: nat, lo: int,
      hi: int, h: nat, q: Key)
    requires Deficient(n, j, order, lo, hi, h) && Linked(n) && Mendable(n, j) && IsMend(n, j, order, i, cut)
             && Distinct(Ids(n))
    requires KidsOk(s, n.kids, n.keys, hi, false) && PageOk(s, n, hi, false) && lo <= q < hi
             && Route(n.keys, q) == FirstAt(j, i, cut)
    requires n.id != n.kids[i].id && n.id != n.kids[i + 1].id
    requires Lower(n.keys, lo, Route(n.keys, q)) <= q < Upper(n.keys, hi, Route(n.keys, q))
    ensures var x := FirstPage(n, j, i, cut);
            Lookup(s[x.id := Image(x)], n.id, q, h) == Get(Contents(n.kids[Route(n.keys, q)]), q)
  {
    var x := FirstPage(n, j, i, cut);
    var s' := s[x.id := Image(x)];
    FirstHolds(s, n, j, i, cut, hi);
    var xlo, xhi := FirstIsGained(n, j, i, cut, order, lo, hi, h);
    GainedAnswers(s', n, x, order, lo, hi, h, xlo, xhi, q);
  }

  lemma {:induction false} GainedAnswers(s: Store, n: Tree, x: Tree, order: nat, lo: int, hi: int, h: nat, xlo: int,
      xhi: int, q: Key)
    requires n.Nd? && |n.kids| == |n.keys| + 1 && h > 0 && PageOk(s, n, hi, false) && q < hi && Holds(s, x, xhi, false)
    requires FirstGains(x, n, Route(n.keys, q), order, lo, hi, h, xlo, xhi)
    requires Lower(n.keys, lo, Route(n.keys, q)) <= q < Upper(n.keys, hi, Route(n.keys, q))
    ensures Lookup(s, n.id, q, h) == Get(Contents(n.kids[Route(n.keys, q)]), q)
  {
    PageStep(s, n, q, hi, h);
    LookupBody(s, x, q, order, xlo, xhi, h - 1);
  }

  /** A key of any other child. */
  lemma {:induction false} FirstPassed(s: Store, n: Tree, j: nat, i: nat, cut: Option<nat>, order: nat, lo: int,
      hi: int, h: nat, q: Key)
    requires Deficient(n, j, order, lo, hi, h) && Linked(n) && Mendable(n, j) && IsMend(n, j, order, i, cut)
             && Distinct(Ids(n))
    requires KidsOk(s, n.kids, n.keys, hi, false) && PageOk(s, n, hi, false) && lo <= q < hi
             && Route(n.keys, q) != FirstAt(j, i, cut)
    requires n.id != n.kids[i].id && n.id != n.kids[i + 1].id
    requires Lower(n.keys, lo, Route(n.keys, q)) <= q < Upper(n.keys, hi, Route(n.keys, q))
    ensures var x := FirstPage(n, j, i, cut);
            Lookup(s[x.id := Image(x)], n.id, q, h) == Get(Contents(n.kids[Route(n.keys, q)]), q)
  {
    var x := FirstPage(n, j, i, cut);
    FirstHolds(s, n, j, i, cut, hi);
    OtherKid(s, n, FirstAt(j, i, cut), Route(n.keys, q), Image(x), hi);
    UnwrittenAnswers(s[x.id := Image(x)], n, Route(n.keys, q), q, order, lo, hi, h, j);
  }

  // ---- Every part but one ---------------------------------------------------------------------------

  /** After the first record of a deletion every lookup finds the new map, unless just the parent's record of a last
      borrow is missing. */
  lemma {:induction false} DelPrefix(s: Store, t: Tree, k: Key, order: nat, least: nat, lo: int, hi: int, h: nat,
                                     after: Option<PageId>, m: nat, q: Key)
    requires Deletable(t, order, least, lo, hi, h, after) && lo <= k < hi && lo <= q < hi
    requires Holds(s, t, hi, false) && Distinct(Ids(t)) && 0 < m <= |Del(t, k, order).log|
    requires !(BorrowEnds(t, k, order) && m == |Del(t, k, order).log| - 1)
    ensures Lookup(Replay(s, Del(t, k, order).log[..m]), t.id, q, h) == AfterRemove(Contents(t), k, q)
    decreases t
  {
    if t.Lf? {
      assert Del(t, k, order).log[..m] == Del(t, k, order).log;
      ReplayOne(s, Del(t, k, order).log[0]);
      GetRemove(t.entries, k, q);
    } else {
      var j, d, n := DelStep(t, k, order, least, lo, hi, h, after);
      var l, u := Lower(t.keys, lo, j), Upper(t.keys, hi, j);
      RouteBounds(t.keys, lo, hi, k);
      if m <= |d.log| {
        EarlyPart(t, k, order, m);
        if Route(t.keys, q) == j {
          ChildBounds(s, t, q, order, least, lo, hi, h, j);
          KidOnly(s, t, hi, j, false);
          DelPrefix(s, t.kids[j], k, order, order / 2, l, u, h - 1, Follower(t.kids, after, j), m, q);
        }
        DelTouchesOnly(t.kids[j], k, order, order / 2, l, u, h - 1, Follower(t.kids, after, j));
        DelEarly(s, t, j, d.log, order, lo, hi, h, m, q);
      } else {
        DelLate(s, t, k, order, least, lo, hi, h, after, m, q);
      }
    }
  }

  /** What is logged below the child that is deleted from comes first, and a borrow there ends the deletion. */
  lemma {:induction false} EarlyPart(t: Tree, k: Key, order: nat, m: nat)
    requires order >= 2 && t.Nd? && |t.kids| == |t.keys| + 1 && m <= |Del(t.kids[Route(t.keys, k)], k, order).log|
    requires NumKeys(t.kids[Route(t.keys, k)]) >= order / 2
    ensures var d := Del(t.kids[Route(t.keys, k)], k, order);
            && |d.log| <= |Del(t, k, order).log| && Del(t, k, order).log[..m] == d.log[..m]
            && (BorrowEnds(t.kids[Route(t.keys, k)], k, order) ==>
            BorrowEnds(t, k, order) && Del(t, k, order).log == d.log)
  {
    if BorrowEnds(t.kids[Route(t.keys, k)], k, order) {
      BorrowKeeps(t.kids[Route(t.keys, k)], k, order);
    }
  }

  lemma {:induction false} DelLate(s: Store, t: Tree, k: Key, order: nat, least: nat, lo: int, hi: int, h: nat,
                                   after: Option<PageId>, m: nat, q: Key)
    requires t.Nd? && Deletable(t, order, least, lo, hi, h, after) && lo <= k < hi && lo <= q < hi
    requires Holds(s, t, hi, false) && Distinct(Ids(t))
             && |Del(t.kids[Route(t.keys, k)], k, order).log| < m <= |Del(t, k, order).log|
    requires !(BorrowEnds(t, k, order) && m == |Del(t, k, order).log| - 1)
    ensures Lookup(Replay(s, Del(t, k, order).log[..m]), t.id, q, h) == AfterRemove(Contents(t), k, q)
  {
    var log := Del(t, k, order).log;
    if m == |log| {
      assert log[..m] == log;
      WholeDelete(s, t, k, order, least, lo, hi, h, after, q);
    } else {
      var j := Route(t.keys, k);
      var d := Del(t.kids[j], k, order);
      var n := Nd(t.id, t.keys, t.kids[j := d.node]);
      var i, cut := RepairHere(t, k, order, least, lo, hi, h, after, j, d, n);
      FirstPart(d.log, n, j, i, cut, log, m);
      var x := FirstPage(n, j, i, cut);
      ReplayAppend(s, d.log, [Write(x)]);
      ReplayOne(Replay(s, d.log), Write(x));
      BeforeRepair(s, t, k, order, least, lo, hi, h, after, j, d, n, false);
      FirstRecord(Replay(s, d.log), t, j, d.node, n, k, i, cut, order, lo, hi, h, q);
    }
  }

  /** All but the last record of a repair, when that is not the parent's after a borrow, is the first record. */
  lemma FirstPart(before: seq<Change>, n: Tree, j: nat, i: nat, cut: Option<nat>, log: seq<Change>, m: nat)
    requires Repairable(n, i, cut) && (i == j || i + 1 == j)
    requires log == before + RepairLog(OutcomeAt(n, i, cut), Repaired(n, i, cut), i == j)
    requires |before| < m < |log| && !(cut.Some? && m == |log| - 1)
    ensures log[..m] == before + [Write(FirstPage(n, j, i, cut))]
  {
  }

  lemma {:induction false} WholeDelete(s: Store, t: Tree, k: Key, order: nat, least: nat, lo: int, hi: int, h: nat,
      after: Option<PageId>, q: Key)
    requires t.Nd? && Deletable(t, order, least, lo, hi, h, after) && lo <= k < hi && lo <= q < hi
    requires Holds(s, t, hi, false) && Distinct(Ids(t))
    ensures Lookup(Replay(s, Del(t, k, order).log), t.id, q, h) == AfterRemove(Contents(t), k, q)
  {
    var d := Del(t, k, order);
    DelReplay(s, t, k, order, least, lo, hi, h, after, false);
    DelSound(t, k, order, least, lo, hi, h, after);
    DelContents(t, k, order, least, lo, hi, h, after);
    DelId(t, k, order);
    LookupBody(Replay(s, d.log), d.node, q, order, lo, hi, h);
    Ordered(t, order, least, lo, hi, h);
    GetRemove(Contents(t), k, q);
  }

  /** The repair of this node, when its child has lost one key too many. */
  lemma {:induction false} RepairHere(t: Tree, k: Key, order: nat, least: nat, lo: int, hi: int, h: nat,
      after: Option<PageId>, j: nat, d: Fixed, n: Tree)
    returns (i: nat, cut: Option<nat>)
    requires t.Nd? && Deletable(t, order, least, lo, hi, h, after) && lo <= k < hi && Distinct(Ids(t))
    requires |t.kids| == |t.keys| + 1 && j == Route(t.keys, k) && d == Del(t.kids[j], k, order)
             && n == Nd(t.id, t.keys, t.kids[j := d.node])
    requires |d.log| < |Del(t, k, order).log|
    ensures Repairs(t, j, d.node, n, k, i, cut, order, lo, hi, h) && BorrowEnds(t, k, order) == cut.Some?
    ensures Del(t, k, order).log == d.log + RepairLog(OutcomeAt(n, i, cut), Repaired(n, i, cut), i == j)
  {
    var j', d', n' := DelStep(t, k, order, least, lo, hi, h, after);
    var l, u := Lower(t.keys, lo, j), Upper(t.keys, hi, j);
    RouteBounds(t.keys, lo, hi, k);
    DelContents(t.kids[j], k, order, order / 2, l, u, h - 1, Follower(t.kids, after, j));
    DelId(t.kids[j], k, order);
    i, cut := MendIsRepair(n, j, order, lo, hi, h);
  }

  /** The store before the repair. */
  lemma {:induction false} BeforeRepair(s: Store, t: Tree, k: Key, order: nat, least: nat, lo: int, hi: int, h: nat,
                                        after: Option<PageId>, j: nat, d: Fixed, n: Tree, exact: bool)
    requires t.Nd? && Deletable(t, order, least, lo, hi, h, after) && lo <= k < hi && Distinct(Ids(t))
             && Holds(s, t, hi, exact)
    requires |t.kids| == |t.keys| + 1 && j == Route(t.keys, k) && d == Del(t.kids[j], k, order)
             && n == Nd(t.id, t.keys, t.kids[j := d.node])
    ensures KidsOk(Replay(s, d.log), n.kids, n.keys, hi, exact) && PageOk(Replay(s, d.log), n, hi, exact)
  {
    var j', d', n' := DelStep(t, k, order, least, lo, hi, h, after);
    var l, u := Lower(t.keys, lo, j), Upper(t.keys, hi, j);
    RouteBounds(t.keys, lo, hi, k);
    KidOnly(s, t, hi, j, exact);
    DelReplay(s, t.kids[j], k, order, order / 2, l, u, h - 1, Follower(t.kids, after, j), exact);
    DelSiblings(s, t, k, order, j, l, u, hi, h - 1, Follower(t.kids, after, j), exact);
    SpliceOne(Replay(s, d.log), t, hi, j, d.node, exact);
    DelId(t.kids[j], k, order);
    assert Image(n) == Image(t);
  }

  // ---- The one part that loses a key -----------------------------------------------------------------

  lemma RouteIs(keys: seq<Key>, lo: int, hi: int, r: nat, q: int)
    requires Separators(keys, lo, hi) && r <= |keys| && Lower(keys, lo, r) <= q < Upper(keys, hi, r)
    ensures Route(keys, q) == r
  {
  }

  lemma {:induction false} BodyWider(t: Tree, order: nat, lo: int, hi: int, h: nat, lo': int, hi': int)
    requires Body(t, order, lo, hi, h) && lo' <= lo && hi <= hi'
    ensures Body(t, order, lo', hi', h)
  {
    if t.Nd? {
      forall i {:trigger t.kids[i]} | 0 <= i < |t.kids|
        ensures Shape(t.kids[i], order, order / 2, Lower(t.keys, lo', i), Upper(t.keys, hi', i), h - 1)
      {
        ShapeWider(t.kids[i], order, order / 2, Lower(t.keys, lo, i), Upper(t.keys, hi, i), h - 1,
          Lower(t.keys, lo', i), Upper(t.keys, hi', i));
      }
    }
  }

  /** A subtree that is full enough has an entry. */
  lemma {:induction false} HasEntry(t: Tree, order: nat, least: nat, lo: int, hi: int, h: nat)
    requires order >= 2 && Shape(t, order, least, lo, hi, h) && least >= 1
    ensures Contents(t) != []
    decreases t
  {
    if t.Nd? {
      HasEntry(t.kids[0], order, order / 2, Lower(t.keys, lo, 0), Upper(t.keys, hi, 0), h - 1);
    }
  }

  /** A key moves: the gaining side has more entries than before. */
  lemma {:induction false} KeyMoves(a: Tree, sep: Key, b: Tree, c: nat, left: bool, p: Two, order: nat, lo: int,
      hi: int, h: nat)
    requires order >= 2 && Recut(a, sep, b, c, left, p, order, lo, hi, h)
    ensures if left then |Contents(p.left)| > |Contents(a)| else |Contents(p.left)| < |Contents(a)|
  {
    var m := Merged(a, sep, b);
    if a.Nd? {
      if left {
        assert p.left.kids == a.kids + [b.kids[0]];
        ContentsAppend(a.kids, [b.kids[0]]);
        Single(b.kids[0]);
        HasEntry(b.kids[0], order, order / 2, Lower(b.keys, sep, 0), Upper(b.keys, hi, 0), h - 1);
      } else {
        var n := |a.kids| - 1;
        assert p.left.kids == a.kids[..n] && a.kids == a.kids[..n] + [a.kids[n]];
        ContentsAppend(a.kids[..n], [a.kids[n]]);
        Single(a.kids[n]);
        HasEntry(a.kids[n], order, order / 2, Lower(a.keys, lo, n), Upper(a.keys, sep, n), h - 1);
      }
    }
  }

  /** The key that is in neither page where the parent's old record looks for it. */
  lemma {:induction false} LostKey(a: Tree, sep: Key, b: Tree, c: nat, left: bool, p: Two, order: nat, lo: int, hi: int,
      h: nat) returns (q: Key)
    requires order >= 2 && Recut(a, sep, b, c, left, p, order, lo, hi, h)
    ensures if left then sep <= q < hi && Get(Contents(b), q).Some? && Get(Contents(p.right), q) == None
            else lo <= q < sep && Get(Contents(a), q).Some? && Get(Contents(p.left), q) == None
  {
    RecutParts(a, sep, b, c, left, p, order, lo, hi, h);
    KeyMoves(a, sep, b, c, left, p, order, lo, hi, h);
    var all, x := Contents(a) + Contents(b), Contents(a);
    assert all == Contents(p.left) + Contents(p.right);
    if left {
      var e := all[|x|];
      assert e == Contents(p.left)[|x|];
      MovedFirst(a, b, p, |x|);
      assert e == Contents(b)[0];
      q := e.key;
      AbsentKey(Contents(p.right), q);
    } else {
      var e := all[|x| - 1];
      assert e == x[|x| - 1] && e == Contents(p.right)[|x| - 1 - |Contents(p.left)|];
      q := e.key;
      GetFound(x, q);
      AbsentKey(Contents(p.left), q);
    }
  }

  /** The other side has something, and its first entry is the one that moved. */
  lemma {:induction false} MovedFirst(a: Tree, b: Tree, p: Two, n: nat)
    requires n == |Contents(a)| < |Contents(p.left)|
             && Contents(a) + Contents(b) == Contents(p.left) + Contents(p.right)
    ensures Contents(b) != [] && Contents(b)[0] == (Contents(a) + Contents(b))[n]
            && Get(Contents(b), Contents(b)[0].key).Some?
  {
    assert |Contents(a)| + |Contents(b)| == |Contents(p.left)| + |Contents(p.right)|;
  }

  /** Both pages of a borrow are written, and the parent's is not: one lookup is wrong. */
  lemma {:induction false} TwoRecords(s: Store, t: Tree, j: nat, c: Tree, n: Tree, k: Key, i: nat, cut: Option<nat>,
      order: nat, lo: int, hi: int, h: nat)
    returns (q: Key)
    requires Repairs(t, j, c, n, k, i, cut, order, lo, hi, h) && cut.Some? && 0 <= lo && hi <= KEY_LIMIT
    requires KidsOk(s, n.kids, n.keys, hi, true) && PageOk(s, n, hi, true)
    ensures lo <= q < hi && Lookup(BothWritten(s, n, i, cut), n.id, q, h) != AfterRemove(Contents(t), k, q)
  {
    RepairIds(t, j, c, n, k, i, cut, order, lo, hi, h);
    q := PairTorn(s, n, j, i, cut, order, lo, hi, h);
    NodeTruth(t, j, c, n, k, i, cut, order, lo, hi, h, q);
  }

  /** The store with both pages of a borrow written. */
  ghost function BothWritten(s: Store, n: Tree, i: nat, cut: Option<nat>): Store
    requires Repairable(n, i, cut) && cut.Some?
  {
    var p := Cut(Merged(n.kids[i], n.keys[i], n.kids[i + 1]), cut.value, n.kids[i + 1].id);
    s[n.kids[i].id := Image(p.left)][n.kids[i + 1].id := Image(p.right)]
  }

  lemma {:induction false} PairTorn(s: Store, n: Tree, j: nat, i: nat, cut: Option<nat>, order: nat, lo: int, hi: int,
      h: nat) returns (q: Key)
    requires Deficient(n, j, order, lo, hi, h) && Linked(n) && Mendable(n, j) && IsMend(n, j, order, i, cut)
             && cut.Some?
    requires Distinct(Ids(n)) && KidsOk(s, n.kids, n.keys, hi, true) && PageOk(s, n, hi, true)
    requires n.id != n.kids[i].id && n.id != n.kids[i + 1].id
    ensures lo <= q < hi && Lookup(BothWritten(s, n, i, cut), n.id, q, h) != Get(Contents(n.kids[Route(n.keys, q)]), q)
  {
    var a, sep, b := n.kids[i], n.keys[i], n.kids[i + 1];
    var l, u := Lower(n.keys, lo, i), Upper(n.keys, hi, i + 1);
    var p := Cut(Merged(a, sep, b), cut.value, b.id);
    var xlo, xhi := FirstIsGained(n, j, i, cut, order, lo, hi, h);
    BothHold(s, n, i, cut, hi);
    q := WhereLost(BothWritten(s, n, i, cut), n, i, p, cut.value, i == j, order, lo, hi, h);
  }

  lemma {:induction false} WhereLost(s: Store, n: Tree, i: nat, p: Two, c: nat, left: bool, order: nat, lo: int,
      hi: int, h: nat) returns (q: Key)
    requires order >= 2 && n.Nd? && |n.kids| == |n.keys| + 1 && i < |n.keys| && h > 0 && Separators(n.keys, lo, hi)
             && PageOk(s, n, hi, false)
    requires Recut(n.kids[i], n.keys[i], n.kids[i + 1], c, left, p, order, Lower(n.keys, lo, i),
             Upper(n.keys, hi, i + 1), h - 1)
    requires Holds(s, p.left, p.sep, true) && Holds(s, p.right, Upper(n.keys, hi, i + 1), true)
    ensures lo <= q < hi && Lookup(s, n.id, q, h) != Get(Contents(n.kids[Route(n.keys, q)]), q)
  {
    var l, u := Lower(n.keys, lo, i), Upper(n.keys, hi, i + 1);
    q := LostKey(n.kids[i], n.keys[i], n.kids[i + 1], c, left, p, order, l, u, h - 1);
    RecutParts(n.kids[i], n.keys[i], n.kids[i + 1], c, left, p, order, l, u, h - 1);
    if left {
      RouteIs(n.keys, lo, hi, i + 1, q);
      LostLookup(s, n, i + 1, p.right, order, lo, hi, h, p.sep, u, q);
    } else {
      RouteIs(n.keys, lo, hi, i, q);
      LostLookup(s, n, i, p.left, order, lo, hi, h, l, p.sep, q);
    }
  }

  lemma {:induction false} BothHold(s: Store, n: Tree, i: nat, cut: Option<nat>, hi: int)
    requires Repairable(n, i, cut) && cut.Some? && KidsOk(s, n.kids, n.keys, hi, true) && Distinct(Ids(n))
    ensures var p := Cut(Merged(n.kids[i], n.keys[i], n.kids[i + 1]), cut.value, n.kids[i + 1].id);
            var s' := BothWritten(s, n, i, cut);
            && Holds(s', p.left, p.sep, true) && Holds(s', p.right, Upper(n.keys, hi, i + 1), true)
            && (PageOk(s, n, hi, true) ==> PageOk(s', n, hi, true))
  {
    var a, sep, b := n.kids[i], n.keys[i], n.kids[i + 1];
    var p := Cut(Merged(a, sep, b), cut.value, b.id);
    var s' := s[a.id := Image(p.left)][b.id := Image(p.right)];
    PairIds(n, i);
    RepairedKids(n, i, cut);
    PairFrame(s, s', n, i, hi, true);
    OutcomeHolds(s', a, sep, b, cut, Upper(n.keys, hi, i + 1), true);
  }

  /** A page that has lost the key is where it is looked for. */
  lemma {:induction false} LostLookup(s: Store, n: Tree, r: nat, x: Tree, order: nat, lo: int, hi: int, h: nat,
      xlo: int, xhi: int, q: Key)
    requires n.Nd? && |n.kids| == |n.keys| + 1 && h > 0 && r < |n.kids| && r == Route(n.keys, q)
             && PageOk(s, n, hi, false) && q < hi
    requires x.id == n.kids[r].id && Body(x, order, xlo, xhi, h - 1) && Holds(s, x, xhi, true)
    requires Get(Contents(x), q) == None && Get(Contents(n.kids[r]), q).Some?
    ensures Lookup(s, n.id, q, h) != Get(Contents(n.kids[r]), q)
  {
    PageStep(s, n, q, hi, h);
    var low, high := if q < xlo then q else xlo, if q < xhi then xhi else q + 1;
    BodyWider(x, order, xlo, xhi, h - 1, low, high);
    ExactBound(s, x, xhi, high);
    HoldsInexact(s, x, high);
    LookupBody(s, x, q, order, low, high, h - 1);
  }

  /** Without the last record of a log, a lookup does not find what the deletion leaves. */
  ghost predicate WrongAt(s: Store, t: Tree, k: Key, log: seq<Change>, h: nat, q: Key) {
    |log| > 1 && Lookup(Replay(s, log[..|log| - 1]), t.id, q, h) != AfterRemove(Contents(t), k, q)
  }

  /** A crash between the second record of a last borrow and the parent's makes a lookup wrong. */
  lemma {:induction false} DelTorn(s: Store, t: Tree, k: Key, order: nat, least: nat, lo: int, hi: int, h: nat,
      after: Option<PageId>) returns (q: Key)
    requires Deletable(t, order, least, lo, hi, h, after) && lo <= k < hi && 0 <= lo && hi <= KEY_LIMIT
    requires Holds(s, t, hi, true) && Distinct(Ids(t)) && BorrowEnds(t, k, order)
    ensures lo <= q < hi && WrongAt(s, t, k, Del(t, k, order).log, h, q)
    decreases t
  {
    var j, d, n := DelStep(t, k, order, least, lo, hi, h, after);
    var l, u := Lower(t.keys, lo, j), Upper(t.keys, hi, j);
    RouteBounds(t.keys, lo, hi, k);
    if NumKeys(d.node) >= order / 2 {
      ChildInside(t, order, lo, hi, h, j);
      KidOnly(s, t, hi, j, true);
      q := DelTorn(s, t.kids[j], k, order, order / 2, l, u, h - 1, Follower(t.kids, after, j));
      DelTouchesOnly(t.kids[j], k, order, order / 2, l, u, h - 1, Follower(t.kids, after, j));
      TornBelow(s, t, j, k, d.log, order, lo, hi, h, q);
    } else {
      q := TornHere(s, t, k, order, least, lo, hi, h, after);
    }
  }

  lemma {:induction false} TornBelow(s: Store, t: Tree, j: nat, k: Key, log: seq<Change>, order: nat, lo: int, hi: int,
      h: nat, q: Key)
    requires Formed(t, order, lo, hi, h) && j < |t.kids| && Distinct(Ids(t)) && Holds(s, t, hi, true) && lo <= q < hi
    requires forall id {:trigger id in Touched(log)} :: id in Touched(log) ==> id in Ids(t.kids[j])
    requires Lower(t.keys, lo, j) <= q < Upper(t.keys, hi, j) && WrongAt(s, t.kids[j], k, log, h - 1, q)
    ensures WrongAt(s, t, k, log, h, q)
  {
    RouteIs(t.keys, lo, hi, j, q);
    HoldsInexact(s, t, hi);
    DelEarly(s, t, j, log, order, lo, hi, h, |log| - 1, q);
  }

  lemma {:induction false} ChildInside(t: Tree, order: nat, lo: int, hi: int, h: nat, j: nat)
    requires Formed(t, order, lo, hi, h) && j < |t.kids|
    ensures lo <= Lower(t.keys, lo, j) && Upper(t.keys, hi, j) <= hi
  {
  }

  lemma {:induction false} TornHere(s: Store, t: Tree, k: Key, order: nat, least: nat, lo: int, hi: int, h: nat,
      after: Option<PageId>) returns (q: Key)
    requires t.Nd? && Deletable(t, order, least, lo, hi, h, after) && lo <= k < hi && 0 <= lo && hi <= KEY_LIMIT
    requires Holds(s, t, hi, true) && Distinct(Ids(t)) && BorrowEnds(t, k, order)
    requires |Del(t.kids[Route(t.keys, k)], k, order).log| < |Del(t, k, order).log|
    ensures lo <= q < hi && WrongAt(s, t, k, Del(t, k, order).log, h, q)
  {
    var log, j := Del(t, k, order).log, Route(t.keys, k);
    var d := Del(t.kids[j], k, order);
    var n := Nd(t.id, t.keys, t.kids[j := d.node]);
    var i, cut := RepairHere(t, k, order, least, lo, hi, h, after, j, d, n);
    BeforeRepair(s, t, k, order, least, lo, hi, h, after, j, d, n, true);
    q := TwoRecords(Replay(s, d.log), t, j, d.node, n, k, i, cut, order, lo, hi, h);
    RepairIds(t, j, d.node, n, k, i, cut, order, lo, hi, h);
    PairReplay(s, d.log, n, j, i, cut, log);
  }

  /** All but the last record of a deletion that ends in a borrow. */
  lemma {:induction false} PairReplay(s: Store, before: seq<Change>, n: Tree, j: nat, i: nat, cut: Option<nat>,
      log: seq<Change>)
    requires Repairable(n, i, cut) && cut.Some? && n.kids[i].id != n.kids[i + 1].id
    requires log == before + RepairLog(OutcomeAt(n, i, cut), Repaired(n, i, cut), i == j)
    ensures |log| > 1 && Replay(s, log[..|log| - 1]) == BothWritten(Replay(s, before), n, i, cut)
  {
    var out := OutcomeAt(n, i, cut);
    RepairedKids(n, i, cut);
    TwoWrites(Replay(s, before), out[0], out[1]);
    var two := if i == j then [Write(out[0]), Write(out[1])] else [Write(out[1]), Write(out[0])];
    assert log[..|log| - 1] == before + two;
    ReplayAppend(s, before, two);
  }

  lemma TwoWrites(s: Store, x: Tree, y: Tree)
    requires x.id != y.id
    ensures Replay(s, [Write(x), Write(y)]) == s[x.id := Image(x)][y.id := Image(y)]
    ensures Replay(s, [Write(y), Write(x)]) == s[x.id := Image(x)][y.id := Image(y)]
  {
    ReplayTwo(s, Write(x), Write(y));
    ReplayTwo(s, Write(y), Write(x));
  }

  // ---- A whole deletion -----------------------------------------------------------------------------

  /** Every lookup finds what the map says. */
  ghost predicate AllAnswered(base: Store, db: Db, op: Op, order: nat, m: nat)
    requires order >= 2 && m <= |DoLog(db, op, order)|
  {
    forall q: Key :: TornLookup(base, db, op, order, m, q) == Answer(Update(AsMap(Contents(db.tree)), op), q)
  }

  /** Crash inside a deletion, whatever pages were stale before: any part of its log leaves every lookup right, unless
      it lacks just the parent's record of a last borrow. */
  lemma {:induction false} DeleteSafe(base: Store, db: Db, k: Key, order: nat, m: nat)
    requires Healthy(db, order) && Holds(base, db.tree, KEY_LIMIT, false) && 0 < m <= |DoLog(db, Delete(k), order)|
    requires !(BorrowEnds(db.tree, k, order) && m == |DoLog(db, Delete(k), order)| - 1)
    ensures AllAnswered(base, db, Delete(k), order, m)
  {
    forall q: Key ensures TornLookup(base, db, Delete(k), order, m, q) ==
      Answer(Update(AsMap(Contents(db.tree)), Delete(k)), q)
    {
      SafePart(base, db, k, order, m, q);
    }
  }

  /** Crash inside a deletion from a checkpoint: any part of its log leaves every lookup right, except the one that
      lacks just the parent's record of a last borrow, and that one does not. */
  lemma {:induction false} DeleteTorn(base: Store, db: Db, k: Key, order: nat, m: nat)
    requires Healthy(db, order) && Holds(base, db.tree, KEY_LIMIT, true) && 0 < m <= |DoLog(db, Delete(k), order)|
    ensures AllAnswered(base, db, Delete(k), order, m)
       <==> !(BorrowEnds(db.tree, k, order) && m == |DoLog(db, Delete(k), order)| - 1)
  {
    var t, log, least := db.tree, DoLog(db, Delete(k), order), RootLeast(db.tree);
    HoldsInexact(base, t, KEY_LIMIT);
    if BorrowEnds(t, k, order) && m == |log| - 1 {
      BorrowNoCollapse(t, k, order, least, 0, KEY_LIMIT, db.height, None);
      var q := DelTorn(base, t, k, order, least, 0, KEY_LIMIT, db.height, None);
      DelNoMeta(t, k, order, t.id);
      NoMeta(t.id, log[..m]);
      RemovedAnswer(db, k, order, q);
      assert TornLookup(base, db, Delete(k), order, m, q) != Answer(Update(AsMap(Contents(t)), Delete(k)), q);
    } else {
      DeleteSafe(base, db, k, order, m);
    }
  }

  lemma {:induction false} RemovedAnswer(db: Db, k: Key, order: nat, q: Key)
    requires Healthy(db, order)
    ensures AfterRemove(Contents(db.tree), k, q) == Answer(Update(AsMap(Contents(db.tree)), Delete(k)), q)
  {
    MapAgrees(Contents(db.tree), q);
  }

  /** A deletion that ends in a borrow leaves the root its keys. */
  lemma {:induction false} BorrowNoCollapse(t: Tree, k: Key, order: nat, least: nat, lo: int, hi: int, h: nat,
      after: Option<PageId>)
    requires Deletable(t, order, least, lo, hi, h, after) && BorrowEnds(t, k, order)
    ensures Collapse(Del(t, k, order)) == Del(t, k, order).node
  {
    BorrowKeeps(t, k, order);
  }

  lemma {:induction false} SafePart(base: Store, db: Db, k: Key, order: nat, m: nat, q: Key)
    requires Healthy(db, order) && Holds(base, db.tree, KEY_LIMIT, false) && 0 < m <= |DoLog(db, Delete(k), order)|
    requires !(BorrowEnds(db.tree, k, order) && m == |DoLog(db, Delete(k), order)| - 1)
    ensures TornLookup(base, db, Delete(k), order, m, q) == Answer(Update(AsMap(Contents(db.tree)), Delete(k)), q)
  {
    var t, log, least := db.tree, DoLog(db, Delete(k), order), RootLeast(db.tree);
    var d := Del(t, k, order);
    if m == |log| {
      assert log[..m] == log;
      WholeOp(base, db, Delete(k), order, q);
    } else {
      assert m <= |d.log| && log[..m] == d.log[..m];
      DelNoMeta(t, k, order, t.id);
      NoMeta(t.id, log[..m]);
      if BorrowEnds(t, k, order) {
        BorrowNoCollapse(t, k, order, least, 0, KEY_LIMIT, db.height, None);
      }
      DelPrefix(base, t, k, order, least, 0, KEY_LIMIT, db.height, None, m, q);
      RemovedAnswer(db, k, order, q);
    }
  }
}
