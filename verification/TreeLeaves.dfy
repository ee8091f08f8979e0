/** The leaves of a tree from left to right: what the leaf links thread together. */
module TreeLeaves {
  import opened Entries
  import opened Tree
  import opened TreeInsert

  function Leaves(t: Tree): seq<Tree> {
    match t
    case Lf(_, _, _) => [t]
    case Nd(_, _, kids) => LeavesOf(kids)
  }

  function LeavesOf(ts: seq<Tree>): seq<Tree> {
    if ts == [] then [] else Leaves(ts[0]) + LeavesOf(ts[1..])
  }

  /** The position of the leaf a key is routed to. */
  function LeafIndex(t: Tree, k: int): nat
    decreases t
  {
    if t.Lf? || |t.kids| != |t.keys| + 1 then 0
    else
      var j := Route(t.keys, k);
      |LeavesOf(t.kids[..j])| + LeafIndex(t.kids[j], k)
  }

  lemma {:induction false} LeavesAppend(a: seq<Tree>, b: seq<Tree>)
    ensures LeavesOf(a + b) == LeavesOf(a) + LeavesOf(b)
  {
    if a == [] {
      assert a + b == b;
    } else {
      assert (a + b)[1..] == a[1..] + b;
      LeavesAppend(a[1..], b);
    }
  }

  lemma {:induction false} LeavesAround(ts: seq<Tree>, j: nat)
    requires j < |ts|
    ensures LeavesOf(ts) == LeavesOf(ts[..j]) + Leaves(ts[j]) + LeavesOf(ts[j + 1..])
  {
    assert ts == ts[..j] + [ts[j]] + ts[j + 1..];
    LeavesAppend(ts[..j] + [ts[j]], ts[j + 1..]);
    LeavesAppend(ts[..j], [ts[j]]);
    assert [ts[j]][1..] == [];
  }

  /** Reading the leaves in order reads the contents. */
  lemma {:induction false} LeavesContents(t: Tree)
    ensures ContentsOf(Leaves(t)) == Contents(t)
    ensures forall l :: l in Leaves(t) ==> l.Lf?
    decreases t, 1
  {
    if t.Lf? {
      Single(t);
    } else {
      LeavesOfContents(t.kids);
    }
  }

  lemma {:induction false} LeavesOfContents(ts: seq<Tree>)
    ensures ContentsOf(LeavesOf(ts)) == ContentsOf(ts)
    ensures forall l :: l in LeavesOf(ts) ==> l.Lf?
    decreases ts, 0
  {
    if ts != [] {
      LeavesContents(ts[0]);
      LeavesOfContents(ts[1..]);
      ContentsAppend(Leaves(ts[0]), LeavesOf(ts[1..]));
    }
  }

  /** Every leaf is a page of the tree, and the store has its exact image. */
  lemma {:induction false} LeavesHeld(s: Store, t: Tree, hi: int, l: Tree)
    requires Holds(s, t, hi, true) && l in Leaves(t)
    ensures l.Lf? && l.id in s && s[l.id] == Leaf(l.entries, l.next)
    decreases t, 1
  {
    if t.Nd? {
      LeavesOfHeld(s, t.kids, t.keys, hi, l);
    }
  }

  lemma {:induction false} LeavesOfHeld(s: Store, ts: seq<Tree>, keys: seq<Key>, hi: int, l: Tree)
    requires |ts| <= |keys| + 1 && l in LeavesOf(ts)
    requires forall i {:trigger ts[i]} :: 0 <= i < |ts| ==> Holds(s, ts[i], Upper(keys, hi, i), true)
    ensures l.Lf? && l.id in s && s[l.id] == Leaf(l.entries, l.next)
    decreases ts, 0
  {
    var n := |ts| - 1;
    LeavesAround(ts, n);
    assert ts[n + 1..] == [];
    if l in Leaves(ts[n]) {
      LeavesHeld(s, ts[n], Upper(keys, hi, n), l);
    } else {
      LeavesOfHeld(s, ts[..n], keys, hi, l);
    }
  }

  /** The leaves are linked exactly when each leaf's link names the next one and the last names `after`. */
  ghost predicate Threaded(ls: seq<Tree>, after: Option<PageId>) {
    forall i :: 0 <= i < |ls| ==> LinkOk(ls, after, i)
  }

  ghost predicate LinkOk(ls: seq<Tree>, after: Option<PageId>, i: nat)
    requires i < |ls|
  {
    ls[i].Lf? && ls[i].next == if i + 1 < |ls| then Some(ls[i + 1].id) else after
  }

  lemma ThreadedAppend(a: seq<Tree>, b: seq<Tree>, after: Option<PageId>)
    requires Threaded(b, after) && Threaded(a, if b == [] then after else Some(b[0].id))
    ensures Threaded(a + b, after)
  {
    var c := a + b;
    forall i | 0 <= i < |c| ensures LinkOk(c, after, i) {
      if i < |a| {
        assert LinkOk(a, if b == [] then after else Some(b[0].id), i);
      } else {
        assert LinkOk(b, after, i - |a|);
      }
    }
  }

  lemma {:induction false} ChainThreads(t: Tree, order: nat, least: nat, lo: int, hi: int, h: nat,
      after: Option<PageId>)
    requires Shape(t, order, least, lo, hi, h) && Chained(t, after)
    ensures Threaded(Leaves(t), after) && Leaves(t) != [] && Leaves(t)[0].id == FirstLeaf(t)
    decreases t, 1
  {
    if t.Nd? {
      forall i | 0 <= i < |t.kids| ensures Piece(t.kids, after, i) {
        ChainThreads(t.kids[i], order, order / 2, Lower(t.keys, lo, i), Upper(t.keys, hi, i), h - 1,
                     Follower(t.kids, after, i));
      }
      KidsThread(t.kids, after, 0);
      assert t.kids[0..] == t.kids;
    }
  }

  /** The leaves below child i are threaded up to the first leaf of the next child. */
  ghost predicate Piece(ts: seq<Tree>, after: Option<PageId>, i: nat)
    requires i < |ts|
  {
    && Threaded(Leaves(ts[i]), Follower(ts, after, i))
    && Leaves(ts[i]) != [] && Leaves(ts[i])[0].id == FirstLeaf(ts[i])
  }

  lemma {:induction false} KidsThread(ts: seq<Tree>, after: Option<PageId>, i: nat)
    requires i < |ts| && forall j :: i <= j < |ts| ==> Piece(ts, after, j)
    ensures Threaded(LeavesOf(ts[i..]), after) && LeavesOf(ts[i..]) != [] && LeavesOf(ts[i..])[0].id == FirstLeaf(ts[i])
    decreases |ts| - i
  {
    assert Piece(ts, after, i);
    assert ts[i..] == [ts[i]] + ts[i + 1..];
    if i + 1 < |ts| {
      KidsThread(ts, after, i + 1);
    } else {
      assert ts[i + 1..] == [];
    }
    ConsThread(ts[i], ts[i + 1..], after, Follower(ts, after, i));
  }

  lemma {:induction false} ConsThread(t: Tree, rest: seq<Tree>, after: Option<PageId>, link: Option<PageId>)
    requires Threaded(Leaves(t), link) && Leaves(t) != [] && Threaded(LeavesOf(rest), after)
    requires link == if LeavesOf(rest) == [] then after else Some(LeavesOf(rest)[0].id)
    ensures Threaded(LeavesOf([t] + rest), after)
    ensures LeavesOf([t] + rest) == Leaves(t) + LeavesOf(rest)
  {
    assert ([t] + rest)[1..] == rest;
    ThreadedAppend(Leaves(t), LeavesOf(rest), after);
  }

  /** Everything left of the routed leaf is below the key, everything right of it is above. */
  lemma {:induction false} RoutedLeaf(t: Tree, k: int, order: nat, least: nat, lo: int, hi: int, h: nat)
    requires Shape(t, order, least, lo, hi, h)
    ensures LeafIndex(t, k) < |Leaves(t)|
    ensures AllBelow(ContentsOf(Leaves(t)[..LeafIndex(t, k)]), k)
    ensures AllAbove(ContentsOf(Leaves(t)[LeafIndex(t, k) + 1..]), k)
    decreases t
  {
    if t.Nd? {
      var j := Route(t.keys, k);
      var c := t.kids[j];
      RoutedLeaf(c, k, order, order / 2, Lower(t.keys, lo, j), Upper(t.keys, hi, j), h - 1);
      LeavesAround(t.kids, j);
      var a, b := LeavesOf(t.kids[..j]), LeavesOf(t.kids[j + 1..]);
      Inside(a, Leaves(c), b, LeafIndex(c, k));
      SidesOfRoute(t, k, order, lo, hi, h);
      BelowAppend(ContentsOf(a), ContentsOf(Leaves(c)[..LeafIndex(c, k)]), k);
      AboveAppend(ContentsOf(Leaves(c)[LeafIndex(c, k) + 1..]), ContentsOf(b), k);
    }
  }

  lemma BelowAppend(a: seq<Entry>, b: seq<Entry>, k: int)
    requires AllBelow(a, k) && AllBelow(b, k)
    ensures AllBelow(a + b, k)
  {
  }

  lemma AboveAppend(a: seq<Entry>, b: seq<Entry>, k: int)
    requires AllAbove(a, k) && AllAbove(b, k)
    ensures AllAbove(a + b, k)
  {
  }

  lemma {:induction false} SidesOfRoute(t: Tree, k: int, order: nat, lo: int, hi: int, h: nat)
    requires Formed(t, order, lo, hi, h)
    ensures AllBelow(ContentsOf(LeavesOf(t.kids[..Route(t.keys, k)])), k)
    ensures AllAbove(ContentsOf(LeavesOf(t.kids[Route(t.keys, k) + 1..])), k)
  {
    var j := Route(t.keys, k);
    LeftBelow(t.kids, order, t.keys, lo, hi, h - 1, j);
    RightAbove(t.kids, order, t.keys, lo, hi, h - 1, j);
    LeavesOfContents(t.kids[..j]);
    LeavesOfContents(t.kids[j + 1..]);
    if j == 0 {
      assert t.kids[..j] == [];
    }
    if j == |t.keys| {
      assert t.kids[j + 1..] == [];
    }
  }

  /** Where position i of the middle part lies in the whole. */
  lemma {:induction false} Inside(a: seq<Tree>, m: seq<Tree>, b: seq<Tree>, i: nat)
    requires i < |m|
    ensures var ts := a + m + b;
            && ContentsOf(ts[..|a| + i]) == ContentsOf(a) + ContentsOf(m[..i])
            && ContentsOf(ts[|a| + i + 1..]) == ContentsOf(m[i + 1..]) + ContentsOf(b)
  {
    var ts := a + m + b;
    assert ts[..|a| + i] == a + m[..i];
    assert ts[|a| + i + 1..] == m[i + 1..] + b;
    ContentsAppend(a, m[..i]);
    ContentsAppend(m[i + 1..], b);
  }

  /** One step of the descent keeps the position of the routed leaf. */
  lemma {:induction false} LeafIndexStep(t: Tree, k: int)
    requires t.Nd? && |t.kids| == |t.keys| + 1
    ensures var j := Route(t.keys, k);
            LeafIndex(t.kids[j], k) < |Leaves(t.kids[j])| ==>
              LeafIndex(t, k) < |Leaves(t)| && Leaves(t)[LeafIndex(t, k)] == Leaves(t.kids[j])[LeafIndex(t.kids[j], k)]
  {
    LeavesAround(t.kids, Route(t.keys, k));
  }

  /** The leaf a key is routed to decides the lookup. */
  lemma {:induction false} RoutedGet(t: Tree, k: int, order: nat, least: nat, lo: int, hi: int, h: nat)
    requires Shape(t, order, least, lo, hi, h)
    ensures LeafIndex(t, k) < |Leaves(t)| && Leaves(t)[LeafIndex(t, k)].Lf?
    ensures Get(Leaves(t)[LeafIndex(t, k)].entries, k) == Get(Contents(t), k)
  {
    RoutedLeaf(t, k, order, least, lo, hi, h);
    LeavesContents(t);
    var ls, i := Leaves(t), LeafIndex(t, k);
    Around(ls, i);
    assert ls[i] in ls;
    var a, m, b := ContentsOf(ls[..i]), ls[i].entries, ContentsOf(ls[i + 1..]);
    GetAppend(a + m, b, k);
    GetAppend(a, m, k);
    AbsentKey(a, k);
    AbsentKey(b, k);
  }

  // ---- Descending to a leaf over pages ----------------------------------------------------

  /** A subtree of the root, in the store, whose routed leaf is the root's routed leaf. */
  datatype Stop = Stop(node: Tree, least: nat, lo: int, hi: int, h: nat)

  ghost predicate Reaches(store: Store, order: nat, t: Tree, s: Stop, k: int) {
    && Shape(s.node, order, s.least, s.lo, s.hi, s.h) && Holds(store, s.node, s.hi, true)
    && LeafIndex(s.node, k) < |Leaves(s.node)|
    && LeafIndex(t, k) < |Leaves(t)| && Leaves(t)[LeafIndex(t, k)] == Leaves(s.node)[LeafIndex(s.node, k)]
  }

  function Below(s: Stop, k: int, order: nat): Stop
    requires s.node.Nd? && |s.node.kids| == |s.node.keys| + 1 && s.h > 0
  {
    var j := Route(s.node.keys, k);
    Stop(s.node.kids[j], order / 2, Lower(s.node.keys, s.lo, j), Upper(s.node.keys, s.hi, j), s.h - 1)
  }

  lemma {:induction false} ReachBelow(store: Store, order: nat, t: Tree, s: Stop, k: int)
    requires Reaches(store, order, t, s, k) && s.node.Nd?
    ensures |s.node.kids| == |s.node.keys| + 1 && s.h > 0
    ensures Reaches(store, order, t, Below(s, k, order), k)
    ensures store[s.node.id] == Index(s.node.keys, KidIds(s.node.kids))
  {
    var b := Below(s, k, order);
    RoutedLeaf(b.node, k, order, b.least, b.lo, b.hi, b.h);
    LeafIndexStep(s.node, k);
  }

  // ---- Scanning along the links ------------------------------------------------------------

  /** What lies left of the leaf that a scan starts at is below the range. */
  lemma {:induction false} ScanStart(t: Tree, a: int, b: int, order: nat, least: nat, lo: int, hi: int, h: nat)
    requires Shape(t, order, least, lo, hi, h)
    ensures LeafIndex(t, a) < |Leaves(t)|
    ensures Range(ContentsOf(Leaves(t)[..LeafIndex(t, a)]), a, b) == []
  {
    RoutedLeaf(t, a, order, least, lo, hi, h);
    RangeEmpty(ContentsOf(Leaves(t)[..LeafIndex(t, a)]), a, b);
  }

  /** The entries read after j cells of leaf i, and how they grow. */
  function Read(ls: seq<Tree>, i: nat, j: nat): seq<Entry>
    requires i < |ls| && ls[i].Lf? && j <= |ls[i].entries|
  {
    ContentsOf(ls[..i]) + ls[i].entries[..j]
  }

  lemma {:induction false} ReadCell(ls: seq<Tree>, i: nat, j: nat, a: int, b: int)
    requires i < |ls| && ls[i].Lf? && j < |ls[i].entries|
    ensures var e := ls[i].entries[j];
            Range(Read(ls, i, j + 1), a, b) == Range(Read(ls, i, j), a, b) + if a <= e.key <= b then [e] else []
  {
    assert Read(ls, i, j + 1) == Read(ls, i, j) + [ls[i].entries[j]];
    RangeAppend(Read(ls, i, j), [ls[i].entries[j]], a, b);
    assert [ls[i].entries[j]][1..] == [];
  }

  lemma {:induction false} ReadLeaf(ls: seq<Tree>, i: nat)
    requires i < |ls| && ls[i].Lf?
    ensures Read(ls, i, |ls[i].entries|) == ContentsOf(ls[..i + 1])
    ensures Read(ls, i, 0) == ContentsOf(ls[..i])
  {
    assert ls[..i + 1] == ls[..i] + [ls[i]];
    ContentsAppend(ls[..i], [ls[i]]);
    Single(ls[i]);
  }

  /** What is read from cell j of leaf i on. */
  function Unread(ls: seq<Tree>, i: nat, j: nat): seq<Entry>
    requires i < |ls| && ls[i].Lf? && j <= |ls[i].entries|
  {
    ls[i].entries[j..] + ContentsOf(ls[i + 1..])
  }

  lemma {:induction false} ReadRest(t: Tree, i: nat, j: nat)
    requires i < |Leaves(t)| && Leaves(t)[i].Lf? && j <= |Leaves(t)[i].entries|
    ensures Contents(t) == Read(Leaves(t), i, j) + Unread(Leaves(t), i, j)
  {
    LeavesContents(t);
    Around(Leaves(t), i);
    CutMiddle(ContentsOf(Leaves(t)[..i]), Leaves(t)[i].entries, j, ContentsOf(Leaves(t)[i + 1..]));
  }

  lemma CutMiddle(a: seq<Entry>, es: seq<Entry>, j: nat, b: seq<Entry>)
    requires j <= |es|
    ensures a + es + b == (a + es[..j]) + (es[j..] + b)
  {
    assert es == es[..j] + es[j..];
  }

  /** Once a key beyond the range is met, everything after it is beyond the range too. */
  lemma {:induction false} PastEnd(t: Tree, i: nat, j: nat, a: int, b: int)
    requires Sorted(Contents(t)) && i < |Leaves(t)| && Leaves(t)[i].Lf? && j < |Leaves(t)[i].entries|
    requires b < Leaves(t)[i].entries[j].key
    ensures Range(Contents(t), a, b) == Range(Read(Leaves(t), i, j), a, b)
  {
    ReadRest(t, i, j);
    RangePast(Read(Leaves(t), i, j), Unread(Leaves(t), i, j), a, b);
  }

  /** The page of leaf i, and where its link leads. */
  lemma {:induction false} LeafPageAt(store: Store, t: Tree, order: nat, least: nat, lo: int, hi: int, h: nat, i: nat)
    requires Shape(t, order, least, lo, hi, h) && Chained(t, None) && Holds(store, t, hi, true) && i < |Leaves(t)|
    ensures var l := Leaves(t)[i];
            && l.Lf? && l.id in store && store[l.id] == Leaf(l.entries, l.next)
            && l.next == if i + 1 < |Leaves(t)| then Some(Leaves(t)[i + 1].id) else None
  {
    LeavesHeld(store, t, hi, Leaves(t)[i]);
    ChainThreads(t, order, least, lo, hi, h, None);
    assert LinkOk(Leaves(t), None, i);
  }

  /** Each leaf is sorted, being a part of the sorted contents. */
  lemma {:induction false} LeafSorted(t: Tree, order: nat, least: nat, lo: int, hi: int, h: nat, i: nat)
    requires Shape(t, order, least, lo, hi, h) && i < |Leaves(t)|
    ensures Leaves(t)[i].Lf? && Sorted(Leaves(t)[i].entries)
  {
    Ordered(t, order, least, lo, hi, h);
    LeavesContents(t);
    Around(Leaves(t), i);
    assert Leaves(t)[i] in Leaves(t);
    SortedMiddle(ContentsOf(Leaves(t)[..i]), Leaves(t)[i].entries, ContentsOf(Leaves(t)[i + 1..]));
  }
}
