/** Deletion as a function on trees: remove from the leaf, then borrow or merge on the way up. */
module TreeDelete {
  import opened Entries
  import opened Tree
  import opened Log
  import opened TreeInsert

  /** Two neighbouring subtrees and the separator between them. */
  datatype Two = Two(left: Tree, sep: Key, right: Tree)

  /** The outcome of repairing or deleting below a node: the node, what was logged, whether two children merged. */
  datatype Fixed = Fixed(node: Tree, merged: bool, log: seq<Change>)

  predicate Alike(a: Tree, b: Tree) {
    && a.Lf? == b.Lf?
    && (a.Nd? ==> |a.kids| == |a.keys| + 1)
    && (b.Nd? ==> |b.kids| == |b.keys| + 1)
  }

  /** The right sibling's first key moves left: directly between leaves, through the parent between index pages. */
  function BorrowRight(a: Tree, sep: Key, b: Tree): Two
    requires Alike(a, b) && NumKeys(b) >= 2
  {
    if a.Lf? then
      var e := b.entries[0];
      Two(Lf(a.id, Put(a.entries, e.key, e.val), a.next), b.entries[1].key, Lf(b.id, b.entries[1..], b.next))
    else
      Two(Nd(a.id, a.keys + [sep], a.kids + [b.kids[0]]), b.keys[0], Nd(b.id, b.keys[1..], b.kids[1..]))
  }

  /** The left sibling's last key moves right. */
  function BorrowLeft(a: Tree, sep: Key, b: Tree): Two
    requires Alike(a, b) && NumKeys(a) >= 2
  {
    var n := NumKeys(a) - 1;
    if a.Lf? then
      var e := a.entries[n];
      Two(Lf(a.id, a.entries[..n], a.next), e.key, Lf(b.id, Put(b.entries, e.key, e.val), b.next))
    else
      Two(Nd(a.id, a.keys[..n], a.kids[..n + 1]), a.keys[n], Nd(b.id, [sep] + b.keys, [a.kids[n + 1]] + b.kids))
  }

  /** The right sibling is absorbed; between index pages the separator comes down. */
  function Merged(a: Tree, sep: Key, b: Tree): Tree
    requires Alike(a, b)
  {
    if a.Lf? then Lf(a.id, a.entries + b.entries, b.next)
    else Nd(a.id, a.keys + [sep] + b.keys, a.kids + b.kids)
  }

  function SetPair(n: Tree, i: nat, p: Two): Tree
    requires n.Nd? && i < |n.keys| && |n.kids| == |n.keys| + 1
  {
    Nd(n.id, n.keys[i := p.sep], n.kids[..i] + [p.left, p.right] + n.kids[i + 2..])
  }

  function SetMerged(n: Tree, i: nat, m: Tree): Tree
    requires n.Nd? && i < |n.keys| && |n.kids| == |n.keys| + 1
  {
    Nd(n.id, n.keys[..i] + n.keys[i + 1..], n.kids[..i] + [m] + n.kids[i + 2..])
  }

  /** Child j of n can be repaired: it has a sibling, and its siblings are pages of the same kind. */
  predicate Mendable(n: Tree, j: nat) {
    && n.Nd? && |n.kids| == |n.keys| + 1 && |n.keys| >= 1 && j < |n.kids|
    && (j + 1 < |n.kids| ==> Alike(n.kids[j], n.kids[j + 1]))
    && (j > 0 ==> Alike(n.kids[j - 1], n.kids[j]))
  }

  /** Repair child j: borrow from the right, else from the left, else merge right, else merge into the left. */
  function Mend(n: Tree, j: nat, order: nat): Fixed
    requires order >= 2 && Mendable(n, j)
  {
    var least := order / 2;
    if j + 1 < |n.kids| && NumKeys(n.kids[j + 1]) > least then
      var p := BorrowRight(n.kids[j], n.keys[j], n.kids[j + 1]);
      var r := SetPair(n, j, p);
      Fixed(r, false, [Write(p.left), Write(p.right), Write(r)])
    else if j > 0 && NumKeys(n.kids[j - 1]) > least then
      var p := BorrowLeft(n.kids[j - 1], n.keys[j - 1], n.kids[j]);
      var r := SetPair(n, j - 1, p);
      Fixed(r, false, [Write(p.right), Write(p.left), Write(r)])
    else
      var i := if j + 1 < |n.kids| then j else j - 1;
      var m := Merged(n.kids[i], n.keys[i], n.kids[i + 1]);
      var r := SetMerged(n, i, m);
      Fixed(r, true, [Write(m), Write(r)])
  }

  /** Deletion below a page whose leaf for k holds k. */
  function Del(t: Tree, k: int, order: nat): Fixed
    requires order >= 2
    decreases t
  {
    if t.Lf? then
      var l := Lf(t.id, Remove(t.entries, k), t.next);
      Fixed(l, false, [Write(l)])
    else if |t.kids| != |t.keys| + 1 then Fixed(t, false, [])
    else
      var j := Route(t.keys, k);
      var d := Del(t.kids[j], k, order);
      var n := Nd(t.id, t.keys, t.kids[j := d.node]);
      if NumKeys(d.node) >= order / 2 || !Mendable(n, j) then Fixed(n, false, d.log)
      else
        var f := Mend(n, j, order);
        Fixed(f.node, f.merged, d.log + f.log)
  }

  /** An index root without keys gives way to its only child. */
  function Collapse(d: Fixed): Tree {
    if d.node.Nd? && d.node.keys == [] && |d.node.kids| == 1 then d.node.kids[0] else d.node
  }

  function CollapseLog(d: Fixed): seq<Change> {
    if Collapse(d) != d.node then d.log + [MetaUpdate(Collapse(d).id)] else d.log
  }

  // ---- Borrowing is merging and cutting elsewhere -------------------------

  function Cut(t: Tree, c: nat, right: PageId): Two
    requires c < NumKeys(t) && (t.Nd? ==> |t.kids| == |t.keys| + 1)
  {
    var (left, half) := if t.Lf? then CutLeaf(t, c, right) else CutIndex(t, c, right);
    Two(left, half.sep, half.right)
  }

  /** Well-formed apart from the number of keys. */
  ghost predicate Body(t: Tree, order: nat, lo: int, hi: int, h: nat) {
    if t.Lf? then h == 0 && lo < hi && Sorted(t.entries) && Within(t.entries, lo, hi)
    else Formed(t, order, lo, hi, h)
  }

  lemma ShapeIsBody(t: Tree, order: nat, least: nat, lo: int, hi: int, h: nat)
    ensures Shape(t, order, least, lo, hi, h) <==> Body(t, order, lo, hi, h) && least <= NumKeys(t) <= order
  {
  }

  lemma BorrowRightIsCut(a: Tree, sep: Key, b: Tree, order: nat, lo: int, hi: int, h: nat)
    requires Body(a, order, lo, sep, h) && Body(b, order, sep, hi, h) && NumKeys(b) >= 2
    requires a.Lf? ==> a.next == Some(b.id)
    ensures Alike(a, b)
    ensures BorrowRight(a, sep, b) == Cut(Merged(a, sep, b), NumKeys(a) + 1, b.id)
  {
    var m := Merged(a, sep, b);
    if a.Lf? {
      var e := b.entries[0];
      assert a.entries + [] == a.entries;
      PutAppendRight(a.entries, [], e.key, e.val);
      assert m.entries[..|a.entries| + 1] == a.entries + [e];
      assert m.entries[|a.entries| + 1..] == b.entries[1..];
    } else {
      assert m.keys[..|a.keys| + 1] == a.keys + [sep];
      assert m.kids[..|a.keys| + 2] == a.kids + [b.kids[0]];
      assert m.keys[|a.keys| + 2..] == b.keys[1..];
      assert m.kids[|a.keys| + 2..] == b.kids[1..];
    }
  }

  lemma BorrowLeftIsCut(a: Tree, sep: Key, b: Tree, order: nat, lo: int, hi: int, h: nat)
    requires Body(a, order, lo, sep, h) && Body(b, order, sep, hi, h) && NumKeys(a) >= 2
    requires a.Lf? ==> a.next == Some(b.id)
    ensures Alike(a, b)
    ensures BorrowLeft(a, sep, b) == Cut(Merged(a, sep, b), NumKeys(a) - 1, b.id)
  {
    if a.Lf? {
      BorrowLeftLeaf(a, sep, b);
    } else {
      BorrowLeftIndex(a, sep, b);
    }
  }

  lemma BorrowLeftLeaf(a: Tree, sep: Key, b: Tree)
    requires a.Lf? && b.Lf? && Sorted(a.entries) && NumKeys(a) >= 2 && a.next == Some(b.id)
    requires (forall i :: 0 <= i < |a.entries| ==> a.entries[i].key < sep)
    requires (forall i :: 0 <= i < |b.entries| ==> sep <= b.entries[i].key)
    ensures BorrowLeft(a, sep, b) == Cut(Merged(a, sep, b), NumKeys(a) - 1, b.id)
  {
    var n := NumKeys(a) - 1;
    var e := a.entries[n];
    assert [] + b.entries == b.entries;
    PutAppendLeft([], b.entries, e.key, e.val);
    assert (a.entries + b.entries)[..n] == a.entries[..n];
    assert (a.entries + b.entries)[n..] == [e] + b.entries;
  }

  lemma BorrowLeftIndex(a: Tree, sep: Key, b: Tree)
    requires a.Nd? && b.Nd? && Alike(a, b) && NumKeys(a) >= 2
    ensures BorrowLeft(a, sep, b) == Cut(Merged(a, sep, b), NumKeys(a) - 1, b.id)
  {
    var m := Merged(a, sep, b);
    var n := NumKeys(a) - 1;
    assert m.keys[..n] == a.keys[..n];
    assert m.kids[..n + 1] == a.kids[..n + 1];
    assert m.keys[n + 1..] == [sep] + b.keys;
    assert m.kids[n + 1..] == [a.kids[n + 1]] + b.kids;
  }

  lemma {:induction false} MergedBody(a: Tree, sep: Key, b: Tree, order: nat, lo: int, hi: int, h: nat)
    requires Body(a, order, lo, sep, h) && Body(b, order, sep, hi, h)
    ensures Alike(a, b) && Body(Merged(a, sep, b), order, lo, hi, h)
    ensures NumKeys(Merged(a, sep, b)) == NumKeys(a) + NumKeys(b) + if a.Nd? then 1 else 0
  {
    if a.Lf? {
      SortedAppend(a.entries, b.entries, lo, sep, hi);
    } else {
      MergedFormed(a, sep, b, order, lo, hi, h);
    }
  }

  lemma {:induction false} MergedFormed(a: Tree, sep: Key, b: Tree, order: nat, lo: int, hi: int, h: nat)
    requires Formed(a, order, lo, sep, h) && Formed(b, order, sep, hi, h)
    ensures Formed(Merged(a, sep, b), order, lo, hi, h)
  {
    var m := Merged(a, sep, b);
    assert Separators(m.keys, lo, hi) by {
      assert m.keys[|a.keys|] == sep;
      assert forall i :: 0 <= i < |a.keys| ==> m.keys[i] == a.keys[i] && m.keys[i] < sep;
      assert forall i :: |a.keys| < i < |m.keys| ==> m.keys[i] == b.keys[i - |a.keys| - 1] && sep < m.keys[i];
    }
    forall i {:trigger m.kids[i]} | 0 <= i < |m.kids|
      ensures Shape(m.kids[i], order, order / 2, Lower(m.keys, lo, i), Upper(m.keys, hi, i), h - 1)
    {
      if i < |a.kids| {
        assert m.kids[i] == a.kids[i];
      } else {
        assert m.kids[i] == b.kids[i - |a.kids|];
      }
    }
  }

  lemma {:induction false} CutBody(t: Tree, c: nat, right: PageId, order: nat, lo: int, hi: int, h: nat)
    requires Body(t, order, lo, hi, h) && 0 < c < NumKeys(t)
    ensures var p := Cut(t, c, right);
            && lo < p.sep < hi
            && Body(p.left, order, lo, p.sep, h) && Body(p.right, order, p.sep, hi, h)
            && NumKeys(p.left) == c && NumKeys(p.right) == NumKeys(t) - c - if t.Nd? then 1 else 0
  {
    if t.Nd? {
      CutFormed(t, order, lo, hi, h, c, right);
    } else {
      assert lo <= t.entries[0].key < t.entries[c].key;
    }
  }

  /** Cutting changes neither the contents nor the pages used, apart from the page of the right part. */
  lemma {:induction false} CutKeeps(t: Tree, c: nat, right: PageId)
    requires c < NumKeys(t) && (t.Nd? ==> |t.kids| == |t.keys| + 1)
    ensures var p := Cut(t, c, right);
            && ContentsOf([p.left, p.right]) == Contents(t)
            && IdsOf([p.left, p.right]) == Ids(t) + multiset{right}
  {
    var p := Cut(t, c, right);
    Pair(p.left, p.right);
    if t.Nd? {
      SplitContents(t.kids, c + 1);
    }
  }

  lemma {:induction false} MergedKeeps(a: Tree, sep: Key, b: Tree)
    requires Alike(a, b)
    ensures Contents(Merged(a, sep, b)) == ContentsOf([a, b])
    ensures Ids(Merged(a, sep, b)) + multiset{b.id} == IdsOf([a, b])
  {
    Pair(a, b);
    if a.Nd? {
      ContentsAppend(a.kids, b.kids);
      IdsAppend(a.kids, b.kids);
    }
  }

  lemma {:induction false} MergedChain(a: Tree, sep: Key, b: Tree, after: Option<PageId>)
    requires Alike(a, b) && ChainedAll([a, b], after) && (a.Nd? ==> a.kids != [] && b.kids != [])
    ensures ChainedAll([Merged(a, sep, b)], after) && FirstLeaf(Merged(a, sep, b)) == FirstLeaf(a)
  {
    assert [a, b] == [a] + [b];
    ChainAppend([a], [b], after);
    ChainOne(a, Some(FirstLeaf(b)));
    ChainOne(b, after);
    ChainOne(Merged(a, sep, b), after);
    if a.Nd? {
      ChainAppend(a.kids, b.kids, after);
      assert (a.kids + b.kids)[0] == a.kids[0];
    }
  }

  lemma {:induction false} CutChain(t: Tree, c: nat, right: PageId, after: Option<PageId>)
    requires c < NumKeys(t) && (t.Nd? ==> |t.kids| == |t.keys| + 1) && Chained(t, after)
    ensures var p := Cut(t, c, right);
            ChainedAll([p.left, p.right], after) && FirstLeaf(p.left) == FirstLeaf(t)
  {
    var p := Cut(t, c, right);
    assert [p.left, p.right] == [p.left] + [p.right];
    ChainAppend([p.left], [p.right], after);
    ChainOne(p.left, Some(FirstLeaf(p.right)));
    ChainOne(p.right, after);
    if t.Nd? {
      assert t.kids == p.left.kids + p.right.kids;
      ChainAppend(p.left.kids, p.right.kids, after);
      assert p.left.kids[0] == t.kids[0];
    }
  }

  // ---- Repairing one child ------------------------------------------------

  /** Child j has one key too few, and everything else is well formed. */
  ghost predicate Deficient(n: Tree, j: nat, order: nat, lo: int, hi: int, h: nat) {
    && order >= 2
    && n.Nd? && h > 0 && |n.kids| == |n.keys| + 1 && |n.keys| >= 1 && j < |n.kids|
    && Separators(n.keys, lo, hi)
    && Body(n.kids[j], order, Lower(n.keys, lo, j), Upper(n.keys, hi, j), h - 1)
    && NumKeys(n.kids[j]) == order / 2 - 1
    && forall i {:trigger n.kids[i]} :: 0 <= i < |n.kids| && i != j ==>
         Shape(n.kids[i], order, order / 2, Lower(n.keys, lo, i), Upper(n.keys, hi, i), h - 1)
  }

  lemma DeficientMendable(n: Tree, j: nat, order: nat, lo: int, hi: int, h: nat)
    requires Deficient(n, j, order, lo, hi, h)
    ensures Mendable(n, j)
    ensures forall i {:trigger n.kids[i]} :: 0 <= i < |n.kids| ==>
              Body(n.kids[i], order, Lower(n.keys, lo, i), Upper(n.keys, hi, i), h - 1)
  {
    forall i {:trigger n.kids[i]} | 0 <= i < |n.kids|
      ensures Body(n.kids[i], order, Lower(n.keys, lo, i), Upper(n.keys, hi, i), h - 1)
    {
      if i != j { ShapeIsBody(n.kids[i], order, order / 2, Lower(n.keys, lo, i), Upper(n.keys, hi, i), h - 1); }
    }
  }

  /** All children but the pair at i are sound. */
  ghost predicate RestShaped(n: Tree, i: nat, order: nat, lo: int, hi: int, h: nat)
    requires n.Nd? && h > 0 && |n.kids| == |n.keys| + 1
  {
    forall q {:trigger n.kids[q]} :: 0 <= q < |n.kids| && q != i && q != i + 1 ==>
      Shape(n.kids[q], order, order / 2, Lower(n.keys, lo, q), Upper(n.keys, hi, q), h - 1)
  }

  /** The pair of children at i has been replaced by two sound ones. */
  lemma {:induction false} SetPairFormed(n: Tree, i: nat, p: Two, order: nat, lo: int, hi: int, h: nat)
    requires n.Nd? && h > 0 && |n.kids| == |n.keys| + 1 && i < |n.keys| && Separators(n.keys, lo, hi)
    requires RestShaped(n, i, order, lo, hi, h)
    requires Lower(n.keys, lo, i) < p.sep < Upper(n.keys, hi, i + 1)
    requires Shape(p.left, order, order / 2, Lower(n.keys, lo, i), p.sep, h - 1)
    requires Shape(p.right, order, order / 2, p.sep, Upper(n.keys, hi, i + 1), h - 1)
    ensures Formed(SetPair(n, i, p), order, lo, hi, h)
  {
    var r := SetPair(n, i, p);
    assert Separators(r.keys, lo, hi);
    forall q {:trigger r.kids[q]} | 0 <= q < |r.kids|
      ensures Shape(r.kids[q], order, order / 2, Lower(r.keys, lo, q), Upper(r.keys, hi, q), h - 1)
    {
      if q != i && q != i + 1 {
        assert r.kids[q] == n.kids[q];
      }
    }
  }

  /** A separator is dropped: the rest still increases, and the bounds of the children around it follow. */
  lemma DropSeparator(keys: seq<Key>, lo: int, hi: int, i: nat)
    requires Separators(keys, lo, hi) && i < |keys|
    ensures Separators(keys[..i] + keys[i + 1..], lo, hi)
  {
    var r := keys[..i] + keys[i + 1..];
    assert forall q :: 0 <= q < |r| ==> r[q] == if q < i then keys[q] else keys[q + 1];
  }

  lemma DropBounds(keys: seq<Key>, lo: int, hi: int, i: nat, q: nat)
    requires i < |keys| && q < |keys|
    ensures var r := keys[..i] + keys[i + 1..];
            && Lower(r, lo, q) == Lower(keys, lo, if q <= i then q else q + 1)
            && Upper(r, hi, q) == Upper(keys, hi, if q < i then q else q + 1)
  {
  }

  lemma {:induction false} SetMergedFormed(n: Tree, i: nat, m: Tree, order: nat, lo: int, hi: int, h: nat)
    requires n.Nd? && h > 0 && |n.kids| == |n.keys| + 1 && i < |n.keys| && Separators(n.keys, lo, hi)
    requires RestShaped(n, i, order, lo, hi, h)
    requires Shape(m, order, order / 2, Lower(n.keys, lo, i), Upper(n.keys, hi, i + 1), h - 1)
    ensures Formed(SetMerged(n, i, m), order, lo, hi, h)
  {
    var r := SetMerged(n, i, m);
    DropSeparator(n.keys, lo, hi, i);
    forall q {:trigger r.kids[q]} | 0 <= q < |r.kids|
      ensures Shape(r.kids[q], order, order / 2, Lower(r.keys, lo, q), Upper(r.keys, hi, q), h - 1)
    {
      DropBounds(n.keys, lo, hi, i, q);
      if q < i {
        assert r.kids[q] == n.kids[q];
      } else if q > i {
        assert r.kids[q] == n.kids[q + 1];
      }
    }
  }

  /** Neighbours i and i + 1 can be merged, and the result cut at `cut`. */
  ghost predicate Repairable(n: Tree, i: nat, cut: Option<nat>) {
    && n.Nd? && |n.kids| == |n.keys| + 1 && i < |n.keys|
    && Alike(n.kids[i], n.kids[i + 1])
    && (cut.Some? ==> 0 < cut.value < NumKeys(Merged(n.kids[i], n.keys[i], n.kids[i + 1])))
  }

  /** The one or two subtrees that a repair puts in place of a pair. */
  function Outcome(a: Tree, sep: Key, b: Tree, cut: Option<nat>): (r: seq<Tree>)
    requires Alike(a, b) && (cut.Some? ==> cut.value < NumKeys(Merged(a, sep, b)))
    ensures |r| == if cut.None? then 1 else 2
  {
    var m := Merged(a, sep, b);
    if cut.None? then [m] else var p := Cut(m, cut.value, b.id); [p.left, p.right]
  }

  /** Every repair is a merge of two neighbours, cut again elsewhere when a key was borrowed. */
  ghost function Repaired(n: Tree, i: nat, cut: Option<nat>): Tree
    requires Repairable(n, i, cut)
  {
    var m := Merged(n.kids[i], n.keys[i], n.kids[i + 1]);
    if cut.None? then SetMerged(n, i, m) else SetPair(n, i, Cut(m, cut.value, n.kids[i + 1].id))
  }

  ghost function OutcomeAt(n: Tree, i: nat, cut: Option<nat>): seq<Tree>
    requires Repairable(n, i, cut)
  {
    Outcome(n.kids[i], n.keys[i], n.kids[i + 1], cut)
  }

  lemma RepairedKids(n: Tree, i: nat, cut: Option<nat>)
    requires Repairable(n, i, cut)
    ensures var r := Repaired(n, i, cut);
            r.Nd? && r.id == n.id && r.kids == n.kids[..i] + OutcomeAt(n, i, cut) + n.kids[i + 2..]
    ensures var out := OutcomeAt(n, i, cut);
            out[0].id == n.kids[i].id && (|out| == 2 ==> out[1].id == n.kids[i + 1].id)
  {
  }

  /** Neighbouring leaves are linked. */
  ghost predicate PairLinked(n: Tree, i: nat)
    requires n.Nd? && i + 1 < |n.kids|
  {
    n.kids[i].Lf? && n.kids[i + 1].Lf? ==> n.kids[i].next == Some(n.kids[i + 1].id)
  }

  ghost predicate Linked(n: Tree)
    requires n.Nd?
  {
    forall i :: 0 <= i < |n.kids| - 1 ==> PairLinked(n, i)
  }

  lemma ChainLinks(n: Tree, after: Option<PageId>)
    requires n.Nd? && ChainedAll(n.kids, after)
    ensures Linked(n)
  {
    forall i | 0 <= i < |n.kids| - 1 ensures PairLinked(n, i) {
      assert Chained(n.kids[i], Follower(n.kids, after, i));
    }
  }

  /** Mend repairs the pair at i, cutting it at `cut`; it borrows exactly when a sibling has a key to spare. */
  ghost predicate IsMend(n: Tree, j: nat, order: nat, i: nat, cut: Option<nat>)
    requires order >= 2 && Mendable(n, j)
  {
    && Repairable(n, i, cut) && (i == j || i + 1 == j)
    && Mend(n, j, order) == Fixed(Repaired(n, i, cut), cut.None?,
    RepairLog(OutcomeAt(n, i, cut), Repaired(n, i, cut), i == j))
    && (cut.Some? && i == j ==> cut.value == NumKeys(n.kids[j]) + 1 && NumKeys(n.kids[j + 1]) > order / 2)
    && (cut.Some? && i + 1 == j ==> cut.value == NumKeys(n.kids[i]) - 1 && NumKeys(n.kids[i]) > order / 2)
    && (cut.None? && i == j ==> NumKeys(n.kids[j + 1]) <= order / 2)
    && (cut.None? && i + 1 == j ==> NumKeys(n.kids[i]) <= order / 2)
  }

  /** What Mend does: which pair it repairs, where it cuts, and what it logs. */
  lemma {:induction false} MendIsRepair(n: Tree, j: nat, order: nat, lo: int, hi: int, h: nat)
    returns (i: nat, cut: Option<nat>)
    requires Deficient(n, j, order, lo, hi, h) && Linked(n)
    ensures Mendable(n, j) && IsMend(n, j, order, i, cut)
  {
    DeficientMendable(n, j, order, lo, hi, h);
    if CanBorrowRight(n, j, order) {
      BorrowAt(n, j, j, order, lo, hi, h);
      i, cut := MendRight(n, j, order);
    } else if CanBorrowLeft(n, j, order) {
      BorrowAt(n, j, j - 1, order, lo, hi, h);
      i, cut := MendLeft(n, j, order);
    } else {
      i, cut := MendMerge(n, j, order);
    }
  }

  /** Borrowing between neighbours of a deficient node is cutting their merge elsewhere. */
  lemma {:induction false} BorrowAt(n: Tree, j: nat, i: nat, order: nat, lo: int, hi: int, h: nat)
    requires Deficient(n, j, order, lo, hi, h) && Linked(n) && i < |n.keys|
    ensures var a, sep, b := n.kids[i], n.keys[i], n.kids[i + 1];
            && Alike(a, b)
            && NumKeys(Merged(a, sep, b)) >= NumKeys(a) + NumKeys(b)
            && (NumKeys(b) >= 2 ==> BorrowRight(a, sep, b) == Cut(Merged(a, sep, b), NumKeys(a) + 1, b.id))
            && (NumKeys(a) >= 2 ==> BorrowLeft(a, sep, b) == Cut(Merged(a, sep, b), NumKeys(a) - 1, b.id))
  {
    NeighbourBodies(n, j, i, order, lo, hi, h);
    BorrowIsCut(n.kids[i], n.keys[i], n.kids[i + 1], order, Lower(n.keys, lo, i), Upper(n.keys, hi, i + 1), h - 1);
  }

  lemma {:induction false} BorrowIsCut(a: Tree, sep: Key, b: Tree, order: nat, lo: int, hi: int, h: nat)
    requires Body(a, order, lo, sep, h) && Body(b, order, sep, hi, h) && (a.Lf? && b.Lf? ==> a.next == Some(b.id))
    ensures Alike(a, b)
    ensures NumKeys(Merged(a, sep, b)) >= NumKeys(a) + NumKeys(b)
    ensures NumKeys(b) >= 2 ==> BorrowRight(a, sep, b) == Cut(Merged(a, sep, b), NumKeys(a) + 1, b.id)
    ensures NumKeys(a) >= 2 ==> BorrowLeft(a, sep, b) == Cut(Merged(a, sep, b), NumKeys(a) - 1, b.id)
  {
    if NumKeys(b) >= 2 {
      BorrowRightIsCut(a, sep, b, order, lo, hi, h);
    }
    if NumKeys(a) >= 2 {
      BorrowLeftIsCut(a, sep, b, order, lo, hi, h);
    }
  }

  lemma {:induction false} NeighbourBodies(n: Tree, j: nat, i: nat, order: nat, lo: int, hi: int, h: nat)
    requires Deficient(n, j, order, lo, hi, h) && Linked(n) && i < |n.keys|
    ensures Body(n.kids[i], order, Lower(n.keys, lo, i), n.keys[i], h - 1)
    ensures Body(n.kids[i + 1], order, n.keys[i], Upper(n.keys, hi, i + 1), h - 1)
    ensures n.kids[i].Lf? && n.kids[i + 1].Lf? ==> n.kids[i].next == Some(n.kids[i + 1].id)
  {
    DeficientMendable(n, j, order, lo, hi, h);
    assert PairLinked(n, i);
  }

  predicate CanBorrowRight(n: Tree, j: nat, order: nat) {
    n.Nd? && j + 1 < |n.kids| && NumKeys(n.kids[j + 1]) > order / 2
  }

  predicate CanBorrowLeft(n: Tree, j: nat, order: nat) {
    n.Nd? && 0 < j < |n.kids| && NumKeys(n.kids[j - 1]) > order / 2
  }

  lemma MendRight(n: Tree, j: nat, order: nat) returns (i: nat, cut: Option<nat>)
    requires order >= 2 && Mendable(n, j) && CanBorrowRight(n, j, order)
    requires NumKeys(n.kids[j]) + 1 < NumKeys(Merged(n.kids[j], n.keys[j], n.kids[j + 1]))
    requires BorrowRight(n.kids[j], n.keys[j], n.kids[j + 1]) ==
             Cut(Merged(n.kids[j], n.keys[j], n.kids[j + 1]), NumKeys(n.kids[j]) + 1, n.kids[j + 1].id)
    ensures IsMend(n, j, order, i, cut)
  {
    i, cut := j, Some(NumKeys(n.kids[j]) + 1);
  }

  lemma MendLeft(n: Tree, j: nat, order: nat) returns (i: nat, cut: Option<nat>)
    requires order >= 2 && Mendable(n, j) && !CanBorrowRight(n, j, order) && CanBorrowLeft(n, j, order)
    requires 0 < NumKeys(n.kids[j - 1]) - 1 < NumKeys(Merged(n.kids[j - 1], n.keys[j - 1], n.kids[j]))
    requires BorrowLeft(n.kids[j - 1], n.keys[j - 1], n.kids[j]) ==
             Cut(Merged(n.kids[j - 1], n.keys[j - 1], n.kids[j]), NumKeys(n.kids[j - 1]) - 1, n.kids[j].id)
    ensures IsMend(n, j, order, i, cut)
  {
    i, cut := j - 1, Some(NumKeys(n.kids[j - 1]) - 1);
  }

  lemma MendMerge(n: Tree, j: nat, order: nat) returns (i: nat, cut: Option<nat>)
    requires order >= 2 && Mendable(n, j) && !CanBorrowRight(n, j, order) && !CanBorrowLeft(n, j, order)
    ensures IsMend(n, j, order, i, cut)
  {
    i, cut := if j + 1 < |n.kids| then j else j - 1, None;
  }

  /** The borrowing page is logged first, then its sibling, then the parent. */
  function RepairLog(out: seq<Tree>, r: Tree, leftFirst: bool): seq<Change>
    requires |out| == 1 || |out| == 2
  {
    if |out| == 1 then [Write(out[0]), Write(r)]
    else if leftFirst then [Write(out[0]), Write(out[1]), Write(r)]
    else [Write(out[1]), Write(out[0]), Write(r)]
  }

  /** A repaired node is well formed again; it lost a key exactly when two children merged. */
  lemma {:induction false} MendFormed(n: Tree, j: nat, order: nat, lo: int, hi: int, h: nat)
    requires Deficient(n, j, order, lo, hi, h) && Linked(n)
    ensures Mendable(n, j)
    ensures Formed(Mend(n, j, order).node, order, lo, hi, h)
    ensures |Mend(n, j, order).node.keys| == |n.keys| - if Mend(n, j, order).merged then 1 else 0
  {
    var i, cut := MendIsRepair(n, j, order, lo, hi, h);
    RepairFormed(n, j, i, cut, order, lo, hi, h);
  }

  lemma {:induction false} RepairFormed(n: Tree, j: nat, i: nat, cut: Option<nat>, order: nat, lo: int, hi: int, h: nat)
    requires Deficient(n, j, order, lo, hi, h) && Mendable(n, j) && IsMend(n, j, order, i, cut)
    ensures Formed(Repaired(n, i, cut), order, lo, hi, h)
    ensures |Repaired(n, i, cut).keys| == |n.keys| - if cut.None? then 1 else 0
  {
    var a, sep, b := n.kids[i], n.keys[i], n.kids[i + 1];
    NeighbourShapes(n, j, i, order, lo, hi, h);
    PairSound(a, sep, b, cut, order, Lower(n.keys, lo, i), Upper(n.keys, hi, i + 1), h - 1);
    OutcomeFormed(n, i, cut, order, lo, hi, h);
  }

  /** The rest of the node is sound, and so is what takes the place of the pair. */
  lemma {:induction false} OutcomeFormed(n: Tree, i: nat, cut: Option<nat>, order: nat, lo: int, hi: int, h: nat)
    requires Repairable(n, i, cut) && h > 0 && Separators(n.keys, lo, hi) && RestShaped(n, i, order, lo, hi, h)
    requires PairShaped(n.kids[i], n.keys[i], n.kids[i + 1], cut, order, Lower(n.keys, lo, i), Upper(n.keys, hi, i + 1),
             h - 1)
    ensures Formed(Repaired(n, i, cut), order, lo, hi, h)
    ensures |Repaired(n, i, cut).keys| == |n.keys| - if cut.None? then 1 else 0
  {
    var m := Merged(n.kids[i], n.keys[i], n.kids[i + 1]);
    if cut.Some? {
      SetPairFormed(n, i, Cut(m, cut.value, n.kids[i + 1].id), order, lo, hi, h);
    } else {
      SetMergedFormed(n, i, m, order, lo, hi, h);
    }
  }

  /** The merged pair, or its two parts cut again, are sound. */
  ghost predicate PairShaped(a: Tree, sep: Key, b: Tree, cut: Option<nat>, order: nat, lo: int, hi: int, h: nat)
    requires Alike(a, b)
  {
    match cut
    case None => Shape(Merged(a, sep, b), order, order / 2, lo, hi, h)
    case Some(c) =>
      && 0 < c < NumKeys(Merged(a, sep, b))
      && lo < Cut(Merged(a, sep, b), c, b.id).sep < hi
      && Shape(Cut(Merged(a, sep, b), c, b.id).left, order, order / 2, lo, Cut(Merged(a, sep, b), c, b.id).sep, h)
      && Shape(Cut(Merged(a, sep, b), c, b.id).right, order, order / 2, Cut(Merged(a, sep, b), c, b.id).sep, hi, h)
  }

  lemma {:induction false} NeighbourShapes(n: Tree, j: nat, i: nat, order: nat, lo: int, hi: int, h: nat)
    requires Deficient(n, j, order, lo, hi, h) && i < |n.keys| && (i == j || i + 1 == j)
    ensures Body(n.kids[i], order, Lower(n.keys, lo, i), n.keys[i], h - 1)
    ensures Body(n.kids[i + 1], order, n.keys[i], Upper(n.keys, hi, i + 1), h - 1)
    ensures NumKeys(n.kids[i]) <= order && NumKeys(n.kids[i + 1]) <= order
    ensures i == j ==> NumKeys(n.kids[i + 1]) >= order / 2
    ensures i + 1 == j ==> NumKeys(n.kids[i]) >= order / 2
    ensures RestShaped(n, i, order, lo, hi, h)
  {
    if i == j {
      ShapeIsBody(n.kids[i + 1], order, order / 2, n.keys[i], Upper(n.keys, hi, i + 1), h - 1);
    } else {
      ShapeIsBody(n.kids[i], order, order / 2, Lower(n.keys, lo, i), n.keys[i], h - 1);
    }
  }

  /** The merged pair fits one page when neither sibling can spare a key; cut again, both parts are full enough. */
  lemma {:induction false} PairSound(a: Tree, sep: Key, b: Tree, cut: Option<nat>, order: nat, lo: int, hi: int, h: nat)
    requires order >= 2 && Alike(a, b) && Body(a, order, lo, sep, h) && Body(b, order, sep, hi, h)
    requires NumKeys(a) <= order && NumKeys(b) <= order
    requires (NumKeys(a) == order / 2 - 1 && NumKeys(b) >= order / 2)
             || (NumKeys(b) == order / 2 - 1 && NumKeys(a) >= order / 2)
    requires cut.None? ==> NumKeys(a) <= order / 2 && NumKeys(b) <= order / 2
    requires cut.Some? ==>
               || (NumKeys(a) < order / 2 && cut.value == NumKeys(a) + 1 && NumKeys(b) > order / 2)
               || (NumKeys(b) < order / 2 && cut.value == NumKeys(a) - 1 && NumKeys(a) > order / 2)
    ensures PairShaped(a, sep, b, cut, order, lo, hi, h)
  {
    var m := Merged(a, sep, b);
    MergedBody(a, sep, b, order, lo, hi, h);
    if cut.Some? {
      CutBody(m, cut.value, b.id, order, lo, hi, h);
      var p := Cut(m, cut.value, b.id);
      ShapeIsBody(p.left, order, order / 2, lo, p.sep, h);
      ShapeIsBody(p.right, order, order / 2, p.sep, hi, h);
    } else {
      ShapeIsBody(m, order, order / 2, lo, hi, h);
    }
  }

  /** The two neighbours at i are replaced by the run c. */
  lemma {:induction false} TwoReplaced(ts: seq<Tree>, i: nat, c: seq<Tree>)
    requires i + 1 < |ts|
    ensures ContentsOf(ts[..i] + c + ts[i + 2..]) == ContentsOf(ts[..i]) + ContentsOf(c) + ContentsOf(ts[i + 2..])
    ensures IdsOf(ts[..i] + c + ts[i + 2..]) == IdsOf(ts[..i]) + IdsOf(c) + IdsOf(ts[i + 2..])
  {
    ContentsAppend(ts[..i] + c, ts[i + 2..]);
    ContentsAppend(ts[..i], c);
    IdsAppend(ts[..i] + c, ts[i + 2..]);
    IdsAppend(ts[..i], c);
  }

  /** Merging and cutting keeps the contents and the pages; a merge drops the right page. */
  lemma {:induction false} OutcomeKeeps(a: Tree, sep: Key, b: Tree, cut: Option<nat>)
    requires Alike(a, b) && (cut.Some? ==> cut.value < NumKeys(Merged(a, sep, b)))
    ensures ContentsOf(Outcome(a, sep, b, cut)) == Contents(a) + Contents(b)
    ensures IdsOf(Outcome(a, sep, b, cut)) + (if cut.None? then multiset{b.id} else multiset{}) == Ids(a) + Ids(b)
    ensures IdsOf(Outcome(a, sep, b, cut)) <= Ids(a) + Ids(b)
  {
    var m := Merged(a, sep, b);
    MergedKeeps(a, sep, b);
    Pair(a, b);
    if cut.Some? {
      CutKeeps(m, cut.value, b.id);
    } else {
      Single(m);
    }
  }

  lemma {:induction false} OutcomeChain(a: Tree, sep: Key, b: Tree, cut: Option<nat>, after: Option<PageId>)
    requires Alike(a, b) && (cut.Some? ==> cut.value < NumKeys(Merged(a, sep, b)))
    requires ChainedAll([a, b], after)
    ensures ChainedAll(Outcome(a, sep, b, cut), after)
    ensures FirstLeaf(Outcome(a, sep, b, cut)[0]) == FirstLeaf(a)
  {
    var m := Merged(a, sep, b);
    MergedChain(a, sep, b, after);
    ChainOne(m, after);
    if cut.Some? {
      CutChain(m, cut.value, b.id, after);
    }
  }

  /** A repair moves entries between neighbours and nothing else; only a merged-away page disappears. */
  lemma {:induction false} RepairKeeps(n: Tree, i: nat, cut: Option<nat>)
    requires Repairable(n, i, cut)
    ensures Contents(Repaired(n, i, cut)) == Contents(n)
    ensures Ids(Repaired(n, i, cut)) <= Ids(n)
  {
    var r, out := Repaired(n, i, cut), OutcomeAt(n, i, cut);
    var a, b := n.kids[i], n.kids[i + 1];
    RepairedKids(n, i, cut);
    OutcomeKeeps(a, n.keys[i], b, cut);
    TwoReplaced(n.kids, i, out);
    AroundTwo(n.kids, i);
    SubsetSum(IdsOf(n.kids[..i]), IdsOf(out), Ids(a) + Ids(b), IdsOf(n.kids[i + 2..]));
    assert IdsOf(r.kids) <= IdsOf(n.kids);
  }

  lemma SubsetSum(x: multiset<PageId>, c: multiset<PageId>, d: multiset<PageId>, y: multiset<PageId>)
    requires c <= d
    ensures x + c + y <= x + d + y
  {
  }

  lemma {:induction false} RepairChain(n: Tree, i: nat, cut: Option<nat>, after: Option<PageId>)
    requires Repairable(n, i, cut) && ChainedAll(n.kids, after)
    ensures Chained(Repaired(n, i, cut), after)
    ensures FirstLeaf(Repaired(n, i, cut)) == FirstLeaf(n)
  {
    RepairedKids(n, i, cut);
    var ts, c := n.kids, OutcomeAt(n, i, cut);
    PairChain(ts, i, after);
    OutcomeChain(ts[i], n.keys[i], ts[i + 1], cut, FirstOf(ts[i + 2..], after));
    ChainReplaceTwo(ts, i, c, after);
  }

  lemma PairChain(ts: seq<Tree>, i: nat, after: Option<PageId>)
    requires i + 1 < |ts| && ChainedAll(ts, after)
    ensures ChainedAll([ts[i], ts[i + 1]], FirstOf(ts[i + 2..], after))
    ensures ChainedAll(ts[..i], Some(FirstLeaf(ts[i]))) && ChainedAll(ts[i + 2..], after)
  {
    var x, y, two := ts[..i], ts[i + 2..], [ts[i], ts[i + 1]];
    assert ts == x + (two + y);
    ChainAppend(x, two + y, after);
    ChainAppend(two, y, after);
  }

  /** A pair of neighbours is replaced by a chained run that starts at the same leaf. */
  lemma ChainReplaceTwo(ts: seq<Tree>, i: nat, c: seq<Tree>, after: Option<PageId>)
    requires i + 1 < |ts| && ChainedAll(ts, after)
    requires c != [] && ChainedAll(c, FirstOf(ts[i + 2..], after)) && FirstLeaf(c[0]) == FirstLeaf(ts[i])
    ensures ChainedAll(ts[..i] + c + ts[i + 2..], after)
    ensures FirstLeaf((ts[..i] + c + ts[i + 2..])[0]) == FirstLeaf(ts[0])
  {
    var x, y := ts[..i], ts[i + 2..];
    PairChain(ts, i, after);
    ChainAppend(c, y, after);
    ChainAppend(x, c + y, after);
    assert x + (c + y) == x + c + y;
    assert (x + c + y)[0] == if i == 0 then c[0] else ts[0];
  }

  // ---- Deletion -----------------------------------------------------------

  /** After the deletion below child j the node needs repair, or it does not. */
  lemma {:induction false} DelNode(t: Tree, j: nat, c: Tree, order: nat, lo: int, hi: int, h: nat)
    requires order >= 2 && Formed(t, order, lo, hi, h) && |t.keys| >= 1 && j < |t.kids|
    requires Shape(c, order, order / 2 - 1, Lower(t.keys, lo, j), Upper(t.keys, hi, j), h - 1)
    ensures var n := Nd(t.id, t.keys, t.kids[j := c]);
            if NumKeys(c) >= order / 2 then Formed(n, order, lo, hi, h) else Deficient(n, j, order, lo, hi, h)
  {
    var n := Nd(t.id, t.keys, t.kids[j := c]);
    ShapeIsBody(c, order, order / 2 - 1, Lower(t.keys, lo, j), Upper(t.keys, hi, j), h - 1);
    ShapeIsBody(c, order, order / 2, Lower(t.keys, lo, j), Upper(t.keys, hi, j), h - 1);
    forall i {:trigger n.kids[i]} | 0 <= i < |n.kids| && i != j
      ensures Shape(n.kids[i], order, order / 2, Lower(n.keys, lo, i), Upper(n.keys, hi, i), h - 1)
    {
      assert n.kids[i] == t.kids[i];
    }
  }

  /** A subtree that may be deleted from: well shaped, linked, and an index page has at least one key. */
  ghost predicate Deletable(t: Tree, order: nat, least: nat, lo: int, hi: int, h: nat, after: Option<PageId>) {
    && order >= 2 && Shape(t, order, least, lo, hi, h) && Chained(t, after)
    && (t.Nd? ==> least >= 1)
  }

  /** One level of the recursion: the child, its outcome, and the node before a repair. */
  lemma {:induction false} DelStep(t: Tree, k: int, order: nat, least: nat, lo: int, hi: int, h: nat,
      after: Option<PageId>)
    returns (j: nat, d: Fixed, n: Tree)
    requires t.Nd? && Deletable(t, order, least, lo, hi, h, after)
    ensures Formed(t, order, lo, hi, h) && j == Route(t.keys, k) && j < |t.kids|
    ensures Deletable(t.kids[j], order, order / 2, Lower(t.keys, lo, j), Upper(t.keys, hi, j), h - 1,
            Follower(t.kids, after, j))
    ensures d == Del(t.kids[j], k, order) && n == Nd(t.id, t.keys, t.kids[j := d.node])
    ensures ChainedAll(n.kids, after) && FirstLeaf(n) == FirstLeaf(t)
    ensures NumKeys(d.node) >= order / 2 ==>
              Formed(n, order, lo, hi, h) && Del(t, k, order) == Fixed(n, false, d.log)
    ensures NumKeys(d.node) < order / 2 ==>
              && Deficient(n, j, order, lo, hi, h) && Linked(n) && Mendable(n, j)
              && Del(t, k, order) ==
                   Fixed(Mend(n, j, order).node, Mend(n, j, order).merged, d.log + Mend(n, j, order).log)
    decreases t, 0
  {
    j := Route(t.keys, k);
    d := Del(t.kids[j], k, order);
    n := Nd(t.id, t.keys, t.kids[j := d.node]);
    var l, u := Lower(t.keys, lo, j), Upper(t.keys, hi, j);
    DelSound(t.kids[j], k, order, order / 2, l, u, h - 1, Follower(t.kids, after, j));
    DelNode(t, j, d.node, order, lo, hi, h);
    DelChainStep(t.kids, j, d.node, after);
    ChainLinks(n, after);
    if NumKeys(d.node) < order / 2 {
      DeficientMendable(n, j, order, lo, hi, h);
    }
  }

  lemma {:induction false} DelChainStep(ts: seq<Tree>, j: nat, c: Tree, after: Option<PageId>)
    requires j < |ts| && ChainedAll(ts, after)
    requires Chained(c, Follower(ts, after, j)) && FirstLeaf(c) == FirstLeaf(ts[j])
    ensures ChainedAll(ts[j := c], after) && FirstLeaf(ts[j := c][0]) == FirstLeaf(ts[0])
  {
    ChainOne(c, Follower(ts, after, j));
    ChainReplace(ts, j, [c], after);
    assert ts[j := c] == ts[..j] + [c] + ts[j + 1..];
  }

  /** Deletion keeps depth, separators, occupancy (one key short at the top) and the leaf links. */
  lemma {:induction false} DelSound(t: Tree, k: int, order: nat, least: nat, lo: int, hi: int, h: nat,
      after: Option<PageId>)
    requires Deletable(t, order, least, lo, hi, h, after)
    ensures var d := Del(t, k, order).node;
            && Shape(d, order, if least == 0 then 0 else least - 1, lo, hi, h)
            && Chained(d, after) && FirstLeaf(d) == FirstLeaf(t)
    decreases t, 1
  {
    if t.Lf? {
      RemoveSorted(t.entries, k);
    } else {
      var j, d, n := DelStep(t, k, order, least, lo, hi, h, after);
      if NumKeys(d.node) < order / 2 {
        MendFormed(n, j, order, lo, hi, h);
        var i, cut := MendIsRepair(n, j, order, lo, hi, h);
        RepairChain(n, i, cut, after);
      }
      ShapeIsBody(Del(t, k, order).node, order, least - 1, lo, hi, h);
    }
  }

  /** Removing a key that only the middle part can hold. */
  lemma RemoveMiddle(a: seq<Entry>, m: seq<Entry>, b: seq<Entry>, k: int, lo: int, l: int, u: int, hi: int)
    requires Within(a, lo, l) && l <= k < u && Within(b, u, hi)
    ensures Remove(a + m + b, k) == a + Remove(m, k) + b
  {
    RemoveAppend(a + m, b, k);
    RemoveAppend(a, m, k);
    AbsentKey(a, k);
    AbsentKey(b, k);
  }

  /** Deletion removes the key from the contents and touches nothing else, and uses no new page. */
  lemma {:induction false} DelContents(t: Tree, k: Key, order: nat, least: nat, lo: int, hi: int, h: nat,
      after: Option<PageId>)
    requires Deletable(t, order, least, lo, hi, h, after) && lo <= k < hi
    ensures Contents(Del(t, k, order).node) == Remove(Contents(t), k)
    ensures Ids(Del(t, k, order).node) <= Ids(t)
    decreases t
  {
    if t.Nd? {
      var j, d, n := DelStep(t, k, order, least, lo, hi, h, after);
      var l, u := Lower(t.keys, lo, j), Upper(t.keys, hi, j);
      RouteBounds(t.keys, lo, hi, k);
      DelContents(t.kids[j], k, order, order / 2, l, u, h - 1, Follower(t.kids, after, j));
      LeftBelow(t.kids, order, t.keys, lo, hi, h - 1, j);
      RightAbove(t.kids, order, t.keys, lo, hi, h - 1, j);
      RemoveMiddle(ContentsOf(t.kids[..j]), Contents(t.kids[j]), ContentsOf(t.kids[j + 1..]), k, lo, l, u, hi);
      OneReplaced(t, j, d.node);
      if NumKeys(d.node) < order / 2 {
        var i, cut := MendIsRepair(n, j, order, lo, hi, h);
        RepairKeeps(n, i, cut);
      }
    }
  }

  lemma {:induction false} OneReplaced(t: Tree, j: nat, c: Tree)
    requires t.Nd? && j < |t.kids|
    ensures Contents(t) == ContentsOf(t.kids[..j]) + Contents(t.kids[j]) + ContentsOf(t.kids[j + 1..])
    ensures Contents(Nd(t.id, t.keys, t.kids[j := c])) == ContentsOf(t.kids[..j]) + Contents(c) +
            ContentsOf(t.kids[j + 1..])
    ensures Ids(c) <= Ids(t.kids[j]) ==> Ids(Nd(t.id, t.keys, t.kids[j := c])) <= Ids(t)
  {
    var ts := t.kids[j := c];
    Around(t.kids, j);
    Around(ts, j);
    assert ts[..j] == t.kids[..j] && ts[j + 1..] == t.kids[j + 1..];
  }

  /** Deletion from a whole tree refines map removal; the root collapses when its last two children merged. */
  lemma {:induction false} DeleteSound(t: Tree, k: Key, order: nat, h: nat)
    requires Deletable(t, order, if t.Lf? then 0 else 1, 0, KEY_LIMIT, h, None)
    ensures var r := Collapse(Del(t, k, order));
            && Shape(r, order, if r.Lf? then 0 else 1, 0, KEY_LIMIT, if r == Del(t, k, order).node then h else h - 1)
            && (r != Del(t, k, order).node ==> h > 0)
            && Chained(r, None)
            && Contents(r) == Remove(Contents(t), k)
            && Ids(r) <= Ids(t)
  {
    var least := if t.Lf? then 0 else 1;
    DelSound(t, k, order, least, 0, KEY_LIMIT, h, None);
    DelContents(t, k, order, least, 0, KEY_LIMIT, h, None);
    var d := Del(t, k, order).node;
    if d.Nd? && d.keys == [] {
      var c := d.kids[0];
      assert d.kids == [c];
      Single(c);
      ChainOne(c, None);
      ShapeIsBody(c, order, order / 2, 0, KEY_LIMIT, h - 1);
      ShapeIsBody(c, order, if c.Lf? then 0 else 1, 0, KEY_LIMIT, h - 1);
    } else {
      ShapeIsBody(d, order, 0, 0, KEY_LIMIT, h);
      ShapeIsBody(d, order, if d.Lf? then 0 else 1, 0, KEY_LIMIT, h);
    }
  }

  lemma {:induction false} DeleteContents(t: Tree, k: Key, order: nat, h: nat)
    requires Deletable(t, order, if t.Lf? then 0 else 1, 0, KEY_LIMIT, h, None)
    ensures var r := Collapse(Del(t, k, order));
            AsMap(Contents(r)) == map q | q in AsMap(Contents(t)) && q != k :: AsMap(Contents(t))[q]
  {
    DeleteSound(t, k, order, h);
    Ordered(t, order, if t.Lf? then 0 else 1, 0, KEY_LIMIT, h);
    RemoveIsMapRemoval(Contents(t), k);
  }
}
