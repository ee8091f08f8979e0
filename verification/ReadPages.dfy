/** What an operation does depends only on the pages that it reads: trees that agree on these get the same changes. */
module ReadPages {
  import opened Entries
  import opened Tree
  import opened Log
  import opened TreeInsert
  import opened TreeDelete
  import opened TreeLive
  import opened TreeSteps
  import opened TreeClimb
  import opened CrashReplay
  import opened TreeActs

  // ---- The tree that pages spell -----------------------------------------------------------------------

  /** The tree that a program finds below a page, h levels down. */
  function TreeIn(s: Store, id: PageId, h: nat): (t: Tree)
    ensures t.id == id
    decreases h
  {
    if id !in s then Lf(id, [], None)
    else
      match s[id]
      case Leaf(entries, next) => Lf(id, entries, next)
      case Index(keys, children) =>
        Nd(id, keys, if h == 0 then [] else seq(|children|, i requires 0 <= i < |children| =>
                                                              TreeIn(s, children[i], h - 1)))
  }

  /** The page of this node is as in the tree. */
  ghost predicate Exact(s: Store, t: Tree) {
    t.id in s && s[t.id] == Image(t)
  }

  /** Two nodes with the same page. */
  ghost predicate Same(a: Tree, b: Tree) {
    && a.id == b.id && (b.Lf? ==> a == b)
    && (b.Nd? ==> a.Nd? && a.keys == b.keys && SameIds(a.kids, b.kids))
  }

  ghost predicate SameIds(a: seq<Tree>, b: seq<Tree>) {
    |a| == |b| && forall i {:trigger a[i]} {:trigger b[i]} :: 0 <= i < |a| ==> a[i].id == b[i].id
  }

  lemma SamePage(a: Tree, b: Tree)
    requires Same(a, b)
    ensures Image(a) == Image(b) && NumKeys(a) == NumKeys(b)
  {
    if b.Nd? {
      assert KidIds(a.kids) == KidIds(b.kids);
    }
  }

  lemma {:induction false} ExactSame(s: Store, t: Tree, h: nat)
    requires Exact(s, t) && (t.Nd? ==> h > 0)
    ensures Same(TreeIn(s, t.id, h), t)
    ensures t.Nd? ==> forall i {:trigger t.kids[i]} :: 0 <= i < |t.kids| ==>
              TreeIn(s, t.id, h).kids[i] == TreeIn(s, t.kids[i].id, h - 1)
  {
    if t.Nd? {
      assert s[t.id].children == KidIds(t.kids);
    }
  }

  // ---- Insertion ----------------------------------------------------------------------------------------

  /** The pages on the way to the leaf of a key are the same. */
  ghost predicate Along(a: Tree, b: Tree, k: Key)
    decreases b
  {
    && Same(a, b)
    && (b.Nd? && |b.kids| == |b.keys| + 1 ==> Along(a.kids[Route(b.keys, k)], b.kids[Route(b.keys, k)], k))
  }

  /** The same outcome, as far as pages tell. */
  ghost predicate SameGrown(g: Grown, f: Grown) {
    && Same(g.left, f.left) && g.next == f.next && g.log == f.log && g.split.Some? == f.split.Some?
    && (f.split.Some? ==> g.split.value.sep == f.split.value.sep && Same(g.split.value.right, f.split.value.right))
  }

  lemma {:induction false} InsSame(a: Tree, b: Tree, k: Key, v: Bytes, order: nat, next: PageId)
    requires Along(a, b, k)
    ensures SameGrown(Ins(a, k, v, order, next), Ins(b, k, v, order, next))
    ensures InsActs(a, k, v, order, next) == InsActs(b, k, v, order, next)
    decreases b
  {
    if b.Nd? && |b.kids| == |b.keys| + 1 {
      var j := Route(b.keys, k);
      InsSame(a.kids[j], b.kids[j], k, v, order, next);
      var g, f := Ins(a.kids[j], k, v, order, next), Ins(b.kids[j], k, v, order, next);
      JoinSame(a, b, j, g, f);
      SamePage(Joined(a, j, g), Joined(b, j, f));
      var log := if f.split.None? then f.log else f.log + [Write(Joined(b, j, f))];
      SettleSame(Joined(a, j, g), Joined(b, j, f), order, f.next, log);
      if f.split.Some? {
        SamePage(a, b);
        assert Widened(a, g.split.value) == Widened(b, f.split.value);
      }
    }
  }

  lemma {:induction false} JoinSame(a: Tree, b: Tree, j: nat, g: Grown, f: Grown)
    requires Same(a, b) && b.Nd? && |b.kids| == |b.keys| + 1 && j < |b.kids| && SameGrown(g, f)
    ensures Same(Joined(a, j, g), Joined(b, j, f)) && Joined(b, j, f).Nd?
    ensures |Joined(b, j, f).kids| == |Joined(b, j, f).keys| + 1
  {
    SameUpdate(a.kids, b.kids, j, g.left, f.left);
    if f.split.Some? {
      var i, x, y := Slot(b.keys, f.split.value.sep), a.kids[j := g.left], b.kids[j := f.left];
      SameInsert(x, y, i + 1, g.split.value.right, f.split.value.right);
    }
  }

  lemma SameUpdate(a: seq<Tree>, b: seq<Tree>, j: nat, x: Tree, y: Tree)
    requires SameIds(a, b) && j < |a| && x.id == y.id
    ensures SameIds(a[j := x], b[j := y])
  {
  }

  lemma SameInsert(a: seq<Tree>, b: seq<Tree>, i: nat, x: Tree, y: Tree)
    requires SameIds(a, b) && i <= |a| && x.id == y.id
    ensures SameIds(a[..i] + [x] + a[i..], b[..i] + [y] + b[i..])
  {
  }

  lemma {:induction false} SettleSame(n: Tree, m: Tree, order: nat, next: PageId, log: seq<Change>)
    requires Same(n, m) && m.Nd? && |m.kids| == |m.keys| + 1
    ensures SameGrown(Settle(n, order, next, log), Settle(m, order, next, log))
  {
    if |m.keys| > order && m.keys != [] {
      var (_, x) := SplitIndex(n, next);
      var (_, y) := SplitIndex(m, next);
      SameCut(n.kids, m.kids, |m.keys| / 2 + 1);
      SamePage(x.right, y.right);
    }
  }

  lemma SameCut(a: seq<Tree>, b: seq<Tree>, c: nat)
    requires SameIds(a, b) && c <= |a|
    ensures SameIds(a[..c], b[..c]) && SameIds(a[c..], b[c..])
  {
  }

  lemma {:induction false} GrowSame(g: Grown, f: Grown)
    requires SameGrown(g, f)
    ensures Image(Grow(g)) == Image(Grow(f)) && RootActs(g) == RootActs(f) && GrowLog(g) == GrowLog(f)
    ensures Grow(g).id == Grow(f).id
  {
    if f.split.Some? {
      assert Same(Grow(g), Grow(f));
      SamePage(Grow(g), Grow(f));
    } else {
      SamePage(g.left, f.left);
    }
  }

  // ---- Deletion --------------------------------------------------------------------------------------------

  /** Pages of the same kind. */
  ghost predicate SameKind(a: Tree, b: Tree) {
    a.Lf? == b.Lf? && (b.Nd? ==> |a.kids| == |a.keys| + 1 && |b.kids| == |b.keys| + 1)
  }

  /** The left sibling of an underfull child is read when the right one cannot lend. */
  predicate ReadsLeft(t: Tree, j: nat, order: nat)
    requires t.Nd? && j < |t.kids|
  {
    j > 0 && !(j + 1 < |t.kids| && NumKeys(t.kids[j + 1]) > order / 2)
  }

  /** The siblings that a repair of child j reads are the same pages, and the other one is of the same kind. */
  ghost predicate Beside(a: Tree, b: Tree, j: nat, order: nat)
    requires a.Nd? && b.Nd? && |a.kids| == |b.kids| && j < |b.kids|
  {
    && (j + 1 < |b.kids| ==> Same(a.kids[j + 1], b.kids[j + 1]) && SameKind(a.kids[j + 1], b.kids[j + 1]))
    && (j > 0 ==> SameKind(a.kids[j - 1], b.kids[j - 1]))
    && (ReadsLeft(b, j, order) ==> Same(a.kids[j - 1], b.kids[j - 1]))
  }

  /** The pages on the way to the leaf of a key are the same, and so are those that its deletion reads beside them. */
  ghost predicate AlongRepairs(a: Tree, b: Tree, k: Key, order: nat)
    requires order >= 2
    decreases b
  {
    && Same(a, b) && SameKind(a, b)
    && (b.Nd? ==>
          var j := Route(b.keys, k);
          && AlongRepairs(a.kids[j], b.kids[j], k, order)
          && (NumKeys(Del(b.kids[j], k, order).node) < order / 2 ==> Beside(a, b, j, order)))
  }

  ghost predicate SameFixed(d: Fixed, f: Fixed) {
    Same(d.node, f.node) && SameKind(d.node, f.node) && d.merged == f.merged && d.log == f.log
  }

  lemma {:induction false} DelSame(a: Tree, b: Tree, k: Key, order: nat)
    requires order >= 2 && AlongRepairs(a, b, k, order)
    ensures SameFixed(Del(a, k, order), Del(b, k, order)) && DelActs(a, k, order) == DelActs(b, k, order)
    decreases b
  {
    if b.Nd? {
      var j := Route(b.keys, k);
      DelSame(a.kids[j], b.kids[j], k, order);
      var d, f := Del(a.kids[j], k, order), Del(b.kids[j], k, order);
      var n, m := Nd(a.id, a.keys, a.kids[j := d.node]), Nd(b.id, b.keys, b.kids[j := f.node]);
      SameUpdate(a.kids, b.kids, j, d.node, f.node);
      SamePage(d.node, f.node);
      if NumKeys(f.node) < order / 2 {
        BesideUpdate(a, b, j, order, d.node, f.node);
        LevelSame(n, m, j, order);
      }
    }
  }

  lemma BesideUpdate(a: Tree, b: Tree, j: nat, order: nat, x: Tree, y: Tree)
    requires a.Nd? && b.Nd? && |a.kids| == |b.kids| && j < |b.kids| && Beside(a, b, j, order)
    ensures Beside(Nd(a.id, a.keys, a.kids[j := x]), Nd(b.id, b.keys, b.kids[j := y]), j, order)
  {
  }

  lemma {:induction false} LevelSame(n: Tree, m: Tree, j: nat, order: nat)
    requires order >= 2 && Same(n, m) && SameKind(n, m) && m.Nd? && j < |m.kids|
    requires Same(n.kids[j], m.kids[j]) && SameKind(n.kids[j], m.kids[j]) && Beside(n, m, j, order)
    ensures Mendable(n, j) == Mendable(m, j)
    ensures Mendable(m, j) ==> SameFixed(Mend(n, j, order), Mend(m, j, order))
  {
    assert Mendable(n, j) == Mendable(m, j);
    if Mendable(m, j) {
      if j + 1 < |m.kids| && NumKeys(m.kids[j + 1]) > order / 2 {
        FromRight(n, m, j, order);
      } else if j > 0 && NumKeys(m.kids[j - 1]) > order / 2 {
        FromLeft(n, m, j, order);
      } else {
        MergeSame(n, m, j, order);
      }
    }
  }

  lemma {:induction false} FromRight(n: Tree, m: Tree, j: nat, order: nat)
    requires order >= 2 && Same(n, m) && Mendable(n, j) && Mendable(m, j) && Same(n.kids[j], m.kids[j])
    requires Beside(n, m, j, order) && j + 1 < |m.kids| && NumKeys(m.kids[j + 1]) > order / 2
    ensures SameFixed(Mend(n, j, order), Mend(m, j, order))
  {
    var a, a', b, b' := n.kids[j], m.kids[j], n.kids[j + 1], m.kids[j + 1];
    SamePage(b, b');
    BorrowRightSame(a, a', m.keys[j], b, b');
    PairSame(n, m, j, BorrowRight(a, m.keys[j], b), BorrowRight(a', m.keys[j], b'));
  }

  lemma {:induction false} FromLeft(n: Tree, m: Tree, j: nat, order: nat)
    requires order >= 2 && Same(n, m) && Mendable(n, j) && Mendable(m, j) && Same(n.kids[j], m.kids[j])
    requires Beside(n, m, j, order) && !(j + 1 < |m.kids| && NumKeys(m.kids[j + 1]) > order / 2)
    requires j > 0 && NumKeys(m.kids[j - 1]) > order / 2
    ensures SameFixed(Mend(n, j, order), Mend(m, j, order))
  {
    var a, a', b, b' := n.kids[j - 1], m.kids[j - 1], n.kids[j], m.kids[j];
    RightSame(n, m, j, order);
    SamePage(a, a');
    BorrowLeftSame(a, a', m.keys[j - 1], b, b');
    PairSame(n, m, j - 1, BorrowLeft(a, m.keys[j - 1], b), BorrowLeft(a', m.keys[j - 1], b'));
  }

  /** The right siblings lend alike. */
  lemma RightSame(n: Tree, m: Tree, j: nat, order: nat)
    requires Same(n, m) && m.Nd? && j < |m.kids| && Beside(n, m, j, order)
    ensures (j + 1 < |m.kids| && NumKeys(m.kids[j + 1]) > order / 2)
            == (j + 1 < |n.kids| && NumKeys(n.kids[j + 1]) > order / 2)
  {
    if j + 1 < |m.kids| {
      SamePage(n.kids[j + 1], m.kids[j + 1]);
    }
  }

  lemma {:induction false} MergeSame(n: Tree, m: Tree, j: nat, order: nat)
    requires order >= 2 && Same(n, m) && Mendable(n, j) && Mendable(m, j) && Same(n.kids[j], m.kids[j])
    requires Beside(n, m, j, order) && !(j + 1 < |m.kids| && NumKeys(m.kids[j + 1]) > order / 2)
    requires !(j > 0 && NumKeys(m.kids[j - 1]) > order / 2)
    ensures SameFixed(Mend(n, j, order), Mend(m, j, order))
  {
    var i := if j + 1 < |m.kids| then j else j - 1;
    var a, a', b, b' := n.kids[i], m.kids[i], n.kids[i + 1], m.kids[i + 1];
    RightSame(n, m, j, order);
    if j > 0 {
      SamePage(n.kids[j - 1], m.kids[j - 1]);
    }
    MergedSame(a, a', m.keys[i], b, b');
    SetMergedSame(n, m, i, Merged(a, m.keys[i], b), Merged(a', m.keys[i], b'));
  }

  lemma {:induction false} BorrowRightSame(a: Tree, a': Tree, sep: Key, b: Tree, b': Tree)
    requires Same(a, a') && Same(b, b') && Alike(a, b) && Alike(a', b') && NumKeys(b') >= 2
    ensures NumKeys(b) >= 2 && SameTwo(BorrowRight(a, sep, b), BorrowRight(a', sep, b'))
  {
    if a'.Nd? {
      SameAppend(a.kids, a'.kids, [b.kids[0]], [b'.kids[0]]);
      SameCut(b.kids, b'.kids, 1);
    }
  }

  lemma {:induction false} BorrowLeftSame(a: Tree, a': Tree, sep: Key, b: Tree, b': Tree)
    requires Same(a, a') && Same(b, b') && Alike(a, b) && Alike(a', b') && NumKeys(a') >= 2
    ensures NumKeys(a) >= 2 && SameTwo(BorrowLeft(a, sep, b), BorrowLeft(a', sep, b'))
  {
    if a'.Nd? {
      var n := NumKeys(a') - 1;
      SameCut(a.kids, a'.kids, n + 1);
      SameAppend([a.kids[n + 1]], [a'.kids[n + 1]], b.kids, b'.kids);
    }
  }

  lemma {:induction false} MergedSame(a: Tree, a': Tree, sep: Key, b: Tree, b': Tree)
    requires Same(a, a') && Same(b, b') && Alike(a, b) && Alike(a', b')
    ensures Same(Merged(a, sep, b), Merged(a', sep, b'))
  {
    if a'.Nd? {
      SameAppend(a.kids, a'.kids, b.kids, b'.kids);
    }
  }

  ghost predicate SameTwo(p: Two, q: Two) {
    Same(p.left, q.left) && p.sep == q.sep && Same(p.right, q.right)
  }

  lemma SameAppend(a: seq<Tree>, a': seq<Tree>, b: seq<Tree>, b': seq<Tree>)
    requires SameIds(a, a') && SameIds(b, b')
    ensures SameIds(a + b, a' + b')
  {
  }

  /** The kids around the pair that a repair has changed. */
  lemma {:induction false} KidsSame(n: Tree, m: Tree, i: nat, x: seq<Tree>, y: seq<Tree>)
    requires Same(n, m) && m.Nd? && i + 2 <= |m.kids| && SameIds(x, y)
    ensures SameIds(n.kids[..i] + x + n.kids[i + 2..], m.kids[..i] + y + m.kids[i + 2..])
  {
    SameCut(n.kids, m.kids, i);
    SameCut(n.kids, m.kids, i + 2);
    SameAppend(n.kids[..i], m.kids[..i], x, y);
    SameAppend(n.kids[..i] + x, m.kids[..i] + y, n.kids[i + 2..], m.kids[i + 2..]);
  }

  lemma {:induction false} PairSame(n: Tree, m: Tree, i: nat, p: Two, q: Two)
    requires Same(n, m) && m.Nd? && i < |m.keys| && |m.kids| == |m.keys| + 1 && SameTwo(p, q)
    ensures Same(SetPair(n, i, p), SetPair(m, i, q)) && SameKind(SetPair(n, i, p), SetPair(m, i, q))
    ensures Write(p.left) == Write(q.left) && Write(p.right) == Write(q.right)
            && Write(SetPair(n, i, p)) == Write(SetPair(m, i, q))
  {
    KidsSame(n, m, i, [p.left, p.right], [q.left, q.right]);
    SamePage(p.left, q.left);
    SamePage(p.right, q.right);
    SamePage(SetPair(n, i, p), SetPair(m, i, q));
  }

  lemma {:induction false} SetMergedSame(n: Tree, m: Tree, i: nat, x: Tree, y: Tree)
    requires Same(n, m) && m.Nd? && i < |m.keys| && |m.kids| == |m.keys| + 1 && Same(x, y)
    ensures Same(SetMerged(n, i, x), SetMerged(m, i, y)) && SameKind(SetMerged(n, i, x), SetMerged(m, i, y))
    ensures Write(x) == Write(y) && Write(SetMerged(n, i, x)) == Write(SetMerged(m, i, y))
  {
    KidsSame(n, m, i, [x], [y]);
    SamePage(x, y);
    SamePage(SetMerged(n, i, x), SetMerged(m, i, y));
  }

  /** And so the root that is left. */
  lemma {:induction false} CollapseSame(d: Fixed, f: Fixed)
    requires SameFixed(d, f)
    ensures CollapseActs(d) == CollapseActs(f) && Collapse(d).id == Collapse(f).id
    ensures (Collapse(d) != d.node) == (Collapse(f) != f.node)
  {
  }
}
