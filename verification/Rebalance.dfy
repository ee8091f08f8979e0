/** Repairing an underfull page in place: borrow from the right, else from the left, else merge. */
module Rebalance {
  import opened Entries
  import opened Tree
  import opened Log
  import opened PageStore
  import opened TreeInsert
  import opened TreeDelete
  import opened TreeRecovery
  import opened TreeDeleteRecovery

  /** Two neighbouring pages and the separator between them. */
  datatype Rotation = Rotation(left: Page, sep: Key, right: Page)

  function Count(p: Page): nat {
    if p.Leaf? then |p.entries| else |p.keys|
  }

  /** Neighbouring pages of the same kind, the one that gives having at least two keys. */
  predicate CanRotate(a: Page, b: Page, giver: Page) {
    && a.Leaf? == b.Leaf? && Count(giver) >= 2
    && (a.Index? ==> |a.children| == |a.keys| + 1)
    && (b.Index? ==> |b.children| == |b.keys| + 1)
  }

  function RotateLeft(a: Page, sep: Key, b: Page): Rotation
    requires CanRotate(a, b, b)
  {
    if a.Leaf? then
      Rotation(Leaf(Put(a.entries, b.entries[0].key, b.entries[0].val), a.next), b.entries[1].key,
        Leaf(b.entries[1..], b.next))
    else
      Rotation(Index(a.keys + [sep], a.children + [b.children[0]]), b.keys[0], Index(b.keys[1..], b.children[1..]))
  }

  function RotateRight(a: Page, sep: Key, b: Page): Rotation
    requires CanRotate(a, b, a)
  {
    var n := Count(a) - 1;
    if a.Leaf? then
      Rotation(Leaf(a.entries[..n], a.next), a.entries[n].key,
        Leaf(Put(b.entries, a.entries[n].key, a.entries[n].val), b.next))
    else
      Rotation(Index(a.keys[..n], a.children[..n + 1]), a.keys[n],
        Index([sep] + b.keys, [a.children[n + 1]] + b.children))
  }

  function Absorb(a: Page, sep: Key, b: Page): Page
    requires a.Leaf? == b.Leaf?
  {
    if a.Leaf? then Leaf(a.entries + b.entries, b.next) else Index(a.keys + [sep] + b.keys, a.children + b.children)
  }

  /** Two children next to each other below a parent page, all three in the store and all different. */
  ghost predicate Neighbours(s: Store, left: PageId, right: PageId, parent: PageId, i: nat) {
    && left in s && right in s && parent in s
    && left != right && left != parent && right != parent
    && s[parent].Index? && i < |s[parent].keys| && |s[parent].children| == |s[parent].keys| + 1
  }

  ghost function Rotated(s: Store, left: PageId, right: PageId, parent: PageId, i: nat, r: Rotation): Store
    requires Neighbours(s, left, right, parent, i)
  {
    TwoSet(s, left, right, r)[parent := Index(s[parent].keys[i := r.sep], s[parent].children)]
  }

  ghost function Shrunk(p: Page, i: nat): Page
    requires p.Index? && i < |p.keys| && |p.children| == |p.keys| + 1
  {
    Index(p.keys[..i] + p.keys[i + 1..], p.children[..i + 1] + p.children[i + 2..])
  }

  /** What each repair writes to the log. */
  ghost function ThreeWrites(s: Store, a: PageId, b: PageId, c: PageId): seq<Change>
    requires a in s && b in s && c in s
  {
    [PageWrite(a, s[a]), PageWrite(b, s[b]), PageWrite(c, s[c])]
  }

  ghost function TwoWrites(s: Store, a: PageId, b: PageId): seq<Change>
    requires a in s && b in s
  {
    [PageWrite(a, s[a]), PageWrite(b, s[b])]
  }

  ghost function LeftRotated(s: Store, page: PageId, right: PageId, parent: PageId, i: nat): Store
    requires Neighbours(s, page, right, parent, i) && CanRotate(s[page], s[right], s[right])
  {
    Rotated(s, page, right, parent, i, RotateLeft(s[page], s[parent].keys[i], s[right]))
  }

  ghost function RightRotated(s: Store, left: PageId, page: PageId, parent: PageId, i: nat): Store
    requires Neighbours(s, left, page, parent, i) && CanRotate(s[left], s[page], s[left])
  {
    Rotated(s, left, page, parent, i, RotateRight(s[left], s[parent].keys[i], s[page]))
  }

  ghost function MergedStore(s: Store, left: PageId, right: PageId, parent: PageId, i: nat): Store
    requires Neighbours(s, left, right, parent, i) && s[left].Leaf? == s[right].Leaf?
  {
    s[left := Absorb(s[left], s[parent].keys[i], s[right])][parent := Shrunk(s[parent], i)]
  }

  // ---- Borrowing ------------------------------------------------------------------

  method LogThree(p: Pager, a: PageId, b: PageId, c: PageId)
    requires p.Valid() && a in p.store && b in p.store && c in p.store
    modifies p`log
    ensures p.Valid() && p.log == old(p.log) + ThreeWrites(p.store, a, b, c)
  {
    p.MarkDirty(a);
    p.MarkDirty(b);
    p.MarkDirty(c);
  }

  method LogTwo(p: Pager, a: PageId, b: PageId)
    requires p.Valid() && a in p.store && b in p.store
    modifies p`log
    ensures p.Valid() && p.log == old(p.log) + TwoWrites(p.store, a, b)
  {
    p.MarkDirty(a);
    p.MarkDirty(b);
  }

  method SetSeparator(p: Pager, parent: PageId, i: nat, sep: Key)
    requires p.Valid() && parent in p.store && p.store[parent].Index? && i < |p.store[parent].keys|
    modifies p.Repr
    ensures p.Valid() && p.Repr == old(p.Repr) && p.nextId == old(p.nextId) && p.log == old(p.log)
    ensures p.store == old(p.store)[parent := Index(old(p.store)[parent].keys[i := sep], old(p.store)[parent].children)]
  {
    var page := p.GetPage(parent);
    p.SetIndex(parent, page.keys[i := sep], page.children);
  }

  ghost function TwoSet(s: Store, left: PageId, right: PageId, r: Rotation): Store {
    s[left := r.left][right := r.right]
  }

  /** The right leaf's first cell moves into the left leaf. */
  method ShiftLeafLeft(p: Pager, page: PageId, right: PageId, down: Key) returns (sep: Key)
    requires p.Valid() && page in p.store && right in p.store && page != right && p.store[page].Leaf?
    requires CanRotate(p.store[page], p.store[right], p.store[right]) && Sorted(p.store[page].entries)
    modifies p.Repr
    ensures p.Valid() && p.Repr == old(p.Repr) && p.nextId == old(p.nextId) && p.log == old(p.log)
    ensures var r := RotateLeft(old(p.store)[page], down, old(p.store)[right]);
            p.store == TwoSet(old(p.store), page, right, r) && sep == r.sep
  {
    ghost var s := p.store;
    var b := p.GetPage(right);
    p.SetLeaf(right, b.entries[1..], b.next);
    p.PutRecord(page, b.entries[0].key, b.entries[0].val);
    sep := b.entries[1].key;
    Swap(s, page, right, p.store[page], p.store[right]);
  }

  /** The left leaf's last cell moves into the right leaf. */
  method ShiftLeafRight(p: Pager, left: PageId, page: PageId, down: Key) returns (sep: Key)
    requires p.Valid() && left in p.store && page in p.store && page != left && p.store[page].Leaf?
    requires CanRotate(p.store[left], p.store[page], p.store[left]) && Sorted(p.store[page].entries)
    modifies p.Repr
    ensures p.Valid() && p.Repr == old(p.Repr) && p.nextId == old(p.nextId) && p.log == old(p.log)
    ensures var r := RotateRight(old(p.store)[left], down, old(p.store)[page]);
            p.store == TwoSet(old(p.store), left, page, r) && sep == r.sep
  {
    ghost var s, r := p.store, RotateRight(p.store[left], down, p.store[page]);
    var a := p.GetPage(left);
    var n := |a.entries| - 1;
    p.SetLeaf(left, a.entries[..n], a.next);
    assert p.store == s[left := r.left];
    p.PutRecord(page, a.entries[n].key, a.entries[n].val);
    assert p.store == TwoSet(s, left, page, r);
    sep := a.entries[n].key;
  }

  /** The separator comes down into the left page, and the right page's first key goes up. */
  method ShiftIndexLeft(p: Pager, page: PageId, right: PageId, down: Key) returns (sep: Key)
    requires p.Valid() && page in p.store && right in p.store && page != right && p.store[page].Index?
    requires CanRotate(p.store[page], p.store[right], p.store[right])
    modifies p.Repr
    ensures p.Valid() && p.Repr == old(p.Repr) && p.nextId == old(p.nextId) && p.log == old(p.log)
    ensures var r := RotateLeft(old(p.store)[page], down, old(p.store)[right]);
            p.store == TwoSet(old(p.store), page, right, r) && sep == r.sep
  {
    var a := p.GetPage(page);
    var b := p.GetPage(right);
    p.SetIndex(page, a.keys + [down], a.children + [b.children[0]]);
    sep := b.keys[0];
    p.SetIndex(right, b.keys[1..], b.children[1..]);
  }

  /** The separator comes down into the right page, and the left page's last key goes up. */
  method ShiftIndexRight(p: Pager, left: PageId, page: PageId, down: Key) returns (sep: Key)
    requires p.Valid() && left in p.store && page in p.store && page != left && p.store[page].Index?
    requires CanRotate(p.store[left], p.store[page], p.store[left])
    modifies p.Repr
    ensures p.Valid() && p.Repr == old(p.Repr) && p.nextId == old(p.nextId) && p.log == old(p.log)
    ensures var r := RotateRight(old(p.store)[left], down, old(p.store)[page]);
            p.store == TwoSet(old(p.store), left, page, r) && sep == r.sep
  {
    ghost var s, r := p.store, RotateRight(p.store[left], down, p.store[page]);
    var a := p.GetPage(left);
    var b := p.GetPage(page);
    var n := |a.keys| - 1;
    p.SetIndex(left, a.keys[..n], a.children[..n + 1]);
    p.SetIndex(page, [down] + b.keys, [a.children[n + 1]] + b.children);
    sep := a.keys[n];
    assert p.store == TwoSet(s, left, page, r);
  }

  lemma Swap(s: Store, x: PageId, y: PageId, p: Page, q: Page)
    requires x != y
    ensures s[x := p][y := q] == s[y := q][x := p]
  {
  }

  method ShiftLeft(p: Pager, page: PageId, right: PageId, down: Key) returns (sep: Key)
    requires p.Valid() && page in p.store && right in p.store && page != right
    requires CanRotate(p.store[page], p.store[right], p.store[right])
             && (p.store[page].Leaf? ==> Sorted(p.store[page].entries))
    modifies p.Repr
    ensures p.Valid() && p.Repr == old(p.Repr) && p.nextId == old(p.nextId) && p.log == old(p.log)
    ensures var r := RotateLeft(old(p.store)[page], down, old(p.store)[right]);
            p.store == TwoSet(old(p.store), page, right, r) && sep == r.sep
  {
    var a := p.GetPage(page);
    if a.Leaf? {
      sep := ShiftLeafLeft(p, page, right, down);
    } else {
      sep := ShiftIndexLeft(p, page, right, down);
    }
  }

  method ShiftRight(p: Pager, left: PageId, page: PageId, down: Key) returns (sep: Key)
    requires p.Valid() && left in p.store && page in p.store && page != left
    requires CanRotate(p.store[left], p.store[page], p.store[left])
             && (p.store[page].Leaf? ==> Sorted(p.store[page].entries))
    modifies p.Repr
    ensures p.Valid() && p.Repr == old(p.Repr) && p.nextId == old(p.nextId) && p.log == old(p.log)
    ensures var r := RotateRight(old(p.store)[left], down, old(p.store)[page]);
            p.store == TwoSet(old(p.store), left, page, r) && sep == r.sep
  {
    var a := p.GetPage(page);
    if a.Leaf? {
      sep := ShiftLeafRight(p, left, page, down);
    } else {
      sep := ShiftIndexRight(p, left, page, down);
    }
  }

  method BorrowFromRight(p: Pager, page: PageId, right: PageId, i: nat, parent: PageId)
    requires p.Valid() && Neighbours(p.store, page, right, parent, i)
    requires CanRotate(p.store[page], p.store[right], p.store[right])
    requires p.store[page].Leaf? ==> Sorted(p.store[page].entries)
    modifies p.Repr
    ensures p.Valid() && p.Repr == old(p.Repr) && p.nextId == old(p.nextId)
    ensures p.store == LeftRotated(old(p.store), page, right, parent, i)
    ensures p.log == old(p.log) + ThreeWrites(p.store, page, right, parent)
  {
    ghost var s := p.store;
    var up := p.GetPage(parent);
    var sep := ShiftLeft(p, page, right, up.keys[i]);
    assert p.store[parent] == up;
    SetSeparator(p, parent, i, sep);
    LogThree(p, page, right, parent);
  }

  method BorrowFromLeft(p: Pager, page: PageId, left: PageId, i: nat, parent: PageId)
    requires p.Valid() && Neighbours(p.store, left, page, parent, i)
    requires CanRotate(p.store[left], p.store[page], p.store[left])
    requires p.store[page].Leaf? ==> Sorted(p.store[page].entries)
    modifies p.Repr
    ensures p.Valid() && p.Repr == old(p.Repr) && p.nextId == old(p.nextId)
    ensures p.store == RightRotated(old(p.store), left, page, parent, i)
    ensures p.log == old(p.log) + ThreeWrites(p.store, page, left, parent)
  {
    ghost var s := p.store;
    var up := p.GetPage(parent);
    var sep := ShiftRight(p, left, page, up.keys[i]);
    assert p.store[parent] == up;
    SetSeparator(p, parent, i, sep);
    LogThree(p, page, left, parent);
  }

  // ---- Merging --------------------------------------------------------------------

  method AbsorbPage(p: Pager, left: PageId, right: PageId, down: Key)
    requires p.Valid() && left in p.store && right in p.store && left != right
             && p.store[left].Leaf? == p.store[right].Leaf?
    modifies p.Repr
    ensures p.Valid() && p.Repr == old(p.Repr) && p.nextId == old(p.nextId) && p.log == old(p.log)
    ensures p.store == old(p.store)[left := Absorb(old(p.store)[left], down, old(p.store)[right])]
  {
    var a := p.GetPage(left);
    var b := p.GetPage(right);
    if a.Leaf? {
      p.SetLeaf(left, a.entries + b.entries, b.next);
    } else {
      p.SetIndex(left, a.keys + [down] + b.keys, a.children + b.children);
    }
  }

  /** The left page takes in the right one; the parent drops the separator and the right child. */
  method MergePages(p: Pager, left: PageId, right: PageId, i: nat, parent: PageId)
    requires p.Valid() && Neighbours(p.store, left, right, parent, i) && p.store[left].Leaf? == p.store[right].Leaf?
    modifies p.Repr
    ensures p.Valid() && p.Repr == old(p.Repr) && p.nextId == old(p.nextId)
    ensures p.store == MergedStore(old(p.store), left, right, parent, i)
    ensures p.log == old(p.log) + TwoWrites(p.store, left, parent)
  {
    var up := p.GetPage(parent);
    AbsorbPage(p, left, right, up.keys[i]);
    p.SetIndex(parent, up.keys[..i] + up.keys[i + 1..], up.children[..i + 1] + up.children[i + 2..]);
    LogTwo(p, left, parent);
  }

  // ---- What the model says about these pages ------------------------------------------

  lemma RotateLeftImage(a: Tree, sep: Key, b: Tree)
    requires Alike(a, b) && NumKeys(b) >= 2
    ensures CanRotate(Image(a), Image(b), Image(b))
    ensures var p, r := BorrowRight(a, sep, b), RotateLeft(Image(a), sep, Image(b));
            Image(p.left) == r.left && p.sep == r.sep && Image(p.right) == r.right && p.left.id == a.id
            && p.right.id == b.id
  {
  }

  lemma RotateRightImage(a: Tree, sep: Key, b: Tree)
    requires Alike(a, b) && NumKeys(a) >= 2
    ensures CanRotate(Image(a), Image(b), Image(a))
    ensures var p, r := BorrowLeft(a, sep, b), RotateRight(Image(a), sep, Image(b));
            Image(p.left) == r.left && p.sep == r.sep && Image(p.right) == r.right && p.left.id == a.id
            && p.right.id == b.id
  {
  }

  lemma AbsorbImage(a: Tree, sep: Key, b: Tree)
    requires Alike(a, b)
    ensures Image(Merged(a, sep, b)) == Absorb(Image(a), sep, Image(b)) && Merged(a, sep, b).id == a.id
  {
  }

  lemma SetPairImage(n: Tree, i: nat, p: Two)
    requires n.Nd? && i < |n.keys| && |n.kids| == |n.keys| + 1 && p.left.id == n.kids[i].id
             && p.right.id == n.kids[i + 1].id
    ensures Image(SetPair(n, i, p)) == Index(n.keys[i := p.sep], KidIds(n.kids))
  {
  }

  lemma SetMergedImage(n: Tree, i: nat, m: Tree)
    requires n.Nd? && i < |n.keys| && |n.kids| == |n.keys| + 1 && m.id == n.kids[i].id
    ensures Image(SetMerged(n, i, m)) == Shrunk(Image(n), i)
  {
  }

  /** A pair of children of a node in the store. */
  lemma {:induction false} PairPages(s: Store, n: Tree, i: nat, hi: int)
    requires n.Nd? && i < |n.keys| && Holds(s, n, hi, true) && Distinct(Ids(n))
    ensures Neighbours(s, n.kids[i].id, n.kids[i + 1].id, n.id, i)
    ensures s[n.id] == Image(n) && s[n.kids[i].id] == Image(n.kids[i]) && s[n.kids[i + 1].id] == Image(n.kids[i + 1])
  {
    PairIds(n, i);
    assert Holds(s, n.kids[i], Upper(n.keys, hi, i), true);
    assert Holds(s, n.kids[i + 1], Upper(n.keys, hi, i + 1), true);
  }

  /** The pages a repair works on: well-formed neighbours, in the store as the tree has them. */
  ghost predicate Broken(s: Store, n: Tree, j: nat, order: nat, lo: int, hi: int, h: nat) {
    Holds(s, n, hi, true) && Distinct(Ids(n)) && Deficient(n, j, order, lo, hi, h) && Linked(n)
  }

  lemma {:induction false} BorrowedRight(s: Store, n: Tree, j: nat, order: nat, lo: int, hi: int, h: nat)
    requires Broken(s, n, j, order, lo, hi, h) && j < |n.keys| && NumKeys(n.kids[j + 1]) > order / 2
    ensures var x, y := n.kids[j].id, n.kids[j + 1].id;
            && Mendable(n, j) && Neighbours(s, x, y, n.id, j)
            && CanRotate(s[x], s[y], s[y]) && (s[x].Leaf? ==> Sorted(s[x].entries))
            && var f := Mend(n, j, order);
            && !f.merged && f.log == ThreeWrites(LeftRotated(s, x, y, n.id, j), x, y, n.id)
            && Replay(s, f.log) == LeftRotated(s, x, y, n.id, j)
  {
    DeficientMendable(n, j, order, lo, hi, h);
    PairPages(s, n, j, hi);
    BorrowedRightLog(s, n, j, order);
  }

  lemma {:induction false} BorrowedRightLog(s: Store, n: Tree, j: nat, order: nat)
    requires order >= 2 && Mendable(n, j) && j < |n.keys| && NumKeys(n.kids[j + 1]) > order / 2
    requires var x, y := n.kids[j].id, n.kids[j + 1].id;
             Neighbours(s, x, y, n.id, j) && s[x] == Image(n.kids[j]) && s[y] == Image(n.kids[j + 1])
               && s[n.id] == Image(n)
    ensures var x, y := n.kids[j].id, n.kids[j + 1].id;
            && CanRotate(s[x], s[y], s[y])
            && var f := Mend(n, j, order);
            && !f.merged && f.log == ThreeWrites(LeftRotated(s, x, y, n.id, j), x, y, n.id)
            && Replay(s, f.log) == LeftRotated(s, x, y, n.id, j)
  {
    var a, b := n.kids[j], n.kids[j + 1];
    RotateLeftImage(a, n.keys[j], b);
    var q := BorrowRight(a, n.keys[j], b);
    SetPairImage(n, j, q);
    ReplayThree(s, Write(q.left), Write(q.right), Write(SetPair(n, j, q)));
    assert LeftRotated(s, a.id, b.id, n.id, j) == Replay(s, [Write(q.left), Write(q.right), Write(SetPair(n, j, q))]);
  }

  lemma {:induction false} BorrowedLeft(s: Store, n: Tree, j: nat, order: nat, lo: int, hi: int, h: nat)
    requires Broken(s, n, j, order, lo, hi, h) && j > 0 && NumKeys(n.kids[j - 1]) > order / 2
    requires j < |n.keys| ==> NumKeys(n.kids[j + 1]) <= order / 2
    ensures var x, y := n.kids[j - 1].id, n.kids[j].id;
            && Mendable(n, j) && Neighbours(s, x, y, n.id, j - 1)
            && CanRotate(s[x], s[y], s[x]) && (s[y].Leaf? ==> Sorted(s[y].entries))
            && var f := Mend(n, j, order);
            && !f.merged && f.log == ThreeWrites(RightRotated(s, x, y, n.id, j - 1), y, x, n.id)
            && Replay(s, f.log) == RightRotated(s, x, y, n.id, j - 1)
  {
    DeficientMendable(n, j, order, lo, hi, h);
    PairPages(s, n, j - 1, hi);
    BorrowedLeftLog(s, n, j, order);
  }

  lemma {:induction false} BorrowedLeftLog(s: Store, n: Tree, j: nat, order: nat)
    requires order >= 2 && Mendable(n, j) && j > 0 && NumKeys(n.kids[j - 1]) > order / 2
    requires j < |n.keys| ==> NumKeys(n.kids[j + 1]) <= order / 2
    requires var x, y := n.kids[j - 1].id, n.kids[j].id;
             Neighbours(s, x, y, n.id, j - 1) && s[x] == Image(n.kids[j - 1]) && s[y] == Image(n.kids[j])
               && s[n.id] == Image(n)
    ensures var x, y := n.kids[j - 1].id, n.kids[j].id;
            && CanRotate(s[x], s[y], s[x])
            && var f := Mend(n, j, order);
            && !f.merged && f.log == ThreeWrites(RightRotated(s, x, y, n.id, j - 1), y, x, n.id)
            && Replay(s, f.log) == RightRotated(s, x, y, n.id, j - 1)
  {
    var a, b := n.kids[j - 1], n.kids[j];
    RotateRightImage(a, n.keys[j - 1], b);
    var q := BorrowLeft(a, n.keys[j - 1], b);
    SetPairImage(n, j - 1, q);
    ReplayThree(s, Write(q.right), Write(q.left), Write(SetPair(n, j - 1, q)));
    Swap(s, a.id, b.id, Image(q.left), Image(q.right));
    assert RightRotated(s, a.id, b.id, n.id, j - 1) ==
      Replay(s, [Write(q.right), Write(q.left), Write(SetPair(n, j - 1, q))]);
  }

  /** The left page of the pair that is merged when nothing can be borrowed. */
  function MergeAt(n: Tree, j: nat): nat
    requires n.Nd? && j <= |n.keys| && |n.keys| >= 1
  {
    if j < |n.keys| then j else j - 1
  }

  lemma {:induction false} MergedLog(s: Store, n: Tree, j: nat, order: nat)
    requires order >= 2 && Mendable(n, j)
    requires j < |n.keys| ==> NumKeys(n.kids[j + 1]) <= order / 2
    requires j > 0 ==> NumKeys(n.kids[j - 1]) <= order / 2
    requires var i := MergeAt(n, j);
             var x, y := n.kids[i].id, n.kids[i + 1].id;
             Neighbours(s, x, y, n.id, i) && s[x] == Image(n.kids[i]) && s[y] == Image(n.kids[i + 1])
               && s[n.id] == Image(n)
    ensures var i := MergeAt(n, j);
            var x, y := n.kids[i].id, n.kids[i + 1].id;
            && s[x].Leaf? == s[y].Leaf?
            && var f := Mend(n, j, order);
            && f.merged && f.log == TwoWrites(MergedStore(s, x, y, n.id, i), x, n.id)
            && Replay(s, f.log) == MergedStore(s, x, y, n.id, i)
  {
    var i := MergeAt(n, j);
    var m := Merged(n.kids[i], n.keys[i], n.kids[i + 1]);
    AbsorbImage(n.kids[i], n.keys[i], n.kids[i + 1]);
    SetMergedImage(n, i, m);
    ReplayTwo(s, Write(m), Write(SetMerged(n, i, m)));
  }

  lemma {:induction false} Siblings(s: Store, n: Tree, j: nat, order: nat, lo: int, hi: int, h: nat, i: nat)
    requires Broken(s, n, j, order, lo, hi, h) && i < |n.kids|
    ensures n.id in s && s[n.id] == Index(n.keys, KidIds(n.kids)) && |n.kids| == |n.keys| + 1
    ensures n.kids[i].id in s && Count(s[n.kids[i].id]) == NumKeys(n.kids[i])
  {
    assert Holds(s, n.kids[i], Upper(n.keys, hi, i), true);
  }

  /** The store and the log after the repair of child j. */
  ghost predicate Mended(s: Store, log0: seq<Change>, n: Tree, j: nat, order: nat, merged: bool, store: Store,
      log: seq<Change>) {
    && order >= 2 && Mendable(n, j)
    && merged == Mend(n, j, order).merged
    && log == log0 + Mend(n, j, order).log
    && store == Replay(s, Mend(n, j, order).log)
  }

  method RepairFromRight(p: Pager, page: PageId, right: PageId, j: nat, parent: PageId,
                         ghost n: Tree, ghost lo: int, ghost hi: int, ghost h: nat)
    requires p.Valid() && Broken(p.store, n, j, p.order, lo, hi, h) && j < |n.keys|
             && NumKeys(n.kids[j + 1]) > p.order / 2
    requires parent == n.id && page == n.kids[j].id && right == n.kids[j + 1].id
    modifies p.Repr
    ensures p.Valid() && p.Repr == old(p.Repr) && p.nextId == old(p.nextId)
    ensures Mended(old(p.store), old(p.log), n, j, p.order, false, p.store, p.log)
  {
    BorrowedRight(p.store, n, j, p.order, lo, hi, h);
    BorrowFromRight(p, page, right, j, parent);
  }

  method RepairFromLeft(p: Pager, page: PageId, left: PageId, j: nat, parent: PageId,
                        ghost n: Tree, ghost lo: int, ghost hi: int, ghost h: nat)
    requires p.Valid() && Broken(p.store, n, j, p.order, lo, hi, h) && j > 0 && NumKeys(n.kids[j - 1]) > p.order / 2
    requires j < |n.keys| ==> NumKeys(n.kids[j + 1]) <= p.order / 2
    requires parent == n.id && page == n.kids[j].id && left == n.kids[j - 1].id
    modifies p.Repr
    ensures p.Valid() && p.Repr == old(p.Repr) && p.nextId == old(p.nextId)
    ensures Mended(old(p.store), old(p.log), n, j, p.order, false, p.store, p.log)
  {
    BorrowedLeft(p.store, n, j, p.order, lo, hi, h);
    BorrowFromLeft(p, page, left, j - 1, parent);
  }

  method RepairByMerge(p: Pager, left: PageId, right: PageId, i: nat, parent: PageId,
                       ghost n: Tree, ghost j: nat, ghost lo: int, ghost hi: int, ghost h: nat)
    requires p.Valid() && Broken(p.store, n, j, p.order, lo, hi, h)
    requires j < |n.keys| ==> NumKeys(n.kids[j + 1]) <= p.order / 2
    requires j > 0 ==> NumKeys(n.kids[j - 1]) <= p.order / 2
    requires i == MergeAt(n, j) && parent == n.id && left == n.kids[i].id && right == n.kids[i + 1].id
    modifies p.Repr
    ensures p.Valid() && p.Repr == old(p.Repr) && p.nextId == old(p.nextId)
    ensures Mended(old(p.store), old(p.log), n, j, p.order, true, p.store, p.log)
  {
    DeficientMendable(n, j, p.order, lo, hi, h);
    PairPages(p.store, n, i, hi);
    MergedLog(p.store, n, j, p.order);
    MergePages(p, left, right, i, parent);
  }

  /** Repair the underfull child j; tell whether two pages were merged. */
  method BorrowOrMerge(p: Pager, j: nat, parent: PageId, ghost n: Tree, ghost lo: int, ghost hi: int, ghost h: nat)
    returns (merged: bool)
    requires p.Valid() && Broken(p.store, n, j, p.order, lo, hi, h) && parent == n.id
    modifies p.Repr
    ensures p.Valid() && p.Repr == old(p.Repr) && p.nextId == old(p.nextId)
    ensures Mended(old(p.store), old(p.log), n, j, p.order, merged, p.store, p.log)
  {
    Siblings(p.store, n, j, p.order, lo, hi, h, j);
    var up := p.GetPage(parent);
    var least := p.order / 2;
    var last := |up.children| - 1;
    if j < last {
      Siblings(p.store, n, j, p.order, lo, hi, h, j + 1);
      var right := p.GetPage(up.children[j + 1]);
      if Count(right) > least {
        RepairFromRight(p, up.children[j], up.children[j + 1], j, parent, n, lo, hi, h);
        return false;
      }
    }
    if j > 0 {
      Siblings(p.store, n, j, p.order, lo, hi, h, j - 1);
      var left := p.GetPage(up.children[j - 1]);
      if Count(left) > least {
        RepairFromLeft(p, up.children[j], up.children[j - 1], j, parent, n, lo, hi, h);
        return false;
      }
    }
    var i := if j < last then j else j - 1;
    RepairByMerge(p, up.children[i], up.children[i + 1], i, parent, n, j, lo, hi, h);
    merged := true;
  }
}
