/** Insertion as a function on trees, and the proof that it is an update of the contents. */
module TreeInsert {
  import opened Entries
  import opened Tree
  import opened Log

  datatype Half = Half(sep: Key, right: Tree)

  /** The outcome of inserting below a page: the page, the new right sibling if it split, the next free id, the log. */
  datatype Grown = Grown(left: Tree, split: Option<Half>, next: PageId, log: seq<Change>)

  function Write(t: Tree): Change {
    PageWrite(t.id, Image(t))
  }

  /** Cut a leaf before entry c: the first key of the right part separates the two. */
  function CutLeaf(t: Tree, c: nat, right: PageId): (Tree, Half)
    requires t.Lf? && c < |t.entries|
  {
    (Lf(t.id, t.entries[..c], Some(right)), Half(t.entries[c].key, Lf(right, t.entries[c..], t.next)))
  }

  /** Cut an index page at key c: that key leaves both parts and separates them. */
  function CutIndex(t: Tree, c: nat, right: PageId): (Tree, Half)
    requires t.Nd? && c < |t.keys| && |t.kids| == |t.keys| + 1
  {
    (Nd(t.id, t.keys[..c], t.kids[..c + 1]), Half(t.keys[c], Nd(right, t.keys[c + 1..], t.kids[c + 1..])))
  }

  /** A leaf split copies the middle key up; the leaf links are spliced. */
  function SplitLeaf(t: Tree, right: PageId): (Tree, Half)
    requires t.Lf? && |t.entries| > 0
  {
    CutLeaf(t, |t.entries| / 2, right)
  }

  /** An index split pushes the middle key up. */
  function SplitIndex(t: Tree, right: PageId): (Tree, Half)
    requires t.Nd? && |t.keys| > 0 && |t.kids| == |t.keys| + 1
  {
    CutIndex(t, |t.keys| / 2, right)
  }

  /** Both halves of a split page have the same number of keys, or the right one has one more entry, the left one one
      more key: an index split gives one key away. */
  lemma SplitEven(t: Tree, right: PageId)
    requires if t.Lf? then |t.entries| > 0 else |t.keys| > 0 && |t.kids| == |t.keys| + 1
    ensures t.Lf? ==>
              var (left, half) := SplitLeaf(t, right);
              left.entries + half.right.entries == t.entries
              && |left.entries| <= |half.right.entries| <= |left.entries| + 1
    ensures t.Nd? ==>
              var (left, half) := SplitIndex(t, right);
              left.keys + [half.sep] + half.right.keys == t.keys && left.kids + half.right.kids == t.kids
              && |half.right.keys| <= |left.keys| <= |half.right.keys| + 1
  {
  }

  /** Child j of t has split: put the new separator where it sorts and the new page right after it. */
  function Adopt(t: Tree, j: nat, left: Tree, half: Half): Tree
    requires t.Nd? && |t.kids| == |t.keys| + 1 && j < |t.kids|
  {
    var i := Slot(t.keys, half.sep);
    var kids := t.kids[j := left];
    Nd(t.id, t.keys[..i] + [half.sep] + t.keys[i..], kids[..i + 1] + [half.right] + kids[i + 1..])
  }

  function InsLeaf(t: Tree, k: Key, v: Bytes, order: nat, next: PageId): Grown
    requires t.Lf?
  {
    var l := Lf(t.id, Put(t.entries, k, v), t.next);
    if |l.entries| <= order || l.entries == [] then Grown(l, None, next, [Write(l)])
    else
      var (left, half) := SplitLeaf(l, next);
      Grown(left, Some(half), next + 1, [Write(l), Write(half.right)])
  }

  /** The node after the insertion below child j, before it may have to split. */
  function Joined(t: Tree, j: nat, g: Grown): Tree
    requires t.Nd? && |t.kids| == |t.keys| + 1 && j < |t.kids|
  {
    if g.split.None? then Nd(t.id, t.keys, t.kids[j := g.left]) else Adopt(t, j, g.left, g.split.value)
  }

  /** A node that took in a separator splits if it is too full. */
  function Settle(n: Tree, order: nat, next: PageId, log: seq<Change>): Grown
    requires n.Nd? && |n.kids| == |n.keys| + 1
  {
    if |n.keys| <= order || n.keys == [] then Grown(n, None, next, log)
    else
      var (left, half) := SplitIndex(n, next);
      Grown(left, Some(half), next + 1, log + [Write(half.right)])
  }

  function Ins(t: Tree, k: Key, v: Bytes, order: nat, next: PageId): Grown
    decreases t
  {
    if t.Lf? then InsLeaf(t, k, v, order, next)
    else if |t.kids| != |t.keys| + 1 then Grown(t, None, next, [])
    else
      var j := Route(t.keys, k);
      var g := Ins(t.kids[j], k, v, order, next);
      var n := Joined(t, j, g);
      Settle(n, order, g.next, if g.split.None? then g.log else g.log + [Write(n)])
  }

  /** The one or two pages an insertion leaves behind. */
  function Both(g: Grown): seq<Tree> {
    if g.split.None? then [g.left] else [g.left, g.split.value.right]
  }

  /** A split of the root puts a new root above both halves. */
  function Grow(g: Grown): Tree {
    if g.split.None? then g.left else Nd(g.next, [g.split.value.sep], [g.left, g.split.value.right])
  }

  function GrowLog(g: Grown): seq<Change> {
    if g.split.None? then g.log else g.log + [Write(Grow(g)), MetaUpdate(Grow(g).id)]
  }

  function GrowNext(g: Grown): PageId {
    if g.split.None? then g.next else g.next + 1
  }

  // ---- Shape ------------------------------------------------------------

  /** What insertion below a subtree with bounds lo and hi owes its parent. */
  ghost predicate Halves(g: Grown, order: nat, least: nat, lo: int, hi: int, h: nat) {
    match g.split
    case None => Shape(g.left, order, least, lo, hi, h)
    case Some(Half(sep, right)) =>
      && lo < sep < hi
      && Shape(g.left, order, order / 2, lo, sep, h)
      && Shape(right, order, order / 2, sep, hi, h)
  }

  /** A separator strictly between the bounds of child j sorts right after separator j - 1. */
  lemma SlotIsChild(keys: seq<Key>, lo: int, hi: int, j: nat, sep: Key)
    requires Separators(keys, lo, hi) && j <= |keys|
    requires Lower(keys, lo, j) < sep < Upper(keys, hi, j)
    ensures Slot(keys, sep) == j
  {
  }

  /** A node of the right form whose key count may be outside the limits. */
  ghost predicate Formed(t: Tree, order: nat, lo: int, hi: int, h: nat) {
    && t.Nd? && h > 0 && |t.kids| == |t.keys| + 1
    && Separators(t.keys, lo, hi)
    && forall i {:trigger t.kids[i]} :: 0 <= i < |t.kids| ==>
         Shape(t.kids[i], order, order / 2, Lower(t.keys, lo, i), Upper(t.keys, hi, i), h - 1)
  }

  /** The separators around the child a key is routed to bound that key. */
  lemma RouteBounds(keys: seq<Key>, lo: int, hi: int, k: int)
    requires Separators(keys, lo, hi) && lo <= k < hi
    ensures Lower(keys, lo, Route(keys, k)) <= k < Upper(keys, hi, Route(keys, k))
  {
  }

  lemma {:induction false} AdoptFormed(t: Tree, order: nat, lo: int, hi: int, h: nat, j: nat, left: Tree, half: Half)
    requires Formed(t, order, lo, hi, h) && j < |t.kids|
    requires Lower(t.keys, lo, j) < half.sep < Upper(t.keys, hi, j)
    requires Shape(left, order, order / 2, Lower(t.keys, lo, j), half.sep, h - 1)
    requires Shape(half.right, order, order / 2, half.sep, Upper(t.keys, hi, j), h - 1)
    ensures Formed(Adopt(t, j, left, half), order, lo, hi, h)
    ensures Adopt(t, j, left, half).kids == t.kids[..j] + [left, half.right] + t.kids[j + 1..]
    ensures Adopt(t, j, left, half).keys == t.keys[..j] + [half.sep] + t.keys[j..]
  {
    SlotIsChild(t.keys, lo, hi, j, half.sep);
    var n := Adopt(t, j, left, half);
    assert n.kids == t.kids[..j] + [left, half.right] + t.kids[j + 1..];
    AdoptSeparators(t.keys, lo, hi, j, half.sep);
    forall i {:trigger n.kids[i]} | 0 <= i < |n.kids|
      ensures Shape(n.kids[i], order, order / 2, Lower(n.keys, lo, i), Upper(n.keys, hi, i), h - 1)
    {
      if i < j {
        assert n.kids[i] == t.kids[i];
      } else if i > j + 1 {
        assert n.kids[i] == t.kids[i - 1];
      }
    }
  }

  lemma AdoptSeparators(keys: seq<Key>, lo: int, hi: int, j: nat, sep: Key)
    requires Separators(keys, lo, hi) && j <= |keys|
    requires Lower(keys, lo, j) < sep < Upper(keys, hi, j)
    ensures Separators(keys[..j] + [sep] + keys[j..], lo, hi)
  {
    var ks := keys[..j] + [sep] + keys[j..];
    assert forall i :: 0 <= i < j ==> keys[i] < sep;
    assert forall i :: j <= i < |keys| ==> sep < keys[i];
    forall i, l | 0 <= i < l < |ks| ensures ks[i] < ks[l] {
      assert ks[i] == if i < j then keys[i] else if i == j then sep else keys[i - 1];
      assert ks[l] == if l < j then keys[l] else if l == j then sep else keys[l - 1];
    }
    forall i | 0 <= i < |ks| ensures lo < ks[i] < hi {
      assert ks[i] == if i < j then keys[i] else if i == j then sep else keys[i - 1];
    }
  }

  /** Both parts of a cut index page are well formed, and the key between them is strictly inside the bounds. */
  lemma {:induction false} CutFormed(t: Tree, order: nat, lo: int, hi: int, h: nat, c: nat, right: PageId)
    requires Formed(t, order, lo, hi, h) && c < |t.keys|
    ensures var (left, half) := CutIndex(t, c, right);
            && lo < half.sep < hi
            && Formed(left, order, lo, half.sep, h)
            && Formed(half.right, order, half.sep, hi, h)
  {
    var (left, half) := CutIndex(t, c, right);
    forall i {:trigger left.kids[i]} | 0 <= i < |left.kids|
      ensures Shape(left.kids[i], order, order / 2, Lower(left.keys, lo, i), Upper(left.keys, half.sep, i), h - 1)
    {
      assert left.kids[i] == t.kids[i];
    }
    forall i {:trigger half.right.kids[i]} | 0 <= i < |half.right.kids|
      ensures Shape(half.right.kids[i], order, order / 2, Lower(half.right.keys, half.sep, i),
              Upper(half.right.keys, hi, i), h - 1)
    {
      assert half.right.kids[i] == t.kids[c + 1 + i];
    }
  }

  lemma {:induction false} ReplaceFormed(t: Tree, order: nat, lo: int, hi: int, h: nat, j: nat, c: Tree)
    requires Formed(t, order, lo, hi, h) && j < |t.kids|
    requires Shape(c, order, order / 2, Lower(t.keys, lo, j), Upper(t.keys, hi, j), h - 1)
    ensures Formed(Nd(t.id, t.keys, t.kids[j := c]), order, lo, hi, h)
  {
  }

  /** The node before a possible split: at most one key too many, and none too few. */
  lemma {:induction false} JoinedFormed(t: Tree, order: nat, lo: int, hi: int, h: nat, j: nat, g: Grown)
    requires Formed(t, order, lo, hi, h) && j < |t.kids|
    requires Halves(g, order, order / 2, Lower(t.keys, lo, j), Upper(t.keys, hi, j), h - 1)
    ensures Formed(Joined(t, j, g), order, lo, hi, h)
    ensures |Joined(t, j, g).keys| == |t.keys| + if g.split.Some? then 1 else 0
    ensures Joined(t, j, g).kids == t.kids[..j] + Both(g) + t.kids[j + 1..]
  {
    if g.split.Some? {
      AdoptFormed(t, order, lo, hi, h, j, g.left, g.split.value);
    } else {
      ReplaceFormed(t, order, lo, hi, h, j, g.left);
    }
  }

  lemma {:induction false} SettleShape(n: Tree, order: nat, next: PageId, log: seq<Change>, least: nat, lo: int,
      hi: int, h: nat)
    requires order >= 2 && Formed(n, order, lo, hi, h) && least <= |n.keys| <= order + 1
    ensures Halves(Settle(n, order, next, log), order, least, lo, hi, h)
  {
    if |n.keys| > order {
      CutFormed(n, order, lo, hi, h, |n.keys| / 2, next);
    }
  }

  /** Splitting a node moves its subtrees, and nothing else. */
  lemma SettleKids(n: Tree, order: nat, next: PageId, log: seq<Change>)
    requires n.Nd? && |n.kids| == |n.keys| + 1
    ensures var r := Settle(n, order, next, log);
            match r.split
            case None => r.left == n && r.next == next
            case Some(Half(_, right)) =>
              && r.left.Nd? && right.Nd? && r.left.id == n.id && right.id == next
              && r.left.kids != [] && r.left.kids + right.kids == n.kids && r.next == next + 1
  {
  }

  lemma {:induction false} SettleContents(n: Tree, order: nat, next: PageId, log: seq<Change>)
    requires n.Nd? && |n.kids| == |n.keys| + 1
    ensures ContentsOf(Both(Settle(n, order, next, log))) == Contents(n)
  {
    var r := Settle(n, order, next, log);
    SettleKids(n, order, next, log);
    if r.split.Some? {
      Pair(r.left, r.split.value.right);
      ContentsAppend(r.left.kids, r.split.value.right.kids);
    } else {
      Single(r.left);
    }
  }

  lemma {:induction false} SettleIds(n: Tree, order: nat, next: PageId, log: seq<Change>)
    requires n.Nd? && |n.kids| == |n.keys| + 1
    ensures var r := Settle(n, order, next, log); IdsOf(Both(r)) == Ids(n) + Span(next, r.next)
  {
    var r := Settle(n, order, next, log);
    SettleKids(n, order, next, log);
    if r.split.Some? {
      Pair(r.left, r.split.value.right);
      IdsAppend(r.left.kids, r.split.value.right.kids);
      assert Span(next, next + 1) == Span(next, next) + multiset{next};
    } else {
      Single(r.left);
    }
  }

  lemma InsLeafShape(t: Tree, k: Key, v: Bytes, order: nat, next: PageId, least: nat, lo: int, hi: int, h: nat)
    requires order >= 2 && t.Lf? && Shape(t, order, least, lo, hi, h) && lo <= k < hi
    ensures Halves(InsLeaf(t, k, v, order, next), order, least, lo, hi, h)
  {
    PutSorted(t.entries, k, v, lo, hi);
    var es := Put(t.entries, k, v);
    if |es| > order {
      assert lo <= es[0].key < es[|es| / 2].key < hi;
    }
  }

  /** Insertion keeps the shape, and a returned separator lies strictly inside the subtree's key range. */
  lemma {:induction false} InsShape(t: Tree, k: Key, v: Bytes, order: nat, next: PageId, least: nat, lo: int, hi: int,
      h: nat)
    requires order >= 2 && Shape(t, order, least, lo, hi, h) && lo <= k < hi
    ensures Halves(Ins(t, k, v, order, next), order, least, lo, hi, h)
    decreases t
  {
    if t.Lf? {
      InsLeafShape(t, k, v, order, next, least, lo, hi, h);
    } else {
      var j, g, n := InsStep(t, k, v, order, next, least, lo, hi, h);
      SettleShape(n, order, g.next, if g.split.None? then g.log else g.log + [Write(n)], least, lo, hi, h);
    }
  }

  /** One level of the recursion: the child, its outcome, and the node that takes it in. */
  lemma {:induction false} InsStep(t: Tree, k: Key, v: Bytes, order: nat, next: PageId, least: nat, lo: int, hi: int,
      h: nat)
    returns (j: nat, g: Grown, n: Tree)
    requires order >= 2 && t.Nd? && Shape(t, order, least, lo, hi, h) && lo <= k < hi
    ensures Formed(t, order, lo, hi, h)
    ensures j == Route(t.keys, k) && j < |t.kids|
    ensures Lower(t.keys, lo, j) <= k < Upper(t.keys, hi, j)
    ensures Shape(t.kids[j], order, order / 2, Lower(t.keys, lo, j), Upper(t.keys, hi, j), h - 1)
    ensures g == Ins(t.kids[j], k, v, order, next)
    ensures Halves(g, order, order / 2, Lower(t.keys, lo, j), Upper(t.keys, hi, j), h - 1)
    ensures n == Joined(t, j, g) && Formed(n, order, lo, hi, h)
    ensures n.id == t.id && n.kids == t.kids[..j] + Both(g) + t.kids[j + 1..]
    ensures |n.keys| == |t.keys| + if g.split.Some? then 1 else 0
    ensures Ins(t, k, v, order, next) == Settle(n, order, g.next, if g.split.None? then g.log else g.log + [Write(n)])
    decreases t, 0
  {
    RouteBounds(t.keys, lo, hi, k);
    j := Route(t.keys, k);
    g := Ins(t.kids[j], k, v, order, next);
    n := Joined(t, j, g);
    InsShape(t.kids[j], k, v, order, next, order / 2, Lower(t.keys, lo, j), Upper(t.keys, hi, j), h - 1);
    JoinedFormed(t, order, lo, hi, h, j, g);
  }

  /** Insertion into a whole tree: the tree grows by at most one level, and only when the root splits. */
  lemma {:induction false} InsertShape(t: Tree, k: Key, v: Bytes, order: nat, next: PageId, least: nat, h: nat)
    requires order >= 2 && least <= 1 && Shape(t, order, least, 0, KEY_LIMIT, h)
    ensures var g := Ins(t, k, v, order, next);
            Shape(Grow(g), order, if g.split.None? then least else 1, 0, KEY_LIMIT, if g.split.None? then h else h + 1)
  {
    InsShape(t, k, v, order, next, least, 0, KEY_LIMIT, h);
    var g := Ins(t, k, v, order, next);
    if g.split.Some? {
      var r := Grow(g);
      assert r.kids[0] == g.left && r.kids[1] == g.split.value.right;
    }
  }

  // ---- Contents ----------------------------------------------------------

  lemma {:induction false} Single(t: Tree)
    ensures ContentsOf([t]) == Contents(t) && IdsOf([t]) == Ids(t)
  {
    assert [t][1..] == [];
  }

  /** Replacing the entry lists on both sides of a child leaves a Put to that child. */
  lemma PutMiddle(a: seq<Entry>, m: seq<Entry>, b: seq<Entry>, k: Key, v: Bytes, lo: int, l: int, u: int, hi: int)
    requires Within(a, lo, l) && l <= k < u && Within(b, u, hi)
    ensures Put(a + m + b, k, v) == a + Put(m, k, v) + b
  {
    PutAppendLeft(a + m, b, k, v);
    PutAppendRight(a, m, k, v);
  }

  lemma {:induction false} KidContents(ts: seq<Tree>, j: nat, c: seq<Tree>)
    requires j < |ts|
    ensures ContentsOf(ts[..j] + c + ts[j + 1..]) == ContentsOf(ts[..j]) + ContentsOf(c) + ContentsOf(ts[j + 1..])
    ensures IdsOf(ts[..j] + c + ts[j + 1..]) == IdsOf(ts[..j]) + IdsOf(c) + IdsOf(ts[j + 1..])
  {
    ContentsAppend(ts[..j] + c, ts[j + 1..]);
    ContentsAppend(ts[..j], c);
    IdsAppend(ts[..j] + c, ts[j + 1..]);
    IdsAppend(ts[..j], c);
  }

  lemma {:induction false} SplitContents(ts: seq<Tree>, m: nat)
    requires m <= |ts|
    ensures ContentsOf(ts) == ContentsOf(ts[..m]) + ContentsOf(ts[m..])
    ensures IdsOf(ts) == IdsOf(ts[..m]) + IdsOf(ts[m..])
  {
    assert ts == ts[..m] + ts[m..];
    ContentsAppend(ts[..m], ts[m..]);
    IdsAppend(ts[..m], ts[m..]);
  }

  /** Insertion puts the record into the contents and touches nothing else. */
  lemma {:induction false} InsContents(t: Tree, k: Key, v: Bytes, order: nat, next: PageId, least: nat, lo: int,
      hi: int, h: nat)
    requires order >= 2 && Shape(t, order, least, lo, hi, h) && lo <= k < hi
    ensures ContentsOf(Both(Ins(t, k, v, order, next))) == Put(Contents(t), k, v)
    decreases t
  {
    if t.Lf? {
      InsLeafKeeps(t, k, v, order, next);
    } else {
      var j, g, n := InsStep(t, k, v, order, next, least, lo, hi, h);
      var l, u := Lower(t.keys, lo, j), Upper(t.keys, hi, j);
      InsContents(t.kids[j], k, v, order, next, order / 2, l, u, h - 1);
      KidContents(t.kids, j, Both(g));
      Around(t.kids, j);
      LeftBelow(t.kids, order, t.keys, lo, hi, h - 1, j);
      RightAbove(t.kids, order, t.keys, lo, hi, h - 1, j);
      PutMiddle(ContentsOf(t.kids[..j]), Contents(t.kids[j]), ContentsOf(t.kids[j + 1..]), k, v, lo, l, u, hi);
      SettleContents(n, order, g.next, if g.split.None? then g.log else g.log + [Write(n)]);
    }
  }

  lemma InsLeafKeeps(t: Tree, k: Key, v: Bytes, order: nat, next: PageId)
    requires t.Lf?
    ensures var r := InsLeaf(t, k, v, order, next);
            && ContentsOf(Both(r)) == Put(t.entries, k, v)
            && IdsOf(Both(r)) == Ids(t) + Span(next, r.next)
            && next <= r.next && (r.split.Some? ==> next < r.next)
  {
    var r := InsLeaf(t, k, v, order, next);
    if r.split.Some? {
      Pair(r.left, r.split.value.right);
      assert Span(next, next + 1) == Span(next, next) + multiset{next};
    } else {
      Single(r.left);
    }
  }

  /** Insert refines map update. */
  lemma {:induction false} InsertContents(t: Tree, k: Key, v: Bytes, order: nat, next: PageId, least: nat, h: nat)
    requires order >= 2 && Shape(t, order, least, 0, KEY_LIMIT, h)
    ensures Contents(Grow(Ins(t, k, v, order, next))) == Put(Contents(t), k, v)
    ensures AsMap(Contents(Grow(Ins(t, k, v, order, next)))) == AsMap(Contents(t))[k := v]
  {
    var g := Ins(t, k, v, order, next);
    InsContents(t, k, v, order, next, least, 0, KEY_LIMIT, h);
    Ordered(t, order, least, 0, KEY_LIMIT, h);
    PutIsMapUpdate(Contents(t), k, v);
    if g.split.None? {
      Single(g.left);
    }
  }

  // ---- Page ids ----------------------------------------------------------

  /** The ids a, a + 1, ..., b - 1, once each. */
  ghost function Span(a: PageId, b: PageId): multiset<PageId> {
    if a >= b then multiset{} else Span(a, b - 1) + multiset{(b - 1) as PageId}
  }

  lemma {:induction false} SpanExact(a: PageId, b: PageId, id: PageId)
    ensures Span(a, b)[id] == if a <= id < b then 1 else 0
  {
    if a < b { SpanExact(a, b - 1, id); }
  }

  /** Insertion keeps every page of the tree and adds exactly the freshly allocated ones. */
  lemma {:induction false} InsIds(t: Tree, k: Key, v: Bytes, order: nat, next: PageId, least: nat, lo: int, hi: int,
      h: nat)
    requires order >= 2 && Shape(t, order, least, lo, hi, h) && lo <= k < hi
    ensures var r := Ins(t, k, v, order, next);
            IdsOf(Both(r)) == Ids(t) + Span(next, r.next) && next <= r.next
            && (r.split.Some? ==> next < r.next)
    decreases t
  {
    if t.Lf? {
      InsLeafKeeps(t, k, v, order, next);
    } else {
      var j, g, n := InsStep(t, k, v, order, next, least, lo, hi, h);
      InsIds(t.kids[j], k, v, order, next, order / 2, Lower(t.keys, lo, j), Upper(t.keys, hi, j), h - 1);
      JoinedIds(t, j, Both(g), n, Span(next, g.next));
      SettleSpan(n, order, g.next, if g.split.None? then g.log else g.log + [Write(n)], Ids(t), next);
    }
  }

  lemma {:induction false} JoinedIds(t: Tree, j: nat, c: seq<Tree>, n: Tree, extra: multiset<PageId>)
    requires t.Nd? && n.Nd? && j < |t.kids| && n.id == t.id && n.kids == t.kids[..j] + c + t.kids[j + 1..]
    requires IdsOf(c) == Ids(t.kids[j]) + extra
    ensures Ids(n) == Ids(t) + extra
  {
    KidContents(t.kids, j, c);
    Around(t.kids, j);
  }

  lemma {:induction false} SettleSpan(n: Tree, order: nat, next: PageId, log: seq<Change>, ids: multiset<PageId>,
      from: PageId)
    requires n.Nd? && |n.kids| == |n.keys| + 1 && from <= next && Ids(n) == ids + Span(from, next)
    ensures var r := Settle(n, order, next, log);
            IdsOf(Both(r)) == ids + Span(from, r.next) && from <= r.next && (r.split.Some? ==> from < r.next)
  {
    SettleKids(n, order, next, log);
    SettleIds(n, order, next, log);
    SpanJoin(from, next, Settle(n, order, next, log).next);
  }

  lemma {:induction false} SpanJoin(a: PageId, b: PageId, c: PageId)
    requires a <= b <= c
    ensures Span(a, b) + Span(b, c) == Span(a, c)
  {
    forall id: PageId ensures (Span(a, b) + Span(b, c))[id] == Span(a, c)[id] {
      SpanExact(a, b, id);
      SpanExact(b, c, id);
      SpanExact(a, c, id);
    }
  }

  lemma SpanFresh(ids: multiset<PageId>, a: PageId, b: PageId)
    requires Distinct(ids) && a <= b && forall id :: id in ids ==> id < a
    ensures Distinct(ids + Span(a, b))
    ensures forall id :: id in ids + Span(a, b) ==> id < b
  {
    forall id: PageId ensures Span(a, b)[id] == if a <= id < b then 1 else 0 {
      SpanExact(a, b, id);
    }
  }

  lemma {:induction false} InsertIds(t: Tree, k: Key, v: Bytes, order: nat, next: PageId, least: nat, h: nat)
    requires order >= 2 && Shape(t, order, least, 0, KEY_LIMIT, h)
    requires Distinct(Ids(t)) && forall id :: id in Ids(t) ==> id < next
    ensures var g := Ins(t, k, v, order, next);
            && Ids(Grow(g)) == Ids(t) + Span(next, GrowNext(g))
            && Distinct(Ids(Grow(g)))
            && (forall id :: id in Ids(Grow(g)) ==> id < GrowNext(g))
            && next <= g.next
  {
    var g := Ins(t, k, v, order, next);
    InsIds(t, k, v, order, next, least, 0, KEY_LIMIT, h);
    if g.split.None? {
      Single(g.left);
    }
    SpanFresh(Ids(t), next, GrowNext(g));
  }

  // ---- Leaf links --------------------------------------------------------

  /** After an insertion the leaves are still linked in order. */
  ghost predicate Relinked(g: Grown, after: Option<PageId>) {
    match g.split
    case None => Chained(g.left, after)
    case Some(Half(_, right)) => Chained(g.left, Some(FirstLeaf(right))) && Chained(right, after)
  }

  ghost predicate ChainedAll(ts: seq<Tree>, after: Option<PageId>) {
    forall i {:trigger Follower(ts, after, i)} :: 0 <= i < |ts| ==> Chained(ts[i], Follower(ts, after, i))
  }

  function FirstOf(ts: seq<Tree>, after: Option<PageId>): Option<PageId> {
    if ts == [] then after else Some(FirstLeaf(ts[0]))
  }

  lemma ChainAppend(a: seq<Tree>, b: seq<Tree>, after: Option<PageId>)
    ensures ChainedAll(a + b, after) <==> ChainedAll(a, FirstOf(b, after)) && ChainedAll(b, after)
  {
    var c, mid := a + b, FirstOf(b, after);
    forall i | 0 <= i < |a| ensures c[i] == a[i] && Follower(c, after, i) == Follower(a, mid, i) {
    }
    forall i | 0 <= i < |b| ensures c[|a| + i] == b[i] && Follower(c, after, |a| + i) == Follower(b, after, i) {
    }
    if ChainedAll(c, after) {
      forall i {:trigger Follower(a, mid, i)} | 0 <= i < |a| ensures Chained(a[i], Follower(a, mid, i)) {
        assert Follower(c, after, i) == Follower(a, mid, i);
      }
      forall i {:trigger Follower(b, after, i)} | 0 <= i < |b| ensures Chained(b[i], Follower(b, after, i)) {
        assert Follower(c, after, |a| + i) == Follower(b, after, i);
      }
    }
    if ChainedAll(a, mid) && ChainedAll(b, after) {
      forall i {:trigger Follower(c, after, i)} | 0 <= i < |c| ensures Chained(c[i], Follower(c, after, i)) {
        if i < |a| {
          assert Follower(c, after, i) == Follower(a, mid, i);
        } else {
          assert Follower(c, after, |a| + (i - |a|)) == Follower(b, after, i - |a|);
        }
      }
    }
  }

  lemma ChainOne(t: Tree, after: Option<PageId>)
    ensures ChainedAll([t], after) <==> Chained(t, after)
  {
    assert Follower([t], after, 0) == after;
  }

  lemma {:induction false} InsChain(t: Tree, k: Key, v: Bytes, order: nat, next: PageId, least: nat, lo: int, hi: int,
                                    h: nat, after: Option<PageId>)
    requires order >= 2 && Shape(t, order, least, lo, hi, h) && lo <= k < hi && Chained(t, after)
    ensures var r := Ins(t, k, v, order, next); Relinked(r, after) && FirstLeaf(r.left) == FirstLeaf(t)
    decreases t
  {
    if t.Nd? {
      var j, g, n := InsStep(t, k, v, order, next, least, lo, hi, h);
      InsChain(t.kids[j], k, v, order, next, order / 2, Lower(t.keys, lo, j), Upper(t.keys, hi, j), h - 1,
               Follower(t.kids, after, j));
      JoinedChain(t, j, g, n, after);
      SettleChain(n, order, g.next, if g.split.None? then g.log else g.log + [Write(n)], after);
    }
  }

  lemma {:induction false} JoinedChain(t: Tree, j: nat, g: Grown, n: Tree, after: Option<PageId>)
    requires t.Nd? && n.Nd? && j < |t.kids| && ChainedAll(t.kids, after)
    requires n.id == t.id && n.kids == t.kids[..j] + Both(g) + t.kids[j + 1..]
    requires Relinked(g, Follower(t.kids, after, j)) && FirstLeaf(g.left) == FirstLeaf(t.kids[j])
    ensures ChainedAll(n.kids, after) && FirstLeaf(n) == FirstLeaf(t)
  {
    ChainReplace(t.kids, j, Both(g), after);
    assert n.kids[0] == if j == 0 then g.left else t.kids[0];
  }

  lemma {:induction false} SettleChain(n: Tree, order: nat, next: PageId, log: seq<Change>, after: Option<PageId>)
    requires n.Nd? && |n.kids| == |n.keys| + 1 && ChainedAll(n.kids, after)
    ensures var r := Settle(n, order, next, log); Relinked(r, after) && FirstLeaf(r.left) == FirstLeaf(n)
  {
    var r := Settle(n, order, next, log);
    SettleKids(n, order, next, log);
    if r.split.Some? {
      ChainAppend(r.left.kids, r.split.value.right.kids, after);
      assert n.kids[0] == r.left.kids[0];
    }
  }

  /** Replacing one subtree by a chained run that starts at the same leaf keeps the whole chain. */
  lemma {:induction false} ChainReplace(ts: seq<Tree>, j: nat, c: seq<Tree>, after: Option<PageId>)
    requires j < |ts| && ChainedAll(ts, after)
    requires c != [] && ChainedAll(c, Follower(ts, after, j)) && FirstLeaf(c[0]) == FirstLeaf(ts[j])
    ensures ChainedAll(ts[..j] + c + ts[j + 1..], after)
  {
    var a, b := ts[..j], ts[j + 1..];
    assert ts == a + ([ts[j]] + b);
    ChainAppend(a, [ts[j]] + b, after);
    ChainAppend([ts[j]], b, after);
    assert FirstOf(b, after) == Follower(ts, after, j);
    ChainAppend(c, b, after);
    ChainAppend(a, c + b, after);
    assert a + (c + b) == a + c + b;
  }

  lemma {:induction false} InsertChain(t: Tree, k: Key, v: Bytes, order: nat, next: PageId, least: nat, h: nat)
    requires order >= 2 && Shape(t, order, least, 0, KEY_LIMIT, h) && Chained(t, None)
    ensures Chained(Grow(Ins(t, k, v, order, next)), None)
    ensures FirstLeaf(Grow(Ins(t, k, v, order, next))) == FirstLeaf(t)
  {
    InsChain(t, k, v, order, next, least, 0, KEY_LIMIT, h, None);
  }
}
