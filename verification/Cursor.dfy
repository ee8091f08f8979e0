/** A cursor over a key range: it walks the leaf links and always stands at a position of the range's entry list. */
module CursorModel {
  import opened Entries
  import opened Tree
  import opened TreeInsert
  import opened TreeLeaves
  import opened TreeSteps
  import opened BPlusTree

  // ---- Positions in the leaves and positions in the range ------------------------------------

  /** Cell j of leaf i, when it lies in the range, is the entry that many places into the range. */
  lemma {:induction false} Locate(t: Tree, i: nat, j: nat, a: int, b: int)
    requires i < |Leaves(t)| && Leaves(t)[i].Lf? && j < |Leaves(t)[i].entries|
    requires a <= Leaves(t)[i].entries[j].key <= b
    ensures var p := |Range(Read(Leaves(t), i, j), a, b)|;
            p < |Range(Contents(t), a, b)| && Range(Contents(t), a, b)[p] == Leaves(t)[i].entries[j]
  {
    ReadCell(Leaves(t), i, j, a, b);
    ReadRest(t, i, j + 1);
    RangeAppend(Read(Leaves(t), i, j + 1), Unread(Leaves(t), i, j + 1), a, b);
  }

  /** Keys below the start of the range add nothing to what has been read of it. */
  lemma {:induction false} SkipBelow(ls: seq<Tree>, i: nat, j: nat, a: int, b: int)
    requires i < |ls| && ls[i].Lf? && j <= |ls[i].entries| && AllBelow(ls[i].entries[..j], a)
    requires Range(ContentsOf(ls[..i]), a, b) == []
    ensures Range(Read(ls, i, j), a, b) == []
  {
    RangeAppend(ContentsOf(ls[..i]), ls[i].entries[..j], a, b);
    RangeEmpty(ls[i].entries[..j], a, b);
  }

  lemma RangeCons(es: seq<Entry>, a: int, b: int)
    requires es != []
    ensures Range(es, a, b) == (if a <= es[0].key <= b then [es[0]] else []) + Range(es[1..], a, b)
  {
  }

  /** What precedes position p of a range is the range up to the key before it. */
  lemma {:induction false} RangeBefore(es: seq<Entry>, a: int, b: int, p: nat)
    requires Sorted(es) && p < |Range(es, a, b)|
    ensures Range(es, a, Range(es, a, b)[p].key - 1) == Range(es, a, b)[..p]
    decreases |es|
  {
    var r, rest := Range(es, a, b), Range(es[1..], a, b);
    var k := r[p].key - 1;
    SortedTail(es);
    RangeCons(es, a, b);
    RangeCons(es, a, k);
    if a <= es[0].key <= b {
      if p == 0 {
        RangeEmpty(es, a, k);
      } else {
        assert r[p] == rest[p - 1];
        RangeBefore(es[1..], a, b, p - 1);
        RangeKey(es[1..], a, b, p - 1);
        assert r[..p] == [es[0]] + rest[..p - 1];
      }
    } else {
      assert r == rest;
      RangeKey(es[1..], a, b, p);
      RangeBefore(es[1..], a, b, p);
    }
  }

  lemma {:induction false} RangeKey(es: seq<Entry>, a: int, b: int, p: nat)
    requires Sorted(es) && p < |Range(es, a, b)|
    ensures es != [] && es[0].key <= Range(es, a, b)[p].key <= b
  {
    RangeExact(es, a, b);
    assert Range(es, a, b)[p] in Range(es, a, b);
  }

  lemma SortedApart(es: seq<Entry>, p: nat, q: nat)
    requires Sorted(es) && p < |es| && q < |es| && es[p].key == es[q].key
    ensures p == q
  {
  }

  // ---- Where a cursor stands ---------------------------------------------------------------

  /** A tree in the store whose leaves can be read along their links. */
  ghost predicate Readable(store: Store, t: Tree, order: nat, h: nat) {
    Shape(t, order, RootLeast(t), 0, KEY_LIMIT, h) && Chained(t, None) && Holds(store, t, KEY_LIMIT, true)
  }

  /** Before cell j of leaf i, p entries of the range lie behind. */
  ghost predicate Standing(t: Tree, a: int, b: int, p: nat, i: nat, j: nat, leaf: PageId) {
    && i < |Leaves(t)| && Leaves(t)[i].Lf? && leaf == Leaves(t)[i].id && j <= |Leaves(t)[i].entries|
    && p == |Range(Read(Leaves(t), i, j), a, b)|
  }

  /** A cursor at position p: on the cell of the entry there, or past the end with no entry. */
  ghost predicate Positioned(t: Tree, a: int, b: int, p: nat, i: nat, j: nat, leaf: PageId, current: Option<Entry>) {
    match current
    case None => p == |Range(Contents(t), a, b)|
    case Some(e) =>
      && p < |Range(Contents(t), a, b)| && Range(Contents(t), a, b)[p] == e
      && Standing(t, a, b, p, i, j, leaf) && Standing(t, a, b, p + 1, i, j + 1, leaf)
  }

  lemma {:induction false} PageHere(store: Store, t: Tree, order: nat, h: nat, a: int, b: int, p: nat, i: nat, j: nat,
      leaf: PageId)
    requires Readable(store, t, order, h) && Standing(t, a, b, p, i, j, leaf)
    ensures leaf in store && store[leaf] == Leaf(Leaves(t)[i].entries, Leaves(t)[i].next)
  {
    LeafPageAt(store, t, order, RootLeast(t), 0, KEY_LIMIT, h, i);
  }

  /** What the next cell means for the position. */
  lemma {:induction false} CellHere(store: Store, t: Tree, order: nat, h: nat, a: int, b: int, p: nat, i: nat, j: nat,
      leaf: PageId)
    requires Readable(store, t, order, h) && Standing(t, a, b, p, i, j, leaf) && j < |Leaves(t)[i].entries|
    ensures var e := Leaves(t)[i].entries[j];
            && (e.key > b ==> Positioned(t, a, b, p, i, j, leaf, None))
            && (a <= e.key <= b ==> Positioned(t, a, b, p, i, j, leaf, Some(e)))
            && (e.key < a ==> Standing(t, a, b, p, i, j + 1, leaf))
  {
    var e := Leaves(t)[i].entries[j];
    ReadCell(Leaves(t), i, j, a, b);
    if e.key > b {
      Ordered(t, order, RootLeast(t), 0, KEY_LIMIT, h);
      PastEnd(t, i, j, a, b);
    } else if a <= e.key {
      Locate(t, i, j, a, b);
    }
  }

  /** What the end of a leaf means: the next leaf goes on at the same position, or the range is over. */
  lemma {:induction false} EndHere(store: Store, t: Tree, order: nat, h: nat, a: int, b: int, p: nat, i: nat,
      leaf: PageId)
    requires Readable(store, t, order, h) && i < |Leaves(t)| && Leaves(t)[i].Lf?
    requires Standing(t, a, b, p, i, |Leaves(t)[i].entries|, leaf)
    ensures match Leaves(t)[i].next
            case None => Positioned(t, a, b, p, i, |Leaves(t)[i].entries|, leaf, None)
            case Some(next) => i + 1 < |Leaves(t)| && Standing(t, a, b, p, i + 1, 0, next)
  {
    LeafPageAt(store, t, order, RootLeast(t), 0, KEY_LIMIT, h, i);
    ReadLeaf(Leaves(t), i);
    if i + 1 < |Leaves(t)| {
      LeafPageAt(store, t, order, RootLeast(t), 0, KEY_LIMIT, h, i + 1);
      ReadLeaf(Leaves(t), i + 1);
    } else {
      LeavesContents(t);
      assert Leaves(t)[..i + 1] == Leaves(t);
    }
  }

  /** A cursor that skipped the cells below the range in its first leaf stands at position 0. */
  lemma {:induction false} FirstHere(store: Store, t: Tree, order: nat, h: nat, a: int, b: int, j: nat)
    requires Readable(store, t, order, h)
    requires var i := LeafIndex(t, a);
             i < |Leaves(t)| && Leaves(t)[i].Lf? && j <= |Leaves(t)[i].entries|
             && AllBelow(Leaves(t)[i].entries[..j], a)
    ensures var i := LeafIndex(t, a);
            Standing(t, a, b, 0, i, j, Leaves(t)[i].id)
  {
    ScanStart(t, a, b, order, RootLeast(t), 0, KEY_LIMIT, h);
    SkipBelow(Leaves(t), LeafIndex(t, a), j, a, b);
  }

  lemma {:induction false} RoutedPage(store: Store, t: Tree, order: nat, h: nat, k: int)
    requires Readable(store, t, order, h)
    ensures var i := LeafIndex(t, k);
            i < |Leaves(t)| && Leaves(t)[i].Lf? && Leaves(t)[i].id in store
            && store[Leaves(t)[i].id] == Leaf(Leaves(t)[i].entries, Leaves(t)[i].next)
  {
    RoutedLeaf(t, k, order, RootLeast(t), 0, KEY_LIMIT, h);
    LeafPageAt(store, t, order, RootLeast(t), 0, KEY_LIMIT, h, LeafIndex(t, k));
  }

  /** What precedes position p is the range up to the key before it; a key at the start has nothing before it. */
  lemma {:induction false} RowsBefore(t: Tree, order: nat, h: nat, a: int, b: int, p: nat)
    requires Shape(t, order, RootLeast(t), 0, KEY_LIMIT, h) && p < |Range(Contents(t), a, b)|
    ensures var rows := Range(Contents(t), a, b);
            && Range(Contents(t), a, rows[p].key - 1) == rows[..p]
            && (rows[p].key <= a ==> p == 0)
  {
    var rows := Range(Contents(t), a, b);
    Ordered(t, order, RootLeast(t), 0, KEY_LIMIT, h);
    RangeBefore(Contents(t), a, b, p);
    RangeExact(Contents(t), a, b);
    if p > 0 {
      assert rows[0] in rows;
    }
  }

  /** The leaf that the key of a row is routed to holds it, and a cursor on its cell is at the row's position. */
  lemma {:induction false} RowCell(store: Store, t: Tree, order: nat, h: nat, a: int, b: int, p: nat, j: nat)
    requires Readable(store, t, order, h) && p < |Range(Contents(t), a, b)|
    requires var e := Range(Contents(t), a, b)[p];
             var i := LeafIndex(t, e.key);
             i < |Leaves(t)| && Leaves(t)[i].Lf? && j < |Leaves(t)[i].entries| && Leaves(t)[i].entries[j].key == e.key
    ensures var e := Range(Contents(t), a, b)[p];
            var i := LeafIndex(t, e.key);
            Positioned(t, a, b, p, i, j, Leaves(t)[i].id, Some(e))
  {
    var rows := Range(Contents(t), a, b);
    var e := rows[p];
    var i := LeafIndex(t, e.key);
    Ordered(t, order, RootLeast(t), 0, KEY_LIMIT, h);
    RangeExact(Contents(t), a, b);
    assert e in rows;
    Locate(t, i, j, a, b);
    var q := |Range(Read(Leaves(t), i, j), a, b)|;
    SortedApart(rows, p, q);
    CellHere(store, t, order, h, a, b, q, i, j, Leaves(t)[i].id);
  }

  lemma {:induction false} RowHeld(t: Tree, order: nat, h: nat, a: int, b: int, p: nat)
    requires Shape(t, order, RootLeast(t), 0, KEY_LIMIT, h) && p < |Range(Contents(t), a, b)|
    ensures var e := Range(Contents(t), a, b)[p];
            var i := LeafIndex(t, e.key);
            && i < |Leaves(t)| && Leaves(t)[i].Lf?
            && exists j :: 0 <= j < |Leaves(t)[i].entries| && Leaves(t)[i].entries[j].key == e.key
  {
    var e := Range(Contents(t), a, b)[p];
    Ordered(t, order, RootLeast(t), 0, KEY_LIMIT, h);
    RangeExact(Contents(t), a, b);
    assert e in Range(Contents(t), a, b);
    RoutedGet(t, e.key, order, RootLeast(t), 0, KEY_LIMIT, h);
    GetFound(Contents(t), e.key);
    GetFound(Leaves(t)[LeafIndex(t, e.key)].entries, e.key);
  }

  lemma NextSlice(rows: seq<Entry>, from: nat, p: nat)
    requires from <= p <= |rows|
    ensures p < |rows| ==> rows[from..p] + [rows[p]] == rows[from..p + 1]
  {
  }

  class Cursor {
    const tree: BPlusTree
    const start: int
    const end: int
    var leaf: PageId
    var idx: nat
    var current: Option<Entry>
    /** The leaf the cursor is in, and its position in the range. */
    ghost var leafNo: nat
    ghost var pos: nat

    /** The entries of the range, in order. */
    ghost function Rows(): seq<Entry>
      reads tree
    {
      Range(Contents(tree.tree), start, end)
    }

    /** The cursor's tree is in order, and none of its objects is the cursor. */
    ghost predicate Bound()
      reads this, tree, tree.pager, tree.pager.Repr
    {
      tree.Valid() && this !in tree.pager.Repr
    }

    /** Position pos of the range: the current entry is the one there, in its leaf; past the end there is none. */
    ghost predicate Valid()
      reads this, tree
    {
      Positioned(tree.tree, start, end, pos, leafNo, idx, leaf, current)
    }

    /** A new cursor stands at the first entry of the range. */
    constructor (tree: BPlusTree, start: int, end: int)
      requires tree.Valid()
      ensures Bound() && Valid() && this.tree == tree && this.start == start && this.end == end && pos == 0
    {
      this.tree := tree;
      this.start := start;
      this.end := end;
      current := None;
      idx := 0;
      leaf := tree.rootId;
      new;
      var ok := Reset();
    }

    /** Go to the first entry of the range; tell whether there is one. */
    method Reset() returns (ok: bool)
      requires Bound()
      modifies this
      ensures Valid() && pos == 0 && ok == (|Rows()| > 0)
    {
      var from := tree.FindLeaf(start);
      RoutedPage(tree.pager.store, tree.tree, tree.pager.order, tree.height, start);
      var first := FirstValid(from);
      FirstHere(tree.pager.store, tree.tree, tree.pager.order, tree.height, start, end, first);
      ok := Advance(from, first, 0, LeafIndex(tree.tree, start));
    }

    /** The first cell of the leaf that is not below the range. */
    method FirstValid(leaf: PageId) returns (i: nat)
      requires tree.pager.Valid() && leaf in tree.pager.store && tree.pager.store[leaf].Leaf?
      ensures i <= |tree.pager.store[leaf].entries| && AllBelow(tree.pager.store[leaf].entries[..i], start)
    {
      var page := tree.pager.GetPage(leaf);
      i := 0;
      while i < |page.entries| && page.entries[i].key < start
        invariant i <= |page.entries| && AllBelow(page.entries[..i], start)
      {
        i := i + 1;
      }
    }

    /** Walk forward to the next entry of the range at or after the cell, or past its end. */
    method Advance(from: PageId, at: nat, ghost p: nat, ghost i: nat) returns (ok: bool)
      requires tree.Valid() && Standing(tree.tree, start, end, p, i, at, from)
      modifies this
      ensures Valid() && pos == p && ok == (pos < |Rows()|)
    {
      var l, j, found, no := Seek(from, at, p, i);
      leaf, idx, current, leafNo, pos := l, j, found, no, p;
      ok := found != None;
    }

    method Seek(leaf0: PageId, idx0: nat, ghost p: nat, ghost i0: nat)
      returns (l: PageId, j: nat, found: Option<Entry>, ghost i: nat)
      requires tree.Valid() && Standing(tree.tree, start, end, p, i0, idx0, leaf0)
      ensures Positioned(tree.tree, start, end, p, i, j, l, found)
    {
      l, j, i := leaf0, idx0, i0;
      ghost var store, t, order, h := tree.pager.store, tree.tree, tree.pager.order, tree.height;
      assert Readable(store, t, order, h);
      while true
        invariant Standing(t, start, end, p, i, j, l)
        decreases |Leaves(t)| - i, |Leaves(t)[i].entries| - j
      {
        PageHere(store, t, order, h, start, end, p, i, j, l);
        var page := tree.pager.GetPage(l);
        if j < |page.entries| {
          CellHere(store, t, order, h, start, end, p, i, j, l);
          var e := page.entries[j];
          if e.key > end {
            return l, j, None, i;
          }
          if e.key >= start {
            return l, j, Some(e), i;
          }
          j := j + 1;
        } else {
          EndHere(store, t, order, h, start, end, p, i, l);
          if page.next == None {
            return l, j, None, i;
          }
          l, j, i := page.next.value, 0, i + 1;
        }
      }
    }

    /** Go to the next entry; an exhausted cursor stays where it is. */
    method Next() returns (ok: bool)
      requires Bound() && Valid()
      modifies this
      ensures Valid() && pos == (if old(pos) < |Rows()| then old(pos) + 1 else old(pos))
      ensures ok == (pos < |Rows()|)
    {
      if current == None {
        return false;
      }
      ok := Advance(leaf, idx + 1, pos + 1, leafNo);
    }

    /** Go to the previous entry; the first entry has none, and an exhausted cursor finds none either. */
    method Prev() returns (ok: bool)
      requires Bound() && Valid()
      modifies this
      ensures Valid() && ok == (0 < old(pos) < |Rows()|)
      ensures pos == if ok then old(pos) - 1 else old(pos)
    {
      if current == None {
        return false;
      }
      var row := LastBefore(current.value.key, pos);
      if row == None {
        return false;
      }
      var l, j, i := FindRow(row.value, pos - 1);
      leaf, idx, current, leafNo, pos := l, j, row, i, pos - 1;
      ok := true;
    }

    /** The row before the row at p, found by scanning the range up to the key there. */
    method LastBefore(key: Key, ghost p: nat) returns (row: Option<Entry>)
      requires tree.Valid() && p < |Rows()| && key == Rows()[p].key
      ensures row == if p > 0 then Some(Rows()[p - 1]) else None
    {
      RowsBefore(tree.tree, tree.pager.order, tree.height, start, end, p);
      if key <= start {
        return None;
      }
      var before := tree.RangeScan(start, key - 1);
      row := if before == [] then None else Some(before[|before| - 1]);
    }

    /** The cell that holds row p. */
    method FindRow(e: Entry, ghost p: nat) returns (l: PageId, j: nat, ghost i: nat)
      requires tree.Valid() && p < |Rows()| && e == Rows()[p]
      ensures Positioned(tree.tree, start, end, p, i, j, l, Some(e))
    {
      ghost var store, t, order, h := tree.pager.store, tree.tree, tree.pager.order, tree.height;
      RowHeld(t, order, h, start, end, p);
      RoutedPage(store, t, order, h, e.key);
      l := tree.FindLeaf(e.key);
      j := FindCell(l, e.key);
      i := LeafIndex(t, e.key);
      RowCell(store, t, order, h, start, end, p, j);
    }

    method FindCell(leaf: PageId, key: Key) returns (i: nat)
      requires tree.pager.Valid() && leaf in tree.pager.store && tree.pager.store[leaf].Leaf?
      requires exists j :: 0 <= j < |tree.pager.store[leaf].entries| && tree.pager.store[leaf].entries[j].key == key
      ensures i < |tree.pager.store[leaf].entries| && tree.pager.store[leaf].entries[i].key == key
    {
      var page := tree.pager.GetPage(leaf);
      i := 0;
      while page.entries[i].key != key
        invariant i < |page.entries| && forall q :: 0 <= q < i ==> page.entries[q].key != key
        decreases |page.entries| - i
      {
        i := i + 1;
      }
    }

    /** One step of iteration: the current row, if any, and on to the next. */
    method Step() returns (row: Option<Entry>)
      requires Bound() && Valid()
      modifies this
      ensures Bound() && Valid() && row == old(current)
      ensures pos == if old(pos) < |Rows()| then old(pos) + 1 else old(pos)
    {
      row := current;
      var ok := Next();
    }

    /** Iterating to the end yields the rest of the range. */
    method Rest() returns (rows: seq<Entry>)
      requires Bound() && Valid()
      modifies this
      ensures Valid() && rows == Rows()[old(pos)..] && pos == |Rows()|
    {
      rows := [];
      ghost var from, all := pos, Rows();
      var more := true;
      while more
        invariant Bound() && Valid() && Rows() == all
        invariant from <= pos <= |all| && rows == all[from..pos] && (!more ==> pos == |all|)
        decreases |all| - pos, more
      {
        rows, more := Take(rows, from, all);
      }
    }

    method Take(rows: seq<Entry>, ghost from: nat, ghost all: seq<Entry>) returns (rows': seq<Entry>, more: bool)
      requires Bound() && Valid() && Rows() == all && from <= pos <= |all| && rows == all[from..pos]
      modifies this
      ensures Bound() && Valid() && from <= pos <= |all| && rows' == all[from..pos]
      ensures pos == (if more then old(pos) + 1 else old(pos)) && (!more ==> pos == |all|)
    {
      NextSlice(all, from, pos);
      var row := Step();
      more := row != None;
      rows' := if more then rows + [row.value] else rows;
    }

    /** Going back undoes going forward, also across leaves, exactly when there is a next row; from the last row on, the
        cursor ends up past the end and stays there. */
    method NextThenPrev() returns (moved: bool, back: bool)
      requires Bound() && Valid()
      modifies this
      ensures Valid() && moved == back == (old(pos) + 1 < |Rows()|)
      ensures if old(pos) + 1 < |Rows()| then pos == old(pos) && current == old(current)
              else pos == |Rows()| && current == None
    {
      moved := Next();
      back := Prev();
    }
  }
}
