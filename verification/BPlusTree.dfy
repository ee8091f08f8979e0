/** The B+Tree over a page store: pages change in place, and the tree they spell follows the pure model. */
module BPlusTree {
  import opened Entries
  import opened Tree
  import opened Log
  import opened PageStore
  import opened TreeInsert
  import opened TreeDelete
  import opened TreeRecovery
  import opened TreeLive
  import opened TreeLeaves
  import opened TreeSteps
  import opened Rebalance
  import opened TreeClimb

  class BPlusTree {
    const pager: Pager
    var rootId: PageId
    ghost var tree: Tree
    ghost var height: nat

    /** A new tree is one empty leaf. */
    constructor (order: nat)
      requires order >= 2
      ensures Valid() && fresh(pager.Repr) && pager.order == order
      ensures View() == map[]
      ensures pager.log == [MetaUpdate(rootId)] && pager.store == map[rootId := Leaf([], None)]
    {
      var p := new Pager(order);
      var root := p.NewLeafPage();
      p.LogMetaUpdate(root);
      pager := p;
      rootId := root;
      tree := Lf(root, [], None);
      height := 0;
    }

    /** A tree is opened on pages that hold one. */
    constructor Reopen(p: Pager, root: PageId, ghost t: Tree, ghost h: nat)
      requires p.Valid() && root == t.id && Sound(RootSpot(t, h), 0, p.order) && Stored(p.store, p.nextId, t)
      ensures Valid() && pager == p && rootId == root && tree == t && height == h
      ensures View() == AsMap(Contents(t))
    {
      pager := p;
      rootId := root;
      tree := t;
      height := h;
    }

    ghost function Root(): Spot
      reads this
    {
      RootSpot(tree, height)
    }

    /** The pages spell a sound B+Tree from the root page. */
    ghost predicate Valid()
      reads this, pager, pager.Repr
    {
      match Root()
      case Spot(node, _, _, _, _, _) =>
        && pager.Valid() && this !in pager.Repr
        && rootId == node.id
        && Sound(Root(), 0, pager.order)
        && Stored(pager.store, pager.nextId, node)
    }

    /** What the tree contains. */
    ghost function View(): map<Key, Bytes>
      reads this
    {
      AsMap(Contents(tree))
    }

    /** Insert or update a key: the contents are updated as a map, and every page change is in the log. */
    method Insert(key: Key, record: Bytes)
      requires Valid()
      modifies this, pager.Repr
      ensures Valid() && forall o :: o in pager.Repr && o !in old(pager.Repr) ==> fresh(o)
      ensures View() == old(View())[key := record]
      ensures var g := Ins(old(tree), key, record, pager.order, old(pager.nextId));
              && tree == Grow(g) && height == GrowHeight(g, old(height))
              && pager.nextId == GrowNext(g) && pager.log == old(pager.log) + GrowLog(g)
    {
      ghost var g := Ins(tree, key, record, pager.order, pager.nextId);
      pager.Allocated();
      InsertWhole(pager.store, tree, key, record, pager.order, pager.nextId, height);
      ghost var root := Root();
      height := GrowHeight(g, height);
      tree := Grow(g);
      InsertPages(key, record, root);
    }

    /** The pages and the root after an insertion. */
    method InsertPages(key: Key, record: Bytes, ghost root: Spot)
      requires pager.Valid() && this !in pager.Repr && rootId == root.node.id && root.hi == KEY_LIMIT
      requires At(pager.store, pager.order, pager.nextId, root, key)
      requires Distinct(Ids(Grow(Ins(root.node, key, record, pager.order, pager.nextId))))
      modifies this`rootId, pager.Repr
      ensures pager.Valid() && this !in pager.Repr && forall o :: o in pager.Repr && o !in old(pager.Repr) ==> fresh(o)
      ensures var g := Ins(root.node, key, record, pager.order, old(pager.nextId));
              && rootId == Grow(g).id && pager.nextId == GrowNext(g) && pager.log == old(pager.log) + GrowLog(g)
              && Holds(pager.store, Grow(g), KEY_LIMIT, true)
    {
      ghost var log0, g := pager.log, Ins(root.node, key, record, pager.order, pager.nextId);
      InsNoMeta(root.node, key, record, pager.order, pager.nextId, 0);
      var split := InsertAt(rootId, key, record, root);
      PromoteRoot(split, g, log0);
    }

    /** When the root was split, a new root is made above both halves. */
    method PromoteRoot(split: Split, ghost g: Grown, ghost log0: seq<Change>)
      requires pager.Valid() && this !in pager.Repr && rootId == g.left.id && Reports(split, g)
      requires pager.nextId == g.next && pager.log == log0 + g.log
      requires GrownHolds(pager.store, g, KEY_LIMIT, true) && Distinct(Ids(Grow(g)))
      modifies this`rootId, pager.Repr
      ensures pager.Valid() && forall o :: o in pager.Repr && o !in old(pager.Repr) ==> fresh(o)
      ensures rootId == Grow(g).id && pager.nextId == GrowNext(g) && pager.log == log0 + GrowLog(g)
      ensures Holds(pager.store, Grow(g), KEY_LIMIT, true)
    {
      if split != NoSplit {
        RootGrown(pager.store, g);
        rootId := NewRoot(split.key, rootId, split.page);
        LogJoin(log0, g.log, [Write(Grow(g)), MetaUpdate(Grow(g).id)]);
      }
    }

    /** A new root above the two halves of the old one. */
    method NewRoot(sep: Key, left: PageId, right: PageId) returns (root: PageId)
      requires pager.Valid()
      modifies pager.Repr
      ensures pager.Valid() && forall o :: o in pager.Repr && o !in old(pager.Repr) ==> fresh(o)
      ensures root == old(pager.nextId) && pager.nextId == root + 1
      ensures var p := Index([sep], [left, right]);
              && pager.store == old(pager.store)[root := Index([], [])][root := p]
              && pager.log == old(pager.log) + [PageWrite(root, p), MetaUpdate(root)]
    {
      root := pager.NewIndexPage();
      pager.SetIndex(root, [sep], [left, right]);
      pager.MarkDirty(root);
      pager.LogMetaUpdate(root);
    }

    /** Insert below a page; the outcome is the one the pure model computes, in the pages and in the log. */
    method InsertAt(pageId: PageId, key: Key, record: Bytes, ghost s: Spot) returns (split: Split)
      requires pager.Valid() && At(pager.store, pager.order, pager.nextId, s, key) && s.node.id == pageId
      modifies pager.Repr
      ensures pager.Valid() && forall o :: o in pager.Repr && o !in old(pager.Repr) ==> fresh(o)
      ensures var g := Ins(s.node, key, record, pager.order, old(pager.nextId));
              Reports(split, g) && Inserted(old(pager.store), old(pager.log), s, g, pager.store, pager.nextId,
                pager.log)
      decreases s.h, 1
    {
      var page := pager.GetPage(pageId);
      if page.Leaf? {
        split := InsertIntoLeaf(pageId, key, record, s);
      } else {
        split := InsertBelow(pageId, key, record, s);
      }
    }

    method InsertIntoLeaf(id: PageId, key: Key, record: Bytes, ghost s: Spot) returns (split: Split)
      requires pager.Valid() && At(pager.store, pager.order, pager.nextId, s, key) && s.node.Lf? && id == s.node.id
      modifies pager.Repr
      ensures pager.Valid() && forall o :: o in pager.Repr && o !in old(pager.Repr) ==> fresh(o)
      ensures var g := InsLeaf(s.node, key, record, pager.order, old(pager.nextId));
              Reports(split, g) && Inserted(old(pager.store), old(pager.log), s, g, pager.store, pager.nextId,
                pager.log)
      decreases s.h, 0
    {
      ghost var s0, log0, next := pager.store, pager.log, pager.nextId;
      var full := pager.PutAndLog(id, key, record);
      if !full {
        LeafFits(s0, log0, s, key, record, pager.order, next);
        return NoSplit;
      }
      split := SplitFullLeaf(id);
      LeafSplits(s0, log0, s, key, record, pager.order, next);
    }

    /** An overfull leaf, already logged, splits into itself and a new page. */
    method SplitFullLeaf(id: PageId) returns (split: Split)
      requires pager.Valid() && id in pager.store && pager.store[id].Leaf? && |pager.store[id].entries| > 0
      modifies pager.Repr
      ensures pager.Valid() && forall o :: o in pager.Repr && o !in old(pager.Repr) ==> fresh(o)
      ensures var right := old(pager.nextId);
              var es, link := old(pager.store)[id].entries, old(pager.store)[id].next;
              var mid := |es| / 2;
              var upper := Leaf(es[mid..], link);
              && split == Split.Split(es[mid].key, right) && pager.nextId == right + 1
              && pager.store == old(pager.store)[right := Leaf([], None)][right := upper][id := Leaf(es[..mid],
                Some(right))]
              && pager.log == old(pager.log) + [PageWrite(right, upper)]
    {
      pager.Allocated();
      var right := pager.NewLeafPage();
      var splitKey := pager.SplitLeafPage(id, right);
      pager.MarkDirty(right);
      split := Split.Split(splitKey, right);
    }

    method InsertBelow(id: PageId, key: Key, record: Bytes, ghost s: Spot) returns (split: Split)
      requires pager.Valid() && At(pager.store, pager.order, pager.nextId, s, key) && s.node.Nd? && id == s.node.id
      modifies pager.Repr
      ensures pager.Valid() && forall o :: o in pager.Repr && o !in old(pager.Repr) ==> fresh(o)
      ensures var g := Ins(s.node, key, record, pager.order, old(pager.nextId));
              Reports(split, g) && Inserted(old(pager.store), old(pager.log), s, g, pager.store, pager.nextId,
                pager.log)
      decreases s.h, 0
    {
      ghost var s0, log0, next, order := pager.store, pager.log, pager.nextId, pager.order;
      ChildAt(s0, order, next, s, key);
      var child := pager.FindChild(id, key);
      split := InsertAt(child, key, record, Descend(s, key, order));
      if split == NoSplit {
        ChildKept(s0, log0, s, key, record, order, next, pager.store);
      } else {
        split := AfterChild(id, split, key, record, s, s0, log0, next);
      }
    }

    /** The child has split, and reports its new sibling. */
    method AfterChild(id: PageId, below: Split, key: Key, record: Bytes, ghost s: Spot, ghost s0: Store,
        ghost log0: seq<Change>, ghost next: PageId)
      returns (split: Split)
      requires pager.Valid() && Ready(s0, s, key, pager.order, next) && id == s.node.id
      requires ChildDone(s0, pager.store, s, key, record, pager.order, next)
      requires var g := ChildOutcome(s, key, record, pager.order, next);
               below != NoSplit && Reports(below, g) && pager.nextId == g.next && pager.log == log0 + g.log
      modifies pager.Repr
      ensures pager.Valid() && forall o :: o in pager.Repr && o !in old(pager.Repr) ==> fresh(o)
      ensures var g := Ins(s.node, key, record, pager.order, next);
              Reports(split, g) && Inserted(s0, log0, s, g, pager.store, pager.nextId, pager.log)
    {
      ghost var s1 := pager.store;
      NodePage(s0, s1, s, key, record, pager.order, next);
      split := TakeIn(id, below.key, below.page);
      NodeTaken(s0, log0, s, key, record, pager.order, next, s1, below, split, pager.store, pager.log, pager.nextId);
    }

    /** A child of the page has split: the page takes the new child in, and splits itself when it is too full. */
    method TakeIn(id: PageId, sep: Key, child: PageId) returns (split: Split)
      requires pager.Valid() && id in pager.store && pager.store[id].Index?
      requires |pager.store[id].children| == |pager.store[id].keys| + 1
      modifies pager.Repr
      ensures pager.Valid() && forall o :: o in pager.Repr && o !in old(pager.Repr) ==> fresh(o)
      ensures TookIn(old(pager.store), old(pager.log), old(pager.nextId), pager.order, id,
              WidenedPage(old(pager.store)[id], sep, child), split, pager.store, pager.log, pager.nextId)
    {
      var full := pager.InsertAndLog(id, sep, child);
      if !full {
        return NoSplit;
      }
      split := SplitFullIndex(id);
    }

    /** An overfull index page, already logged, splits into itself and a new page. */
    method SplitFullIndex(id: PageId) returns (split: Split)
      requires pager.Valid() && id in pager.store && pager.store[id].Index? && |pager.store[id].keys| > 0
      requires |pager.store[id].children| == |pager.store[id].keys| + 1
      modifies pager.Repr
      ensures pager.Valid() && forall o :: o in pager.Repr && o !in old(pager.Repr) ==> fresh(o)
      ensures var right := old(pager.nextId);
              var w := old(pager.store)[id];
              && split == Split.Split(w.keys[|w.keys| / 2], right) && pager.nextId == right + 1
              && pager.store == old(pager.store)[right := Index([], [])][right := UpperHalf(w)][id := LowerHalf(w)]
              && pager.log == old(pager.log) + [PageWrite(right, UpperHalf(w))]
    {
      pager.Allocated();
      var right := pager.NewIndexPage();
      var pushUp := pager.SplitIndexPage(id, right);
      pager.MarkDirty(right);
      split := Split.Split(pushUp, right);
    }

    // ---- Deletion ----------------------------------------------------------------------

    /** Remove a key; tell whether it was there. The contents shrink as a map by that key, and only then is anything
        logged. */
    method Delete(key: int) returns (found: bool)
      requires Valid()
      modifies this, pager.Repr
      ensures Valid() && pager.Repr == old(pager.Repr) && pager.nextId == old(pager.nextId)
      ensures found == (key in old(View()))
      ensures View() == map q | q in old(View()) && q != key :: old(View())[q]
      ensures if 0 <= key < KEY_LIMIT then
                && tree == TreeAfter(old(tree), key, pager.order)
                && height == HeightAfter(old(tree), key, pager.order, old(height))
                && pager.log == old(pager.log) + LogAfter(old(tree), key, pager.order)
              else tree == old(tree) && height == old(height) && pager.log == old(pager.log)
      ensures !found ==> pager.store == old(pager.store)
    {
      var path := FindPath(key);
      if 0 <= key < KEY_LIMIT {
        found := DeleteKey(key, path);
      } else {
        found := NoSuchKey(key, path);
      }
    }

    method DeleteKey(key: Key, path: seq<(PageId, nat)>) returns (found: bool)
      requires Valid() && |path| == height + 1 && PathTo(Root(), key, pager.order, path)
      modifies this, pager.Repr
      ensures Valid() && pager.Repr == old(pager.Repr) && pager.nextId == old(pager.nextId)
      ensures found == (key in old(View()))
      ensures View() == map q | q in old(View()) && q != key :: old(View())[q]
      ensures tree == TreeAfter(old(tree), key, pager.order)
              && height == HeightAfter(old(tree), key, pager.order, old(height))
      ensures pager.log == old(pager.log) + LogAfter(old(tree), key, pager.order)
      ensures !found ==> pager.store == old(pager.store)
    {
      ghost var root, order := Root(), pager.order;
      DeleteWhole(pager.store, tree, key, order, pager.nextId, height);
      DeleteView(tree, key, order, height);
      height := HeightAfter(tree, key, order, height);
      tree := TreeAfter(tree, key, order);
      found := DeletePages(key, path, root);
    }

    /** A number that is no key is in no leaf. */
    method NoSuchKey(key: int, path: seq<(PageId, nat)>) returns (found: bool)
      requires Valid() && !(0 <= key < KEY_LIMIT) && |path| == height + 1
               && PathTo(WideSpot(tree, height, key), key, pager.order, path)
      modifies this, pager.Repr
      ensures Valid() && pager.Repr == old(pager.Repr) && pager.nextId == old(pager.nextId) && !found
      ensures tree == old(tree) && height == old(height) && pager.log == old(pager.log)
              && pager.store == old(pager.store)
    {
      ghost var root := WideSpot(tree, height, key);
      WideSound(pager.store, tree, height, key, pager.order);
      SpotPage(pager.store, root, key, pager.order, height);
      assert StepTo(root, key, pager.order, path[height], height);
      var leaf := path[|path| - 1].0;
      AbsentKey(pager.store[leaf].entries, key);
      found := pager.DropKey(leaf, key);
    }

    /** The pages and the root after a deletion. */
    method DeletePages(key: Key, path: seq<(PageId, nat)>, ghost root: Spot) returns (found: bool)
      requires pager.Valid() && this !in pager.Repr && rootId == root.node.id
      requires Whole(pager.store, root, key, pager.order) && |path| == root.h + 1
               && PathTo(root, key, pager.order, path)
      modifies this`rootId, pager.Repr
      ensures pager.Valid() && pager.Repr == old(pager.Repr) && pager.nextId == old(pager.nextId)
      ensures found == HasKey(root.node, key) && (!found ==> pager.store == old(pager.store))
      ensures Holds(pager.store, TreeAfter(root.node, key, pager.order), root.hi, true)
      ensures rootId == TreeAfter(root.node, key, pager.order).id
      ensures pager.log == old(pager.log) + LogAfter(root.node, key, pager.order)
    {
      ghost var s0, log0 := pager.store, pager.log;
      PathLeaf(s0, root, key, pager.order);
      assert StepTo(root, key, pager.order, path[root.h], root.h);
      var leaf := path[|path| - 1].0;
      found := pager.DropKey(leaf, key);
      if found {
        pager.MarkDirty(leaf);
        LeafDone(s0, log0, root, key, pager.order, pager.store);
        FixUnderflow(key, path, root, s0, log0);
      }
    }

    /** Walk the path bottom-up and repair underfull pages; when the walk reaches the root, an empty index root gives
        way. */
    method FixUnderflow(key: Key, path: seq<(PageId, nat)>, ghost root: Spot, ghost s0: Store, ghost log0: seq<Change>)
      requires pager.Valid() && this !in pager.Repr && rootId == root.node.id
      requires Whole(s0, root, key, pager.order) && |path| == root.h + 1 && PathTo(root, key, pager.order, path)
      requires Climbing(s0, log0, root, key, pager.order, root.h, pager.store, pager.log)
      modifies this`rootId, pager.Repr
      ensures pager.Valid() && pager.Repr == old(pager.Repr) && pager.nextId == old(pager.nextId)
      ensures Deleted(log0, root, key, pager.order, pager.store, pager.log, rootId)
    {
      var atRoot := FixPath(key, path, root, s0, log0);
      if !atRoot {
        return;
      }
      AtRoot(s0, log0, root, key, pager.order, pager.store, pager.log);
      var page := pager.GetPage(rootId);
      if page.Index? && |page.keys| == 0 {
        rootId := page.children[0];
        pager.LogMetaUpdate(rootId);
      }
    }

    method FixPath(key: Key, path: seq<(PageId, nat)>, ghost root: Spot, ghost s0: Store, ghost log0: seq<Change>)
      returns (atRoot: bool)
      requires pager.Valid() && Whole(s0, root, key, pager.order) && |path| == root.h + 1
               && PathTo(root, key, pager.order, path)
      requires Climbing(s0, log0, root, key, pager.order, root.h, pager.store, pager.log)
      modifies pager.Repr
      ensures pager.Valid() && pager.Repr == old(pager.Repr) && pager.nextId == old(pager.nextId)
      ensures Climbed(atRoot, s0, log0, root, key, pager.order, 0, pager.store, pager.log)
    {
      var depth := |path| - 1;
      while depth > 0
        invariant 0 <= depth < |path|
        invariant pager.Valid() && pager.Repr == old(pager.Repr) && pager.nextId == old(pager.nextId)
        invariant Climbing(s0, log0, root, key, pager.order, depth, pager.store, pager.log)
      {
        var again := FixLevel(key, path, depth, root, s0, log0);
        if !again {
          return false;
        }
        depth := depth - 1;
      }
      atRoot := true;
    }

    /** One page of the path: enough keys, or a borrowed key, end the walk; a merge goes on to the parent. */
    method FixLevel(key: Key, path: seq<(PageId, nat)>, depth: nat, ghost root: Spot, ghost s0: Store,
        ghost log0: seq<Change>) returns (again: bool)
      requires pager.Valid() && 0 < depth <= root.h && |path| == root.h + 1
      requires Whole(s0, root, key, pager.order) && PathTo(root, key, pager.order, path)
      requires Climbing(s0, log0, root, key, pager.order, depth, pager.store, pager.log)
      modifies pager.Repr
      ensures pager.Valid() && pager.Repr == old(pager.Repr) && pager.nextId == old(pager.nextId)
      ensures Climbed(again, s0, log0, root, key, pager.order, depth - 1, pager.store, pager.log)
    {
      ghost var store, log, order := pager.store, pager.log, pager.order;
      OutcomePage(s0, log0, root, key, order, depth, store, log);
      assert StepTo(root, key, order, path[depth], depth);
      var page := pager.GetPage(path[depth].0);
      if Count(page) >= pager.order / 2 {
        Enough(s0, log0, root, key, order, depth, store, log);
        return false;
      }
      assert StepTo(root, key, order, path[depth - 1], depth - 1);
      again := RepairLevel(path[depth].1, path[depth - 1].0, key, depth - 1, root, s0, log0);
    }

    method RepairLevel(j: nat, parent: PageId, key: Key, ghost d: nat, ghost root: Spot, ghost s0: Store,
        ghost log0: seq<Change>)
      returns (merged: bool)
      requires pager.Valid() && d < root.h && Whole(s0, root, key, pager.order)
      requires Climbing(s0, log0, root, key, pager.order, d + 1, pager.store, pager.log)
      requires NumKeys(Del(SpotAt(root, key, pager.order, d + 1).node, key, pager.order).node) < pager.order / 2
      requires parent == SpotAt(root, key, pager.order, d).node.id
               && j == Route(KeysOf(SpotAt(root, key, pager.order, d).node), key)
      modifies pager.Repr
      ensures pager.Valid() && pager.Repr == old(pager.Repr) && pager.nextId == old(pager.nextId)
      ensures Climbed(merged, s0, log0, root, key, pager.order, d, pager.store, pager.log)
    {
      ghost var store, log, order := pager.store, pager.log, pager.order;
      ghost var s := SpotAt(root, key, order, d);
      TooFew(s0, log0, root, key, order, d, store, log);
      merged := BorrowOrMerge(pager, j, parent, Above(s.node, key, order), s.lo, s.hi, s.h);
      AfterRepair(s0, log0, root, key, order, d, store, log, merged, pager.store, pager.log);
    }

    /** The pages from the root to the leaf for a key, each with its position below its parent. */
    method FindPath(key: int) returns (path: seq<(PageId, nat)>)
      requires Valid()
      ensures |path| == height + 1 && PathTo(WideSpot(tree, height, key), key, pager.order, path)
      ensures 0 <= key < KEY_LIMIT ==> PathTo(Root(), key, pager.order, path)
    {
      ghost var d, root, order := 0, WideSpot(tree, height, key), pager.order;
      WideSound(pager.store, tree, height, key, order);
      path := [(rootId, 0)];
      var page := pager.GetPage(rootId);
      SpotPage(pager.store, root, key, order, 0);
      while page.Index?
        invariant d <= height && |path| == d + 1 && PathTo(root, key, order, path)
        invariant OnPath(pager.store, page, SpotAt(root, key, order, d), key, order)
        invariant SpotAt(root, key, order, d).h == height - d
        decreases height - d
      {
        PathGrows(pager.store, page, root, key, order, d, path);
        var j := ChildPosition(page, key);
        path := path + [(page.children[j], j)];
        page := pager.GetPage(page.children[j]);
        d := d + 1;
      }
    }

    /** The position `find_child` would choose. */
    method ChildPosition(page: Page, key: int) returns (j: nat)
      requires page.Index? && |page.children| == |page.keys| + 1
      ensures j == Route(page.keys, key)
    {
      for i := 0 to |page.keys|
        invariant forall q :: 0 <= q < i ==> page.keys[q] <= key
      {
        if key < page.keys[i] {
          return i;
        }
      }
      j := |page.children| - 1;
    }

    // ---- Reading ----------------------------------------------------------------------------

    /** The page of the leaf a key belongs to. */
    method FindLeaf(key: int) returns (leaf: PageId)
      requires Valid()
      ensures LeafIndex(tree, key) < |Leaves(tree)| && leaf == Leaves(tree)[LeafIndex(tree, key)].id
      ensures leaf in pager.store && pager.store[leaf].Leaf?
    {
      ghost var s := Stop(tree, RootLeast(tree), 0, KEY_LIMIT, height);
      RoutedLeaf(tree, key, pager.order, s.least, s.lo, s.hi, s.h);
      leaf := rootId;
      var page := pager.GetPage(leaf);
      while page.Index?
        invariant Reaches(pager.store, pager.order, tree, s, key) && s.node.id == leaf
        invariant leaf in pager.store && page == pager.store[leaf] == Image(s.node)
        decreases s.h
      {
        ReachBelow(pager.store, pager.order, tree, s, key);
        leaf := pager.FindChild(leaf, key);
        s := Below(s, key, pager.order);
        page := pager.GetPage(leaf);
      }
    }

    /** The record of a key, if any: the tree answers as the map it stands for. */
    method Search(key: int) returns (r: Option<Bytes>)
      requires Valid()
      ensures r == Get(Contents(tree), key)
      ensures 0 <= key < KEY_LIMIT ==> r == if key in View() then Some(View()[key]) else None
    {
      var leaf := FindLeaf(key);
      RoutedGet(tree, key, pager.order, RootLeast(tree), 0, KEY_LIMIT, height);
      LeafPageAt(pager.store, tree, pager.order, RootLeast(tree), 0, KEY_LIMIT, height, LeafIndex(tree, key));
      LeafSorted(tree, pager.order, RootLeast(tree), 0, KEY_LIMIT, height, LeafIndex(tree, key));
      r := pager.SearchLeaf(leaf, key);
      MapAgrees(Contents(tree), key);
    }

    /** The contents are sorted. */
    lemma ContentsSorted()
      requires Valid()
      ensures Sorted(Contents(tree))
    {
      Ordered(tree, pager.order, RootLeast(tree), 0, KEY_LIMIT, height);
    }

    /** All entries with a key in [start, end], in order, read along the leaf links. */
    method RangeScan(start: int, end: int) returns (results: seq<Entry>)
      requires Valid()
      ensures results == Range(Contents(tree), start, end)
    {
      var leaf := FindLeaf(start);
      ghost var ls, i := Leaves(tree), LeafIndex(tree, start);
      ghost var least := RootLeast(tree);
      Ordered(tree, pager.order, least, 0, KEY_LIMIT, height);
      ScanStart(tree, start, end, pager.order, least, 0, KEY_LIMIT, height);
      LeavesContents(tree);
      results := [];
      while true
        invariant i < |ls| && leaf == ls[i].id
        invariant results == Range(ContentsOf(ls[..i]), start, end)
        decreases |ls| - i
      {
        LeafPageAt(pager.store, tree, pager.order, least, 0, KEY_LIMIT, height, i);
        var page := pager.GetPage(leaf);
        ReadLeaf(ls, i);
        for j := 0 to |page.entries|
          invariant results == Range(Read(ls, i, j), start, end)
        {
          var e := page.entries[j];
          if e.key > end {
            PastEnd(tree, i, j, start, end);
            return;
          }
          ReadCell(ls, i, j, start, end);
          if e.key >= start {
            results := results + [e];
          }
        }
        if page.next == None {
          assert ls[..i + 1] == ls;
          return;
        }
        leaf := page.next.value;
        i := i + 1;
      }
    }
  }
}
