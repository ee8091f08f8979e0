/** A pager that keeps every page: allocation, edits of page objects in place, and the log of page images. */
module PageStore {
  import opened Entries
  import opened Tree
  import opened Pages
  import opened Log

  class Pager {
    const order: nat
    var leaves: map<PageId, LeafPage>
    var indexes: map<PageId, IndexPage>
    var nextId: PageId
    var log: seq<Change>
    ghost var store: Store
    ghost var Repr: set<object>

    constructor (order: nat)
      requires order >= 2
      ensures Valid() && fresh(Repr)
      ensures this.order == order && nextId == 0 && log == [] && store == map[]
    {
      this.order := order;
      leaves := map[];
      indexes := map[];
      nextId := 0;
      log := [];
      store := map[];
      Repr := {this};
    }

    /** The pages of a file. */
    constructor Load(order: nat, pages: Store, next: PageId)
      requires order >= 2 && forall id :: id in pages ==> id < next
      ensures Valid() && fresh(Repr)
      ensures this.order == order && nextId == next && log == [] && store == pages
    {
      this.order := order;
      leaves := map[];
      indexes := map[];
      nextId := next;
      log := [];
      store := map[];
      Repr := {this};
      new;
      var rest := pages.Keys;
      while rest != {}
        invariant Valid() && fresh(Repr) && nextId == next && log == [] && rest <= pages.Keys
        invariant store == map id | id in pages && id !in rest :: pages[id]
      {
        var id :| id in rest;
        LoadPage(id, pages[id]);
        rest := rest - {id};
      }
    }

    /** A page is read into memory. */
    method LoadPage(id: PageId, p: Page)
      requires Valid() && id !in store && id < nextId
      modifies Repr
      ensures Valid() && forall o :: o in Repr && o !in old(Repr) ==> fresh(o)
      ensures store == old(store)[id := p] && nextId == old(nextId) && log == old(log)
    {
      assert Filed(id);
      if p.Leaf? {
        var leaf := new LeafPage(id, order);
        leaf.entries, leaf.next := p.entries, p.next;
        leaves := leaves[id := leaf];
        Repr := Repr + {leaf};
      } else {
        var index := new IndexPage(id, order);
        index.keys, index.children := p.keys, p.children;
        indexes := indexes[id := index];
        Repr := Repr + {index};
      }
      store := store[id := p];
      forall q ensures Filed(q) {
        assert old(Filed(q));
      }
    }

    /** A page in use is one leaf object or one index object, filed under its own id, and the store says what it
        shows. */
    ghost predicate Filed(id: PageId)
      reads this, Repr
    {
      && (id in store <==> id in leaves || id in indexes) && !(id in leaves && id in indexes)
      && (id in store ==> id < nextId)
      && (id in leaves ==>
            && leaves[id] in Repr && leaves[id].pageId == id && leaves[id].maxKeys == order
            && store[id] == Leaf(leaves[id].entries, leaves[id].next))
      && (id in indexes ==>
            && indexes[id] in Repr && indexes[id].pageId == id && indexes[id].maxKeys == order
            && store[id] == Index(indexes[id].keys, indexes[id].children))
    }

    ghost predicate Valid()
      reads this, Repr
      ensures Valid() ==> this in Repr
    {
      this in Repr && order >= 2 && forall id {:trigger Filed(id)} :: Filed(id)
    }

    /** The ids in use are below the next free one. */
    lemma Allocated()
      requires Valid()
      ensures forall id :: id in store ==> id < nextId
    {
      forall id | id in store ensures id < nextId {
        assert Filed(id);
      }
    }

    // ---- Reading and allocation ----------------------------------------------------

    /** The contents of a page. */
    method GetPage(id: PageId) returns (p: Page)
      requires Valid() && id in store
      ensures p == store[id]
    {
      assert Filed(id);
      p := if id in leaves then leaves[id].Image() else indexes[id].Image();
    }

    /** The child of an index page that a key is routed to. */
    method FindChild(id: PageId, key: int) returns (child: PageId)
      requires Valid() && id in store && store[id].Index? && |store[id].children| == |store[id].keys| + 1
      ensures child == store[id].children[Route(store[id].keys, key)]
    {
      assert Filed(id);
      child := indexes[id].FindChild(key);
    }

    /** The record of a key in a leaf page. */
    method SearchLeaf(id: PageId, key: int) returns (r: Option<Bytes>)
      requires Valid() && id in store && store[id].Leaf? && Sorted(store[id].entries)
      ensures r == Get(store[id].entries, key)
    {
      assert Filed(id);
      r := leaves[id].Search(key);
    }

    method NewLeafPage() returns (id: PageId)
      requires Valid()
      modifies Repr
      ensures Valid() && forall o :: o in Repr && o !in old(Repr) ==> fresh(o)
      ensures id == old(nextId) && nextId == old(nextId) + 1 && log == old(log)
      ensures store == old(store)[id := Leaf([], None)]
    {
      assert Filed(nextId);
      id := nextId;
      var leaf := new LeafPage(id, order);
      leaves := leaves[id := leaf];
      store := store[id := Leaf([], None)];
      nextId := id + 1;
      Repr := Repr + {leaf};
      forall q ensures Filed(q) {
        assert old(Filed(q));
      }
    }

    method NewIndexPage() returns (id: PageId)
      requires Valid()
      modifies Repr
      ensures Valid() && forall o :: o in Repr && o !in old(Repr) ==> fresh(o)
      ensures id == old(nextId) && nextId == old(nextId) + 1 && log == old(log)
      ensures store == old(store)[id := Index([], [])]
    {
      assert Filed(nextId);
      id := nextId;
      var page := new IndexPage(id, order);
      indexes := indexes[id := page];
      store := store[id := Index([], [])];
      nextId := id + 1;
      Repr := Repr + {page};
      forall q ensures Filed(q) {
        assert old(Filed(q));
      }
    }

    // ---- Logging -------------------------------------------------------------------

    /** Log the current image of a page. */
    method MarkDirty(id: PageId)
      requires Valid() && id in store
      modifies this`log
      ensures Valid() && log == old(log) + [PageWrite(id, store[id])]
    {
      assert Filed(id);
      var p := GetPage(id);
      log := log + [PageWrite(id, p)];
      forall q ensures Filed(q) {
        assert old(Filed(q));
      }
    }

    method LogMetaUpdate(root: PageId)
      requires Valid()
      modifies this`log
      ensures Valid() && log == old(log) + [MetaUpdate(root)]
    {
      log := log + [MetaUpdate(root)];
      forall q ensures Filed(q) {
        assert old(Filed(q));
      }
    }

    // ---- Edits of a page; none of them logs anything ----------------------------------

    method PutRecord(id: PageId, key: Key, record: Bytes)
      requires Valid() && id in store && store[id].Leaf? && Sorted(store[id].entries)
      modifies Repr
      ensures Valid() && Repr == old(Repr) && nextId == old(nextId) && log == old(log)
      ensures store == old(store)[id := Leaf(Put(old(store)[id].entries, key, record), old(store)[id].next)]
    {
      assert Filed(id);
      var leaf := leaves[id];
      leaf.Insert(key, record);
      store := store[id := Leaf(leaf.entries, leaf.next)];
      forall q ensures Filed(q) {
        assert old(Filed(q));
      }
    }

    /** Put a record into a leaf and log the leaf; tell whether it is now too full. */
    method PutAndLog(id: PageId, key: Key, record: Bytes) returns (full: bool)
      requires Valid() && id in store && store[id].Leaf? && Sorted(store[id].entries)
      modifies Repr
      ensures Valid() && Repr == old(Repr) && nextId == old(nextId)
      ensures var p := Leaf(Put(old(store)[id].entries, key, record), old(store)[id].next);
              store == old(store)[id := p] && log == old(log) + [PageWrite(id, p)] && full == (|p.entries| > order)
    {
      assert Filed(id);
      PutRecord(id, key, record);
      MarkDirty(id);
      assert Filed(id);
      full := leaves[id].IsFull();
    }

    /** Put a separator into an index page and log the page; tell whether it is now too full. */
    method InsertAndLog(id: PageId, sep: Key, child: PageId) returns (full: bool)
      requires Valid() && id in store && store[id].Index? && |store[id].children| == |store[id].keys| + 1
      modifies Repr
      ensures Valid() && Repr == old(Repr) && nextId == old(nextId)
      ensures var p := WidenedPage(old(store)[id], sep, child);
              store == old(store)[id := p] && log == old(log) + [PageWrite(id, p)] && full == (|p.keys| > order)
    {
      assert Filed(id);
      InsertSeparator(id, sep, child);
      MarkDirty(id);
      assert Filed(id);
      full := indexes[id].IsFull();
    }

    method DropKey(id: PageId, key: int) returns (found: bool)
      requires Valid() && id in store && store[id].Leaf? && Sorted(store[id].entries)
      modifies Repr
      ensures Valid() && Repr == old(Repr) && nextId == old(nextId) && log == old(log)
      ensures found == Get(old(store)[id].entries, key).Some?
      ensures store == if found then old(store)[id := Leaf(Remove(old(store)[id].entries, key), old(store)[id].next)]
              else old(store)
    {
      assert Filed(id);
      var leaf := leaves[id];
      found := leaf.DeleteKey(key);
      if found {
        store := store[id := Leaf(leaf.entries, leaf.next)];
      } else {
        AbsentEntries(old(leaf.entries), key);
      }
      forall q ensures Filed(q) {
        assert old(Filed(q));
      }
    }

    method SetLeaf(id: PageId, entries: seq<Entry>, next: Option<PageId>)
      requires Valid() && id in store && store[id].Leaf?
      modifies Repr
      ensures Valid() && Repr == old(Repr) && nextId == old(nextId) && log == old(log)
      ensures store == old(store)[id := Leaf(entries, next)]
    {
      assert Filed(id);
      var leaf := leaves[id];
      leaf.entries := entries;
      leaf.next := next;
      store := store[id := Leaf(entries, next)];
      forall q ensures Filed(q) {
        assert old(Filed(q));
      }
    }

    method SetIndex(id: PageId, keys: seq<Key>, children: seq<PageId>)
      requires Valid() && id in store && store[id].Index?
      modifies Repr
      ensures Valid() && Repr == old(Repr) && nextId == old(nextId) && log == old(log)
      ensures store == old(store)[id := Index(keys, children)]
    {
      assert Filed(id);
      var page := indexes[id];
      page.keys := keys;
      page.children := children;
      store := store[id := Index(keys, children)];
      forall q ensures Filed(q) {
        assert old(Filed(q));
      }
    }

    method InsertSeparator(id: PageId, sep: Key, child: PageId)
      requires Valid() && id in store && store[id].Index? && |store[id].children| == |store[id].keys| + 1
      modifies Repr
      ensures Valid() && Repr == old(Repr) && nextId == old(nextId) && log == old(log)
      ensures store == old(store)[id := WidenedPage(old(store)[id], sep, child)]
    {
      assert Filed(id);
      var page := indexes[id];
      page.InsertKey(sep, child);
      store := store[id := Index(page.keys, page.children)];
      forall q ensures Filed(q) {
        assert old(Filed(q));
      }
    }

    /** The upper half of a leaf moves to the page `right`. */
    method SplitLeafPage(id: PageId, right: PageId) returns (splitKey: Key)
      requires Valid() && id in store && right in store && id != right
      requires store[id].Leaf? && store[right].Leaf? && |store[id].entries| > 0
      modifies Repr
      ensures Valid() && Repr == old(Repr) && nextId == old(nextId) && log == old(log)
      ensures var es := old(store)[id].entries;
              var mid := |es| / 2;
              && splitKey == es[mid].key
              && store == old(store)[right := Leaf(es[mid..], old(store)[id].next)][id := Leaf(es[..mid], Some(right))]
    {
      assert Filed(id);
      assert Filed(right);
      var l, r := leaves[id], leaves[right];
      splitKey := l.Split(r);
      store := store[right := Leaf(r.entries, r.next)][id := Leaf(l.entries, l.next)];
      forall q ensures Filed(q) {
        assert old(Filed(q));
      }
    }

    /** The keys above the middle one move to the page `right`, with their children. */
    method SplitIndexPage(id: PageId, right: PageId) returns (pushUp: Key)
      requires Valid() && id in store && right in store && id != right
      requires store[id].Index? && store[right].Index? && |store[id].keys| > 0
      requires |store[id].children| == |store[id].keys| + 1
      modifies Repr
      ensures Valid() && Repr == old(Repr) && nextId == old(nextId) && log == old(log)
      ensures var ks, cs := old(store)[id].keys, old(store)[id].children;
              var mid := |ks| / 2;
              && pushUp == ks[mid]
              && store == old(store)[right := Index(ks[mid + 1..], cs[mid + 1..])][id := Index(ks[..mid],
                cs[..mid + 1])]
    {
      assert Filed(id);
      assert Filed(right);
      var l, r := indexes[id], indexes[right];
      pushUp := l.Split(r);
      store := store[right := Index(r.keys, r.children)][id := Index(l.keys, l.children)];
      forall q ensures Filed(q) {
        assert old(Filed(q));
      }
    }
  }

  lemma AbsentEntries(es: seq<Entry>, k: int)
    requires Get(es, k) == None
    ensures Remove(es, k) == es
  {
    GetFound(es, k);
    AbsentKey(es, k);
  }
}
