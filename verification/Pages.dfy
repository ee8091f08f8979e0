/** Leaf and index pages as objects that are changed in place. */
module Pages {
  import opened Entries
  import opened Tree

  /** A leaf: cells sorted by key, and a link to the right sibling. */
  class LeafPage {
    const pageId: PageId
    const maxKeys: nat
    var next: Option<PageId>
    var entries: seq<Entry>

    constructor (pageId: PageId, maxKeys: nat)
      ensures this.pageId == pageId && this.maxKeys == maxKeys
      ensures Image() == Leaf([], None)
    {
      this.pageId := pageId;
      this.maxKeys := maxKeys;
      next := None;
      entries := [];
    }

    function Image(): Page
      reads this
    {
      Leaf(entries, next)
    }

    predicate IsFull()
      reads this
    {
      |entries| > maxKeys
    }

    /** Binary search. */
    method Search(key: int) returns (r: Option<Bytes>)
      requires Sorted(entries)
      ensures r == Get(entries, key)
    {
      var lo, hi := 0, |entries| - 1;
      while lo <= hi
        invariant 0 <= lo <= hi + 1 <= |entries|
        invariant forall i :: 0 <= i < lo ==> entries[i].key < key
        invariant forall i :: hi < i < |entries| ==> key < entries[i].key
        decreases hi - lo
      {
        var mid := (lo + hi) / 2;
        var e := entries[mid];
        if e.key == key {
          GetIsAt(entries, mid);
          return Some(e.val);
        } else if e.key < key {
          lo := mid + 1;
        } else {
          hi := mid - 1;
        }
      }
      AbsentKey(entries, key);
      r := None;
    }

    /** Replace the cell of the key, or append a cell and let it sink to its sorted place. */
    method Insert(key: Key, record: Bytes)
      requires Sorted(entries)
      modifies this
      ensures entries == Put(old(entries), key, record) && next == old(next)
    {
      var es := entries;
      for i := 0 to |es|
        invariant forall j :: 0 <= j < i ==> es[j].key != key
        invariant entries == es && next == old(next)
      {
        if es[i].key == key {
          ReplaceIsPut(es, i, record);
          entries := es[i := Entry(key, record)];
          return;
        }
      }
      var p := |es|;
      while p > 0 && key < es[p - 1].key
        invariant 0 <= p <= |es|
        invariant forall j :: p <= j < |es| ==> key < es[j].key
      {
        p := p - 1;
      }
      SinkIsPut(es, p, key, record);
      entries := es[..p] + [Entry(key, record)] + es[p..];
    }

    method DeleteKey(key: int) returns (found: bool)
      requires Sorted(entries)
      modifies this
      ensures found == Get(old(entries), key).Some?
      ensures entries == Remove(old(entries), key) && next == old(next)
    {
      var kept: seq<Entry> := [];
      for i := 0 to |entries|
        invariant entries == old(entries) && next == old(next)
        invariant kept == Remove(entries[..i], key)
      {
        assert entries[..i + 1] == entries[..i] + [entries[i]];
        RemoveAppend(entries[..i], [entries[i]], key);
        if entries[i].key != key {
          kept := kept + [entries[i]];
        }
      }
      assert entries[..|entries|] == entries;
      RemoveSorted(entries, key);
      if |kept| == |entries| {
        KeptAll(entries, key);
        return false;
      }
      entries := kept;
      found := true;
    }

    /** Keep the lower half here, move the upper half to `right`, and link it in. */
    method Split(right: LeafPage) returns (splitKey: Key)
      requires right != this && |entries| > 0
      modifies this, right
      ensures var mid := old(|entries|) / 2;
              && splitKey == old(entries)[mid].key
              && entries == old(entries)[..mid] && right.entries == old(entries)[mid..]
              && right.next == old(next) && next == Some(right.pageId)
    {
      var es := entries;
      var mid := |es| / 2;
      entries := es[..mid];
      right.entries := es[mid..];
      right.next := next;
      next := Some(right.pageId);
      splitKey := es[mid].key;
    }
  }

  lemma ReplaceIsPut(es: seq<Entry>, i: nat, v: Bytes)
    requires Sorted(es) && i < |es|
    ensures Put(es, es[i].key, v) == es[i := Entry(es[i].key, v)]
  {
    assert es == es[..i] + es[i..];
    PutAppendRight(es[..i], es[i..], es[i].key, v);
  }

  lemma SinkIsPut(es: seq<Entry>, p: nat, k: Key, v: Bytes)
    requires p <= |es| && Sorted(es)
    requires p > 0 ==> es[p - 1].key < k
    requires forall j :: p <= j < |es| ==> k < es[j].key
    ensures Put(es, k, v) == es[..p] + [Entry(k, v)] + es[p..]
  {
    var a, b := es[..p], es[p..];
    assert es == a + b;
    assert forall i :: 0 <= i < |a| ==> a[i].key <= es[p - 1].key;
    PutAppendLeft(a, b, k, v);
    PutLast(a, k, v);
  }

  lemma PutLast(a: seq<Entry>, k: Key, v: Bytes)
    requires forall i :: 0 <= i < |a| ==> a[i].key < k
    ensures Put(a, k, v) == a + [Entry(k, v)]
  {
    assert a + [] == a;
    PutAppendRight(a, [], k, v);
  }

  lemma {:induction false} KeptAll(es: seq<Entry>, k: int)
    requires Sorted(es) && |Remove(es, k)| == |es|
    ensures Remove(es, k) == es && Get(es, k) == None
  {
    RemoveSorted(es, k);
    GetFound(es, k);
    AbsentKey(es, k);
  }

  /** An index page: separators and one more child than separators. */
  class IndexPage {
    const pageId: PageId
    const maxKeys: nat
    var keys: seq<Key>
    var children: seq<PageId>

    constructor (pageId: PageId, maxKeys: nat)
      ensures this.pageId == pageId && this.maxKeys == maxKeys
      ensures Image() == Index([], [])
    {
      this.pageId := pageId;
      this.maxKeys := maxKeys;
      keys := [];
      children := [];
    }

    function Image(): Page
      reads this
    {
      Index(keys, children)
    }

    predicate IsFull()
      reads this
    {
      |keys| > maxKeys
    }

    method FindChild(key: int) returns (child: PageId)
      requires |children| == |keys| + 1
      ensures child == children[Route(keys, key)]
    {
      for i := 0 to |keys|
        invariant forall j :: 0 <= j < i ==> keys[j] <= key
      {
        if key < keys[i] {
          return children[i];
        }
      }
      child := children[|children| - 1];
    }

    /** Insert the separator of a split child, and its new right page just after. */
    method InsertKey(key: Key, rightChild: PageId)
      requires |children| == |keys| + 1
      modifies this
      ensures Index(keys, children) == WidenedPage(Index(old(keys), old(children)), key, rightChild)
    {
      var i := 0;
      while i < |keys| && keys[i] < key
        invariant 0 <= i <= |keys|
        invariant forall j :: 0 <= j < i ==> keys[j] < key
      {
        i := i + 1;
      }
      assert i == Slot(keys, key);
      keys := keys[..i] + [key] + keys[i..];
      children := children[..i + 1] + [rightChild] + children[i + 1..];
    }

    /** The middle key is pushed up; everything right of it moves to `right`. */
    method Split(right: IndexPage) returns (pushUp: Key)
      requires right != this && |keys| > 0 && |children| == |keys| + 1
      modifies this, right
      ensures var mid := old(|keys|) / 2;
              && pushUp == old(keys)[mid]
              && keys == old(keys)[..mid] && children == old(children)[..mid + 1]
              && right.keys == old(keys)[mid + 1..] && right.children == old(children)[mid + 1..]
    {
      var mid := |keys| / 2;
      pushUp := keys[mid];
      right.keys := keys[mid + 1..];
      right.children := children[mid + 1..];
      keys := keys[..mid];
      children := children[..mid + 1];
    }
  }
}
