/** Ordered key/record lists: the contents of a leaf page, and of a whole tree read left to right. */
module Entries {

  /** Tree keys are unsigned 32-bit integers. */
  const KEY_LIMIT := 0x1_0000_0000

  type Key = k: int | 0 <= k < 0x1_0000_0000

  type Byte = b: int | 0 <= b < 256

  type Bytes = seq<Byte>

  datatype Option<+T> = None | Some(value: T)

  datatype Entry = Entry(key: Key, val: Bytes)

  ghost predicate Sorted(es: seq<Entry>) {
    forall i, j :: 0 <= i < j < |es| ==> es[i].key < es[j].key
  }

  /** Every key lies in [lo, hi). */
  ghost predicate Within(es: seq<Entry>, lo: int, hi: int) {
    forall i :: 0 <= i < |es| ==> lo <= es[i].key < hi
  }

  ghost predicate AllBelow(es: seq<Entry>, k: int) {
    forall i :: 0 <= i < |es| ==> es[i].key < k
  }

  ghost predicate AllAbove(es: seq<Entry>, k: int) {
    forall i :: 0 <= i < |es| ==> k < es[i].key
  }

  function Get(es: seq<Entry>, k: int): Option<Bytes> {
    if es == [] then None
    else if es[0].key == k then Some(es[0].val)
    else Get(es[1..], k)
  }

  /** The sorted list with the record of k replaced, or inserted in order when k is absent. */
  function Put(es: seq<Entry>, k: Key, v: Bytes): seq<Entry> {
    if es == [] then [Entry(k, v)]
    else if es[0].key == k then [Entry(k, v)] + es[1..]
    else if k < es[0].key then [Entry(k, v)] + es
    else [es[0]] + Put(es[1..], k, v)
  }

  function Remove(es: seq<Entry>, k: int): seq<Entry> {
    if es == [] then []
    else if es[0].key == k then Remove(es[1..], k)
    else [es[0]] + Remove(es[1..], k)
  }

  /** The entries whose key lies in [a, b], in order. */
  function Range(es: seq<Entry>, a: int, b: int): seq<Entry> {
    if es == [] then []
    else (if a <= es[0].key <= b then [es[0]] else []) + Range(es[1..], a, b)
  }

  function AsMap(es: seq<Entry>): map<Key, Bytes> {
    if es == [] then map[] else AsMap(es[1..])[es[0].key := es[0].val]
  }

  lemma {:induction false} SortedTail(es: seq<Entry>)
    requires Sorted(es) && es != []
    ensures Sorted(es[1..])
    ensures forall i :: 0 <= i < |es[1..]| ==> es[0].key < es[1..][i].key
  {
  }

  lemma {:induction false} GetIsAt(es: seq<Entry>, i: nat)
    requires Sorted(es) && i < |es|
    ensures Get(es, es[i].key) == Some(es[i].val)
  {
    if i > 0 {
      SortedTail(es);
      GetIsAt(es[1..], i - 1);
    }
  }

  lemma SortedAppend(a: seq<Entry>, b: seq<Entry>, lo: int, mid: int, hi: int)
    requires Sorted(a) && Within(a, lo, mid) && Sorted(b) && Within(b, mid, hi) && lo <= mid <= hi
    ensures Sorted(a + b) && Within(a + b, lo, hi)
  {
  }

  /** A key outside the list is not found, and removing it changes nothing. */
  lemma {:induction false} AbsentKey(es: seq<Entry>, k: int)
    requires forall i :: 0 <= i < |es| ==> es[i].key != k
    ensures Get(es, k) == None && Remove(es, k) == es
  {
    if es != [] {
      AbsentKey(es[1..], k);
    }
  }

  lemma {:induction false} GetFound(es: seq<Entry>, k: int)
    ensures Get(es, k).Some? <==> exists i :: 0 <= i < |es| && es[i].key == k
    ensures Get(es, k).Some? ==> exists i :: 0 <= i < |es| && es[i] == Entry(k, Get(es, k).value)
  {
    if es != [] {
      GetFound(es[1..], k);
      if es[0].key == k {
        assert es[0] == Entry(k, Get(es, k).value);
      } else if Get(es[1..], k).Some? {
        var i :| 0 <= i < |es[1..]| && es[1..][i] == Entry(k, Get(es, k).value);
        assert es[i + 1] == Entry(k, Get(es, k).value);
      } else {
        forall i | 0 <= i < |es| ensures es[i].key != k {
          if i > 0 { assert es[1..][i - 1] == es[i]; }
        }
      }
    }
  }

  lemma {:induction false} GetAppend(a: seq<Entry>, b: seq<Entry>, k: int)
    ensures Get(a + b, k) == if Get(a, k).Some? then Get(a, k) else Get(b, k)
  {
    if a == [] {
      assert a + b == b;
    } else {
      assert (a + b)[1..] == a[1..] + b;
      GetAppend(a[1..], b, k);
    }
  }

  lemma {:induction false} PutAppendRight(a: seq<Entry>, b: seq<Entry>, k: Key, v: Bytes)
    requires forall i :: 0 <= i < |a| ==> a[i].key < k
    ensures Put(a + b, k, v) == a + Put(b, k, v)
  {
    if a == [] {
      assert a + b == b;
    } else {
      assert (a + b)[1..] == a[1..] + b;
      PutAppendRight(a[1..], b, k, v);
    }
  }

  lemma Regroup(x: seq<Entry>, y: seq<Entry>, z: seq<Entry>)
    ensures x + (y + z) == (x + y) + z
  {
  }

  lemma {:induction false} PutAppendLeft(a: seq<Entry>, b: seq<Entry>, k: Key, v: Bytes)
    requires forall i :: 0 <= i < |b| ==> k < b[i].key
    ensures Put(a + b, k, v) == Put(a, k, v) + b
  {
    if a == [] {
      assert a + b == b;
      if b != [] { assert b[0].key > k; }
    } else {
      assert (a + b)[1..] == a[1..] + b;
      Regroup([Entry(k, v)], a, b);
      Regroup([Entry(k, v)], a[1..], b);
      Regroup([a[0]], Put(a[1..], k, v), b);
      PutAppendLeft(a[1..], b, k, v);
    }
  }

  lemma {:induction false} RemoveAppend(a: seq<Entry>, b: seq<Entry>, k: int)
    ensures Remove(a + b, k) == Remove(a, k) + Remove(b, k)
  {
    if a == [] {
      assert a + b == b;
    } else {
      assert (a + b)[1..] == a[1..] + b;
      RemoveAppend(a[1..], b, k);
    }
  }

  lemma {:induction false} RangeAppend(a: seq<Entry>, b: seq<Entry>, lo: int, hi: int)
    ensures Range(a + b, lo, hi) == Range(a, lo, hi) + Range(b, lo, hi)
  {
    if a == [] {
      assert a + b == b;
    } else {
      assert (a + b)[1..] == a[1..] + b;
      RangeAppend(a[1..], b, lo, hi);
    }
  }

  lemma {:induction false} RangeEmpty(es: seq<Entry>, lo: int, hi: int)
    requires forall i :: 0 <= i < |es| ==> !(lo <= es[i].key <= hi)
    ensures Range(es, lo, hi) == []
  {
    if es != [] {
      RangeEmpty(es[1..], lo, hi);
    }
  }

  /** A range of a sorted list is sorted and holds exactly the entries of the list in [lo, hi]. */
  lemma {:induction false} RangeExact(es: seq<Entry>, lo: int, hi: int)
    requires Sorted(es)
    ensures Sorted(Range(es, lo, hi))
    ensures forall e :: e in Range(es, lo, hi) <==> e in es && lo <= e.key <= hi
  {
    if es != [] {
      SortedTail(es);
      RangeExact(es[1..], lo, hi);
      assert es == [es[0]] + es[1..];
      var r := Range(es[1..], lo, hi);
      forall i | 0 <= i < |r| ensures es[0].key < r[i].key {
        assert r[i] in es[1..];
      }
    }
  }

  /** A range ends before the first key beyond it. */
  lemma {:induction false} RangePast(front: seq<Entry>, rest: seq<Entry>, lo: int, hi: int)
    requires Sorted(front + rest) && rest != [] && hi < rest[0].key
    ensures Range(front + rest, lo, hi) == Range(front, lo, hi)
  {
    var all := front + rest;
    forall q | 0 <= q < |rest| ensures hi < rest[q].key {
      assert rest[q] == all[|front| + q] && rest[0] == all[|front|];
    }
    RangeEmpty(rest, lo, hi);
    RangeAppend(front, rest, lo, hi);
  }

  lemma SortedMiddle(a: seq<Entry>, m: seq<Entry>, b: seq<Entry>)
    requires Sorted(a + m + b)
    ensures Sorted(m)
  {
    var all := a + m + b;
    forall p, q | 0 <= p < q < |m| ensures m[p].key < m[q].key {
      assert m[p] == all[|a| + p] && m[q] == all[|a| + q];
    }
  }

  lemma ConsSorted(e: Entry, rest: seq<Entry>, lo: int, hi: int)
    requires Sorted(rest) && lo <= e.key < hi && Within(rest, e.key + 1, hi)
    ensures Sorted([e] + rest) && Within([e] + rest, lo, hi)
  {
  }

  lemma TailWithin(es: seq<Entry>, lo: int, hi: int)
    requires Sorted(es) && Within(es, lo, hi) && es != []
    ensures Sorted(es[1..]) && Within(es[1..], es[0].key + 1, hi) && lo <= es[0].key < hi && es == [es[0]] + es[1..]
  {
  }

  /** Put keeps order, grows the list by one exactly when the key is new, and stays in bounds. */
  lemma {:induction false} PutSorted(es: seq<Entry>, k: Key, v: Bytes, lo: int, hi: int)
    requires Sorted(es) && Within(es, lo, hi) && lo <= k < hi
    ensures Sorted(Put(es, k, v)) && Within(Put(es, k, v), lo, hi)
    ensures |Put(es, k, v)| == |es| + (if Get(es, k).None? then 1 else 0)
    ensures forall e :: e in Put(es, k, v) ==> e in es || e == Entry(k, v)
  {
    if es == [] {
      ConsSorted(Entry(k, v), [], lo, hi);
    } else {
      TailWithin(es, lo, hi);
      if es[0].key < k {
        PutSorted(es[1..], k, v, es[0].key + 1, hi);
        ConsSorted(es[0], Put(es[1..], k, v), lo, hi);
      } else if es[0].key == k {
        ConsSorted(Entry(k, v), es[1..], lo, hi);
      } else {
        assert Within(es, k + 1, hi) by {
          assert forall i :: 0 <= i < |es| ==> es[0].key <= es[i].key;
        }
        ConsSorted(Entry(k, v), es, lo, hi);
        AbsentKey(es, k);
      }
    }
  }

  lemma {:induction false} RemoveSorted(es: seq<Entry>, k: int)
    requires Sorted(es)
    ensures Sorted(Remove(es, k))
    ensures |Remove(es, k)| == |es| - (if Get(es, k).Some? then 1 else 0)
    ensures forall e :: e in Remove(es, k) <==> e in es && e.key != k
  {
    if es != [] {
      SortedTail(es);
      assert es == [es[0]] + es[1..];
      RemoveSorted(es[1..], k);
      if es[0].key == k {
        AbsentKey(es[1..], k);
      } else {
        var r := Remove(es[1..], k);
        forall i | 0 <= i < |r| ensures es[0].key < r[i].key {
          assert r[i] in es[1..];
        }
      }
    }
  }

  /** The map of a list agrees with Get on every key. */
  lemma {:induction false} MapAgrees(es: seq<Entry>, k: int)
    ensures 0 <= k < KEY_LIMIT ==>
              (Get(es, k) == if k in AsMap(es) then Some(AsMap(es)[k]) else None)
  {
    if es != [] {
      MapAgrees(es[1..], k);
    }
  }

  lemma {:induction false} PutIsMapUpdate(es: seq<Entry>, k: Key, v: Bytes)
    requires Sorted(es)
    ensures AsMap(Put(es, k, v)) == AsMap(es)[k := v]
  {
    if es != [] {
      SortedTail(es);
      PutIsMapUpdate(es[1..], k, v);
      if es[0].key == k {
        assert ([Entry(k, v)] + es[1..])[1..] == es[1..];
      } else if k < es[0].key {
        assert ([Entry(k, v)] + es)[1..] == es;
      } else {
        assert ([es[0]] + Put(es[1..], k, v))[1..] == Put(es[1..], k, v);
      }
    }
  }

  lemma {:induction false} RemoveIsMapRemoval(es: seq<Entry>, k: int)
    requires Sorted(es)
    ensures AsMap(Remove(es, k)) == map q | q in AsMap(es) && q != k :: AsMap(es)[q]
  {
    if es != [] {
      SortedTail(es);
      RemoveIsMapRemoval(es[1..], k);
      if es[0].key != k {
        assert ([es[0]] + Remove(es[1..], k))[1..] == Remove(es[1..], k);
      }
    }
  }
}
