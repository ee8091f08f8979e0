/** Tables as maps from primary key to row, scanned in key order. */
module Tables {
  import opened Entries
  import opened Records

  type Row = seq<Value>

  type Table = map<Key, Row>

  // ---- Keys in order ------------------------------------------------------------------------

  ghost predicate Increasing(ks: seq<Key>) {
    forall i, j :: 0 <= i < j < |ks| ==> ks[i] < ks[j]
  }

  /** A list of keys without repetition. */
  ghost predicate NoRepeat(ks: seq<Key>) {
    forall i, j :: 0 <= i < j < |ks| ==> ks[i] != ks[j]
  }

  function SetOf(ks: seq<Key>): set<Key> {
    set k | k in ks
  }

  /** The keys of a set, smallest first. */
  ghost predicate Lists(ks: seq<Key>, s: set<Key>) {
    Increasing(ks) && SetOf(ks) == s
  }

  /** There is only one such list. */
  lemma {:induction false} ListsUnique(a: seq<Key>, b: seq<Key>, s: set<Key>)
    requires Lists(a, s) && Lists(b, s)
    ensures a == b
    decreases |a|
  {
    NotEmpty(a);
    NotEmpty(b);
    if a != [] {
      HeadLeast(a, b);
      HeadLeast(b, a);
      TailLists(a, s);
      TailLists(b, s);
      ListsUnique(a[1..], b[1..], s - {a[0]});
      assert a == [a[0]] + a[1..] && b == [b[0]] + b[1..];
    }
  }

  lemma NotEmpty(a: seq<Key>)
    ensures a == [] <==> SetOf(a) == {}
    ensures a != [] ==> a[0] in SetOf(a)
  {
    if a != [] { assert a[0] in SetOf(a); }
  }

  lemma HeadLeast(a: seq<Key>, b: seq<Key>)
    requires Increasing(a) && a != [] && b != [] && b[0] in SetOf(a)
    ensures a[0] <= b[0]
  {
    var i :| 0 <= i < |a| && a[i] == b[0];
  }

  lemma TailLists(a: seq<Key>, s: set<Key>)
    requires Lists(a, s) && a != []
    ensures Lists(a[1..], s - {a[0]})
  {
    forall k ensures k in SetOf(a[1..]) <==> k in s && k != a[0] {
      if k in s && k != a[0] {
        var i :| 0 <= i < |a| && a[i] == k;
        assert a[1..][i - 1] == k;
      }
      if k in a[1..] {
        var i :| 0 <= i < |a[1..]| && a[1..][i] == k;
        assert a[i + 1] == k;
      }
    }
  }

  /** Lists of the same keys without repetition are the same multiset. */
  lemma {:induction false} SameKeys(a: seq<Key>, b: seq<Key>)
    requires NoRepeat(a) && NoRepeat(b) && SetOf(a) == SetOf(b)
    ensures multiset(a) == multiset(b)
  {
    forall k ensures multiset(a)[k] == multiset(b)[k] {
      OnceEach(a, k);
      OnceEach(b, k);
    }
  }

  lemma {:induction false} OnceEach(a: seq<Key>, k: Key)
    requires NoRepeat(a)
    ensures multiset(a)[k] == if k in SetOf(a) then 1 else 0
    decreases |a|
  {
    if a != [] {
      var n := |a| - 1;
      OnceEach(a[..n], k);
      LastNew(a);
      assert a == a[..n] + [a[n]];
    }
  }

  lemma LastNew(a: seq<Key>)
    requires NoRepeat(a) && a != []
    ensures a[|a| - 1] !in SetOf(a[..|a| - 1])
  {
    var n := |a| - 1;
    forall i | 0 <= i < n ensures a[..n][i] != a[n] {
    }
  }

  /** The rows of some keys, in that order. */
  function RowsOf(ks: seq<Key>, t: Table): (r: seq<Row>)
    requires forall k :: k in ks ==> k in t
    ensures |r| == |ks|
  {
    seq(|ks|, i requires 0 <= i < |ks| => t[ks[i]])
  }

  lemma {:induction false} RowsMultiset(a: seq<Key>, b: seq<Key>, t: Table)
    requires (forall k :: k in a ==> k in t) && (forall k :: k in b ==> k in t) && multiset(a) == multiset(b)
    ensures multiset(RowsOf(a, t)) == multiset(RowsOf(b, t))
    decreases |a|
  {
    if a == [] {
      assert |multiset(b)| == 0;
      assert b == [];
    } else {
      assert a[0] in multiset(a);
      assert a[0] in b;
      var i :| 0 <= i < |b| && b[i] == a[0];
      var c := b[..i] + b[i + 1..];
      OneAway(a, b, i);
      assert forall k :: k in c ==> k in b;
      RowsMultiset(a[1..], c, t);
      assert RowsOf(a, t) == [t[a[0]]] + RowsOf(a[1..], t);
      RowsAround(b, i, t);
    }
  }

  lemma OneAway(a: seq<Key>, b: seq<Key>, i: nat)
    requires a != [] && i < |b| && b[i] == a[0] && multiset(a) == multiset(b)
    ensures multiset(a[1..]) == multiset(b[..i] + b[i + 1..])
  {
    WithoutOne(a, 0);
    WithoutOne(b, i);
    assert a[..0] + a[1..] == a[1..];
    Cancel(multiset(a[1..]), multiset(b[..i] + b[i + 1..]), a[0]);
  }

  lemma Cancel(m: multiset<Key>, n: multiset<Key>, k: Key)
    requires m + multiset{k} == n + multiset{k}
    ensures m == n
  {
    assert m == (m + multiset{k}) - multiset{k};
    assert n == (n + multiset{k}) - multiset{k};
  }

  lemma WithoutOne(b: seq<Key>, i: nat)
    requires i < |b|
    ensures multiset(b) == multiset(b[..i] + b[i + 1..]) + multiset{b[i]}
  {
    assert b == b[..i] + [b[i]] + b[i + 1..];
  }

  lemma RowsAround(b: seq<Key>, i: nat, t: Table)
    requires (forall k :: k in b ==> k in t) && i < |b|
    ensures multiset(RowsOf(b, t)) == multiset(RowsOf(b[..i] + b[i + 1..], t)) + multiset{t[b[i]]}
  {
    assert RowsOf(b, t) == RowsOf(b[..i], t) + [t[b[i]]] + RowsOf(b[i + 1..], t);
    assert RowsOf(b[..i] + b[i + 1..], t) == RowsOf(b[..i], t) + RowsOf(b[i + 1..], t);
  }

  function KeysIn(t: Table, lo: int, hi: int): set<Key> {
    set k | k in t && lo <= k <= hi
  }

  /** The storage engine of one table, as its map of rows. */
  class Engine {
    var rows: Table

    constructor ()
      ensures rows == map[]
    {
      rows := map[];
    }

    function Get(k: int): (r: Option<Row>)
      reads this
    {
      if 0 <= k < KEY_LIMIT && k in rows then Some(rows[k]) else None
    }

    method Put(k: Key, row: Row)
      modifies this
      ensures rows == old(rows)[k := row]
    {
      rows := rows[k := row];
    }

    method Delete(k: Key)
      modifies this
      ensures rows == old(rows) - {k}
    {
      rows := rows - {k};
    }

    /** The keys in a range, smallest first. */
    method ScanKeys(lo: int, hi: int) returns (ks: seq<Key>)
      ensures Lists(ks, KeysIn(rows, lo, hi))
    {
      ks := InOrder(KeysIn(rows, lo, hi));
    }
  }

  /** The elements of a set, smallest first. */
  method InOrder(s: set<Key>) returns (ks: seq<Key>)
    ensures Lists(ks, s)
  {
    ks := [];
    var rest := s;
    while rest != {}
      invariant Increasing(ks) && SetOf(ks) !! rest && SetOf(ks) + rest == s
      invariant forall i, k :: 0 <= i < |ks| && k in rest ==> ks[i] < k
      decreases rest
    {
      var k := Least(rest);
      var before := ks;
      ks := ks + [k];
      rest := rest - {k};
      assert SetOf(ks) == SetOf(before) + {k};
    }
  }

  method Least(s: set<Key>) returns (k: Key)
    requires s != {}
    ensures k in s && forall q :: q in s ==> k <= q
  {
    k :| k in s;
    var rest := s - {k};
    while rest != {}
      invariant k in s && rest <= s && forall q :: q in s && q !in rest ==> k <= q
      decreases rest
    {
      var q :| q in rest;
      rest := rest - {q};
      if q < k {
        k := q;
      }
    }
  }
}
