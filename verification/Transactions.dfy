/** A transaction that buffers its writes: an op list, and an overlay that answers its own reads. */
module Transactions {
  import opened Entries
  import opened Tree
  import opened Locks
  import opened LockSafety
  import opened LockManagement
  import opened Serializability
  import opened BPlusTree
  import opened TreeSteps
  import CrashReplay

  // ---- The overlay ---------------------------------------------------------------------------

  function Overlaid(overlay: Rows, op: Write): Rows {
    match op
    case Put(k, r) => overlay[k := r]
    case Remove(k) => overlay - {k}
  }

  function Dropped(deleted: set<Key>, op: Write): set<Key> {
    match op
    case Put(k, _) => deleted - {k}
    case Remove(k) => deleted + {k}
  }

  /** What the staged ops leave in the overlay and in the set of deleted keys. */
  function Overlay(ops: seq<Write>): Rows
    decreases |ops|
  {
    if ops == [] then map[] else Overlaid(Overlay(ops[..|ops| - 1]), ops[|ops| - 1])
  }

  function Deleted(ops: seq<Write>): set<Key>
    decreases |ops|
  {
    if ops == [] then {} else Dropped(Deleted(ops[..|ops| - 1]), ops[|ops| - 1])
  }

  /** The committed rows without the deleted keys, and with the overlay on top. */
  function Patch(m: Rows, overlay: Rows, deleted: set<Key>): Rows {
    (m - deleted) + overlay
  }

  /** The overlay view is the staged op list replayed over the committed rows. */
  lemma {:induction false} OverlayIsReplay(m: Rows, ops: seq<Write>)
    ensures Patch(m, Overlay(ops), Deleted(ops)) == ApplyOps(m, ops)
    ensures Overlay(ops).Keys !! Deleted(ops)
    decreases |ops|
  {
    if ops != [] {
      OverlayIsReplay(m, ops[..|ops| - 1]);
    }
  }

  lemma StageOne(ops: seq<Write>, op: Write)
    ensures Overlay(ops + [op]) == Overlaid(Overlay(ops), op)
    ensures Deleted(ops + [op]) == Dropped(Deleted(ops), op)
  {
    assert (ops + [op])[..|ops|] == ops;
  }

  lemma ApplySnoc(m: Rows, ops: seq<Write>, op: Write)
    ensures ApplyOps(m, ops + [op]) == ApplyOp(ApplyOps(m, ops), op)
  {
    assert (ops + [op])[..|ops|] == ops;
  }

  // ---- Lists of rows as dictionaries ----------------------------------------------------------

  /** The rows in the range, as a scan lists them. */
  ghost predicate Lists(rows: seq<Entry>, m: Rows, start: int, end: int) {
    && Sorted(rows)
    && forall k: Key :: Entries.Get(rows, k) == if start <= k <= end then Look(m, k) else None
  }

  lemma {:induction false} PutRow(rows: seq<Entry>, m: Rows, start: int, end: int, k: Key, v: Bytes)
    requires Lists(rows, m, start, end) && start <= k <= end
    ensures Lists(Entries.Put(rows, k, v), m[k := v], start, end)
  {
    PutSorted(rows, k, v, 0, KEY_LIMIT);
    PutIsMapUpdate(rows, k, v);
    forall q: Key ensures Entries.Get(Entries.Put(rows, k, v), q) == if start <= q <= end then Look(m[k := v], q)
      else None {
      MapAgrees(rows, q);
      MapAgrees(Entries.Put(rows, k, v), q);
    }
  }

  lemma {:induction false} RemoveRow(rows: seq<Entry>, m: Rows, start: int, end: int, k: Key)
    requires Lists(rows, m, start, end)
    ensures Lists(Entries.Remove(rows, k), m - {k}, start, end)
  {
    RemoveSorted(rows, k);
    RemoveIsMapRemoval(rows, k);
    forall q: Key ensures Entries.Get(Entries.Remove(rows, k), q) == if start <= q <= end then Look(m - {k}, q)
      else None {
      MapAgrees(rows, q);
      MapAgrees(Entries.Remove(rows, k), q);
    }
  }

  /** A range of a sorted list, as a dictionary. */
  lemma {:induction false} RangeLists(es: seq<Entry>, start: int, end: int)
    requires Sorted(es)
    ensures Lists(Range(es, start, end), AsMap(es), start, end)
  {
    RangeExact(es, start, end);
    forall k: Key ensures Entries.Get(Range(es, start, end), k) == if start <= k <= end then Look(AsMap(es), k)
      else None {
      RangeGet(es, start, end, k);
      MapAgrees(es, k);
    }
  }

  lemma {:induction false} RangeGet(es: seq<Entry>, start: int, end: int, k: Key)
    ensures Entries.Get(Range(es, start, end), k) == if start <= k <= end then Entries.Get(es, k) else None
    decreases |es|
  {
    if es != [] {
      RangeGet(es[1..], start, end, k);
      if start <= es[0].key <= end {
        GetAppend([es[0]], Range(es[1..], start, end), k);
        assert [es[0]][1..] == [];
      } else {
        assert [] + Range(es[1..], start, end) == Range(es[1..], start, end);
      }
    }
  }

  // ---- The locks of a scan ------------------------------------------------------------------------

  /** Shared locks on the rows, up to the first that is not granted. */
  ghost function LockAll(st: LockState, t: Txn, rows: seq<Entry>): (LockState, Outcome)
    decreases |rows|
  {
    if rows == [] then (st, Granted)
    else
      var n := |rows| - 1;
      var a := LockAll(st, t, rows[..n]);
      if a.1 != Granted then a else Acquire(a.0, t, rows[n].key, S)
  }

  /** The first i rows are locked. */
  ghost predicate Shared(st: LockState, t: Txn, rows: seq<Entry>, i: nat) {
    i <= |rows| && forall j :: 0 <= j < i ==> Serves(Locks.Holds(st, t, rows[j].key), S)
  }

  lemma {:induction false} SharedKept(st: LockState, t: Txn, rows: seq<Entry>, i: nat)
    requires i < |rows| && Shared(st, t, rows, i) && t !in st.waitFor && Acquire(st, t, rows[i].key, S).1 == Granted
    ensures Shared(Acquire(st, t, rows[i].key, S).0, t, rows, i + 1)
  {
    AcquireOutcome(st, t, rows[i].key, S);
    forall j | 0 <= j < i ensures Serves(Locks.Holds(Acquire(st, t, rows[i].key, S).0, t, rows[j].key), S) {
      AcquireOwn(st, t, rows[i].key, S, rows[j].key);
    }
  }

  /** A refused or queued request ends it. */
  lemma {:induction false} LockStops(st: LockState, t: Txn, rows: seq<Entry>, i: nat)
    requires i <= |rows| && LockAll(st, t, rows[..i]).1 != Granted
    ensures LockAll(st, t, rows) == LockAll(st, t, rows[..i])
    decreases |rows| - i
  {
    if i < |rows| {
      assert rows[..i + 1][..i] == rows[..i];
      LockStops(st, t, rows, i + 1);
    } else {
      assert rows[..i] == rows;
    }
  }

  lemma {:induction false} LockMore(st: LockState, t: Txn, rows: seq<Entry>, i: nat)
    requires i < |rows| && LockAll(st, t, rows[..i]).1 == Granted
    ensures var a := Acquire(LockAll(st, t, rows[..i]).0, t, rows[i].key, S);
            LockAll(st, t, rows[..i + 1]) == a && (a.1 != Granted ==> LockAll(st, t, rows) == a)
  {
    assert rows[..i + 1][..i] == rows[..i];
    if LockAll(st, t, rows[..i + 1]).1 != Granted {
      LockStops(st, t, rows, i + 1);
    }
  }

  // ---- What a commit logs ----------------------------------------------------------------------------

  function OpOf(w: Write): CrashReplay.Op {
    match w
    case Put(k, record) => CrashReplay.Insert(k, record)
    case Remove(k) => CrashReplay.Delete(k)
  }

  /** The staged writes as operations on the tree. */
  function OpsOf(ws: seq<Write>): (ops: seq<CrashReplay.Op>)
    ensures |ops| == |ws| && forall i :: 0 <= i < |ws| ==> ops[i] == OpOf(ws[i])
  {
    seq(|ws|, i requires 0 <= i < |ws| => OpOf(ws[i]))
  }

  // ---- The transaction ----------------------------------------------------------------------------

  datatype TxResult = Ok | Blocked | Refused | NotOpen

  function Reply(r: Outcome): TxResult {
    match r
    case Granted => Ok
    case Waiting => Blocked
    case Deadlock => Refused
  }

  class Transaction {
    const tree: BPlusTree
    const locks: LockManager
    const id: Txn
    var ops: seq<Write>
    var overlay: Rows
    var deleted: set<Key>
    var done: bool

    constructor (tree: BPlusTree, locks: LockManager, id: Txn)
      ensures Valid() && !done && ops == [] && this.tree == tree && this.locks == locks && this.id == id
    {
      this.tree, this.locks, this.id := tree, locks, id;
      ops, overlay, deleted, done := [], map[], {}, false;
    }

    ghost predicate Valid()
      reads this
    {
      overlay == Overlay(ops) && deleted == Deleted(ops)
    }

    /** What the transaction sees: the committed rows with its own staged ops applied. */
    ghost function View(): Rows
      reads this, tree
    {
      ApplyOps(tree.View(), ops)
    }

    ghost predicate CanAsk()
      reads this, locks
    {
      Valid() && locks.Valid() && id !in locks.waitFor
    }

    /** Stage an insert or update; nothing is staged unless the exclusive lock is granted. */
    method Put(key: Key, record: Bytes) returns (r: TxResult)
      requires CanAsk()
      modifies this, locks
      ensures Valid() && locks.Valid() && done == old(done)
      ensures ops == if r == Ok then old(ops) + [Write.Put(key, record)] else old(ops)
      ensures if old(done) then r == NotOpen && locks.State() == old(locks.State())
              else var a := Acquire(old(locks.State()), id, key, X); locks.State() == a.0 && r == Reply(a.1)
      ensures !done ==> (r == Blocked <==> id in locks.waitFor)
                        && (r == Ok ==> Locks.Holds(locks.State(), id, key) == Some(X))
    {
      if done {
        return NotOpen;
      }
      var a := locks.Acquire(id, key, X);
      if a == Granted {
        StageOne(ops, Write.Put(key, record));
        ops := ops + [Write.Put(key, record)];
        overlay := overlay[key := record];
        deleted := deleted - {key};
      }
      r := Reply(a);
    }

    /** Stage a delete. */
    method Delete(key: Key) returns (r: TxResult)
      requires CanAsk()
      modifies this, locks
      ensures Valid() && locks.Valid() && done == old(done)
      ensures ops == if r == Ok then old(ops) + [Write.Remove(key)] else old(ops)
      ensures if old(done) then r == NotOpen && locks.State() == old(locks.State())
              else var a := Acquire(old(locks.State()), id, key, X); locks.State() == a.0 && r == Reply(a.1)
      ensures !done ==> (r == Blocked <==> id in locks.waitFor)
                        && (r == Ok ==> Locks.Holds(locks.State(), id, key) == Some(X))
    {
      if done {
        return NotOpen;
      }
      var a := locks.Acquire(id, key, X);
      if a == Granted {
        StageOne(ops, Write.Remove(key));
        ops := ops + [Write.Remove(key)];
        deleted := deleted + {key};
        overlay := overlay - {key};
      }
      r := Reply(a);
    }

    /** Read one row through the overlay: the answer is that of the staged ops replayed over the committed rows. */
    method Get(key: Key) returns (r: TxResult, row: Option<Bytes>)
      requires CanAsk() && tree.Valid() && locks !in tree.pager.Repr
      modifies locks
      ensures Valid() && locks.Valid() && (r == NotOpen <==> done)
      ensures r == Ok ==> row == Look(View(), key)
      ensures !done ==> var a := Acquire(old(locks.State()), id, key, S); locks.State() == a.0 && r == Reply(a.1)
      ensures !done ==> (r == Blocked <==> id in locks.waitFor)
                        && (r == Ok ==> Locks.Holds(locks.State(), id, key).Some?)
    {
      row := None;
      if done {
        return NotOpen, None;
      }
      var a := locks.Acquire(id, key, S);
      if a == Granted {
        row := ReadThrough(key);
      }
      r := Reply(a);
    }

    method ReadThrough(key: Key) returns (row: Option<Bytes>)
      requires Valid() && tree.Valid()
      ensures row == Look(View(), key)
    {
      OverlayIsReplay(tree.View(), ops);
      if key in deleted {
        return None;
      }
      if key in overlay {
        return Some(overlay[key]);
      }
      row := tree.Search(key);
    }

    /** The rows in a range as the transaction sees them, and afterwards a shared lock on each of them, in key order; a
        lock that is not granted ends the scan without rows. */
    method Scan(start: int, end: int) returns (r: TxResult, rows: seq<Entry>, ghost found: seq<Entry>)
      requires CanAsk() && tree.Valid() && locks !in tree.pager.Repr
      modifies locks
      ensures Valid() && locks.Valid() && (r == NotOpen <==> done)
      ensures done ==> locks.State() == old(locks.State())
      ensures !done ==> Lists(found, View(), start, end)
      ensures !done ==> var a := LockAll(old(locks.State()), id, found); locks.State() == a.0 && r == Reply(a.1)
      ensures rows == if r == Ok then found else []
      ensures r == Ok ==> Shared(locks.State(), id, rows, |rows|)
    {
      rows, found := [], [];
      if done {
        return NotOpen, [], [];
      }
      var all := ScanRows(start, end);
      found := all;
      var a := LockRows(all);
      if a == Granted {
        rows := all;
      }
      r := Reply(a);
    }

    /** Shared locks on the rows, one after the other, until one is not granted. */
    method LockRows(rows: seq<Entry>) returns (a: Outcome)
      requires CanAsk()
      modifies locks
      ensures Valid() && locks.Valid() && (locks.State(), a) == LockAll(old(locks.State()), id, rows)
      ensures a == Granted ==> Shared(locks.State(), id, rows, |rows|)
    {
      a := Granted;
      for i := 0 to |rows|
        invariant locks.Valid() && id !in locks.waitFor && a == Granted
        invariant (locks.State(), a) == LockAll(old(locks.State()), id, rows[..i]) && Shared(locks.State(), id, rows, i)
      {
        ghost var st := locks.State();
        a := locks.Acquire(id, rows[i].key, S);
        LockMore(old(locks.State()), id, rows, i);
        if a != Granted {
          return;
        }
        SharedKept(st, id, rows, i);
      }
      assert rows[..|rows|] == rows;
    }

    /** Base rows, without deleted keys, with the overlay on top. */
    method ScanRows(start: int, end: int) returns (rows: seq<Entry>)
      requires Valid() && tree.Valid()
      ensures Lists(rows, View(), start, end)
    {
      OverlayIsReplay(tree.View(), ops);
      rows := tree.RangeScan(start, end);
      tree.ContentsSorted();
      RangeLists(Contents(tree.tree), start, end);
      rows := WithoutDeleted(rows, start, end);
      rows := WithOverlay(rows, start, end);
    }

    method WithoutDeleted(base: seq<Entry>, start: int, end: int) returns (rows: seq<Entry>)
      requires Lists(base, tree.View(), start, end)
      ensures Lists(rows, tree.View() - deleted, start, end)
    {
      rows := base;
      var rest := deleted;
      assert tree.View() - {} == tree.View();
      while rest != {}
        invariant rest <= deleted && Lists(rows, tree.View() - (deleted - rest), start, end)
        decreases rest
      {
        var k :| k in rest;
        RemoveRow(rows, tree.View() - (deleted - rest), start, end, k);
        rows := Entries.Remove(rows, k);
        assert tree.View() - (deleted - rest) - {k} == tree.View() - (deleted - (rest - {k}));
        rest := rest - {k};
      }
      assert deleted - rest == deleted;
    }

    method WithOverlay(base: seq<Entry>, start: int, end: int) returns (rows: seq<Entry>)
      requires Lists(base, tree.View() - deleted, start, end)
      ensures Lists(rows, Patch(tree.View(), overlay, deleted), start, end)
    {
      rows := base;
      var rest := overlay.Keys;
      ghost var m := tree.View() - deleted;
      assert m + (overlay - rest) == m;
      while rest != {}
        invariant rest <= overlay.Keys && Lists(rows, m + (overlay - rest), start, end)
        decreases rest
      {
        var k: Key :| k in rest;
        ghost var before := m + (overlay - rest);
        assert m + (overlay - (rest - {k})) == before[k := overlay[k]];
        if start <= k <= end {
          PutRow(rows, before, start, end, k, overlay[k]);
          rows := Entries.Put(rows, k, overlay[k]);
        } else {
          assert Lists(rows, before[k := overlay[k]], start, end);
        }
        rest := rest - {k};
      }
      assert overlay - rest == overlay;
    }

    /** The tree, as a value. */
    ghost function Db(): CrashReplay.Db
      reads tree, tree.pager
    {
      CrashReplay.Db(tree.tree, tree.height, tree.pager.nextId)
    }

    /** Install exactly the view in the tree, in op order, and release the locks; with nothing staged, do neither. What
        is logged for the tree is what its operations log, one after the other. */
    method Commit() returns (r: TxResult)
      requires CanAsk() && tree.Valid() && locks !in tree.pager.Repr && this !in tree.pager.Repr
      modifies this`done, locks, tree, tree.pager.Repr
      ensures Valid() && done && (r == NotOpen <==> old(done)) && (r == Ok <==> !old(done))
      ensures tree.Valid() && tree.View() == if r == Ok then old(View()) else old(tree.View())
      ensures tree.pager.log == if r == Ok then old(tree.pager.log) +
              CrashReplay.LogAll(old(Db()), OpsOf(ops), tree.pager.order)
                                else old(tree.pager.log)
      ensures locks.Valid() && locks.State() == if r == Ok && ops != [] then Release(old(locks.State()), id)
              else old(locks.State())
    {
      if done {
        return NotOpen;
      }
      done := true;
      if ops == [] {
        return Ok;
      }
      InstallAndRelease();
      r := Ok;
    }

    method InstallAndRelease()
      requires locks.Valid() && id !in locks.waitFor && tree.Valid() && locks !in tree.pager.Repr
               && this !in tree.pager.Repr
      modifies locks, tree, tree.pager.Repr
      ensures tree.Valid() && tree.View() == old(View())
      ensures tree.pager.log == old(tree.pager.log) + CrashReplay.LogAll(old(Db()), OpsOf(ops), tree.pager.order)
      ensures locks.Valid() && locks.State() == Release(old(locks.State()), id)
    {
      Install();
      locks.ReleaseAll(id);
    }

    /** Apply the staged ops to the tree, one by one. */
    method Install()
      requires tree.Valid() && this !in tree.pager.Repr && locks !in tree.pager.Repr
      modifies tree, tree.pager.Repr
      ensures tree.Valid() && tree.View() == ApplyOps(old(tree.View()), ops) && locks !in tree.pager.Repr
      ensures tree.pager.log == old(tree.pager.log) + CrashReplay.LogAll(old(Db()), OpsOf(ops), tree.pager.order)
    {
      ghost var m, before, log0, db, order := tree.View(), tree.pager.Repr, tree.pager.log, Db(), tree.pager.order;
      var staged := ops;
      for i := 0 to |staged|
        invariant tree.Valid() && (forall o :: o in tree.pager.Repr && o !in before ==> fresh(o))
        invariant tree.View() == ApplyOps(m, staged[..i]) && Db() == CrashReplay.DoAll(db, OpsOf(staged[..i]), order)
        invariant tree.pager.log == log0 + CrashReplay.LogAll(db, OpsOf(staged[..i]), order)
      {
        OneMore(m, db, staged, i, order);
        LogJoin(log0, CrashReplay.LogAll(db, OpsOf(staged[..i]), order),
          CrashReplay.DoLog(Db(), OpOf(staged[i]), order));
        InstallOne(staged[i]);
      }
      assert staged[..|staged|] == staged;
    }

    lemma OneMore(m: Rows, db: CrashReplay.Db, staged: seq<Write>, i: nat, order: nat)
      requires i < |staged| && order >= 2
      ensures ApplyOps(m, staged[..i + 1]) == ApplyOp(ApplyOps(m, staged[..i]), staged[i])
      ensures var mid := CrashReplay.DoAll(db, OpsOf(staged[..i]), order);
              && CrashReplay.DoAll(db, OpsOf(staged[..i + 1]), order) == CrashReplay.Do(mid, OpOf(staged[i]), order)
              && CrashReplay.LogAll(db, OpsOf(staged[..i + 1]), order)
                 == CrashReplay.LogAll(db, OpsOf(staged[..i]), order) + CrashReplay.DoLog(mid, OpOf(staged[i]), order)
    {
      assert staged[..i + 1] == staged[..i] + [staged[i]];
      ApplySnoc(m, staged[..i], staged[i]);
      assert OpsOf(staged[..i + 1])[..i] == OpsOf(staged[..i]);
    }

    method InstallOne(op: Write)
      requires tree.Valid()
      modifies tree, tree.pager.Repr
      ensures tree.Valid() && (forall o :: o in tree.pager.Repr && o !in old(tree.pager.Repr) ==> fresh(o))
      ensures tree.View() == ApplyOp(old(tree.View()), op)
              && Db() == CrashReplay.Do(old(Db()), OpOf(op), tree.pager.order)
      ensures tree.pager.log == old(tree.pager.log) + CrashReplay.DoLog(old(Db()), OpOf(op), tree.pager.order)
    {
      match op
      case Put(k, record) => tree.Insert(k, record);
      case Remove(k) =>
        var found := tree.Delete(k);
        assert tree.View() == old(tree.View()) - {k};
    }

    /** Forget the staged ops; the tree is not touched, and the locks are released. */
    method Rollback()
      requires CanAsk()
      modifies this`done, locks
      ensures Valid() && done && locks.Valid()
      ensures locks.State() == if old(done) then old(locks.State()) else Release(old(locks.State()), id)
    {
      if done {
        return;
      }
      done := true;
      locks.ReleaseAll(id);
    }
  }
}
