/** Which records of a log take effect in recovery, whatever stands where in it. */
module WalCounts {
  import opened Entries
  import opened WalFormat
  import opened WalRecovery

  /** No record from a up to b begins or ends a transaction. */
  ghost predicate Quiet(rs: seq<LogRecord>, a: nat, b: nat)
    requires b <= |rs|
  {
    forall j :: a <= j < b ==> IsChange(rs[j])
  }

  /** The record at i belongs to the transaction that begins at b. */
  ghost predicate Within(rs: seq<LogRecord>, b: nat, i: nat)
    requires i < |rs|
  {
    b < i && rs[b].kind.TxnBegin? && Quiet(rs, b + 1, i)
  }

  /** The commit record at c ends transaction t, as far as the record at i can tell. */
  ghost predicate CommitsAt(rs: seq<LogRecord>, t: nat, i: nat, c: nat)
    requires i < |rs|
  {
    i < c < |rs| && rs[c].kind == TxnCommit(t) && Quiet(rs, i + 1, c)
  }

  /** A change takes effect if it is in no transaction, or if the next record that begins or ends one is the commit
      record of the transaction that it is in. */
  ghost predicate Counts(rs: seq<LogRecord>, i: nat)
    requires i < |rs|
  {
    IsChange(rs[i]) && forall b: nat :: Within(rs, b, i) ==> exists c: nat :: CommitsAt(rs, rs[b].kind.txn, i, c)
  }

  /** The changes among the first n records that take effect in the whole log. */
  ghost function Counted(rs: seq<LogRecord>, n: nat): seq<LogRecord>
    requires n <= |rs|
    decreases n
  {
    if n == 0 then [] else Counted(rs, n - 1) + if Counts(rs, n - 1) then [rs[n - 1]] else []
  }

  /** Recovery applies exactly these, in log order: for every log. */
  lemma {:induction false} RecoveryApplies(rs: seq<LogRecord>, nextLsn: nat)
    ensures var s := TakeAll(Begin(nextLsn), rs);
            s.writes == PagesOf(Counted(rs, |rs|)) && s.root == LastOr(MetasOf(Counted(rs, |rs|)), None)
  {
    Progress(rs, nextLsn);
    var b := LastMark(rs);
    if b >= 0 && rs[b].kind.TxnBegin? {
      NoneCounts(rs, b, |rs|, |rs|);
    }
  }

  // ---- The state of recovery -------------------------------------------------------------------------

  /** The last record that begins or ends a transaction, or -1. */
  function LastMark(rs: seq<LogRecord>): (b: int)
    ensures -1 <= b < |rs| && (b >= 0 ==> !IsChange(rs[b])) && forall j :: b < j < |rs| ==> IsChange(rs[j])
    decreases |rs|
  {
    if rs == [] then -1
    else if !IsChange(rs[|rs| - 1]) then |rs| - 1
    else LastMark(rs[..|rs| - 1])
  }

  /** What is applied, and what is held back for the transaction that is open, if one is. */
  ghost predicate Progressed(s: Replay, rs: seq<LogRecord>) {
    var b := LastMark(rs);
    if b >= 0 && rs[b].kind.TxnBegin? then
      && s.active == Some(rs[b].kind.txn)
      && s.pages == PagesOf(rs[b + 1..]) && s.metas == MetasOf(rs[b + 1..])
      && s.writes == PagesOf(Counted(rs, b)) && s.root == LastOr(MetasOf(Counted(rs, b)), None)
    else
      && s.active == None && s.pages == [] && s.metas == []
      && s.writes == PagesOf(Counted(rs, |rs|)) && s.root == LastOr(MetasOf(Counted(rs, |rs|)), None)
  }

  lemma {:induction false} Progress(rs: seq<LogRecord>, nextLsn: nat)
    ensures Progressed(TakeAll(Begin(nextLsn), rs), rs)
    decreases |rs|
  {
    if rs != [] {
      var init, r := rs[..|rs| - 1], rs[|rs| - 1];
      assert rs == init + [r];
      Progress(init, nextLsn);
      var b := LastMark(init);
      if b >= 0 && init[b].kind.TxnBegin? {
        InTransaction(init, r, b, TakeAll(Begin(nextLsn), init));
      } else {
        NoTransaction(init, r, TakeAll(Begin(nextLsn), init));
      }
    }
  }

  lemma {:induction false} NoTransaction(init: seq<LogRecord>, r: LogRecord, s: Replay)
    requires Progressed(s, init) && (LastMark(init) >= 0 ==> !init[LastMark(init)].kind.TxnBegin?)
    ensures Progressed(Take(s, r), init + [r])
  {
    var rs, n := init + [r], |init|;
    assert rs[..n] == init;
    SameBefore(init, r, n);
    if IsChange(r) {
      LooseCounts(init, r);
      OneMore(Counted(init, n), r);
    } else {
      assert Counted(rs, n + 1) == Counted(rs, n) && rs[n + 1..] == [];
    }
  }

  /** A change outside any transaction. */
  lemma {:induction false} LooseCounts(init: seq<LogRecord>, r: LogRecord)
    requires IsChange(r) && (LastMark(init) >= 0 ==> !init[LastMark(init)].kind.TxnBegin?)
    ensures Counts(init + [r], |init|) && LastMark(init + [r]) == LastMark(init)
  {
    var rs, n := init + [r], |init|;
    assert rs[..n] == init;
    forall b: nat | b < n ensures !Within(rs, b, n) {
      QuietSame(init, r, b + 1, n);
      assert rs[b] == init[b];
      assert init[b].kind.TxnBegin? ==> b < LastMark(init);
    }
  }

  lemma OneMore(done: seq<LogRecord>, r: LogRecord)
    ensures PagesOf(done + [r]) == PagesOf(done) + if r.kind.PageWrite? then [(r.kind.id, r.kind.image)] else []
    ensures MetasOf(done + [r]) == MetasOf(done) + if r.kind.MetaUpdate? then [r.kind.root] else []
  {
    assert (done + [r])[..|done|] == done;
  }

  lemma QuietSame(init: seq<LogRecord>, r: LogRecord, a: nat, b: nat)
    requires b <= |init|
    ensures Quiet(init + [r], a, b) <==> Quiet(init, a, b)
  {
    var rs := init + [r];
    assert forall j :: a <= j < b ==> rs[j] == init[j];
  }

  /** What counts before the last record counts with it, unless the record settles a transaction that is open. */
  lemma {:induction false} SameBefore(init: seq<LogRecord>, r: LogRecord, n: nat)
    requires n <= |init|
    requires IsChange(r) || LastMark(init) < 0 || n <= LastMark(init) || !init[LastMark(init)].kind.TxnBegin?
    ensures Counted(init + [r], n) == Counted(init, n)
    decreases n
  {
    if n > 0 {
      SameBefore(init, r, n - 1);
      SameCounts(init, r, n - 1);
    }
  }

  lemma {:induction false} SameCounts(init: seq<LogRecord>, r: LogRecord, i: nat)
    requires i < |init|
    requires IsChange(r) || LastMark(init) < 0 || i < LastMark(init) || !init[LastMark(init)].kind.TxnBegin?
    ensures Counts(init + [r], i) <==> Counts(init, i)
  {
    var rs := init + [r];
    assert rs[i] == init[i];
    forall b: nat ensures Within(rs, b, i) <==> Within(init, b, i) {
      QuietSame(init, r, b + 1, i);
      assert b < i ==> rs[b] == init[b];
    }
    forall b: nat, c: nat | IsChange(init[i]) && Within(init, b, i)
      ensures CommitsAt(rs, rs[b].kind.txn, i, c) <==> CommitsAt(init, init[b].kind.txn, i, c)
    {
      assert rs[b] == init[b];
      if c < |init| {
        QuietSame(init, r, i + 1, c);
        assert rs[c] == init[c];
      } else {
        LateMark(init, r, b, i);
      }
    }
  }

  /** The last record does not commit what an earlier mark has settled. */
  lemma {:induction false} LateMark(init: seq<LogRecord>, r: LogRecord, b: nat, i: nat)
    requires i < |init| && Within(init, b, i) && IsChange(init[i])
    requires IsChange(r) || LastMark(init) < 0 || i < LastMark(init) || !init[LastMark(init)].kind.TxnBegin?
    ensures !CommitsAt(init + [r], init[b].kind.txn, i, |init|)
  {
    var m := LastMark(init);
    if !IsChange(r) {
      assert b <= m;
      assert i < m;
      QuietSame(init, r, i + 1, |init|);
    }
  }

  /** Nothing counts of a transaction that is open, or whose next mark is not its commit record. */
  lemma {:induction false} NoneCounts(rs: seq<LogRecord>, b: nat, n: nat, k: nat)
    requires b < k <= n <= |rs| && rs[b].kind.TxnBegin? && Quiet(rs, b + 1, n)
    requires n < |rs| ==> !IsChange(rs[n]) && rs[n].kind != TxnCommit(rs[b].kind.txn)
    ensures Counted(rs, k) == Counted(rs, b)
    decreases k
  {
    if k > b + 1 {
      NoneCounts(rs, b, n, k - 1);
      assert Within(rs, b, k - 1);
    }
  }

  /** Everything counts of one whose next mark is. */
  lemma {:induction false} AllCount(rs: seq<LogRecord>, b: nat, n: nat)
    requires b < n < |rs| && rs[b].kind.TxnBegin? && Quiet(rs, b + 1, n)
    requires rs[n].kind == TxnCommit(rs[b].kind.txn)
    ensures Counted(rs, n) == Counted(rs, b) + rs[b + 1..n]
  {
    assert !Counts(rs, b);
    assert Counted(rs, b + 1) == Counted(rs, b) + [] == Counted(rs, b);
    forall i | b < i < n ensures Counts(rs, i) {
      BodyCounts(rs, b, n, i);
    }
    CountedSpan(rs, b + 1, n);
  }

  lemma {:induction false} CountedSpan(rs: seq<LogRecord>, a: nat, k: nat)
    requires a <= k <= |rs| && forall i :: a <= i < k ==> Counts(rs, i)
    ensures Counted(rs, k) == Counted(rs, a) + rs[a..k]
    decreases k
  {
    if k > a {
      CountedSpan(rs, a, k - 1);
      SpanMore(Counted(rs, a), rs, a, k);
    }
  }

  lemma SpanMore(done: seq<LogRecord>, rs: seq<LogRecord>, a: nat, k: nat)
    requires a < k <= |rs|
    ensures done + rs[a..k] == done + rs[a..k - 1] + [rs[k - 1]]
  {
  }

  lemma {:induction false} BodyCounts(rs: seq<LogRecord>, b: nat, n: nat, i: nat)
    requires b < i < n < |rs| && rs[b].kind.TxnBegin? && Quiet(rs, b + 1, n)
    requires rs[n].kind == TxnCommit(rs[b].kind.txn)
    ensures Counts(rs, i)
  {
    forall b': nat | Within(rs, b', i) ensures CommitsAt(rs, rs[b'].kind.txn, i, n) {
      assert b' == b;
    }
  }

  lemma {:induction false} InTransaction(init: seq<LogRecord>, r: LogRecord, b: nat, s: Replay)
    requires b == LastMark(init) && init[b].kind.TxnBegin? && Progressed(s, init)
    ensures Progressed(Take(s, r), init + [r])
  {
    SameBefore(init, r, b);
    if IsChange(r) {
      HeldMore(init, r, b, s);
    } else {
      QuietSame(init, r, b + 1, |init|);
      InSettled(init, r, b);
      Settles(init, r, b, s);
    }
  }

  lemma {:induction false} HeldMore(init: seq<LogRecord>, r: LogRecord, b: nat, s: Replay)
    requires IsChange(r) && b == LastMark(init) && init[b].kind.TxnBegin? && Progressed(s, init)
    requires Counted(init + [r], b) == Counted(init, b)
    ensures Progressed(Take(s, r), init + [r])
  {
    var rs := init + [r];
    assert rs[..|init|] == init;
    assert LastMark(rs) == b && rs[b] == init[b];
    assert rs[b + 1..] == init[b + 1..] + [r];
    OneMore(init[b + 1..], r);
  }

  lemma {:induction false} Settles(init: seq<LogRecord>, r: LogRecord, b: nat, s: Replay)
    requires !IsChange(r) && b == LastMark(init) && init[b].kind.TxnBegin? && Progressed(s, init)
    requires Settled(init, r, b)
    ensures Progressed(Take(s, r), init + [r])
  {
    var rs, n, e := init + [r], |init|, Take(s, r);
    assert LastMark(rs) == n && rs[n] == r;
    match r.kind
    case TxnBegin(_) => assert e.pages == PagesOf(rs[n + 1..]) && e.metas == MetasOf(rs[n + 1..]);
    case TxnCommit(t) => assert e.active == None && e.writes == PagesOf(Counted(rs, n));
    case TxnAbort(_) => assert e.active == None && e.writes == PagesOf(Counted(rs, n));
  }

  /** What counts once the record r settles, or drops, the transaction that began at b. */
  ghost predicate Settled(init: seq<LogRecord>, r: LogRecord, b: nat)
    requires b < |init| && init[b].kind.TxnBegin?
  {
    var rs, n := init + [r], |init|;
    && rs[n + 1..] == [] && Counted(rs, n) == Counted(rs, n + 1)
    && if r.kind == TxnCommit(init[b].kind.txn)
       then && PagesOf(Counted(rs, n)) == PagesOf(Counted(init, b)) + PagesOf(init[b + 1..])
            && MetasOf(Counted(rs, n)) == MetasOf(Counted(init, b)) + MetasOf(init[b + 1..])
       else Counted(rs, n) == Counted(init, b)
  }

  lemma {:induction false} InSettled(init: seq<LogRecord>, r: LogRecord, b: nat)
    requires !IsChange(r) && b < |init| && init[b].kind.TxnBegin? && Quiet(init + [r], b + 1, |init|)
    requires Counted(init + [r], b) == Counted(init, b)
    ensures Settled(init, r, b)
  {
    var rs, n := init + [r], |init|;
    if r.kind == TxnCommit(rs[b].kind.txn) {
      AllCount(rs, b, n);
      assert rs[b + 1..n] == init[b + 1..];
      PagesAppend(Counted(rs, b), init[b + 1..]);
    } else {
      NoneCounts(rs, b, n, n);
    }
  }

  // ---- One transaction ---------------------------------------------------------------------------------

  /** A transaction in a log, from its begin record at b to its commit record at c, that changes something at once and
      has no other commit record of its own: all of its changes take effect if and only if no record in between begins
      or ends a transaction, its own or another. */
  lemma {:induction false} BodyWhole(rs: seq<LogRecord>, b: nat, c: nat)
    requires b + 1 < c < |rs| && rs[b].kind.TxnBegin? && rs[c].kind == TxnCommit(rs[b].kind.txn)
    requires IsChange(rs[b + 1]) && forall j :: b < j < c ==> rs[j].kind != TxnCommit(rs[b].kind.txn)
    ensures (forall i :: b < i < c && IsChange(rs[i]) ==> Counts(rs, i)) <==> Quiet(rs, b + 1, c)
  {
    if Quiet(rs, b + 1, c) {
      forall i | b < i < c ensures Counts(rs, i) {
        BodyCounts(rs, b, c, i);
      }
    } else {
      assert Within(rs, b, b + 1);
      var t := rs[b].kind.txn;
      forall d: nat {:trigger CommitsAt(rs, t, b + 1, d)} ensures !CommitsAt(rs, t, b + 1, d) {
        assert CommitsAt(rs, t, b + 1, d) ==> d >= c;
      }
      assert !Counts(rs, b + 1);
    }
  }

  /** The record of another transaction's rollback inside a transaction: recovery drops what the transaction had changed
      before it, although its commit record is in the log. */
  lemma {:induction false} ForeignAbort(lsn: nat, t: nat, u: nat, change: LogRecord)
    requires change.kind.PageWrite?
    ensures TakeAll(Begin(lsn), [LogRecord(lsn, TxnBegin(t)), change, LogRecord(lsn + 2, TxnAbort(u)),
                                 LogRecord(lsn + 3, TxnCommit(t))]).writes == []
  {
    var rs := [LogRecord(lsn, TxnBegin(t)), change, LogRecord(lsn + 2, TxnAbort(u)), LogRecord(lsn + 3, TxnCommit(t))];
    NoneCounts(rs, 0, 2, 2);
    assert Counted(rs, 4) == Counted(rs, 3) == Counted(rs, 2) == Counted(rs, 0) == [];
    RecoveryApplies(rs, lsn);
  }

  // ---- What a database is after recovery ------------------------------------------------------------------

  /** Record i is one of the first n, takes effect, and writes page id. */
  ghost predicate Writes(rs: seq<LogRecord>, n: nat, i: nat, id: nat)
    requires n <= |rs|
  {
    i < n && Counts(rs, i) && rs[i].kind.PageWrite? && rs[i].kind.id == id
  }

  ghost predicate WritesLast(rs: seq<LogRecord>, n: nat, i: nat, id: nat)
    requires n <= |rs|
  {
    Writes(rs, n, i, id) && forall j: nat :: i < j ==> !Writes(rs, n, j, id)
  }

  /** Record i is one of the first n, takes effect, and names a root. */
  ghost predicate NamesRoot(rs: seq<LogRecord>, n: nat, i: nat)
    requires n <= |rs|
  {
    i < n && Counts(rs, i) && rs[i].kind.MetaUpdate?
  }

  ghost predicate NamesLast(rs: seq<LogRecord>, n: nat, i: nat)
    requires n <= |rs|
  {
    NamesRoot(rs, n, i) && forall j: nat :: i < j ==> !NamesRoot(rs, n, j)
  }

  /** A page has the image of the last record that takes effect and writes it, if there is one, and else is as it
      was. */
  ghost predicate PageAfter(data: DataFile, rs: seq<LogRecord>, n: nat, id: nat, after: DataFile)
    requires n <= |rs|
  {
    if exists i: nat :: Writes(rs, n, i, id) then
      id in after && exists i: nat :: WritesLast(rs, n, i, id) && after[id] == rs[i].kind.image
    else
      (id in after <==> id in data) && (id in data ==> after[id] == data[id])
  }

  /** So it is with the root. */
  ghost predicate RootAfter(root: Option<nat>, rs: seq<LogRecord>, n: nat, after: Option<nat>)
    requires n <= |rs|
  {
    if exists i: nat :: NamesRoot(rs, n, i) then exists i: nat :: NamesLast(rs, n, i) && after == rs[i].kind.root
    else after == root
  }

  /** The next page id is beyond that of every page written, and no further than it has to be. */
  ghost predicate NextAfter(next: nat, rs: seq<LogRecord>, n: nat, after: nat)
    requires n <= |rs|
  {
    && next <= after && (forall i: nat, id: nat :: Writes(rs, n, i, id) ==> id < after)
    && (after == next || exists i: nat, id: nat :: Writes(rs, n, i, id) && after == id + 1)
  }

  ghost predicate Restores(db: Db, rs: seq<LogRecord>, n: nat, after: Db)
    requires n <= |rs|
  {
    && (forall id: nat :: PageAfter(db.data, rs, n, id, after.data))
    && RootAfter(db.root, rs, n, after.root) && NextAfter(db.next, rs, n, after.next)
  }

  /** What recovery leaves of any database, with any log: pages, root and next page id. */
  lemma {:induction false} RecoverRestores(db: Db, rs: seq<LogRecord>, nextLsn: nat)
    ensures Restores(db, rs, |rs|, Recover(db, TakeAll(Begin(nextLsn), rs)))
  {
    RecoveryApplies(rs, nextLsn);
    RestoredUpTo(db, rs, |rs|);
    var s := TakeAll(Begin(nextLsn), rs);
    assert Recover(db, s) == DbAfter(db, Counted(rs, |rs|));
  }

  ghost function DbAfter(db: Db, done: seq<LogRecord>): Db {
    var root := LastOr(MetasOf(done), None);
    Db(WriteAll(db.data, PagesOf(done)), if root.Some? then root.value else db.root,
       Max(db.next, MaxId(PagesOf(done)) + 1))
  }

  lemma {:induction false} RestoredUpTo(db: Db, rs: seq<LogRecord>, n: nat)
    requires n <= |rs|
    ensures Restores(db, rs, n, DbAfter(db, Counted(rs, n)))
    decreases n
  {
    if n > 0 {
      RestoredUpTo(db, rs, n - 1);
      var r, done := rs[n - 1], Counted(rs, n - 1);
      var b := DbAfter(db, done);
      if Counts(rs, n - 1) {
        assert Counted(rs, n) == done + [r];
        DbStep(db, done, r);
        RestoreStep(db, rs, n - 1, n, b, DbAfter(db, done + [r]));
      } else {
        assert Counted(rs, n) == done;
        SameUpTo(db, rs, n - 1, n, b);
      }
    }
  }

  lemma {:induction false} RestoreStep(db: Db, rs: seq<LogRecord>, m: nat, n: nat, b: Db, a: Db)
    requires n == m + 1 <= |rs| && Counts(rs, m) && Restores(db, rs, m, b)
    requires a.data == if rs[m].kind.PageWrite? then b.data[rs[m].kind.id := rs[m].kind.image] else b.data
    requires a.root == if rs[m].kind.MetaUpdate? then rs[m].kind.root else b.root
    requires a.next == if rs[m].kind.PageWrite? then Max(b.next, rs[m].kind.id + 1) else b.next
    ensures Restores(db, rs, n, a)
  {
    forall id: nat ensures PageAfter(db.data, rs, n, id, a.data) {
      assert PageAfter(db.data, rs, m, id, b.data);
      PageStep(rs, m, n, id, db.data, b.data, a.data);
    }
    RootStep(rs, m, n, db.root, b.root, a.root);
    NextStep(rs, m, n, db.next, b.next, a.next);
  }

  /** A record that does not count, or writes another page, changes nothing about a page. */
  lemma SameWrites(rs: seq<LogRecord>, m: nat, n: nat, id: nat)
    requires n == m + 1 <= |rs| && !Writes(rs, n, m, id)
    ensures forall i: nat :: Writes(rs, n, i, id) <==> Writes(rs, m, i, id)
    ensures forall i: nat :: WritesLast(rs, n, i, id) <==> WritesLast(rs, m, i, id)
  {
    forall i: nat ensures Writes(rs, n, i, id) <==> Writes(rs, m, i, id) {
      assert i == m ==> !Writes(rs, n, i, id);
    }
  }

  lemma SameNames(rs: seq<LogRecord>, m: nat, n: nat)
    requires n == m + 1 <= |rs| && !NamesRoot(rs, n, m)
    ensures forall i: nat :: NamesRoot(rs, n, i) <==> NamesRoot(rs, m, i)
    ensures forall i: nat :: NamesLast(rs, n, i) <==> NamesLast(rs, m, i)
  {
    forall i: nat ensures NamesRoot(rs, n, i) <==> NamesRoot(rs, m, i) {
      assert i == m ==> !NamesRoot(rs, n, i);
    }
  }

  lemma {:induction false} SameUpTo(db: Db, rs: seq<LogRecord>, m: nat, n: nat, after: Db)
    requires n == m + 1 <= |rs| && !Counts(rs, m) && Restores(db, rs, m, after)
    ensures Restores(db, rs, n, after)
  {
    forall id: nat ensures PageAfter(db.data, rs, n, id, after.data) {
      SameWrites(rs, m, n, id);
      assert PageAfter(db.data, rs, m, id, after.data);
    }
    SameNames(rs, m, n);
    forall i: nat, id: nat ensures Writes(rs, n, i, id) <==> Writes(rs, m, i, id) {
      SameWrites(rs, m, n, id);
    }
  }

  lemma {:induction false} PageStep(rs: seq<LogRecord>, m: nat, n: nat, id: nat, data: DataFile, b: DataFile,
                                    a: DataFile)
    requires n == m + 1 <= |rs| && Counts(rs, m) && PageAfter(data, rs, m, id, b)
    requires a == if rs[m].kind.PageWrite? then b[rs[m].kind.id := rs[m].kind.image] else b
    ensures PageAfter(data, rs, n, id, a)
  {
    if Writes(rs, n, m, id) {
      assert WritesLast(rs, n, m, id);
    } else {
      SameWrites(rs, m, n, id);
    }
  }

  lemma {:induction false} RootStep(rs: seq<LogRecord>, m: nat, n: nat, root: Option<nat>, b: Option<nat>,
                                    a: Option<nat>)
    requires n == m + 1 <= |rs| && Counts(rs, m) && RootAfter(root, rs, m, b)
    requires a == if rs[m].kind.MetaUpdate? then rs[m].kind.root else b
    ensures RootAfter(root, rs, n, a)
  {
    if rs[m].kind.MetaUpdate? {
      assert NamesLast(rs, n, m);
    } else {
      SameNames(rs, m, n);
    }
  }

  lemma {:induction false} NextStep(rs: seq<LogRecord>, m: nat, n: nat, next: nat, b: nat, a: nat)
    requires n == m + 1 <= |rs| && Counts(rs, m) && NextAfter(next, rs, m, b)
    requires a == if rs[m].kind.PageWrite? then Max(b, rs[m].kind.id + 1) else b
    ensures NextAfter(next, rs, n, a)
  {
    forall i: nat, id: nat | Writes(rs, n, i, id) ensures id < a {
      assert i < m ==> Writes(rs, m, i, id);
    }
    if a != next {
      if a == b {
        var i: nat, id: nat :| Writes(rs, m, i, id) && b == id + 1;
        assert Writes(rs, n, i, id);
      } else {
        assert Writes(rs, n, m, rs[m].kind.id);
      }
    }
  }

  /** One more change. */
  lemma {:induction false} DbStep(db: Db, done: seq<LogRecord>, r: LogRecord)
    ensures var b, a := DbAfter(db, done), DbAfter(db, done + [r]);
            && a.data == (if r.kind.PageWrite? then b.data[r.kind.id := r.kind.image] else b.data)
            && a.root == (if r.kind.MetaUpdate? then r.kind.root else b.root)
            && a.next == if r.kind.PageWrite? then Max(b.next, r.kind.id + 1) else b.next
  {
    OneMore(done, r);
    var ws := PagesOf(done);
    if r.kind.PageWrite? {
      assert (ws + [(r.kind.id, r.kind.image)])[..|ws|] == ws;
    } else {
      assert ws + [] == ws;
    }
    if !r.kind.MetaUpdate? {
      assert MetasOf(done) + [] == MetasOf(done);
    }
  }
}
