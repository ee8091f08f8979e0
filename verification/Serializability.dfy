/** Interleaved transactions over one store: whatever the order of their steps, they equal a serial run in commit
    order. */
module Serializability {
  import opened Entries
  import opened Locks
  import opened LockSafety

  type Rows = map<Key, Bytes>

  /** A staged write. */
  datatype Write = Put(key: Key, record: Bytes) | Remove(key: Key)

  /** What a transaction has done so far: what it read, with the answer it got, and what it staged. */
  datatype Act = Read(key: Key, seen: Option<Bytes>) | Wrote(op: Write)

  datatype Request = Get(key: Key) | Stage(op: Write)

  datatype Status = Active | Pending(req: Request) | Committed | Aborted

  datatype TxState = TxState(status: Status, acts: seq<Act>)

  datatype Event = Begin(t: Txn) | Ask(t: Txn, req: Request) | Resume(t: Txn) | Commit(t: Txn) | Rollback(t: Txn)

  /** The locks, the committed store, the transactions, and the traces of the committed ones in commit order. */
  datatype Sys = Sys(locks: LockState, store: Rows, txns: map<Txn, TxState>, serial: seq<seq<Act>>)

  // ---- What writes mean ---------------------------------------------------------------------

  function Look(m: Rows, k: Key): Option<Bytes> {
    if k in m then Some(m[k]) else None
  }

  function ApplyOp(m: Rows, op: Write): Rows {
    match op
    case Put(k, r) => m[k := r]
    case Remove(k) => m - {k}
  }

  function ApplyOps(m: Rows, ops: seq<Write>): Rows
    decreases |ops|
  {
    if ops == [] then m else ApplyOp(ApplyOps(m, ops[..|ops| - 1]), ops[|ops| - 1])
  }

  function Writes(acts: seq<Act>): seq<Write>
    decreases |acts|
  {
    if acts == [] then []
    else
      var before := Writes(acts[..|acts| - 1]);
      match acts[|acts| - 1]
      case Read(_, _) => before
      case Wrote(op) => before + [op]
  }

  function KeyOf(req: Request): Key {
    match req
    case Get(k) => k
    case Stage(op) => op.key
  }

  function ModeOf(req: Request): Mode {
    if req.Get? then S else X
  }

  // ---- Serial runs ----------------------------------------------------------------------------

  /** Every read saw the store it started from, with its own earlier writes on top. */
  ghost predicate ReadsOk(m: Rows, acts: seq<Act>) {
    forall i :: 0 <= i < |acts| ==> ReadOk(m, acts, i)
  }

  ghost predicate ReadOk(m: Rows, acts: seq<Act>, i: nat)
    requires i < |acts|
  {
    acts[i].Read? ==> acts[i].seen == Look(ApplyOps(m, Writes(acts[..i])), acts[i].key)
  }

  function SerialStore(m: Rows, traces: seq<seq<Act>>): Rows
    decreases |traces|
  {
    if traces == [] then m else ApplyOps(SerialStore(m, traces[..|traces| - 1]), Writes(traces[|traces| - 1]))
  }

  /** Run one after the other, the transactions read exactly what they read. */
  ghost predicate SerialOk(m: Rows, traces: seq<seq<Act>>)
    decreases |traces|
  {
    traces != [] ==>
      var init := traces[..|traces| - 1];
      SerialOk(m, init) && ReadsOk(SerialStore(m, init), traces[|traces| - 1])
  }

  // ---- Steps ------------------------------------------------------------------------------------

  /** The act of a transaction that has the lock for its request. */
  function Answer(store: Rows, acts: seq<Act>, req: Request): Act {
    match req
    case Get(k) => Read(k, Look(ApplyOps(store, Writes(acts)), k))
    case Stage(op) => Wrote(op)
  }

  function Perform(s: Sys, t: Txn, req: Request): Sys
    requires t in s.txns
  {
    var acts := s.txns[t].acts;
    s.(txns := s.txns[t := TxState(Active, acts + [Answer(s.store, acts, req)])])
  }

  predicate Enabled(s: Sys, e: Event) {
    match e
    case Begin(t) => t !in s.txns
    case Ask(t, _) => t in s.txns && s.txns[t].status == Active
    case Resume(t) => t in s.txns && s.txns[t].status.Pending? && t !in s.locks.waitFor
    case Commit(t) => t in s.txns && s.txns[t].status == Active
    case Rollback(t) => t in s.txns && s.txns[t].status == Active
  }

  ghost function Asked(s: Sys, t: Txn, req: Request): Sys
    requires t in s.txns
  {
    var (locks, r) := Acquire(s.locks, t, KeyOf(req), ModeOf(req));
    var s' := s.(locks := locks);
    match r
    case Granted => Perform(s', t, req)
    case Waiting => s'.(txns := s.txns[t := s.txns[t].(status := Pending(req))])
    case Deadlock => s'
  }

  /** A commit without staged writes returns before it releases its locks. */
  function Ended(s: Sys, t: Txn): Sys
    requires t in s.txns
  {
    var acts := s.txns[t].acts;
    var txns := s.txns[t := TxState(Committed, acts)];
    if Writes(acts) == [] then s.(txns := txns, serial := s.serial + [acts])
    else Sys(Release(s.locks, t), ApplyOps(s.store, Writes(acts)), txns, s.serial + [acts])
  }

  ghost function Step(s: Sys, e: Event): Sys {
    if !Enabled(s, e) then s
    else
      match e
      case Begin(t) => s.(txns := s.txns[t := TxState(Active, [])])
      case Ask(t, req) => Asked(s, t, req)
      case Resume(t) => Perform(s, t, s.txns[t].status.req)
      case Commit(t) => Ended(s, t)
      case Rollback(t) => s.(locks := Release(s.locks, t), txns := s.txns[t := s.txns[t].(status := Aborted)])
  }

  ghost function Run(s: Sys, es: seq<Event>): Sys
    decreases |es|
  {
    if es == [] then s else Step(Run(s, es[..|es| - 1]), es[|es| - 1])
  }

  // ---- The invariant -------------------------------------------------------------------------------

  /** What an act needs to stay true: a lock on what was read, an exclusive one on what was written. */
  ghost predicate Covered(locks: LockState, t: Txn, a: Act) {
    match a
    case Read(k, _) => Holds(locks, t, k).Some?
    case Wrote(op) => Holds(locks, t, op.key) == Some(X)
  }

  ghost predicate AllCovered(locks: LockState, t: Txn, acts: seq<Act>) {
    forall a :: a in acts ==> Covered(locks, t, a)
  }

  /** A blocked transaction is in the queue for its request, or has been granted it. */
  ghost predicate Queued(locks: LockState, t: Txn, req: Request) {
    Waiter(ModeOf(req), t) in LockOf(locks, KeyOf(req)).waiters || Serves(Holds(locks, t, KeyOf(req)), ModeOf(req))
  }

  ghost predicate TxOk(locks: LockState, store: Rows, t: Txn, x: TxState) {
    match x.status
    case Active => AllCovered(locks, t, x.acts) && ReadsOk(store, x.acts) && t !in locks.waitFor
    case Pending(req) => AllCovered(locks, t, x.acts) && ReadsOk(store, x.acts) && Queued(locks, t, req)
    case _ => t !in locks.waitFor
  }

  ghost predicate SysInv(init: Rows, s: Sys) {
    && Inv(s.locks)
    && (forall t :: t in s.txns ==> TxOk(s.locks, s.store, t, s.txns[t]))
    && (forall t :: t in s.locks.waitFor ==> t in s.txns)
    && SerialOk(init, s.serial) && s.store == SerialStore(init, s.serial)
  }

  // ---- Reads survive -------------------------------------------------------------------------------

  function Touches(ops: seq<Write>): set<Key> {
    set op | op in ops :: op.key
  }

  /** What a key holds after some writes depends only on what it held before. */
  lemma {:induction false} SameLook(m: Rows, m': Rows, ops: seq<Write>, k: Key)
    requires Look(m, k) == Look(m', k)
    ensures Look(ApplyOps(m, ops), k) == Look(ApplyOps(m', ops), k)
    decreases |ops|
  {
    if ops != [] {
      SameLook(m, m', ops[..|ops| - 1], k);
    }
  }

  lemma {:induction false} Untouched(m: Rows, ops: seq<Write>, k: Key)
    requires k !in Touches(ops)
    ensures Look(ApplyOps(m, ops), k) == Look(m, k)
    decreases |ops|
  {
    if ops != [] {
      var init, op := ops[..|ops| - 1], ops[|ops| - 1];
      assert ops == init + [op];
      assert op in ops;
      Untouched(m, init, k);
    }
  }

  lemma {:induction false} WritesAre(acts: seq<Act>, op: Write)
    requires op in Writes(acts)
    ensures Wrote(op) in acts
    decreases |acts|
  {
    if acts != [] {
      var init := acts[..|acts| - 1];
      assert acts == init + [acts[|acts| - 1]];
      if op in Writes(init) {
        WritesAre(init, op);
      }
    }
  }

  /** An exclusive lock keeps everyone else out. */
  lemma {:induction false} NotTouched(locks: LockState, t: Txn, mine: seq<Act>, u: Txn, k: Key)
    requires Inv(locks) && t != u && AllCovered(locks, t, mine) && Holds(locks, u, k).Some?
    ensures k !in Touches(Writes(mine))
  {
    if op :| op in Writes(mine) && op.key == k {
      WritesAre(mine, op);
      assert false;
    }
  }

  /** A commit by t leaves every read of another running transaction true: t wrote nothing that the other holds. */
  lemma {:induction false} ReadsSurvive(locks: LockState, store: Rows, t: Txn, mine: seq<Act>, u: Txn, acts: seq<Act>)
    requires Inv(locks) && t != u && AllCovered(locks, t, mine) && AllCovered(locks, u, acts) && ReadsOk(store, acts)
    ensures ReadsOk(ApplyOps(store, Writes(mine)), acts)
  {
    var store' := ApplyOps(store, Writes(mine));
    forall i | 0 <= i < |acts| ensures ReadOk(store', acts, i) {
      assert ReadOk(store, acts, i);
      if acts[i].Read? {
        var k := acts[i].key;
        assert Covered(locks, u, acts[i]);
        NotTouched(locks, t, mine, u, k);
        Untouched(store, Writes(mine), k);
        SameLook(store, store', Writes(acts[..i]), k);
      }
    }
  }

  // ---- Every step keeps the invariant ------------------------------------------------------------------

  /** A transaction that did not act: its locks are no weaker, and it is no less queued. */
  lemma {:induction false} OtherAcquire(s: Sys, t: Txn, k: Key, m: Mode, u: Txn)
    requires u in s.txns && u != t && TxOk(s.locks, s.store, u, s.txns[u])
    ensures TxOk(Acquire(s.locks, t, k, m).0, s.store, u, s.txns[u])
  {
    var locks' := Acquire(s.locks, t, k, m).0;
    AcquireOthers(s.locks, t, k, m, u, k);
    forall a | a in s.txns[u].acts && s.txns[u].status != Committed && s.txns[u].status != Aborted
      ensures Covered(locks', u, a) {
      assert Covered(s.locks, u, a);
      AcquireOthers(s.locks, t, k, m, u, if a.Read? then a.key else a.op.key);
    }
    if s.txns[u].status.Pending? {
      var req := s.txns[u].status.req;
      AcquireOthers(s.locks, t, k, m, u, KeyOf(req));
      if Waiter(ModeOf(req), u) in LockOf(s.locks, KeyOf(req)).waiters {
        AcquireQueues(s.locks, t, k, m, KeyOf(req), Waiter(ModeOf(req), u));
      }
    }
  }

  lemma {:induction false} OwnAcquire(s: Sys, t: Txn, k: Key, m: Mode, acts: seq<Act>)
    requires AllCovered(s.locks, t, acts)
    ensures AllCovered(Acquire(s.locks, t, k, m).0, t, acts)
  {
    forall a | a in acts ensures Covered(Acquire(s.locks, t, k, m).0, t, a) {
      assert Covered(s.locks, t, a);
      AcquireOwn(s.locks, t, k, m, if a.Read? then a.key else a.op.key);
    }
  }

  /** With the lock in hand, the act it performs is covered, and a read sees the store with its own writes. */
  lemma {:induction false} PerformOk(locks: LockState, store: Rows, t: Txn, acts: seq<Act>, req: Request)
    requires AllCovered(locks, t, acts) && ReadsOk(store, acts) && t !in locks.waitFor
    requires Serves(Holds(locks, t, KeyOf(req)), ModeOf(req))
    ensures TxOk(locks, store, t, TxState(Active, acts + [Answer(store, acts, req)]))
  {
    var more := acts + [Answer(store, acts, req)];
    forall i | 0 <= i < |more| ensures ReadOk(store, more, i) {
      if i < |acts| {
        assert ReadOk(store, acts, i);
        assert more[..i] == acts[..i];
      } else {
        assert more[..i] == acts;
      }
    }
    forall a | a in more ensures Covered(locks, t, a) {
    }
  }

  lemma {:induction false} AskOk(init: Rows, s: Sys, t: Txn, req: Request)
    requires SysInv(init, s) && Enabled(s, Ask(t, req))
    ensures SysInv(init, Asked(s, t, req))
  {
    var k, m := KeyOf(req), ModeOf(req);
    assert TxOk(s.locks, s.store, t, s.txns[t]);
    var (locks', r) := Acquire(s.locks, t, k, m);
    AcquireInv(s.locks, t, k, m);
    AcquireOutcome(s.locks, t, k, m);
    OwnAcquire(s, t, k, m, s.txns[t].acts);
    if r == Granted {
      PerformOk(locks', s.store, t, s.txns[t].acts, req);
    }
    var s' := Asked(s, t, req);
    forall u | u in s'.txns ensures TxOk(s'.locks, s'.store, u, s'.txns[u]) {
      if u != t {
        OtherAcquire(s, t, k, m, u);
      }
    }
    forall u | u in s'.locks.waitFor ensures u in s'.txns {
      if u != t {
        AcquireOthers(s.locks, t, k, m, u, k);
      }
    }
  }

  lemma {:induction false} ReleaseCovers(locks: LockState, t: Txn, u: Txn, acts: seq<Act>)
    requires Inv(locks) && t !in locks.waitFor && u != t && AllCovered(locks, u, acts)
    ensures AllCovered(Release(locks, t), u, acts)
  {
    forall a | a in acts ensures Covered(Release(locks, t), u, a) {
      assert Covered(locks, u, a);
      ReleaseOthers(locks, t, u, if a.Read? then a.key else a.op.key);
    }
  }

  lemma {:induction false} ReleaseQueued(locks: LockState, t: Txn, u: Txn, req: Request)
    requires Inv(locks) && t !in locks.waitFor && u != t && Queued(locks, u, req)
    ensures Queued(Release(locks, t), u, req)
  {
    var k, m := KeyOf(req), ModeOf(req);
    ReleaseOthers(locks, t, u, k);
    NoWeaker(Holds(locks, u, k), Holds(Release(locks, t), u, k), m);
    if Waiter(m, u) in LockOf(locks, k).waiters {
      assert Waiter(m, u) in LockOf(Release(locks, t), k).waiters || Holds(Release(locks, t), u, k) == Some(m);
    }
  }

  lemma NoWeaker(h: Option<Mode>, h': Option<Mode>, m: Mode)
    requires (h == Some(X) ==> h' == Some(X)) && (h.Some? ==> h'.Some?)
    ensures Serves(h, m) ==> Serves(h', m)
    ensures h' == Some(m) ==> Serves(h', m)
  {
    if h'.Some? {
      match h'.value
      case S =>
      case X =>
    }
  }

  /** A release by another transaction, and whatever it did to the store, leave this one in order. */
  lemma {:induction false} OtherRelease(s: Sys, t: Txn, u: Txn, store': Rows)
    requires Inv(s.locks) && t !in s.locks.waitFor && u in s.txns && u != t && TxOk(s.locks, s.store, u, s.txns[u])
    requires s.txns[u].status == Active || s.txns[u].status.Pending? ==> ReadsOk(store', s.txns[u].acts)
    ensures TxOk(Release(s.locks, t), store', u, s.txns[u])
  {
    match s.txns[u].status
    case Active => ReleaseCovers(s.locks, t, u, s.txns[u].acts);
    case Pending(req) =>
      ReleaseCovers(s.locks, t, u, s.txns[u].acts);
      ReleaseQueued(s.locks, t, u, req);
    case _ =>
  }

  lemma {:induction false} SerialSnoc(init: Rows, traces: seq<seq<Act>>, acts: seq<Act>)
    requires SerialOk(init, traces) && ReadsOk(SerialStore(init, traces), acts)
    ensures SerialOk(init, traces + [acts])
    ensures SerialStore(init, traces + [acts]) == ApplyOps(SerialStore(init, traces), Writes(acts))
  {
    assert (traces + [acts])[..|traces|] == traces;
  }

  lemma {:induction false} CommitOk(init: Rows, s: Sys, t: Txn)
    requires SysInv(init, s) && Enabled(s, Commit(t))
    ensures SysInv(init, Ended(s, t))
  {
    var acts, s' := s.txns[t].acts, Ended(s, t);
    assert TxOk(s.locks, s.store, t, s.txns[t]);
    SerialSnoc(init, s.serial, acts);
    if Writes(acts) != [] {
      ReleaseInv(s.locks, t);
      forall u | u in s'.txns ensures TxOk(s'.locks, s'.store, u, s'.txns[u]) {
        if u != t {
          assert TxOk(s.locks, s.store, u, s.txns[u]);
          CommitOther(s, t, u);
        }
      }
    }
  }

  lemma {:induction false} CommitOther(s: Sys, t: Txn, u: Txn)
    requires Inv(s.locks) && t in s.txns && u in s.txns && u != t && t !in s.locks.waitFor
    requires AllCovered(s.locks, t, s.txns[t].acts) && TxOk(s.locks, s.store, u, s.txns[u])
    ensures TxOk(Release(s.locks, t), ApplyOps(s.store, Writes(s.txns[t].acts)), u, s.txns[u])
  {
    if s.txns[u].status == Active || s.txns[u].status.Pending? {
      ReadsSurvive(s.locks, s.store, t, s.txns[t].acts, u, s.txns[u].acts);
    }
    OtherRelease(s, t, u, ApplyOps(s.store, Writes(s.txns[t].acts)));
  }

  lemma {:induction false} RollbackOk(init: Rows, s: Sys, t: Txn)
    requires SysInv(init, s) && Enabled(s, Rollback(t))
    ensures SysInv(init, Step(s, Rollback(t)))
  {
    var s' := Step(s, Rollback(t));
    assert TxOk(s.locks, s.store, t, s.txns[t]);
    ReleaseInv(s.locks, t);
    forall u | u in s'.txns ensures TxOk(s'.locks, s'.store, u, s'.txns[u]) {
      if u != t {
        OtherRelease(s, t, u, s.store);
      }
    }
  }

  lemma {:induction false} ResumeOk(init: Rows, s: Sys, t: Txn)
    requires SysInv(init, s) && Enabled(s, Resume(t))
    ensures SysInv(init, Step(s, Resume(t)))
  {
    var x := s.txns[t];
    assert TxOk(s.locks, s.store, t, x);
    var req := x.status.req;
    NotQueued(s.locks, t, KeyOf(req));
    assert Waiter(ModeOf(req), t).txn == t;
    PerformOk(s.locks, s.store, t, x.acts, req);
  }

  /** Every step of every transaction keeps the invariant. */
  lemma {:induction false} StepOk(init: Rows, s: Sys, e: Event)
    requires SysInv(init, s)
    ensures SysInv(init, Step(s, e))
  {
    if Enabled(s, e) {
      match e
      case Begin(t) =>
      case Ask(t, req) => AskOk(init, s, t, req);
      case Resume(t) => ResumeOk(init, s, t);
      case Commit(t) => CommitOk(init, s, t);
      case Rollback(t) => RollbackOk(init, s, t);
    }
  }

  function Start(init: Rows): Sys {
    Sys(Initial(), init, map[], [])
  }

  lemma {:induction false} RunOk(init: Rows, es: seq<Event>)
    ensures SysInv(init, Run(Start(init), es))
    decreases |es|
  {
    if es == [] {
      InitialInv();
    } else {
      RunOk(init, es[..|es| - 1]);
      StepOk(init, Run(Start(init), es[..|es| - 1]), es[|es| - 1]);
    }
  }

  /** In every interleaving, what committed transactions read, and the final store, are those of a serial run in commit
      order. */
  lemma {:induction false} Serializable(init: Rows, es: seq<Event>)
    ensures var s := Run(Start(init), es);
            SerialOk(init, s.serial) && s.store == SerialStore(init, s.serial)
  {
    RunOk(init, es);
  }

  /** In every interleaving the lock table is in order, and the wait-for graph has no cycle. */
  lemma {:induction false} LocksInOrder(init: Rows, es: seq<Event>)
    ensures Inv(Run(Start(init), es).locks)
  {
    RunOk(init, es);
  }

  // ---- What steps do, in terms of the acts ---------------------------------------------------------

  /** Act i stages a write to a key. */
  ghost predicate WritesTo(acts: seq<Act>, i: nat, k: Key) {
    i < |acts| && acts[i].Wrote? && acts[i].op.key == k
  }

  ghost predicate WritesLast(acts: seq<Act>, i: nat, k: Key) {
    WritesTo(acts, i, k) && forall j: nat :: i < j ==> !WritesTo(acts, j, k)
  }

  function Left(op: Write): Option<Bytes> {
    if op.Put? then Some(op.record) else None
  }

  /** What a key shows over a store after some acts: the record of the last write to it, nothing if that removed it, and
      without a write what the store has. */
  ghost predicate Shows(m: Rows, acts: seq<Act>, k: Key, v: Option<Bytes>) {
    if exists i: nat :: WritesTo(acts, i, k) then exists i: nat :: WritesLast(acts, i, k) && v == Left(acts[i].op)
    else v == if k in m then Some(m[k]) else None
  }

  lemma {:induction false} LookShows(m: Rows, acts: seq<Act>, k: Key)
    ensures Shows(m, acts, k, Look(ApplyOps(m, Writes(acts)), k))
    decreases |acts|
  {
    if acts != [] {
      var n := |acts| - 1;
      LookShows(m, acts[..n], k);
      LookSnoc(m, acts, k);
      if WritesTo(acts, n, k) {
        assert WritesLast(acts, n, k);
      } else {
        ShowsMore(m, acts[..n], acts, k, Look(ApplyOps(m, Writes(acts[..n])), k));
      }
    }
  }

  lemma LookSnoc(m: Rows, acts: seq<Act>, k: Key)
    requires acts != []
    ensures var n := |acts| - 1;
            Look(ApplyOps(m, Writes(acts)), k) ==
            if WritesTo(acts, n, k) then Left(acts[n].op) else Look(ApplyOps(m, Writes(acts[..n])), k)
  {
    var n := |acts| - 1;
    var before := Writes(acts[..n]);
    if acts[n].Wrote? {
      assert (before + [acts[n].op])[..|before|] == before;
    }
  }

  lemma {:induction false} ShowsMore(m: Rows, init: seq<Act>, acts: seq<Act>, k: Key, v: Option<Bytes>)
    requires acts != [] && init == acts[..|acts| - 1] && Shows(m, init, k, v) && !WritesTo(acts, |init|, k)
    ensures Shows(m, acts, k, v)
  {
    forall i: nat ensures WritesTo(acts, i, k) <==> WritesTo(init, i, k) {
    }
    forall i: nat ensures WritesLast(init, i, k) ==> WritesLast(acts, i, k) {
    }
  }

  /** A commit makes every staged write visible at once, and nothing else; its acts come last in the serial order. */
  lemma {:induction false} CommitShows(s: Sys, t: Txn, k: Key)
    requires t in s.txns && s.txns[t].status == Active
    ensures var s' := Step(s, Commit(t));
            && Shows(s.store, s.txns[t].acts, k, if k in s'.store then Some(s'.store[k]) else None)
            && s'.serial == s.serial + [s.txns[t].acts] && s'.txns == s.txns[t := TxState(Committed, s.txns[t].acts)]
  {
    LookShows(s.store, s.txns[t].acts, k);
  }

  /** A rollback changes no row, and leaves the transaction out of the serial order. */
  lemma RollbackHides(s: Sys, t: Txn)
    requires Inv(s.locks) && t !in s.locks.waitFor && t in s.txns && s.txns[t].status == Active
    ensures var s' := Step(s, Rollback(t));
            && s'.store == s.store && s'.serial == s.serial
            && s'.txns == s.txns[t := TxState(Aborted, s.txns[t].acts)]
            && forall k :: Holds(s'.locks, t, k) == None
  {
    ReleaseLeavesNothing(s.locks, t);
  }

  /** A request that is granted is answered at once: a read with what the key shows after the transaction's own acts, a
      write by staging it. One that waits is answered the same way when it is resumed; one that is refused leaves the
      transaction as it was. No row changes by it. */
  lemma {:induction false} AskAnswers(s: Sys, t: Txn, req: Request)
    requires t in s.txns && s.txns[t].status == Active
    ensures var s', r := Step(s, Ask(t, req)), Acquire(s.locks, t, KeyOf(req), ModeOf(req)).1;
            && s'.store == s.store && s'.serial == s.serial
            && s'.locks == Acquire(s.locks, t, KeyOf(req), ModeOf(req)).0
            && s'.txns == s.txns[t := s'.txns[t]]
            && match r
               case Granted => Answered(s, t, req, s'.txns[t])
               case Waiting => s'.txns[t] == TxState(Pending(req), s.txns[t].acts)
               case Deadlock => s'.txns[t] == s.txns[t]
  {
    AnswerIs(s, t, req);
  }

  lemma {:induction false} ResumeAnswers(s: Sys, t: Txn)
    requires t in s.txns && s.txns[t].status.Pending? && t !in s.locks.waitFor
    ensures var s' := Step(s, Resume(t));
            && s' == s.(txns := s.txns[t := s'.txns[t]])
            && Answered(s, t, s.txns[t].status.req, s'.txns[t])
  {
    AnswerIs(s, t, s.txns[t].status.req);
  }

  /** The transaction with one more act. */
  ghost predicate Answered(s: Sys, t: Txn, req: Request, x: TxState)
    requires t in s.txns
  {
    var acts := s.txns[t].acts;
    && x.status == Active && |x.acts| == |acts| + 1 && x.acts[..|acts|] == acts
    && match req
       case Get(k) => x.acts[|acts|].Read? && x.acts[|acts|].key == k && Shows(s.store, acts, k, x.acts[|acts|].seen)
       case Stage(op) => x.acts[|acts|] == Wrote(op)
  }

  lemma {:induction false} AnswerIs(s: Sys, t: Txn, req: Request)
    requires t in s.txns
    ensures Answered(s, t, req, TxState(Active, s.txns[t].acts + [Answer(s.store, s.txns[t].acts, req)]))
  {
    if req.Get? {
      LookShows(s.store, s.txns[t].acts, req.key);
    }
  }

  /** Everything else is ignored: a transaction begins once, asks and ends only while it is active, and is resumed only
      when it no longer waits. */
  lemma OtherSteps(s: Sys, t: Txn, req: Request)
    ensures Step(s, Begin(t)) == if t in s.txns then s else s.(txns := s.txns[t := TxState(Active, [])])
    ensures !(t in s.txns && s.txns[t].status == Active) ==>
              Step(s, Ask(t, req)) == s && Step(s, Commit(t)) == s && Step(s, Rollback(t)) == s
    ensures !(t in s.txns && s.txns[t].status.Pending? && t !in s.locks.waitFor) ==> Step(s, Resume(t)) == s
  {
  }

  /** A run goes step by step. */
  lemma RunSnoc(s: Sys, es: seq<Event>, e: Event)
    ensures Run(s, []) == s && Run(s, es + [e]) == Step(Run(s, es), e)
  {
    assert (es + [e])[..|es|] == es;
  }

  /** One transaction that writes a row and commits. */
  lemma {:induction false} OneWriter(init: Rows, t: Txn, k: Key, record: Bytes)
    ensures var s := Run(Start(init), [Begin(t), Ask(t, Stage(Put(k, record))), Commit(t)]);
            && s.store == init[k := record] && s.serial == [[Wrote(Put(k, record))]]
            && s.txns == map[t := TxState(Committed, [Wrote(Put(k, record))])]
            && forall q :: Holds(s.locks, t, q) == None
  {
    var req := Stage(Put(k, record));
    var a := Start(init).(txns := map[t := TxState(Active, [])]);
    var b := Step(a, Ask(t, req));
    ThreeSteps(Start(init), Begin(t), Ask(t, req), Commit(t));
    assert Step(Start(init), Begin(t)) == a;
    OneAsk(a, t, k, record);
    OneWrite(init, [Wrote(Put(k, record))], Put(k, record));
    OneCommit(b, t, [Wrote(Put(k, record))]);
    ReleaseLeavesNothing(b.locks, t);
    assert [] + [[Wrote(Put(k, record))]] == [[Wrote(Put(k, record))]];
  }

  lemma {:induction false} OneCommit(s: Sys, t: Txn, acts: seq<Act>)
    requires s.txns == map[t := TxState(Active, acts)] && Writes(acts) != []
    ensures Step(s, Commit(t)) == Sys(Release(s.locks, t), ApplyOps(s.store, Writes(acts)),
                                      map[t := TxState(Committed, acts)], s.serial + [acts])
  {
    assert s.txns[t := TxState(Committed, acts)] == map[t := TxState(Committed, acts)];
  }

  lemma ThreeSteps(s: Sys, x: Event, y: Event, z: Event)
    ensures Run(s, [x, y, z]) == Step(Step(Step(s, x), y), z)
  {
    assert [x, y, z] == [] + [x] + [y] + [z];
    RunSnoc(s, [], x);
    RunSnoc(s, [] + [x], y);
    RunSnoc(s, [] + [x] + [y], z);
  }

  lemma {:induction false} OneAsk(a: Sys, t: Txn, k: Key, record: Bytes)
    requires a.locks == Initial() && a.txns == map[t := TxState(Active, [])]
    ensures var b := Step(a, Ask(t, Stage(Put(k, record))));
            && b == a.(locks := b.locks, txns := map[t := TxState(Active, [Wrote(Put(k, record))])])
            && Inv(b.locks) && t !in b.locks.waitFor
  {
    InitialInv();
    AcquireIff(a.locks, t, k, X);
    AcquireInv(a.locks, t, k, X);
    AcquireOutcome(a.locks, t, k, X);
    assert [] + [Wrote(Put(k, record))] == [Wrote(Put(k, record))];
  }

  lemma {:induction false} OneWrite(m: Rows, acts: seq<Act>, op: Write)
    requires acts == [Wrote(op)]
    ensures Writes(acts) == [op] && ApplyOps(m, Writes(acts)) == ApplyOp(m, op)
  {
    var none: seq<Act>, ops := [], [op];
    assert acts[..|acts| - 1] == none && acts[|acts| - 1] == Wrote(op);
    assert Writes(acts) == Writes(none) + [op] == ops;
    assert ops[..|ops| - 1] == [] && ApplyOps(m, ops) == ApplyOp(ApplyOps(m, []), op);
  }

  /** A commit leaves the transaction without locks if and only if it staged a write, or had none to begin with. */
  lemma {:induction false} CommitReleases(init: Rows, s: Sys, t: Txn)
    requires SysInv(init, s) && Enabled(s, Commit(t))
    ensures (forall k :: Holds(Step(s, Commit(t)).locks, t, k) == None) <==>
            (Writes(s.txns[t].acts) != [] || forall k :: Holds(s.locks, t, k) == None)
  {
    assert TxOk(s.locks, s.store, t, s.txns[t]);
    var s' := Step(s, Commit(t));
    assert s' == Ended(s, t);
    if Writes(s.txns[t].acts) != [] {
      ReleaseLeavesNothing(s.locks, t);
      assert s'.locks == Release(s.locks, t);
    } else {
      assert s'.locks == s.locks;
    }
  }
}
