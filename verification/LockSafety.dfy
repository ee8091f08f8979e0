/** What holds in every reachable state of the lock table, and what each request and release keeps. */
module LockSafety {
  import opened Entries
  import opened Locks

  /** An exclusive holder is alone. */
  ghost predicate Exclusive(holders: map<Txn, Mode>) {
    forall a, b :: a in holders && b in holders && a != b ==> holders[a] == S
  }

  /** Each transaction waits once, and only for more than it holds. */
  ghost predicate Queue(l: Lock) {
    && (forall i, j :: 0 <= i < j < |l.waiters| ==> l.waiters[i].txn != l.waiters[j].txn)
    && (forall w :: w in l.waiters && w.txn in l.holders ==> l.holders[w.txn] == S && w.mode == X)
  }

  ghost predicate HeadBlocked(l: Lock) {
    l.waiters != [] ==> !CanGrant(l.holders, l.waiters[0])
  }

  ghost predicate LockOk(l: Lock) {
    Exclusive(l.holders) && Queue(l) && HeadBlocked(l) && l.holders != map[]
  }

  predicate WaitsOn(st: LockState, t: Txn, k: Key) {
    k in st.table && t in Txns(st.table[k].waiters)
  }

  predicate HoldsOrWaits(st: LockState, t: Txn, k: Key) {
    k in st.table && (t in st.table[k].holders || t in Txns(st.table[k].waiters))
  }

  /** The invariant of the lock manager, as long as no wait times out and no blocked transaction releases. */
  ghost predicate Inv(st: LockState) {
    && (forall k :: k in st.table ==> LockOk(st.table[k]))
    && (forall t, k :: HoldsOrWaits(st, t, k) ==> k in KeysOf(st, t))
    && (forall t, k, q :: WaitsOn(st, t, k) && WaitsOn(st, t, q) ==> k == q)
    && (forall t :: t in st.waitFor <==> exists k :: WaitsOn(st, t, k))
    && Acyclic(st.waitFor)
  }

  function Initial(): LockState {
    LockState(map[], map[], map[])
  }

  lemma InitialInv()
    ensures Inv(Initial())
  {
    forall t ensures !Reaches(map[], t, t) {
      Closed(map[], t, {});
    }
  }

  // ---- Hand-over -------------------------------------------------------------------------

  /** What a hand-over does to the holders and the queue. */
  ghost predicate HandedOver(l: Lock, r: Lock) {
    && Exclusive(r.holders) && Queue(r) && HeadBlocked(r)
    && (r.holders == map[] ==> r.waiters == [])
    && (forall o :: o in l.holders ==>
        o in r.holders
        && (r.holders[o] == l.holders[o] || (l.holders[o] == S && r.holders[o] == X)))
    && (forall o :: o in l.holders && o !in Txns(l.waiters) ==> r.holders[o] == l.holders[o])
    && (forall o :: o in r.holders ==> o in l.holders || o in Txns(l.waiters))
    && (forall w :: w in l.waiters ==> w in r.waiters || (w.txn in r.holders && r.holders[w.txn] == w.mode))
    && (forall w :: w in r.waiters ==> w in l.waiters)
  }

  lemma {:induction false} AdvanceOk(l: Lock)
    requires Exclusive(l.holders) && Queue(l)
    ensures HandedOver(l, Advance(l))
    decreases |l.waiters|
  {
    if l.waiters != [] && CanGrant(l.holders, l.waiters[0]) {
      var w, rest := l.waiters[0], l.waiters[1..];
      var next := Lock(l.holders[w.txn := w.mode], rest);
      assert l.waiters == [w] + rest;
      QueueTail(l);
      AdvanceOk(next);
      GrantedStays(l, Advance(next));
    }
  }

  lemma QueueTail(l: Lock)
    requires Exclusive(l.holders) && Queue(l) && l.waiters != [] && CanGrant(l.holders, l.waiters[0])
    ensures var w := l.waiters[0];
            var next := Lock(l.holders[w.txn := w.mode], l.waiters[1..]);
            Exclusive(next.holders) && Queue(next)
  {
    var w, rest := l.waiters[0], l.waiters[1..];
    forall v | v in rest ensures v in l.waiters && v.txn != w.txn {
      var i :| 0 <= i < |rest| && rest[i] == v;
      assert l.waiters[i + 1] == v;
    }
  }

  /** The granted head is not in the rest of the queue, so the rest of the hand-over leaves its hold alone. */
  lemma HeadGranted(l: Lock, r: Lock)
    requires Queue(l) && l.waiters != []
    requires var w := l.waiters[0]; HandedOver(Lock(l.holders[w.txn := w.mode], l.waiters[1..]), r)
    ensures var w := l.waiters[0]; w.txn in r.holders && r.holders[w.txn] == w.mode
  {
    var w, rest := l.waiters[0], l.waiters[1..];
    var next := Lock(l.holders[w.txn := w.mode], rest);
    assert w.txn in next.holders;
    assert w.txn !in Txns(rest) by {
      forall v | v in rest ensures v.txn != w.txn {
        var i :| 0 <= i < |rest| && rest[i] == v;
        assert l.waiters[i + 1] == v;
      }
    }
  }

  lemma GrantedStays(l: Lock, r: Lock)
    requires Queue(l) && l.waiters != []
    requires var w := l.waiters[0]; HandedOver(Lock(l.holders[w.txn := w.mode], l.waiters[1..]), r)
    ensures HandedOver(l, r)
  {
    var w, rest := l.waiters[0], l.waiters[1..];
    assert l.waiters == [w] + rest;
    assert w in l.waiters;
    HeadGranted(l, r);
    forall v | v in l.waiters ensures v in r.waiters || (v.txn in r.holders && r.holders[v.txn] == v.mode) {
      if v != w { assert v in rest; }
    }
  }

  // ---- Requests ---------------------------------------------------------------------------

  /** One more holder, or a stronger hold, makes no request grantable. */
  lemma MoreHolders(h: map<Txn, Mode>, t: Txn, m: Mode, w: Waiter)
    requires w.txn != t && (t in h ==> h[t] == S)
    ensures CanGrant(h[t := m], w) ==> CanGrant(h, w)
  {
    var h' := h[t := m];
    if CanGrant(h', w) {
      forall o | o in h && o != w.txn ensures w.mode == S && h[o] == S {
        assert o in h';
      }
    }
  }

  /** Granting a compatible request keeps the lock in order; whoever waits first still has to. */
  lemma GrantOk(l: Lock, t: Txn, m: Mode)
    requires Exclusive(l.holders) && Queue(l) && HeadBlocked(l) && t !in Txns(l.waiters)
    requires CanGrant(l.holders, Waiter(m, t)) && !Serves(if t in l.holders then Some(l.holders[t]) else None, m)
    ensures LockOk(Lock(l.holders[t := m], l.waiters))
  {
    if l.waiters != [] {
      assert l.waiters[0] in l.waiters;
      MoreHolders(l.holders, t, m, l.waiters[0]);
    }
    assert l.holders[t := m][t] == m;
  }

  lemma EnqueueOk(l: Lock, t: Txn, m: Mode)
    requires Exclusive(l.holders) && Queue(l) && HeadBlocked(l) && t !in Txns(l.waiters)
    requires !CanGrant(l.holders, Waiter(m, t)) && !Serves(if t in l.holders then Some(l.holders[t]) else None, m)
    ensures LockOk(Lock(l.holders, l.waiters + [Waiter(m, t)]))
  {
    var ws := l.waiters + [Waiter(m, t)];
    forall i, j | 0 <= i < j < |ws| ensures ws[i].txn != ws[j].txn {
      assert l.waiters[i] in l.waiters;
    }
    assert ws[0] == if l.waiters == [] then Waiter(m, t) else l.waiters[0];
  }

  lemma NotQueued(st: LockState, t: Txn, k: Key)
    requires Inv(st) && t !in st.waitFor
    ensures t !in Txns(LockOf(st, k).waiters)
    ensures Exclusive(LockOf(st, k).holders) && Queue(LockOf(st, k)) && HeadBlocked(LockOf(st, k))
  {
    if k in st.table && t in Txns(st.table[k].waiters) {
      assert WaitsOn(st, t, k);
    }
  }

  /** One lock has changed; who holds and waits elsewhere has not. */
  ghost predicate Replaced(st: LockState, st': LockState, t: Txn, k: Key) {
    && k in st'.table && st'.table.Keys == st.table.Keys + {k}
    && (forall q :: q in st.table && q != k ==> st'.table[q] == st.table[q])
    && st'.txnKeys == st.txnKeys[t := KeysOf(st, t) + {k}]
    && (forall o :: o in st'.table[k].holders ==> o == t || o in LockOf(st, k).holders)
  }

  /** The keys and queues after a request that did not have to wait. */
  lemma SameWaits(st: LockState, st': LockState, t: Txn, k: Key)
    requires Inv(st) && Replaced(st, st', t, k) && st'.table[k].waiters == LockOf(st, k).waiters
    ensures forall u, q :: WaitsOn(st', u, q) <==> WaitsOn(st, u, q)
    ensures forall u, q :: HoldsOrWaits(st', u, q) ==> q in KeysOf(st', u)
  {
    forall u, q | HoldsOrWaits(st', u, q) ensures q in KeysOf(st', u) {
      if !(u == t && q == k) { assert HoldsOrWaits(st, u, q); }
    }
  }

  lemma AcquireGranted(st: LockState, st': LockState, t: Txn, k: Key)
    requires Inv(st) && Replaced(st, st', t, k) && st'.table[k].waiters == LockOf(st, k).waiters && LockOk(st'.table[k])
    requires st'.waitFor == st.waitFor
    ensures Inv(st')
  {
    SameWaits(st, st', t, k);
    forall u ensures u in st'.waitFor <==> exists q :: WaitsOn(st', u, q) {
      if u in st.waitFor {
        var q :| WaitsOn(st, u, q);
        assert WaitsOn(st', u, q);
      }
      if q :| WaitsOn(st', u, q) {
        assert WaitsOn(st, u, q);
      }
    }
  }

  lemma QueuedWaits(st: LockState, st': LockState, t: Txn, k: Key, m: Mode)
    requires Replaced(st, st', t, k) && k in st.table
    requires st'.table[k] == Lock(st.table[k].holders, st.table[k].waiters + [Waiter(m, t)])
    ensures forall u, q :: WaitsOn(st', u, q) <==> WaitsOn(st, u, q) || (u == t && q == k)
    ensures forall u, q :: HoldsOrWaits(st', u, q) ==> HoldsOrWaits(st, u, q) || (u == t && q == k)
  {
    assert Waiter(m, t) in st'.table[k].waiters;
  }

  lemma QueuedGraph(st: LockState, st': LockState, t: Txn, k: Key)
    requires forall u :: u in st.waitFor <==> exists q :: WaitsOn(st, u, q)
    requires forall u, q :: WaitsOn(st', u, q) <==> WaitsOn(st, u, q) || (u == t && q == k)
    requires st'.waitFor.Keys == st.waitFor.Keys + {t}
    ensures forall u :: u in st'.waitFor <==> exists q :: WaitsOn(st', u, q)
  {
    forall u ensures u in st'.waitFor <==> exists q :: WaitsOn(st', u, q) {
      if u == t {
        assert WaitsOn(st', t, k);
      } else if u in st.waitFor {
        var q :| WaitsOn(st, u, q);
        assert WaitsOn(st', u, q);
      } else if q :| WaitsOn(st', u, q) {
        assert false;
      }
    }
  }

  lemma AcquireQueued(st: LockState, st': LockState, t: Txn, k: Key, m: Mode, out: set<Txn>)
    requires Inv(st) && Replaced(st, st', t, k) && t !in st.waitFor && k in st.table
    requires st'.table[k] == Lock(st.table[k].holders, st.table[k].waiters + [Waiter(m, t)]) && LockOk(st'.table[k])
    requires st'.waitFor == st.waitFor[t := out] && !Reaches(st'.waitFor, t, t)
    ensures Inv(st')
  {
    QueuedWaits(st, st', t, k, m);
    NewEdges(st.waitFor, t, out);
    QueuedGraph(st, st', t, k);
    QueuedKeys(st, st', t, k);
  }

  lemma QueuedKeys(st: LockState, st': LockState, t: Txn, k: Key)
    requires forall u, q :: HoldsOrWaits(st, u, q) ==> q in KeysOf(st, u)
    requires forall u, q :: HoldsOrWaits(st', u, q) ==> HoldsOrWaits(st, u, q) || (u == t && q == k)
    requires st'.txnKeys == st.txnKeys[t := KeysOf(st, t) + {k}]
    ensures forall u, q :: HoldsOrWaits(st', u, q) ==> q in KeysOf(st', u)
  {
    forall u, q | HoldsOrWaits(st', u, q) ensures q in KeysOf(st', u) {
      if !(u == t && q == k) { assert HoldsOrWaits(st, u, q); }
    }
  }

  /** A request that need not wait. */
  lemma AcquireNow(st: LockState, t: Txn, k: Key, m: Mode)
    requires Inv(st) && t !in st.waitFor && (Serves(Holds(st, t, k), m)
             || CanGrant(LockOf(st, k).holders, Waiter(m, t)))
    ensures Inv(Acquire(st, t, k, m).0) && Acquire(st, t, k, m).1 == Granted
  {
    var st' := Acquire(st, t, k, m).0;
    NotQueued(st, t, k);
    if !Serves(Holds(st, t, k), m) {
      GrantOk(LockOf(st, k), t, m);
    }
    AcquireGranted(st, st', t, k);
  }

  /** A request that is queued, or refused because it would close a cycle. */
  lemma AcquireLater(st: LockState, t: Txn, k: Key, m: Mode)
    requires Inv(st) && t !in st.waitFor && !Serves(Holds(st, t, k), m)
             && !CanGrant(LockOf(st, k).holders, Waiter(m, t))
    ensures Inv(Acquire(st, t, k, m).0)
  {
    var l := LockOf(st, k);
    var st' := Acquire(st, t, k, m).0;
    NotQueued(st, t, k);
    assert k in st.table;
    var out := l.holders.Keys - {t};
    if Reaches(st.waitFor[t := out], t, t) {
      assert st.waitFor - {t} == st.waitFor;
      AcquireGranted(st, st', t, k);
    } else {
      EnqueueOk(l, t, m);
      AcquireQueued(st, st', t, k, m, out);
    }
  }

  /** A request by a transaction that is not waiting keeps the invariant, whether it is granted, queued or refused. */
  lemma AcquireInv(st: LockState, t: Txn, k: Key, m: Mode)
    requires Inv(st) && t !in st.waitFor
    ensures Inv(Acquire(st, t, k, m).0)
  {
    if Serves(Holds(st, t, k), m) || CanGrant(LockOf(st, k).holders, Waiter(m, t)) {
      AcquireNow(st, t, k, m);
    } else {
      AcquireLater(st, t, k, m);
    }
  }

  /** A granted request leaves a hold that serves it; exactly a queued one leaves the transaction waiting. */
  lemma AcquireOutcome(st: LockState, t: Txn, k: Key, m: Mode)
    requires t !in st.waitFor
    ensures var (st', r) := Acquire(st, t, k, m);
            && (r == Waiting <==> t in st'.waitFor)
            && (r == Granted <==> Serves(Holds(st', t, k), m))
            && (r == Waiting ==> k in st'.table && Waiter(m, t) in st'.table[k].waiters)
  {
  }

  /** Nobody else's hold changes with a request, and nobody else starts or stops waiting. */
  lemma AcquireOthers(st: LockState, t: Txn, k: Key, m: Mode, u: Txn, q: Key)
    requires u != t
    ensures var st' := Acquire(st, t, k, m).0;
            Holds(st', u, q) == Holds(st, u, q) && (u in st'.waitFor <==> u in st.waitFor)
  {
  }

  /** A request weakens no hold of its own transaction, and takes no one out of a queue. */
  lemma AcquireOwn(st: LockState, t: Txn, k: Key, m: Mode, q: Key)
    ensures var st' := Acquire(st, t, k, m).0;
            && (Holds(st, t, q) == Some(X) ==> Holds(st', t, q) == Some(X))
            && (Holds(st, t, q).Some? ==> Holds(st', t, q).Some?)
  {
  }

  lemma AcquireQueues(st: LockState, t: Txn, k: Key, m: Mode, q: Key, w: Waiter)
    requires w in LockOf(st, q).waiters
    ensures w in LockOf(Acquire(st, t, k, m).0, q).waiters
  {
  }

  // ---- When a request is granted, in terms of who holds what ----------------------------------------

  /** Of the other holders, none; or all share, and so does the request. */
  ghost predicate Compatible(st: LockState, t: Txn, k: Key, m: Mode) {
    || (forall o :: o != t ==> Holds(st, o, k) == None)
    || (m == S && forall o :: o != t ==> Holds(st, o, k) != Some(X))
  }

  lemma GrantIff(st: LockState, t: Txn, k: Key, m: Mode)
    ensures CanGrant(LockOf(st, k).holders, Waiter(m, t)) <==> Compatible(st, t, k, m)
  {
    var h := LockOf(st, k).holders;
    if Compatible(st, t, k, m) {
      forall o | o in h && o != t ensures m == S && h[o] == S {
        assert Holds(st, o, k) == Some(h[o]);
      }
    }
    if CanGrant(h, Waiter(m, t)) && m == S {
      forall o | o != t ensures Holds(st, o, k) != Some(X) {
      }
    }
    if CanGrant(h, Waiter(m, t)) && m == X {
      forall o | o != t ensures Holds(st, o, k) == None {
      }
    }
  }

  /** A request is granted exactly when the transaction's own hold already serves, nobody else holds the key, or all
      share it; it is refused exactly when it is not granted and some other holder already waits, at whatever remove,
      for this transaction. */
  lemma AcquireIff(st: LockState, t: Txn, k: Key, m: Mode)
    requires Inv(st) && t !in st.waitFor
    ensures var (st', r) := Acquire(st, t, k, m);
            var now := Holds(st, t, k) == Some(X) || (Holds(st, t, k) == Some(S) && m == S)
                       || Compatible(st, t, k, m);
            && (r == Granted <==> now)
            && (r == Deadlock <==> !now && exists o :: o != t && Holds(st, o, k).Some? && Reaches(st.waitFor, o, t))
  {
    GrantIff(st, t, k, m);
    var l := LockOf(st, k);
    var out := l.holders.Keys - {t};
    var g := st.waitFor[t := out];
    if Reaches(g, t, t) {
      CycleThrough(st.waitFor, t, out);
      var o :| o in out && Reaches(st.waitFor, o, t);
      assert Holds(st, o, k).Some?;
    }
    if o :| o != t && Holds(st, o, k).Some? && Reaches(st.waitFor, o, t) {
      ThroughCycle(st.waitFor, t, out, o);
    }
  }

  /** A walk back to t through new edges of t alone goes on from one of their ends without them. */
  lemma CycleThrough(g: Graph, t: Txn, out: set<Txn>)
    requires t !in g && t !in out && Reaches(g[t := out], t, t)
    ensures exists o :: o in out && Reaches(g, o, t)
  {
    var g' := g[t := out];
    var p :| Walk(g', p) && p[0] == t && p[|p| - 1] == t;
    var i := LastAt(p, t, |p| - 2);
    var q := p[i + 1..];
    assert Edge(g', p, i);
    assert q[0] in out;
    forall j | 0 <= j < |q| - 1 ensures Edge(g, q, j) {
      assert Edge(g', p, i + 1 + j) && p[i + 1 + j] != t;
    }
    assert Walk(g, q) && q[|q| - 1] == t;
  }

  /** Where a walk is at t for the last time up to n. */
  lemma LastAt(p: seq<Txn>, t: Txn, n: nat) returns (i: nat)
    requires n < |p| && p[0] == t
    ensures i <= n && p[i] == t && forall j :: i < j <= n ==> p[j] != t
  {
    i := n;
    while p[i] != t
      invariant i <= n && forall j :: i < j <= n ==> p[j] != t
      decreases i
    {
      i := i - 1;
    }
  }

  lemma ThroughCycle(g: Graph, t: Txn, out: set<Txn>, o: Txn)
    requires t !in g && o in out && Reaches(g, o, t)
    ensures Reaches(g[t := out], t, t)
  {
    var g' := g[t := out];
    var p :| Walk(g, p) && p[0] == o && p[|p| - 1] == t;
    var q := [t] + p;
    forall j | 0 <= j < |q| - 1 ensures Edge(g', q, j) {
      if j > 0 {
        assert Edge(g, p, j - 1);
        assert p[j - 1] in g;
      }
    }
    assert Walk(g', q) && q[0] == t && q[|q| - 1] == t;
  }

  /** What a request leaves: the hold, if it was granted and not there before, the place at the end of the queue with an
      edge to every other holder, if it has to wait, and nothing else. */
  lemma AcquireState(st: LockState, t: Txn, k: Key, m: Mode, u: Txn, q: Key)
    requires t !in st.waitFor
    ensures var (st', r) := Acquire(st, t, k, m);
            var gained := r == Granted && u == t && q == k && Holds(st, t, k) != Some(X);
            && Holds(st', u, q) == (if gained then Some(m) else Holds(st, u, q))
            && LockOf(st', q).waiters ==
               LockOf(st, q).waiters + (if r == Waiting && q == k then [Waiter(m, t)] else [])
            && (forall o :: o in Succ(st'.waitFor, u) <==>
                  if r == Waiting && u == t then o != t && Holds(st, o, k).Some? else o in Succ(st.waitFor, u))
  {
    var ws := LockOf(st, q).waiters;
    assert ws + [] == ws;
  }

  // ---- Releases ---------------------------------------------------------------------------------

  /** The lock without t, before the hand-over. */
  lemma {:induction false} ReleasedOk(l: Lock, t: Txn)
    requires LockOk(l) && t !in Txns(l.waiters)
    ensures var r := Released(l, t);
            && HandedOver(Lock(l.holders - {t}, l.waiters), r) && t !in r.holders && t !in Txns(r.waiters)
            && (!Empty(r) ==> LockOk(r))
  {
    AdvanceOk(Lock(l.holders - {t}, l.waiters));
  }

  lemma {:induction false} ReleaseLocks(st: LockState, t: Txn)
    requires Inv(st) && t !in st.waitFor
    ensures var st' := Release(st, t);
            && (forall k :: k in st'.table ==> LockOk(st'.table[k]))
            && (forall k :: k in st'.table ==> t !in st'.table[k].holders && t !in Txns(st'.table[k].waiters))
            && t !in st'.txnKeys
  {
    var st' := Release(st, t);
    forall k | k in st'.table ensures LockOk(st'.table[k]) && t !in st'.table[k].holders
      && t !in Txns(st'.table[k].waiters) {
      NotQueued(st, t, k);
      if k in KeysOf(st, t) {
        ReleasedOk(st.table[k], t);
      } else {
        assert !HoldsOrWaits(st, t, k);
      }
    }
  }

  /** What another transaction keeps: its hold, no weaker, and its place in a queue unless it was granted what it waits
      for. */
  lemma {:induction false} ReleaseOthers(st: LockState, t: Txn, u: Txn, k: Key)
    requires Inv(st) && t !in st.waitFor && u != t
    ensures var st' := Release(st, t);
            && (Holds(st, u, k) == Some(X) ==> Holds(st', u, k) == Some(X))
            && (Holds(st, u, k).Some? ==> Holds(st', u, k).Some?)
            && (forall m :: Waiter(m, u) in LockOf(st, k).waiters ==>
                  Waiter(m, u) in LockOf(st', k).waiters || Holds(st', u, k) == Some(m))
            && (forall w :: w in LockOf(st', k).waiters ==> w in LockOf(st, k).waiters)
            && (Holds(st', u, k).Some? ==> Holds(st, u, k).Some? || u in Txns(LockOf(st, k).waiters))
  {
    NotQueued(st, t, k);
    if k in st.table && k in KeysOf(st, t) {
      ReleasedOk(st.table[k], t);
    }
  }

  /** After a release, those who still wait are those in a queue. */
  lemma {:induction false} ReleaseWaits(st: LockState, t: Txn, u: Txn)
    requires Inv(st) && t !in st.waitFor
    ensures u in Release(st, t).waitFor <==> exists k :: WaitsOn(Release(st, t), u, k)
  {
    var st', ks := Release(st, t), KeysOf(st, t);
    if u in st'.waitFor {
      var k :| WaitsOn(st, u, k);
      StillQueued(st, t, u, k);
    }
    if k :| WaitsOn(st', u, k) {
      NotWoken(st, t, u, k);
    }
  }

  lemma StillQueued(st: LockState, t: Txn, u: Txn, k: Key)
    requires Inv(st) && t !in st.waitFor && WaitsOn(st, u, k) && u !in Woken(st, t, KeysOf(st, t))
    ensures WaitsOn(Release(st, t), u, k)
  {
    NotQueued(st, t, k);
    var w :| w in st.table[k].waiters && w.txn == u;
    if k in KeysOf(st, t) {
      assert w in Released(st.table[k], t).waiters;
    }
  }

  lemma NotWoken(st: LockState, t: Txn, u: Txn, k: Key)
    requires Inv(st) && t !in st.waitFor && WaitsOn(Release(st, t), u, k)
    ensures WaitsOn(st, u, k) && u in st.waitFor && u != t && u !in Woken(st, t, KeysOf(st, t))
  {
    var st' := Release(st, t);
    NotQueued(st, t, k);
    var w :| w in st'.table[k].waiters && w.txn == u;
    ReleaseLocks(st, t);
    if k in KeysOf(st, t) {
      ReleasedOk(st.table[k], t);
    }
    assert w in st.table[k].waiters;
    assert WaitsOn(st, u, k);
    if u in Woken(st, t, KeysOf(st, t)) {
      var q, v :| q in KeysOf(st, t) && q in st.table && v in st.table[q].waiters
        && v !in Released(st.table[q], t).waiters && v.txn == u;
      assert WaitsOn(st, u, q);
      OneWaiter(st.table[k], v, w);
    }
  }

  lemma OneWaiter(l: Lock, v: Waiter, w: Waiter)
    requires Queue(l) && v in l.waiters && w in l.waiters && v.txn == w.txn
    ensures v == w
  {
    var i :| 0 <= i < |l.waiters| && l.waiters[i] == v;
    var j :| 0 <= j < |l.waiters| && l.waiters[j] == w;
  }

  lemma {:induction false} ReleaseKeys(st: LockState, t: Txn)
    requires Inv(st) && t !in st.waitFor
    ensures var st' := Release(st, t);
            && (forall u, k :: HoldsOrWaits(st', u, k) ==> k in KeysOf(st', u))
            && (forall u, k, q :: WaitsOn(st', u, k) && WaitsOn(st', u, q) ==> k == q)
  {
    var st' := Release(st, t);
    ReleaseLocks(st, t);
    forall u, k | HoldsOrWaits(st', u, k) ensures k in KeysOf(st', u) {
      ReleaseOthers(st, t, u, k);
      assert HoldsOrWaits(st, u, k);
    }
    forall u, k, q | WaitsOn(st', u, k) && WaitsOn(st', u, q) ensures k == q {
      NotWoken(st, t, u, k);
      NotWoken(st, t, u, q);
    }
  }

  lemma {:induction false} ReleaseGraph(st: LockState, t: Txn)
    requires Inv(st) && t !in st.waitFor
    ensures forall u :: u in Release(st, t).waitFor <==> exists k :: WaitsOn(Release(st, t), u, k)
    ensures Acyclic(Release(st, t).waitFor)
  {
    forall u ensures u in Release(st, t).waitFor <==> exists k :: WaitsOn(Release(st, t), u, k) {
      ReleaseWaits(st, t, u);
    }
    FewerEdges(st.waitFor, Release(st, t).waitFor);
  }

  /** A release by a transaction that is not waiting keeps the invariant. */
  lemma {:induction false} ReleaseInv(st: LockState, t: Txn)
    requires Inv(st) && t !in st.waitFor
    ensures Inv(Release(st, t))
  {
    ReleaseLocks(st, t);
    ReleaseKeys(st, t);
    ReleaseGraph(st, t);
  }

  /** It leaves the transaction holding nothing and waiting for nothing. */
  lemma {:induction false} ReleaseLeavesNothing(st: LockState, t: Txn)
    requires Inv(st) && t !in st.waitFor
    ensures var st' := Release(st, t);
            t !in st'.txnKeys && t !in st'.waitFor && forall k :: Holds(st', t, k) == None && !WaitsOn(st', t, k)
  {
    ReleaseLocks(st, t);
  }

  // ---- What a release hands over -----------------------------------------------------------------------

  /** How many requests for a key a release by t grants. */
  function Woke(st: LockState, t: Txn, k: Key): int {
    |LockOf(st, k).waiters| - |LockOf(Release(st, t), k).waiters|
  }

  /** What a hand-over leaves: the first n requests hold what they asked for, the rest still wait, and the first of them
      is not compatible with some holder. */
  ghost predicate Handed(l: Lock, r: Lock, n: int) {
    && 0 <= n <= |l.waiters| && r.waiters == l.waiters[n..]
    && GrantedFirst(l.holders, r.holders, l.waiters, n)
    && (n < |l.waiters| ==> !CanGrant(r.holders, l.waiters[n]))
  }

  ghost predicate GrantedFirst(h: map<Txn, Mode>, r: map<Txn, Mode>, ws: seq<Waiter>, n: nat)
    requires n <= |ws|
  {
    && (forall i :: 0 <= i < n ==> ws[i].txn in r && r[ws[i].txn] == ws[i].mode)
    && (forall u :: u !in Txns(ws[..n]) ==> (u in r <==> u in h) && (u in h ==> r[u] == h[u]))
  }

  lemma {:induction false} AdvanceHands(l: Lock)
    requires Queue(l)
    ensures Handed(l, Advance(l), Grants(l))
  {
    AdvanceExact(l);
    GrantedHold(l.holders, l.waiters, Grants(l));
  }

  lemma {:induction false} GrantedHold(h: map<Txn, Mode>, ws: seq<Waiter>, n: nat)
    requires n <= |ws| && forall i, j :: 0 <= i < j < |ws| ==> ws[i].txn != ws[j].txn
    ensures GrantedFirst(h, GrantAll(h, ws[..n]), ws, n)
    decreases n
  {
    if n > 0 {
      GrantedHold(h, ws, n - 1);
      assert ws[..n][..n - 1] == ws[..n - 1];
      assert ws[..n] == ws[..n - 1] + [ws[n - 1]];
    }
  }

  /** What a release by t leaves of a key: the first n requests hold what they asked for, everybody else holds what they
      held, and the first who still waits is blocked by a holder. */
  ghost predicate HandedAt(st: LockState, st': LockState, t: Txn, k: Key, n: int) {
    var ws := LockOf(st, k).waiters;
    && 0 <= n <= |ws| && LockOf(st', k).waiters == ws[n..] && Holds(st', t, k) == None
    && (forall i :: 0 <= i < n ==> Holds(st', ws[i].txn, k) == Some(ws[i].mode))
    && (forall u :: u != t && u !in Txns(ws[..n]) ==> Holds(st', u, k) == Holds(st, u, k))
    && (n < |ws| ==> !Compatible(st', ws[n].txn, k, ws[n].mode))
  }

  /** A release hands a key over to the longest part of its queue that can share it, in order. */
  lemma {:induction false} ReleaseState(st: LockState, t: Txn, k: Key)
    requires Inv(st) && t !in st.waitFor
    ensures HandedAt(st, Release(st, t), t, k, Woke(st, t, k))
  {
    NotQueued(st, t, k);
    if k in st.table && k in KeysOf(st, t) {
      ReleasedState(st, t, k);
    } else {
      UntouchedLock(st, t, k);
    }
  }

  lemma {:induction false} UntouchedLock(st: LockState, t: Txn, k: Key)
    requires Inv(st) && t !in st.waitFor && !(k in st.table && k in KeysOf(st, t))
    ensures HandedAt(st, Release(st, t), t, k, Woke(st, t, k))
  {
    var ws := LockOf(st, k).waiters;
    assert !HoldsOrWaits(st, t, k);
    assert LockOf(Release(st, t), k) == LockOf(st, k);
    assert ws[0..] == ws && ws[..0] == [];
    if ws != [] {
      UntouchedHead(st, t, k);
    }
  }

  lemma {:induction false} ReleasedState(st: LockState, t: Txn, k: Key)
    requires Inv(st) && t !in st.waitFor && k in st.table && k in KeysOf(st, t)
    ensures HandedAt(st, Release(st, t), t, k, Woke(st, t, k))
  {
    var l := st.table[k];
    var rest := Lock(l.holders - {t}, l.waiters);
    NotQueued(st, t, k);
    AdvanceHands(rest);
    ReleasedOk(l, t);
    LockAfter(st, t, k);
    if Grants(rest) < |l.waiters| {
      GrantIff(Release(st, t), l.waiters[Grants(rest)].txn, k, l.waiters[Grants(rest)].mode);
    }
    HandedOverAt(st, Release(st, t), t, k, rest, Released(l, t), Grants(rest));
  }

  lemma LockAfter(st: LockState, t: Txn, k: Key)
    requires k in st.table && k in KeysOf(st, t)
    ensures LockOf(Release(st, t), k) == Released(st.table[k], t)
  {
    var r := Released(st.table[k], t);
    assert Empty(r) ==> r == Lock(map[], []);
  }

  lemma HandedOverAt(st: LockState, st': LockState, t: Txn, k: Key, rest: Lock, r: Lock, n: nat)
    requires k in st.table && rest == Lock(st.table[k].holders - {t}, st.table[k].waiters) && LockOf(st', k) == r
    requires Handed(rest, r, n) && t !in r.holders
    requires n < |rest.waiters| ==> !Compatible(st', rest.waiters[n].txn, k, rest.waiters[n].mode)
    ensures HandedAt(st, st', t, k, n)
  {
  }

  /** A release of other keys leaves the head of a queue blocked. */
  lemma {:induction false} UntouchedHead(st: LockState, t: Txn, k: Key)
    requires Inv(st) && LockOf(Release(st, t), k) == LockOf(st, k) && LockOf(st, k).waiters != []
    ensures var w := LockOf(st, k).waiters[0]; !Compatible(Release(st, t), w.txn, k, w.mode)
  {
    var w := LockOf(st, k).waiters[0];
    GrantIff(Release(st, t), w.txn, k, w.mode);
  }

  /** Shared requests at the head of a queue are all granted once no other transaction has the key exclusively, and an
      exclusive one once nobody else holds it. */
  lemma {:induction false} ReleaseWakes(st: LockState, t: Txn, k: Key, n: nat)
    requires Inv(st) && t !in st.waitFor && n < |LockOf(st, k).waiters|
    requires var ws := LockOf(st, k).waiters;
             if ws[n].mode == S then
               && (forall i :: 0 <= i < n ==> ws[i].mode == S)
               && forall u :: u != t ==> Holds(st, u, k) != Some(X)
             else n == 0 && forall u :: u != t && u != ws[0].txn ==> Holds(st, u, k) == None
    ensures var w := LockOf(st, k).waiters[n]; Holds(Release(st, t), w.txn, k) == Some(w.mode)
  {
    ReleaseState(st, t, k);
    var st', ws, g := Release(st, t), LockOf(st, k).waiters, Woke(st, t, k);
    forall u | u !in Txns(ws[..g]) ensures Holds(st', u, k).Some? ==> u != t && Holds(st', u, k) == Holds(st, u, k) {
    }
    assert HandedAt(st, st', t, k, g);
    if g <= n {
      HeadFits(st, st', t, k, n, g);
    }
  }

  /** With these holders the first request that is left could be granted as well. */
  lemma {:induction false} HeadFits(st: LockState, st': LockState, t: Txn, k: Key, n: nat, g: nat)
    requires g <= n < |LockOf(st, k).waiters|
    requires var ws := LockOf(st, k).waiters;
             && (forall i :: 0 <= i < g ==> Holds(st', ws[i].txn, k) == Some(ws[i].mode))
             && (forall u :: u !in Txns(ws[..g]) ==>
                   Holds(st', u, k).Some? ==> u != t && Holds(st', u, k) == Holds(st, u, k))
    requires var ws := LockOf(st, k).waiters;
             if ws[n].mode == S then
               && (forall i :: 0 <= i < n ==> ws[i].mode == S)
               && forall u :: u != t ==> Holds(st, u, k) != Some(X)
             else n == 0 && forall u :: u != t && u != ws[0].txn ==> Holds(st, u, k) == None
    ensures var w := LockOf(st, k).waiters[g]; Compatible(st', w.txn, k, w.mode)
  {
    var ws := LockOf(st, k).waiters;
    if ws[n].mode == S {
      forall o ensures Holds(st', o, k) != Some(X) {
        if o in Txns(ws[..g]) {
          var w :| w in ws[..g] && w.txn == o;
          var i :| 0 <= i < g && ws[..g][i] == w;
        }
      }
    } else {
      assert ws[..0] == [];
    }
  }

  /** Who still waits waits for the same transactions as before. */
  lemma {:induction false} ReleaseEdges(st: LockState, t: Txn, u: Txn)
    requires Inv(st) && t !in st.waitFor
    ensures var st' := Release(st, t);
            Succ(st'.waitFor, u) == if exists k :: WaitsOn(st', u, k) then Succ(st.waitFor, u) else {}
  {
    ReleaseWaits(st, t, u);
  }
}
