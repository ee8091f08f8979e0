/** The lock manager: one table, one wait-for graph, changed in place; each critical section is one call. */
module LockManagement {
  import opened Entries
  import opened Locks
  import opened LockSafety

  // ---- What a hand-over wakes ------------------------------------------------------------

  /** The longest grantable prefix is unique. */
  lemma {:induction false} AdvanceUnique(l: Lock, n: nat)
    requires Grantable(l, n)
    requires n < |l.waiters| ==> !CanGrant(GrantAll(l.holders, l.waiters[..n]), l.waiters[n])
    ensures n == Grants(l)
  {
    AdvanceExact(l);
  }

  function WokenAt(l: Lock, r: Lock): set<Txn> {
    set w | w in l.waiters && w !in r.waiters :: w.txn
  }

  lemma WokenExact(l: Lock, n: nat)
    requires Queue(l) && n <= |l.waiters|
    ensures WokenAt(l, Lock(map[], l.waiters[n..])) == Txns(l.waiters[..n])
  {
    var ws := l.waiters;
    forall w | w in ws ensures w in ws[n..] <==> w !in ws[..n] {
      var i :| 0 <= i < |ws| && ws[i] == w;
      if i < n { assert ws[..n][i] == w; } else { assert ws[n..][i - n] == w; }
    }
    assert forall w :: w in ws[..n] ==> w in ws;
  }

  lemma TxnsSnoc(ws: seq<Waiter>, i: nat)
    requires i < |ws|
    ensures Txns(ws[..i + 1]) == Txns(ws[..i]) + {ws[i].txn}
  {
    assert ws[..i + 1] == ws[..i] + [ws[i]];
  }

  /** One more lock released. */
  lemma ReleaseTableStep(st: LockState, t: Txn, done: set<Key>, k: Key)
    requires k !in done && k in st.table
    ensures var r := Released(st.table[k], t);
            ReleaseTable(st, t, done + {k}) == if Empty(r) then ReleaseTable(st, t, done) - {k}
              else ReleaseTable(st, t, done)[k := r]
  {
  }

  lemma WokenStep(st: LockState, t: Txn, done: set<Key>, k: Key)
    requires k in st.table
    ensures Woken(st, t, done + {k}) ==
            Woken(st, t, done) + WokenAt(Lock(st.table[k].holders - {t}, st.table[k].waiters), Released(st.table[k], t))
  {
  }

  lemma MinusTwice(g: Graph, a: set<Txn>, b: set<Txn>)
    ensures g - a - b == g - (a + b)
  {
  }

  lemma SetTwice(m: map<Key, Lock>, k: Key, a: Lock, b: Lock)
    ensures m[k := a][k := b] == m[k := b]
  {
  }

  lemma NextKept(ws: seq<Waiter>, n: nat, i: nat)
    requires n <= i < |ws|
    ensures ws[n..i + 1] == ws[n..i] + [ws[i]]
  {
  }

  /** The first n requests can be granted one after the other. */
  ghost predicate Grantable(l: Lock, n: nat) {
    n <= |l.waiters| && forall i :: 0 <= i < n ==> CanGrant(GrantAll(l.holders, l.waiters[..i]), l.waiters[i])
  }

  lemma GrantStep(l: Lock, n: nat)
    requires Grantable(l, n) && n < |l.waiters|
    ensures GrantAll(l.holders, l.waiters[..n + 1]) ==
            GrantAll(l.holders, l.waiters[..n])[l.waiters[n].txn := l.waiters[n].mode]
    ensures CanGrant(GrantAll(l.holders, l.waiters[..n]), l.waiters[n]) ==> Grantable(l, n + 1)
    ensures Txns(l.waiters[..n + 1]) == Txns(l.waiters[..n]) + {l.waiters[n].txn}
  {
    assert l.waiters[..n + 1][..n] == l.waiters[..n];
    TxnsSnoc(l.waiters, n);
  }

  lemma ReleaseTableSkip(st: LockState, t: Txn, done: set<Key>, k: Key)
    requires k !in st.table
    ensures ReleaseTable(st, t, done + {k}) == ReleaseTable(st, t, done)
            && Woken(st, t, done + {k}) == Woken(st, t, done)
  {
  }

  // ---- Depth-first search --------------------------------------------------------------------

  function Nodes(g: Graph): set<Txn> {
    g.Keys + set a, b | a in g && b in g[a] :: b
  }

  class LockManager {
    var table: map<Key, Lock>
    var txnKeys: map<Txn, set<Key>>
    var waitFor: Graph

    function State(): LockState
      reads this
    {
      LockState(table, txnKeys, waitFor)
    }

    ghost predicate Valid()
      reads this
    {
      Inv(State())
    }

    constructor ()
      ensures Valid() && State() == Initial()
    {
      table, txnKeys, waitFor := map[], map[], map[];
      new;
      InitialInv();
    }

    /** The elements of a set, on top of the stack, in some order. */
    method Push(stack: seq<Txn>, more: set<Txn>) returns (r: seq<Txn>)
      ensures forall x :: x in r <==> x in stack || x in more
    {
      r := stack;
      var rest := more;
      while rest != {}
        invariant rest <= more && forall x :: x in r <==> x in stack || x in more - rest
        decreases rest
      {
        var x :| x in rest;
        r := r + [x];
        rest := rest - {x};
      }
    }

    /** Depth-first search: true exactly when the transaction reaches itself along at least one edge. */
    method HasCycle(start: Txn) returns (found: bool)
      ensures found <==> Reaches(waitFor, start, start)
    {
      ghost var g := waitFor;
      var visited: set<Txn> := {};
      var stack := Push([], if start in waitFor then waitFor[start] else {});
      forall x | x in stack ensures Reaches(g, start, x) { ReachEdge(g, start, x); }
      while stack != []
        invariant start !in visited && visited <= Nodes(g)
        invariant forall x :: x in stack ==> Reaches(g, start, x) && x in Nodes(g)
        invariant forall x :: x in visited ==> Reaches(g, start, x)
        invariant forall x :: x in Succ(g, start) ==> x in visited || x in stack
        invariant forall v, x :: v in visited && x in Succ(g, v) ==> x in visited || x in stack
        decreases Nodes(g) - visited, |stack|
      {
        var node := stack[|stack| - 1];
        ghost var before := stack;
        stack := stack[..|stack| - 1];
        assert before == stack + [node];
        if node == start {
          return true;
        }
        if node !in visited {
          visited := visited + {node};
          ghost var kept := stack;
          forall x | x in Succ(g, node) ensures Reaches(g, start, x) { ReachStep(g, start, node, x); }
          stack := Push(stack, if node in waitFor then waitFor[node] else {});
        }
      }
      Closed(g, start, visited);
      found := false;
    }

    /** Grant the head of one queue, in order, for as long as it can be granted; the rest keep waiting. */
    method AdvanceWaiters(k: Key)
      requires k in table && Queue(table[k])
      modifies this`table, this`waitFor
      ensures table == old(table)[k := Advance(old(table)[k])]
      ensures waitFor == old(waitFor) - WokenAt(old(table)[k], Advance(old(table)[k]))
    {
      var l := table[k];
      var holders, kept, n := Grant(l);
      AdvanceUnique(l, n);
      AdvanceExact(l);
      WokenExact(l, n);
      table := table[k := Lock(holders, kept)];
    }

    /** The holders and the queue after the hand-over; those who are granted stop waiting. */
    method Grant(l: Lock) returns (holders: map<Txn, Mode>, kept: seq<Waiter>, ghost n: nat)
      modifies this`waitFor
      ensures Grantable(l, n) && kept == l.waiters[n..]
      ensures holders == GrantAll(l.holders, l.waiters[..n]) && waitFor == old(waitFor) - Txns(l.waiters[..n])
      ensures n < |l.waiters| ==> !CanGrant(GrantAll(l.holders, l.waiters[..n]), l.waiters[n])
    {
      var ws, stopped := l.waiters, false;
      ghost var g := waitFor;
      holders, kept, n := l.holders, [], 0;
      for i := 0 to |ws|
        invariant n <= i && (if stopped then n < i else n == i) && kept == ws[n..i]
        invariant holders == GrantAll(l.holders, ws[..n]) && waitFor == g - Txns(ws[..n])
        invariant Grantable(l, n)
        invariant stopped ==> !CanGrant(holders, ws[n])
      {
        var w := ws[i];
        if !stopped && CanGrant(holders, w) {
          GrantStep(l, n);
          holders := holders[w.txn := w.mode];
          waitFor := waitFor - {w.txn};
          n := n + 1;
        } else {
          stopped := true;
          kept := kept + [w];
          NextKept(ws, n, i);
        }
      }
    }

    /** A request: granted, queued, or refused as a deadlock. */
    method Acquire(t: Txn, k: Key, m: Mode) returns (r: Outcome)
      requires Valid() && t !in waitFor
      modifies this
      ensures Valid()
      ensures (State(), r) == Locks.Acquire(old(State()), t, k, m)
      ensures r == Waiting <==> t in waitFor
      ensures r == Granted <==> Serves(Holds(State(), t, k), m)
      ensures r == Granted <==> old(Holds(State(), t, k) == Some(X) || (Holds(State(), t, k) == Some(S) && m == S)
                                    || Compatible(State(), t, k, m))
    {
      AcquireInv(State(), t, k, m);
      AcquireOutcome(State(), t, k, m);
      AcquireIff(State(), t, k, m);
      r := Request(t, k, m);
    }

    method Request(t: Txn, k: Key, m: Mode) returns (r: Outcome)
      modifies this
      ensures (State(), r) == Locks.Acquire(old(State()), t, k, m)
    {
      var l := LockOf(State(), k);
      var held := if t in l.holders then Some(l.holders[t]) else None;
      txnKeys := txnKeys[t := KeysOf(State(), t) + {k}];
      table := table[k := l];
      if Serves(held, m) {
        return Granted;
      }
      if CanGrant(l.holders, Waiter(m, t)) {
        table := table[k := Lock(l.holders[t := m], l.waiters)];
        assert table == old(table)[k := Lock(l.holders[t := m], l.waiters)];
        return Granted;
      }
      r := Wait(t, k, m);
      SetTwice(old(table), k, l, Lock(l.holders, l.waiters + [Waiter(m, t)]));
    }

    /** Queue the request and record whom it waits for; take it back when that closes a cycle. */
    method Wait(t: Txn, k: Key, m: Mode) returns (r: Outcome)
      requires k in table
      modifies this`table, this`waitFor
      ensures var l, g := old(table)[k], old(waitFor)[t := old(table)[k].holders.Keys - {t}];
              if Reaches(g, t, t) then r == Deadlock && table == old(table) && waitFor == old(waitFor) - {t}
              else r == Waiting && table == old(table)[k := Lock(l.holders, l.waiters + [Waiter(m, t)])] && waitFor == g
    {
      var l := table[k];
      table := table[k := Lock(l.holders, l.waiters + [Waiter(m, t)])];
      waitFor := waitFor[t := l.holders.Keys - {t}];
      var cycle := HasCycle(t);
      if cycle {
        var ws := table[k].waiters;
        table := table[k := Lock(l.holders, ws[..|ws| - 1])];
        assert ws[..|ws| - 1] == l.waiters;
        waitFor := waitFor - {t};
        assert waitFor == old(waitFor) - {t};
        assert table == old(table);
        return Deadlock;
      }
      r := Waiting;
    }

    /** Release everything a transaction holds, and hand each lock over. */
    method ReleaseAll(t: Txn)
      requires Valid() && t !in waitFor
      modifies this
      ensures Valid()
      ensures State() == Release(old(State()), t)
      ensures t !in txnKeys && t !in waitFor && forall k :: Holds(State(), t, k) == None && !WaitsOn(State(), t, k)
    {
      ghost var st := State();
      ReleaseInv(st, t);
      ReleaseLeavesNothing(st, t);
      var ks := KeysOf(State(), t);
      txnKeys := txnKeys - {t};
      ReleaseKeysOf(st, t, ks);
      waitFor := waitFor - {t};
    }

    method ReleaseKeysOf(ghost st: LockState, t: Txn, ks: set<Key>)
      requires Inv(st) && t !in st.waitFor && table == st.table && waitFor == st.waitFor
      modifies this`table, this`waitFor
      ensures table == ReleaseTable(st, t, ks) && waitFor == st.waitFor - Woken(st, t, ks)
    {
      var rest := ks;
      assert ReleaseTable(st, t, {}) == table && Woken(st, t, {}) == {};
      while rest != {}
        invariant rest <= ks
        invariant table == ReleaseTable(st, t, ks - rest) && waitFor == st.waitFor - Woken(st, t, ks - rest)
        decreases rest
      {
        var k :| k in rest;
        ghost var done := ks - rest;
        rest := rest - {k};
        assert ks - rest == done + {k};
        if k in table {
          UnlockedQueue(st, t, k);
          ReleaseOne(st, t, k, done);
        } else {
          ReleaseTableSkip(st, t, done, k);
        }
      }
      assert ks - rest == ks;
    }

    method ReleaseOne(ghost st: LockState, t: Txn, k: Key, ghost done: set<Key>)
      requires k in st.table && k !in done && Queue(Lock(st.table[k].holders - {t}, st.table[k].waiters))
      requires table == ReleaseTable(st, t, done) && waitFor == st.waitFor - Woken(st, t, done)
      modifies this`table, this`waitFor
      ensures table == ReleaseTable(st, t, done + {k}) && waitFor == st.waitFor - Woken(st, t, done + {k})
    {
      ghost var before, r := table, Released(st.table[k], t);
      assert table[k] == st.table[k];
      table := table[k := Lock(table[k].holders - {t}, table[k].waiters)];
      AdvanceWaiters(k);
      assert table == before[k := r];
      assert before[k := r] - {k} == before - {k};
      ReleaseTableStep(st, t, done, k);
      WokenStep(st, t, done, k);
      MinusTwice(st.waitFor, Woken(st, t, done), WokenAt(Lock(st.table[k].holders - {t}, st.table[k].waiters), r));
      if Empty(table[k]) {
        table := table - {k};
      }
    }
  }

  /** Without t, the lock still has a well-formed queue, and the same requests in it. */
  lemma UnlockedQueue(st: LockState, t: Txn, k: Key)
    requires Inv(st) && k in st.table
    ensures Queue(Lock(st.table[k].holders - {t}, st.table[k].waiters))
  {
    assert LockOk(st.table[k]);
  }
}
