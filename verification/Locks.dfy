/** The lock table as a value: granting, waiting, hand-over, release, and the wait-for graph. */
module Locks {
  import opened Entries

  type Txn = nat

  datatype Mode = S | X

  datatype Waiter = Waiter(mode: Mode, txn: Txn)

  /** One key: who holds it, and who waits for it, first come first served. */
  datatype Lock = Lock(holders: map<Txn, Mode>, waiters: seq<Waiter>)

  type Graph = map<Txn, set<Txn>>

  datatype LockState = LockState(table: map<Key, Lock>, txnKeys: map<Txn, set<Key>>, waitFor: Graph)

  datatype Outcome = Granted | Waiting | Deadlock

  // ---- Granting -------------------------------------------------------------------------

  /** A request is compatible with every other holder; the requester's own hold is transparent. */
  predicate CanGrant(holders: map<Txn, Mode>, w: Waiter) {
    forall o :: o in holders && o != w.txn ==> w.mode == S && holders[o] == S
  }

  /** Grant a run of requests, ignoring compatibility. */
  function GrantAll(holders: map<Txn, Mode>, ws: seq<Waiter>): map<Txn, Mode>
    decreases |ws|
  {
    if ws == [] then holders else GrantAll(holders, ws[..|ws| - 1])[ws[|ws| - 1].txn := ws[|ws| - 1].mode]
  }

  /** Grant from the head of the queue until a request cannot be granted. */
  function Advance(l: Lock): Lock
    decreases |l.waiters|
  {
    if l.waiters == [] || !CanGrant(l.holders, l.waiters[0]) then l
    else Advance(Lock(l.holders[l.waiters[0].txn := l.waiters[0].mode], l.waiters[1..]))
  }

  function Txns(ws: seq<Waiter>): set<Txn> {
    set w | w in ws :: w.txn
  }

  /** The number of requests that a hand-over grants. */
  function Grants(l: Lock): nat
    decreases |l.waiters|
  {
    if l.waiters == [] || !CanGrant(l.holders, l.waiters[0]) then 0
    else 1 + Grants(Lock(l.holders[l.waiters[0].txn := l.waiters[0].mode], l.waiters[1..]))
  }

  lemma {:induction false} GrantAllCons(holders: map<Txn, Mode>, w: Waiter, ws: seq<Waiter>)
    ensures GrantAll(holders, [w] + ws) == GrantAll(holders[w.txn := w.mode], ws)
    decreases |ws|
  {
    var all := [w] + ws;
    if ws == [] {
      assert all[..0] == [] && all == [w];
      assert GrantAll(holders, all[..0]) == holders;
    } else {
      assert all[..|all| - 1] == [w] + ws[..|ws| - 1];
      GrantAllCons(holders, w, ws[..|ws| - 1]);
    }
  }

  /** A hand-over grants exactly the longest prefix of the queue whose requests can be granted one after the other. */
  lemma {:induction false} AdvanceExact(l: Lock)
    ensures var n := Grants(l);
            && n <= |l.waiters|
            && Advance(l) == Lock(GrantAll(l.holders, l.waiters[..n]), l.waiters[n..])
            && (forall i :: 0 <= i < n ==> CanGrant(GrantAll(l.holders, l.waiters[..i]), l.waiters[i]))
            && (n < |l.waiters| ==> !CanGrant(GrantAll(l.holders, l.waiters[..n]), l.waiters[n]))
    decreases |l.waiters|
  {
    if l.waiters != [] && CanGrant(l.holders, l.waiters[0]) {
      var w, rest := l.waiters[0], l.waiters[1..];
      var next := Lock(l.holders[w.txn := w.mode], rest);
      AdvanceExact(next);
      var n := Grants(next);
      assert l.waiters == [w] + rest;
      forall i | 0 <= i <= n ensures GrantAll(l.holders, l.waiters[..i + 1]) == GrantAll(next.holders, rest[..i]) {
        assert l.waiters[..i + 1] == [w] + rest[..i];
        GrantAllCons(l.holders, w, rest[..i]);
      }
      forall i | 0 <= i < n + 1 ensures CanGrant(GrantAll(l.holders, l.waiters[..i]), l.waiters[i]) {
        if i > 0 {
          assert l.waiters[..i] == l.waiters[..(i - 1) + 1];
          assert l.waiters[i] == rest[i - 1];
        } else {
          assert l.waiters[..0] == [];
        }
      }
      assert l.waiters[n + 1..] == rest[n..];
    } else {
      assert l.waiters[..0] == [];
    }
  }

  // ---- Requests and releases ---------------------------------------------------------------

  function LockOf(st: LockState, k: Key): Lock {
    if k in st.table then st.table[k] else Lock(map[], [])
  }

  function KeysOf(st: LockState, t: Txn): set<Key> {
    if t in st.txnKeys then st.txnKeys[t] else {}
  }

  function Holds(st: LockState, t: Txn, k: Key): Option<Mode> {
    var h := LockOf(st, k).holders;
    if t in h then Some(h[t]) else None
  }

  /** A lock held in mode h serves for mode m. */
  predicate Serves(h: Option<Mode>, m: Mode) {
    h == Some(X) || (h == Some(S) && m == S)
  }

  /** A request: granted at once, queued, or refused because waiting would close a cycle. */
  ghost function Acquire(st: LockState, t: Txn, k: Key, m: Mode): (LockState, Outcome) {
    var l := LockOf(st, k);
    var keys := st.txnKeys[t := KeysOf(st, t) + {k}];
    if Serves(Holds(st, t, k), m) then (LockState(st.table[k := l], keys, st.waitFor), Granted)
    else if CanGrant(l.holders, Waiter(m, t)) then
      (LockState(st.table[k := Lock(l.holders[t := m], l.waiters)], keys, st.waitFor), Granted)
    else
      var g := st.waitFor[t := l.holders.Keys - {t}];
      if Reaches(g, t, t) then (LockState(st.table[k := l], keys, st.waitFor - {t}), Deadlock)
      else (LockState(st.table[k := Lock(l.holders, l.waiters + [Waiter(m, t)])], keys, g), Waiting)
  }

  /** What a release by t leaves of one lock. */
  function Released(l: Lock, t: Txn): Lock {
    Advance(Lock(l.holders - {t}, l.waiters))
  }

  predicate Empty(l: Lock) {
    l.holders == map[] && l.waiters == []
  }

  /** Those who stop waiting when t releases the locks in ks. */
  function Woken(st: LockState, t: Txn, ks: set<Key>): set<Txn> {
    set k, w | k in ks && k in st.table && w in st.table[k].waiters && w !in Released(st.table[k], t).waiters :: w.txn
  }

  function ReleaseTable(st: LockState, t: Txn, ks: set<Key>): map<Key, Lock> {
    map k | k in st.table && !(k in ks && Empty(Released(st.table[k], t))) ::
      if k in ks then Released(st.table[k], t) else st.table[k]
  }

  function Release(st: LockState, t: Txn): LockState {
    var ks := KeysOf(st, t);
    LockState(ReleaseTable(st, t, ks), st.txnKeys - {t}, st.waitFor - Woken(st, t, ks) - {t})
  }

  // ---- The wait-for graph ---------------------------------------------------------------------

  function Succ(g: Graph, t: Txn): set<Txn> {
    if t in g then g[t] else {}
  }

  /** A walk along at least one edge. */
  ghost predicate Walk(g: Graph, p: seq<Txn>) {
    |p| >= 2 && forall i :: 0 <= i < |p| - 1 ==> Edge(g, p, i)
  }

  ghost predicate Edge(g: Graph, p: seq<Txn>, i: nat)
    requires i + 1 < |p|
  {
    p[i + 1] in Succ(g, p[i])
  }

  ghost predicate Reaches(g: Graph, a: Txn, b: Txn) {
    exists p :: Walk(g, p) && p[0] == a && p[|p| - 1] == b
  }

  ghost predicate Acyclic(g: Graph) {
    forall t :: !Reaches(g, t, t)
  }

  lemma ReachWalk(g: Graph, p: seq<Txn>)
    requires Walk(g, p)
    ensures Reaches(g, p[0], p[|p| - 1])
  {
  }

  lemma ReachEdge(g: Graph, a: Txn, b: Txn)
    requires b in Succ(g, a)
    ensures Reaches(g, a, b)
  {
    var p := [a, b];
    assert Edge(g, p, 0);
    assert Walk(g, p) && p[0] == a && p[|p| - 1] == b;
  }

  lemma ReachStep(g: Graph, a: Txn, b: Txn, c: Txn)
    requires Reaches(g, a, b) && c in Succ(g, b)
    ensures Reaches(g, a, c)
  {
    var p :| Walk(g, p) && p[0] == a && p[|p| - 1] == b;
    var q := p + [c];
    forall i | 0 <= i < |q| - 1 ensures Edge(g, q, i) {
      if i < |p| - 1 { assert Edge(g, p, i); }
    }
    assert Walk(g, q) && q[0] == a && q[|q| - 1] == c;
  }

  /** Fewer edges, fewer walks. */
  lemma FewerEdges(g: Graph, g': Graph)
    requires Acyclic(g) && forall t :: Succ(g', t) <= Succ(g, t)
    ensures Acyclic(g')
  {
    forall t ensures !Reaches(g', t, t) {
      if Reaches(g', t, t) {
        var p :| Walk(g', p) && p[0] == t && p[|p| - 1] == t;
        forall i | 0 <= i < |p| - 1 ensures Edge(g, p, i) { assert Edge(g', p, i); }
        ReachWalk(g, p);
      }
    }
  }

  /** New edges from one transaction keep the graph acyclic when that transaction does not reach itself. */
  lemma NewEdges(g: Graph, t: Txn, out: set<Txn>)
    requires Acyclic(g) && t !in g && !Reaches(g[t := out], t, t)
    ensures Acyclic(g[t := out])
  {
    var g' := g[t := out];
    forall a ensures !Reaches(g', a, a) {
      if Reaches(g', a, a) {
        var p :| Walk(g', p) && p[0] == a && p[|p| - 1] == a;
        if i :| 0 <= i < |p| - 1 && p[i] == t {
          Rotate(g', p, i);
        } else {
          forall i | 0 <= i < |p| - 1 ensures Edge(g, p, i) { assert Edge(g', p, i); }
          ReachWalk(g, p);
        }
      }
    }
  }

  /** A closed walk can be started at any of its points. */
  lemma Rotate(g: Graph, p: seq<Txn>, i: nat)
    requires Walk(g, p) && p[0] == p[|p| - 1] && i < |p| - 1
    ensures Reaches(g, p[i], p[i])
  {
    var q := p[i..] + p[1..i + 1];
    forall j | 0 <= j < |q| - 1 ensures Edge(g, q, j) {
      var at := if j < |p| - i - 1 then i + j else j - (|p| - i - 1);
      assert Edge(g, p, at);
      assert q[j] == p[at] && q[j + 1] == p[at + 1];
    }
    assert Walk(g, q) && q[0] == p[i] && q[|q| - 1] == p[i];
  }

  /** A set closed under edges that holds the successors of t, but not t, shows that t does not reach itself. */
  lemma {:induction false} Closed(g: Graph, t: Txn, visited: set<Txn>)
    requires Succ(g, t) <= visited && (forall v :: v in visited ==> Succ(g, v) <= visited) && t !in visited
    ensures !Reaches(g, t, t)
  {
    if Reaches(g, t, t) {
      var p :| Walk(g, p) && p[0] == t && p[|p| - 1] == t;
      WalkInside(g, t, visited, p, |p| - 1);
    }
  }

  lemma {:induction false} WalkInside(g: Graph, t: Txn, visited: set<Txn>, p: seq<Txn>, i: nat)
    requires Succ(g, t) <= visited && forall v :: v in visited ==> Succ(g, v) <= visited
    requires Walk(g, p) && p[0] == t && 0 < i < |p|
    ensures p[i] in visited
    decreases i
  {
    assert Edge(g, p, i - 1);
    if i > 1 {
      WalkInside(g, t, visited, p, i - 1);
    }
  }
}
