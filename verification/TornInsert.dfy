/** A crash inside one insertion: what lookups find when only the first records of its log are replayed. */
module TornInsert {
  import opened Entries
  import opened Tree
  import opened Log
  import opened TreeInsert
  import opened TreeDelete
  import opened TreeRecovery
  import opened TreeDeleteRecovery
  import opened TreeLive
  import opened TreeSteps
  import opened TreeClimb
  import opened CrashReplay
  import opened Restored

  // ---- Lookups page by page -------------------------------------------------------------------

  lemma {:induction false} GetPut(es: seq<Entry>, k: Key, v: Bytes, q: int)
    ensures Get(Put(es, k, v), q) == if q == k then Some(v) else Get(es, q)
  {
    if es != [] {
      GetPut(es[1..], k, v, q);
    }
  }

  /** One step down from a page that is exact or stale above its bound. */
  lemma {:induction false} PageStep(s: Store, t: Tree, q: int, hi: int, h: nat)
    requires t.Nd? && h > 0 && |t.kids| == |t.keys| + 1 && PageOk(s, t, hi, false) && q < hi
    ensures Lookup(s, t.id, q, h) == Lookup(s, t.kids[Route(t.keys, q)].id, q, h - 1)
  {
    if s[t.id] != Image(t) {
      RouteStale(s[t.id].keys, t.keys, q, hi);
    }
    var j := Route(t.keys, q);
    assert s[t.id].children[j] == KidIds(t.kids)[j] == t.kids[j].id;
  }

  /** A node is searched rightly however many keys it has. */
  lemma {:induction false} LookupFormed(s: Store, n: Tree, q: Key, order: nat, lo: int, hi: int, h: nat)
    requires Formed(n, order, lo, hi, h) && Holds(s, n, hi, false) && lo <= q < hi
    ensures Lookup(s, n.id, q, h) == Get(Contents(n), q)
  {
    var j := Route(n.keys, q);
    PageStep(s, n, q, hi, h);
    RouteBounds(n.keys, lo, hi, q);
    LookupCorrect(s, n.kids[j], q, order, order / 2, Lower(n.keys, lo, j), Upper(n.keys, hi, j), h - 1, false);
    ChildHasAnswer(n, q, order, lo, hi, h);
  }

  /** So is any well-formed subtree. */
  lemma {:induction false} LookupBody(s: Store, n: Tree, q: Key, order: nat, lo: int, hi: int, h: nat)
    requires Body(n, order, lo, hi, h) && Holds(s, n, hi, false) && lo <= q < hi
    ensures Lookup(s, n.id, q, h) == Get(Contents(n), q)
  {
    if n.Lf? {
      if s[n.id] != Image(n) {
        GetStale(s[n.id].entries, n.entries, q, hi);
      }
    } else {
      LookupFormed(s, n, q, order, lo, hi, h);
    }
  }

  /** The answer of a node is that of the child a key is routed to. */
  lemma {:induction false} ChildAnswers(s: Store, t: Tree, q: Key, order: nat, lo: int, hi: int, h: nat)
    requires Formed(t, order, lo, hi, h) && PageOk(s, t, hi, false) && lo <= q < hi
    ensures var i := Route(t.keys, q);
            && Lookup(s, t.id, q, h) == Lookup(s, t.kids[i].id, q, h - 1)
            && Get(Contents(t), q) == Get(Contents(t.kids[i]), q)
            && Lower(t.keys, lo, i) <= q < Upper(t.keys, hi, i)
            && Shape(t.kids[i], order, order / 2, Lower(t.keys, lo, i), Upper(t.keys, hi, i), h - 1)
  {
    PageStep(s, t, q, hi, h);
    RouteBounds(t.keys, lo, hi, q);
    ChildHasAnswer(t, q, order, lo, hi, h);
  }

  /** A sibling that was left alone answers as before. */
  lemma {:induction false} SiblingAnswers(s: Store, t: Tree, j: nat, q: Key, order: nat, lo: int, hi: int, h: nat)
    requires Formed(t, order, lo, hi, h) && PageOk(s, t, hi, false) && lo <= q < hi
    requires j < |t.kids| && OthersOk(s, t, hi, j, false) && Route(t.keys, q) != j
    ensures Lookup(s, t.id, q, h) == Get(Contents(t), q)
  {
    var i := Route(t.keys, q);
    ChildAnswers(s, t, q, order, lo, hi, h);
    LookupCorrect(s, t.kids[i], q, order, order / 2, Lower(t.keys, lo, i), Upper(t.keys, hi, i), h - 1, false);
  }

  // ---- A part of what was logged below a child -----------------------------------------------------

  lemma {:induction false} TouchedPart(log: seq<Change>, m: nat)
    requires m <= |log|
    ensures Touched(log[..m]) <= Touched(log)
  {
  }

  /** Pages outside the child are where they were. */
  lemma {:induction false} PartAside(s: Store, t: Tree, j: nat, log: seq<Change>, m: nat, hi: int)
    requires t.Nd? && j < |t.kids| && Holds(s, t, hi, false) && Distinct(Ids(t)) && m <= |log|
    requires forall id {:trigger id in Touched(log)} :: id in Touched(log) ==> id in Ids(t.kids[j]) || id !in Ids(t)
    ensures var s' := Replay(s, log[..m]);
            OthersOk(s', t, hi, j, false) && PageOk(s', t, hi, false)
  {
    var s' := Replay(s, log[..m]);
    KidsDistinct(t);
    KidAmong(t.kids, j);
    TouchedPart(log, m);
    forall id | id in Ids(t) && id !in Ids(t.kids[j]) && id in s ensures id in s' && s'[id] == s[id] {
      ReplayTouches(s, log[..m], id);
    }
    SiblingsAll(s, s', t, hi, false, j);
    assert t.id in Ids(t);
  }

  // ---- Insertion ---------------------------------------------------------------------------------

  /** What a lookup finds once the insertion counts. */
  function AfterPut(es: seq<Entry>, k: Key, v: Bytes, q: Key): Option<Bytes> {
    if q == k then Some(v) else Get(es, q)
  }

  lemma {:induction false} LeafPrefix(s: Store, t: Tree, k: Key, v: Bytes, order: nat, next: PageId, m: nat, q: Key,
      h: nat)
    requires t.Lf? && t.id < next && 0 < m <= |InsLeaf(t, k, v, order, next).log|
    ensures Lookup(Replay(s, InsLeaf(t, k, v, order, next).log[..m]), t.id, q, h) == AfterPut(t.entries, k, v, q)
  {
    var log := InsLeaf(t, k, v, order, next).log;
    GetPut(t.entries, k, v, q);
    assert log[..1] == [log[0]];
    ReplayTwo(s, log[0], log[|log| - 1]);
    if m == 2 {
      assert log[..2] == [log[0], log[1]];
    }
  }

  /** While only records from below child j are there, the child decides. */
  lemma {:induction false} EarlyPrefix(s: Store, t: Tree, j: nat, k: Key, v: Bytes, g: Grown, next: PageId, order: nat,
                                       lo: int, hi: int, h: nat, m: nat, q: Key)
    requires Formed(t, order, lo, hi, h) && j == Route(t.keys, k) && Fresh(t, next) && TouchesOnly(g, t.kids[j], next)
    requires Holds(s, t, hi, false) && lo <= q < hi && m <= |g.log|
    requires Route(t.keys, q) == j ==>
               Lookup(Replay(s, g.log[..m]), t.kids[j].id, q, h - 1) ==
               AfterPut(Contents(t.kids[j]), k, v, q)
    ensures Lookup(Replay(s, g.log[..m]), t.id, q, h) == AfterPut(Contents(t), k, v, q)
  {
    var s' := Replay(s, g.log[..m]);
    PartAside(s, t, j, g.log, m, hi);
    if Route(t.keys, q) == j {
      ChildAnswers(s', t, q, order, lo, hi, h);
    } else {
      SiblingAnswers(s', t, j, q, order, lo, hi, h);
    }
  }

  /** Once the node itself is logged, with or without its new sibling, it has everything. */
  lemma {:induction false} LatePrefix(s: Store, t: Tree, j: nat, g: Grown, n: Tree, next: PageId, order: nat, lo: int,
      hi: int, h: nat, extra: nat, q: Key)
    requires Restored.Level(t, j, g, n, next, order) && g.split.Some? && Formed(n, order, lo, hi, h) && lo <= q < hi
    requires KidsOk(Replay(s, g.log), n.kids, n.keys, hi, false)
    requires var r := Settle(n, order, g.next, g.log + [Write(n)]); |g.log| < extra <= |r.log|
    ensures var r := Settle(n, order, g.next, g.log + [Write(n)]);
            Lookup(Replay(s, r.log[..extra]), t.id, q, h) == Get(Contents(n), q)
  {
    var r := Settle(n, order, g.next, g.log + [Write(n)]);
    var s1 := Replay(s, g.log);
    var s2 := s1[n.id := Image(n)];
    ReplayAppend(s, g.log, [Write(n)]);
    ReplayOne(s1, Write(n));
    KidsFrame(s1, s2, n.kids, n.keys, hi, false);
    if extra == |g.log| + 1 {
      assert r.log[..extra] == g.log + [Write(n)];
      LookupFormed(s2, n, q, order, lo, hi, h);
    } else {
      var right := r.split.value.right;
      assert r.log[..extra] == g.log + [Write(n)] + [Write(right)];
      ReplayAppend(s, g.log + [Write(n)], [Write(right)]);
      ReplayOne(s2, Write(right));
      HoldsFrame(s2, s2[right.id := Image(right)], n, hi, false);
      LookupFormed(s2[right.id := Image(right)], n, q, order, lo, hi, h);
    }
  }

  /** After the first record of an insertion every lookup finds the new map, whatever part of the rest is there. */
  lemma {:induction false} InsPrefix(s: Store, t: Tree, k: Key, v: Bytes, order: nat, next: PageId, least: nat, lo: int,
                                     hi: int, h: nat, m: nat, q: Key)
    requires order >= 2 && Shape(t, order, least, lo, hi, h) && lo <= k < hi && lo <= q < hi
    requires Holds(s, t, hi, false) && Fresh(t, next) && 0 < m <= |Ins(t, k, v, order, next).log|
    ensures Lookup(Replay(s, Ins(t, k, v, order, next).log[..m]), t.id, q, h) == AfterPut(Contents(t), k, v, q)
    decreases t
  {
    if t.Lf? {
      LeafPrefix(s, t, k, v, order, next, m, q, h);
    } else {
      var j, g, n := LevelHere(t, k, v, order, next, least, lo, hi, h);
      var l, u := Lower(t.keys, lo, j), Upper(t.keys, hi, j);
      ChildIds(t, j, next);
      if m <= |g.log| {
        PrefixIs(t, k, v, order, next, g, n, m);
        if Route(t.keys, q) == j {
          ChildBounds(s, t, q, order, least, lo, hi, h, j);
          InsPrefix(s, t.kids[j], k, v, order, next, order / 2, l, u, h - 1, m, q);
        }
        EarlyPrefix(s, t, j, k, v, g, next, order, lo, hi, h, m, q);
      } else {
        NodePrefix(s, t, k, v, order, next, least, lo, hi, h, j, g, n, m, q);
      }
    }
  }

  lemma ChildBounds(s: Store, t: Tree, q: Key, order: nat, least: nat, lo: int, hi: int, h: nat, j: nat)
    requires t.Nd? && Shape(t, order, least, lo, hi, h) && Holds(s, t, hi, false) && lo <= q < hi
             && j == Route(t.keys, q)
    ensures Lower(t.keys, lo, j) <= q < Upper(t.keys, hi, j) && Holds(s, t.kids[j], Upper(t.keys, hi, j), false)
  {
    RouteBounds(t.keys, lo, hi, q);
  }

  /** A short part of the node's log is a part of the child's. */
  lemma PrefixIs(t: Tree, k: Key, v: Bytes, order: nat, next: PageId, g: Grown, n: Tree, m: nat)
    requires n.Nd? && |n.kids| == |n.keys| + 1 && m <= |g.log|
    requires Ins(t, k, v, order, next) == Settle(n, order, g.next, if g.split.None? then g.log else g.log + [Write(n)])
    ensures |g.log| <= |Ins(t, k, v, order, next).log| && Ins(t, k, v, order, next).log[..m] == g.log[..m]
    ensures g.split.None? && |n.keys| <= order ==> Ins(t, k, v, order, next).log == g.log
  {
  }

  lemma {:induction false} NodePrefix(s: Store, t: Tree, k: Key, v: Bytes, order: nat, next: PageId, least: nat,
                                      lo: int, hi: int, h: nat, j: nat, g: Grown, n: Tree, m: nat, q: Key)
    requires order >= 2 && t.Nd? && Shape(t, order, least, lo, hi, h) && lo <= k < hi && lo <= q < hi
    requires Holds(s, t, hi, false) && Fresh(t, next) && Restored.Level(t, j, g, n, next, order)
             && j == Route(t.keys, k)
    requires g == Ins(t.kids[j], k, v, order, next) && n == Joined(t, j, g)
    requires Ins(t, k, v, order, next) == Settle(n, order, g.next, if g.split.None? then g.log else g.log + [Write(n)])
    requires |g.log| < m <= |Ins(t, k, v, order, next).log|
    ensures Lookup(Replay(s, Ins(t, k, v, order, next).log[..m]), t.id, q, h) == AfterPut(Contents(t), k, v, q)
  {
    PrefixIs(t, k, v, order, next, g, n, |g.log|);
    assert g.split.Some?;
    NodeKids(s, t, k, v, order, next, least, lo, hi, h, j, g, n);
    InsContents(t, k, v, order, next, least, lo, hi, h);
    SettleContents(n, order, g.next, g.log + [Write(n)]);
    GetPut(Contents(t), k, v, q);
    LatePrefix(s, t, j, g, n, next, order, lo, hi, h, m, q);
  }

  /** The children of the node, old and new, in the store. */
  lemma {:induction false} NodeKids(s: Store, t: Tree, k: Key, v: Bytes, order: nat, next: PageId, least: nat, lo: int,
                                    hi: int, h: nat, j: nat, g: Grown, n: Tree)
    requires order >= 2 && t.Nd? && Shape(t, order, least, lo, hi, h) && lo <= k < hi && j == Route(t.keys, k)
    requires Holds(s, t, hi, false) && Fresh(t, next) && g == Ins(t.kids[j], k, v, order, next) && n == Joined(t, j, g)
    ensures Formed(n, order, lo, hi, h) && KidsOk(Replay(s, g.log), n.kids, n.keys, hi, false)
  {
    var l, u := Lower(t.keys, lo, j), Upper(t.keys, hi, j);
    RouteBounds(t.keys, lo, hi, k);
    KidPages(s, t, hi, false, j, next);
    InsShape(t.kids[j], k, v, order, next, order / 2, l, u, h - 1);
    InsReplay(s, t.kids[j], k, v, order, next, order / 2, l, u, h - 1);
    InsSiblings(s, t, k, v, order, next, j, l, u, hi, h - 1, false);
    JoinedFormed(t, order, lo, hi, h, j, g);
    JoinedHolds(Replay(s, g.log), t, order, lo, hi, h, j, g, false);
  }

  // ---- A whole insertion ---------------------------------------------------------------------------

  /** The root that a part of the log leads to, and its height. */
  function RootAt(db: Db, log: seq<Change>, m: nat): PageId
    requires m <= |log|
  {
    ReplayRoot(db.tree.id, log[..m])
  }

  /** What a lookup finds when the crash has left the first m records of the operation. */
  function TornLookup(base: Store, db: Db, op: Op, order: nat, m: nat, q: Key): Option<Bytes>
    requires order >= 2 && m <= |DoLog(db, op, order)|
  {
    var log := DoLog(db, op, order);
    Lookup(Replay(base, log[..m]), RootAt(db, log, m), q, if m < |log| then db.height else Do(db, op, order).height)
  }

  function Answer(m: map<Key, Bytes>, q: Key): Option<Bytes> {
    if q in m then Some(m[q]) else None
  }

  /** Crash anywhere inside an insertion: with none of its records the map is the old one, with any of them the new
      one. */
  lemma {:induction false} InsertTorn(base: Store, db: Db, k: Key, v: Bytes, order: nat, m: nat, q: Key)
    requires Healthy(db, order) && Holds(base, db.tree, KEY_LIMIT, false) && m <= |DoLog(db, Insert(k, v), order)|
    ensures TornLookup(base, db, Insert(k, v), order, m, q)
         == Answer(if m == 0 then AsMap(Contents(db.tree)) else Update(AsMap(Contents(db.tree)), Insert(k, v)), q)
  {
    var t, log, op, least := db.tree, DoLog(db, Insert(k, v), order), Insert(k, v), RootLeast(db.tree);
    var g := Ins(t, k, v, order, db.next);
    MapAgrees(Contents(t), q);
    InsWrites(t, k, v, order, db.next);
    if m == 0 {
      assert log[..0] == [];
      NoLog(g);
      LookupCorrect(base, t, q, order, least, 0, KEY_LIMIT, db.height, false);
    } else if m == |log| {
      assert log[..m] == log;
      WholeOp(base, db, op, order, q);
    } else {
      PartRoot(base, db, k, v, order, m, q);
    }
  }

  /** An insertion logs something. */
  lemma NoLog(g: Grown)
    ensures |GrowLog(g)| >= |g.log|
  {
  }

  lemma {:induction false} WholeOp(base: Store, db: Db, op: Op, order: nat, q: Key)
    requires Healthy(db, order) && Holds(base, db.tree, KEY_LIMIT, false)
    ensures Lookup(Replay(base, DoLog(db, op, order)), ReplayRoot(db.tree.id, DoLog(db, op, order)), q,
            Do(db, op, order).height)
         == Answer(Update(AsMap(Contents(db.tree)), op), q)
  {
    var db' := Do(db, op, order);
    DoKeeps(db, op, order);
    DoReplay(base, db, op, order);
    LookupCorrect(Replay(base, DoLog(db, op, order)), db'.tree, q, order, RootLeast(db'.tree), 0, KEY_LIMIT, db'.height,
      false);
    MapAgrees(Contents(db'.tree), q);
  }

  /** Some records, but not all: the old root, with everything reachable from it. */
  lemma {:induction false} PartRoot(base: Store, db: Db, k: Key, v: Bytes, order: nat, m: nat, q: Key)
    requires Healthy(db, order) && Holds(base, db.tree, KEY_LIMIT, false) && 0 < m < |DoLog(db, Insert(k, v), order)|
    ensures TornLookup(base, db, Insert(k, v), order, m, q) == Answer(Update(AsMap(Contents(db.tree)), Insert(k, v)), q)
  {
    var t, log, least := db.tree, DoLog(db, Insert(k, v), order), RootLeast(db.tree);
    var g := Ins(t, k, v, order, db.next);
    MapAgrees(Contents(t), q);
    InsWrites(t, k, v, order, db.next);
    if m <= |g.log| {
      assert log[..m] == g.log[..m];
      NoMeta(t.id, log[..m]);
      InsPrefix(base, t, k, v, order, db.next, least, 0, KEY_LIMIT, db.height, m, q);
    } else {
      var r := Grow(g);
      assert log[..m] == g.log + [Write(r)];
      NoMeta(t.id, log[..m]);
      BesideRoot(base, db, k, v, order, q);
    }
  }

  /** The new root's page alone is not reachable from the old root. */
  lemma {:induction false} BesideRoot(base: Store, db: Db, k: Key, v: Bytes, order: nat, q: Key)
    requires Healthy(db, order) && Holds(base, db.tree, KEY_LIMIT, false)
             && Ins(db.tree, k, v, order, db.next).split.Some?
    ensures var g := Ins(db.tree, k, v, order, db.next);
            Lookup(Replay(base, g.log + [Write(Grow(g))]), db.tree.id, q, db.height) ==
              AfterPut(Contents(db.tree), k, v, q)
  {
    var t, least := db.tree, RootLeast(db.tree);
    var g := Ins(t, k, v, order, db.next);
    var r := Grow(g);
    var base' := base[r.id := Image(r)];
    InsertIds(t, k, v, order, db.next, least, db.height);
    InsTouchesOnly(t, k, v, order, db.next, least, 0, KEY_LIMIT, db.height);
    ReplayAppend(base, g.log, [Write(r)]);
    ReplayOne(Replay(base, g.log), Write(r));
    WriteFirst(base, g.log, r.id, Image(r));
    HoldsFrame(base, base', t, KEY_LIMIT, false);
    assert g.log[..|g.log|] == g.log;
    InsLogs(t, k, v, order, db.next, least, 0, KEY_LIMIT, db.height);
    InsPrefix(base', t, k, v, order, db.next, least, 0, KEY_LIMIT, db.height, |g.log|, q);
  }

  lemma {:induction false} InsLogs(t: Tree, k: Key, v: Bytes, order: nat, next: PageId, least: nat, lo: int, hi: int,
      h: nat)
    requires order >= 2 && Shape(t, order, least, lo, hi, h) && lo <= k < hi
    ensures Ins(t, k, v, order, next).log != []
    decreases t
  {
    if t.Nd? {
      var j, g, n := InsStep(t, k, v, order, next, least, lo, hi, h);
      InsLogs(t.kids[j], k, v, order, next, order / 2, Lower(t.keys, lo, j), Upper(t.keys, hi, j), h - 1);
    }
  }

  /** A page that the log does not touch may be written before or after. */
  lemma {:induction false} WriteFirst(s: Store, log: seq<Change>, id: PageId, p: Page)
    requires id !in Touched(log)
    ensures Replay(s[id := p], log) == Replay(s, log)[id := p]
    decreases |log|
  {
    if log != [] {
      var n := |log| - 1;
      assert log[n] in log;
      TouchedPart(log, n);
      WriteFirst(s, log[..n], id, p);
    }
  }
}
