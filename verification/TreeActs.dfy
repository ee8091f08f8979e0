/** What an operation on the tree does to the pager, step by step, and the pages it leaves when every cut is kept. */
module TreeActs {
  import opened Entries
  import opened Tree
  import opened Log
  import opened TreeInsert
  import opened TreeDelete
  import opened TreeRecovery
  import opened TreeDeleteRecovery
  import opened TreeLive
  import opened TreeSteps
  import opened TreeClimb
  import opened CrashReplay
  import opened Restored
  import opened LogLinks

  /** A page is logged; a page is logged whole, a new one allocated, the first one cut and the new one logged; a new
      page is allocated and logged; a page is changed and not logged; the root is logged; a page is read. */
  datatype Act =
    | Mark(id: PageId, page: Page)
    | Halve(id: PageId, whole: Page, lower: Page, right: PageId, upper: Page)
    | NewRoot(id: PageId, page: Page)
    | Alter(id: PageId, page: Page)
    | Root(id: PageId)
    | Read(id: PageId)

  /** An act, and whether the pager kept a change that was not logged. */
  datatype Event = Event(act: Act, kept: bool)

  function Told(a: Act): seq<Change> {
    match a
    case Mark(id, page) => [PageWrite(id, page)]
    case Halve(id, whole, _, right, upper) => [PageWrite(id, whole), PageWrite(right, upper)]
    case NewRoot(id, page) => [PageWrite(id, page)]
    case Root(id) => [MetaUpdate(id)]
    case _ => []
  }

  function Effect(s: Store, e: Event): Store {
    match e.act
    case Mark(id, page) => s[id := page]
    case Halve(id, whole, lower, right, upper) => s[id := if e.kept then lower else whole][right := upper]
    case NewRoot(id, page) => s[id := page]
    case Alter(id, page) => if e.kept && id in s then s[id := page] else s
    case _ => s
  }

  function ToldAll(es: seq<Event>): seq<Change>
    decreases |es|
  {
    if es == [] then [] else ToldAll(es[..|es| - 1]) + Told(es[|es| - 1].act)
  }

  function Effects(s: Store, es: seq<Event>): Store
    decreases |es|
  {
    if es == [] then s else Effect(Effects(s, es[..|es| - 1]), es[|es| - 1])
  }

  function Acts(es: seq<Event>): (r: seq<Act>)
    ensures |r| == |es|
  {
    seq(|es|, i requires 0 <= i < |es| => es[i].act)
  }

  /** The pages that were cut without the pager keeping it, and have not been logged since. */
  function Lost(es: seq<Event>): set<PageId>
    decreases |es|
  {
    if es == [] then {}
    else
      var before, e := Lost(es[..|es| - 1]), es[|es| - 1];
      match e.act
      case Mark(id, _) => before - {id}
      case Halve(id, _, _, right, _) => (if e.kept then before - {id} else before + {id}) - {right}
      case NewRoot(id, _) => before - {id}
      case Alter(id, _) => if e.kept then before - {id} else before
      case _ => before
  }

  lemma {:induction false} Append(s: Store, a: seq<Event>, b: seq<Event>)
    ensures Effects(s, a + b) == Effects(Effects(s, a), b)
    decreases |b|
  {
    if b == [] {
      assert a + b == a;
    } else {
      assert (a + b)[..|a + b| - 1] == a + b[..|b| - 1];
      Append(s, a, b[..|b| - 1]);
    }
  }

  lemma {:induction false} ToldAppend(a: seq<Event>, b: seq<Event>)
    ensures ToldAll(a + b) == ToldAll(a) + ToldAll(b)
    decreases |b|
  {
    if b == [] {
      assert a + b == a;
    } else {
      assert (a + b)[..|a + b| - 1] == a + b[..|b| - 1];
      ToldAppend(a, b[..|b| - 1]);
      LogJoin(ToldAll(a), ToldAll(b[..|b| - 1]), Told(b[|b| - 1].act));
    }
  }

  lemma One(s: Store, e: Event)
    ensures Effects(s, [e]) == Effect(s, e) && ToldAll([e]) == Told(e.act) && Acts([e]) == [e.act]
  {
    assert [e][..0] == [];
    assert Effects(s, [e]) == Effect(Effects(s, []), e);
  }

  /** The events split where their acts do. */
  lemma ActsParts(es: seq<Event>, a: seq<Act>, b: seq<Act>)
    requires Acts(es) == a + b
    ensures es == es[..|a|] + es[|a|..] && Acts(es[..|a|]) == a && Acts(es[|a|..]) == b
  {
    assert forall i :: 0 <= i < |a| ==> Acts(es)[i] == a[i];
    assert forall i :: 0 <= i < |b| ==> Acts(es)[|a| + i] == b[i];
  }

  /** Every cut was kept. */
  ghost predicate NoneLost(es: seq<Event>) {
    forall i :: 0 <= i < |es| && es[i].act.Halve? ==> es[i].kept
  }

  // ---- What an insertion does ------------------------------------------------------------------

  function LeafAct(t: Tree, k: Key, v: Bytes, order: nat, next: PageId): Act
    requires t.Lf?
  {
    var es := Put(t.entries, k, v);
    if |es| <= order then Mark(t.id, Leaf(es, t.next))
    else Halve(t.id, Leaf(es, t.next), Leaf(es[..|es| / 2], Some(next)), next, Leaf(es[|es| / 2..], t.next))
  }

  function NodeAct(t: Tree, half: Half, order: nat, next: PageId): Act
    requires t.Nd? && |t.kids| == |t.keys| + 1
  {
    var w := Widened(t, half);
    if |w.keys| <= order then Mark(t.id, w) else Halve(t.id, w, LowerHalf(w), next, UpperHalf(w))
  }

  /** First what is done below, then what the node does when a child has split. */
  function InsActs(t: Tree, k: Key, v: Bytes, order: nat, next: PageId): seq<Act>
    decreases t
  {
    if t.Lf? then [LeafAct(t, k, v, order, next)]
    else if |t.kids| != |t.keys| + 1 then []
    else
      var j := Route(t.keys, k);
      var g := Ins(t.kids[j], k, v, order, next);
      InsActs(t.kids[j], k, v, order, next) + if g.split.None? then [] else [NodeAct(t, g.split.value, order, g.next)]
  }

  /** With every cut kept the pages are those of the model, and so is the log. */
  lemma {:induction false} InsExact(s0: Store, s: Spot, k: Key, v: Bytes, order: nat, next: PageId, es: seq<Event>)
    requires order >= 2 && At(s0, order, next, s, k) && Acts(es) == InsActs(s.node, k, v, order, next) && NoneLost(es)
    ensures var g := Ins(s.node, k, v, order, next);
            Inserted(s0, [], s, g, Effects(s0, es), g.next, ToldAll(es))
    decreases s.node
  {
    var t := s.node;
    if t.Lf? {
      LeafExact(s0, s, k, v, order, next, es);
    } else {
      ChildAt(s0, order, next, s, k);
      var c, g := Descend(s, k, order), ChildOutcome(s, k, v, order, next);
      var below := InsActs(c.node, k, v, order, next);
      ActsParts(es, below, if g.split.None? then [] else [NodeAct(t, g.split.value, order, g.next)]);
      var first, last := es[..|below|], es[|below|..];
      assert NoneLost(first) && NoneLost(last);
      InsExact(s0, c, k, v, order, next, first);
      LevelExact(s0, s, k, v, order, next, first, last, es);
    }
  }

  lemma {:induction false} LevelExact(s0: Store, s: Spot, k: Key, v: Bytes, order: nat, next: PageId,
                                      first: seq<Event>, last: seq<Event>, es: seq<Event>)
    requires Ready(s0, s, k, order, next) && es == first + last && NoneLost(last)
    requires var c, g := Descend(s, k, order), ChildOutcome(s, k, v, order, next);
             && Inserted(s0, [], c, g, Effects(s0, first), g.next, ToldAll(first))
             && Acts(last) == if g.split.None? then [] else [NodeAct(s.node, g.split.value, order, g.next)]
    ensures var g := Ins(s.node, k, v, order, next);
            Inserted(s0, [], s, g, Effects(s0, es), g.next, ToldAll(es))
  {
    var g := ChildOutcome(s, k, v, order, next);
    assert [] + g.log == g.log && [] + ToldAll(first) == ToldAll(first);
    if g.split.None? {
      assert es == first;
      ChildKept(s0, [], s, k, v, order, next, Effects(s0, first));
    } else {
      assert last == [last[0]] && Acts(last)[0] == last[0].act;
      Append(s0, first, last);
      ToldAppend(first, last);
      One(Effects(s0, first), last[0]);
      NodeExact(s0, s, k, v, order, next, Effects(s0, first), ToldAll(first), last[0]);
    }
  }

  lemma {:induction false} LeafExact(s0: Store, s: Spot, k: Key, v: Bytes, order: nat, next: PageId, es: seq<Event>)
    requires order >= 2 && At(s0, order, next, s, k) && s.node.Lf? && NoneLost(es)
    requires Acts(es) == [LeafAct(s.node, k, v, order, next)]
    ensures var g := Ins(s.node, k, v, order, next);
            Inserted(s0, [], s, g, Effects(s0, es), g.next, ToldAll(es))
  {
    assert es == [es[0]] && Acts(es)[0] == es[0].act;
    One(s0, es[0]);
    var t, all := s.node, Put(s.node.entries, k, v);
    if |all| <= order {
      LeafFits(s0, [], s, k, v, order, next);
    } else {
      LeafSplits(s0, [], s, k, v, order, next);
      var s1, mid := AfterPut(s0, t, k, v), |all| / 2;
      var lower, upper := Leaf(all[..mid], Some(next)), Leaf(all[mid..], t.next);
      assert t.id != next;
      assert s1[next := Leaf([], None)][next := upper][t.id := lower] == s0[t.id := lower][next := upper];
    }
  }

  lemma {:induction false} NodeExact(s0: Store, s: Spot, k: Key, v: Bytes, order: nat, next: PageId, s1: Store,
                                     told: seq<Change>, e: Event)
    requires Ready(s0, s, k, order, next) && ChildDone(s0, s1, s, k, v, order, next)
    requires var g := ChildOutcome(s, k, v, order, next);
             && g.split.Some? && told == g.log && e.act == NodeAct(s.node, g.split.value, order, g.next)
             && (e.act.Halve? ==> e.kept)
    ensures var r := Ins(s.node, k, v, order, next);
            Inserted(s0, [], s, r, Effect(s1, e), r.next, told + Told(e.act))
  {
    var g, t := ChildOutcome(s, k, v, order, next), s.node;
    var w := Widened(t, g.split.value);
    if |w.keys| <= order {
      NodeFits(s0, [], s, k, v, order, next, s1);
      assert [] + g.log == g.log;
    } else {
      NodeSplits(s0, [], s, k, v, order, next, s1);
      TreeSteps.NextGrows(s0, s, k, v, order, next);
      assert t.id in Ids(t) && t.id != g.next;
      assert AfterSplit(s1, t.id, g.next, w) == s1[t.id := LowerHalf(w)][g.next := UpperHalf(w)];
      assert [] + g.log + [PageWrite(t.id, w)] + [PageWrite(g.next, UpperHalf(w))]
          == g.log + [PageWrite(t.id, w), PageWrite(g.next, UpperHalf(w))];
    }
  }

  // ---- What a deletion does ----------------------------------------------------------------------

  /** Pages are changed first, and then logged in this order. */
  function AltersOf(log: seq<Change>): (r: seq<Act>)
    ensures |r| == |log|
  {
    seq(|log|, i requires 0 <= i < |log| =>
          if log[i].PageWrite? then Alter(log[i].id, log[i].page) else Read(log[i].root))
  }

  function MarksOf(log: seq<Change>): (r: seq<Act>)
    ensures |r| == |log|
  {
    seq(|log|, i requires 0 <= i < |log| =>
          if log[i].PageWrite? then Mark(log[i].id, log[i].page) else Root(log[i].root))
  }

  function DelActs(t: Tree, k: int, order: nat): seq<Act>
    requires order >= 2
    decreases t
  {
    if t.Lf? then [Mark(t.id, Leaf(Remove(t.entries, k), t.next))]
    else if |t.kids| != |t.keys| + 1 then []
    else
      var j := Route(t.keys, k);
      var d := Del(t.kids[j], k, order);
      var n := Nd(t.id, t.keys, t.kids[j := d.node]);
      if NumKeys(d.node) >= order / 2 || !Mendable(n, j) then DelActs(t.kids[j], k, order)
      else DelActs(t.kids[j], k, order) + RepairActs(Mend(n, j, order).log)
  }

  function RepairActs(log: seq<Change>): seq<Act> {
    AltersOf(log) + MarksOf(log)
  }

  lemma {:induction false} MarksEffects(s: Store, log: seq<Change>, es: seq<Event>)
    requires Acts(es) == MarksOf(log)
    ensures Effects(s, es) == Replay(s, log) && ToldAll(es) == log
    decreases |log|
  {
    if log != [] {
      var n := |log| - 1;
      MarksSnoc(log, es);
      MarksEffects(s, log[..n], es[..n]);
      assert log == log[..n] + [log[n]];
    }
  }

  lemma MarksSnoc(log: seq<Change>, es: seq<Event>)
    requires log != [] && Acts(es) == MarksOf(log)
    ensures var n, c := |log| - 1, log[|log| - 1];
            && |es| == |log| && es[n].act == (if c.PageWrite? then Mark(c.id, c.page) else Root(c.root))
            && Acts(es[..n]) == MarksOf(log[..n])
  {
    var n := |log| - 1;
    assert Acts(es)[n] == MarksOf(log)[n];
    assert Acts(es[..n]) == Acts(es)[..n] && MarksOf(log[..n]) == MarksOf(log)[..n];
  }

  /** Changes that are not logged tell nothing, and touch only these pages. */
  lemma {:induction false} AltersEffects(s: Store, log: seq<Change>, es: seq<Event>)
    requires Acts(es) == AltersOf(log)
    ensures ToldAll(es) == [] && forall id :: id !in Touched(log) ==> Agree(s, Effects(s, es), id)
    decreases |log|
  {
    if log != [] {
      var n := |log| - 1;
      assert Acts(es)[n] == AltersOf(log)[n] && AltersOf(log[..n]) == AltersOf(log)[..n];
      assert Acts(es[..n]) == Acts(es)[..n];
      AltersEffects(s, log[..n], es[..n]);
      assert log == log[..n] + [log[n]];
      forall id | id !in Touched(log) ensures Agree(s, Effects(s, es), id) {
        assert id !in Touched(log[..n]) && Agree(s, Effects(s, es[..n]), id);
        assert log[n].PageWrite? ==> log[n] in log && id != log[n].id;
      }
    }
  }

  /** Whatever of the changes was kept, the marks settle it. */
  lemma {:induction false} RepairEffects(s: Store, log: seq<Change>, es: seq<Event>)
    requires Acts(es) == RepairActs(log)
    ensures Effects(s, es) == Replay(s, log) && ToldAll(es) == log
  {
    ActsParts(es, AltersOf(log), MarksOf(log));
    var a, b := es[..|log|], es[|log|..];
    AltersEffects(s, log, a);
    MarksEffects(Effects(s, a), log, b);
    Append(s, a, b);
    ToldAppend(a, b);
    ReplayOverwrites(s, Effects(s, a), log);
    assert [] + log == log;
  }

  lemma {:induction false} DelEffects(s: Store, t: Tree, k: int, order: nat, es: seq<Event>)
    requires order >= 2 && Acts(es) == DelActs(t, k, order)
    ensures Effects(s, es) == Replay(s, Del(t, k, order).log) && ToldAll(es) == Del(t, k, order).log
    decreases t
  {
    if t.Lf? {
      assert es == [es[0]] && Acts(es)[0] == es[0].act;
      One(s, es[0]);
      ReplayOne(s, Del(t, k, order).log[0]);
    } else if |t.kids| == |t.keys| + 1 {
      var j := Route(t.keys, k);
      var d := Del(t.kids[j], k, order);
      var n := Nd(t.id, t.keys, t.kids[j := d.node]);
      if NumKeys(d.node) >= order / 2 || !Mendable(n, j) {
        DelEffects(s, t.kids[j], k, order, es);
      } else {
        var below, log := DelActs(t.kids[j], k, order), Mend(n, j, order).log;
        ActsParts(es, below, RepairActs(log));
        var a, b := es[..|below|], es[|below|..];
        DelEffects(s, t.kids[j], k, order, a);
        RepairEffects(Effects(s, a), log, b);
        Append(s, a, b);
        ToldAppend(a, b);
        ReplayAppend(s, d.log, log);
      }
    } else {
      assert es == [];
    }
  }

  // ---- Operations and runs -------------------------------------------------------------------------

  function OpActs(db: Db, op: Op, order: nat): seq<Act>
    requires order >= 2
  {
    match op
    case Insert(k, v) =>
      var g := Ins(db.tree, k, v, order, db.next);
      InsActs(db.tree, k, v, order, db.next) + RootActs(g)
    case Delete(k) =>
      if !HasKey(db.tree, k) then []
      else DelActs(db.tree, k, order) + CollapseActs(Del(db.tree, k, order))
  }

  function RootActs(g: Grown): seq<Act> {
    if g.split.None? then [] else [NewRoot(g.next, Image(Grow(g))), Root(g.next)]
  }

  function CollapseActs(d: Fixed): seq<Act> {
    if Collapse(d) == d.node then [] else [Root(Collapse(d).id)]
  }

  function RunActs(db: Db, ops: seq<Op>, order: nat): seq<Act>
    requires order >= 2
    decreases |ops|
  {
    if ops == [] then []
    else
      var n := |ops| - 1;
      RunActs(db, ops[..n], order) + OpActs(DoAll(db, ops[..n], order), ops[n], order)
  }

  /** Pages are added only by acts that are logged. */
  lemma {:induction false} EffectsWithin(s: Store, es: seq<Event>)
    ensures forall id :: id in Effects(s, es) ==> id in s || id in Touched(ToldAll(es))
    decreases |es|
  {
    if es != [] {
      var n := |es| - 1;
      EffectsWithin(s, es[..n]);
      TouchedAppend(ToldAll(es[..n]), Told(es[n].act));
      assert forall i :: 0 <= i < |Told(es[n].act)| ==> Told(es[n].act)[i] in Told(es[n].act);
    }
  }

  /** The pages hold the tree exactly, and none lies beyond the next id. */
  ghost predicate Spelled(s: Store, db: Db) {
    Holds(s, db.tree, KEY_LIMIT, true) && forall id :: id in s ==> id < db.next
  }

  /** An operation whose cuts are all kept leaves exactly the pages of the model, and its log. */
  lemma {:induction false} OpExact(s: Store, db: Db, op: Op, order: nat, es: seq<Event>)
    requires Healthy(db, order) && Spelled(s, db) && Acts(es) == OpActs(db, op, order) && NoneLost(es)
    ensures Spelled(Effects(s, es), Do(db, op, order)) && ToldAll(es) == DoLog(db, op, order)
  {
    match op {
      case Insert(k, v) => InsertExact(s, db, k, v, order, es);
      case Delete(k) => DeleteExact(s, db, k, order, es);
    }
    var db' := Do(db, op, order);
    OpBelow(db, op, order, db'.next);
    EffectsWithin(s, es);
    var log := DoLog(db, op, order);
    forall id | id in Touched(log) ensures id < db'.next {
      var i :| 0 <= i < |log| && log[i].PageWrite? && log[i].id == id;
      assert ChangeBelow(log[i], db'.next);
    }
  }

  lemma {:induction false} InsertExact(s: Store, db: Db, k: Key, v: Bytes, order: nat, es: seq<Event>)
    requires Healthy(db, order) && Spelled(s, db) && Acts(es) == OpActs(db, Insert(k, v), order) && NoneLost(es)
    ensures Holds(Effects(s, es), Do(db, Insert(k, v), order).tree, KEY_LIMIT, true)
    ensures ToldAll(es) == DoLog(db, Insert(k, v), order)
  {
    var g, below := Ins(db.tree, k, v, order, db.next), InsActs(db.tree, k, v, order, db.next);
    ActsParts(es, below, RootActs(g));
    var a, b := es[..|below|], es[|below|..];
    assert NoneLost(a);
    InsertWhole(s, db.tree, k, v, order, db.next, db.height);
    InsExact(s, RootSpot(db.tree, db.height), k, v, order, db.next, a);
    assert [] + g.log == g.log;
    Append(s, a, b);
    ToldAppend(a, b);
    if g.split.Some? {
      RootGrown(Effects(s, a), g);
      RootEffects(Effects(s, a), g, b);
    } else {
      assert b == [] && es == a;
    }
  }

  lemma {:induction false} RootEffects(s: Store, g: Grown, b: seq<Event>)
    requires g.split.Some? && Acts(b) == RootActs(g)
    ensures Effects(s, b) == s[g.next := Image(Grow(g))] == s[g.next := Index([], [])][g.next := Image(Grow(g))]
    ensures ToldAll(b) == [Write(Grow(g)), MetaUpdate(g.next)]
  {
    assert b == [b[0]] + [b[1]] && Acts(b)[0] == b[0].act && Acts(b)[1] == b[1].act;
    Append(s, [b[0]], [b[1]]);
    ToldAppend([b[0]], [b[1]]);
    One(s, b[0]);
    One(Effect(s, b[0]), b[1]);
  }

  lemma {:induction false} DeleteExact(s: Store, db: Db, k: Key, order: nat, es: seq<Event>)
    requires Healthy(db, order) && Holds(s, db.tree, KEY_LIMIT, true) && Acts(es) == OpActs(db, Delete(k), order)
    ensures Holds(Effects(s, es), Do(db, Delete(k), order).tree, KEY_LIMIT, true)
    ensures ToldAll(es) == DoLog(db, Delete(k), order)
  {
    if HasKey(db.tree, k) {
      var d, below := Del(db.tree, k, order), DelActs(db.tree, k, order);
      ActsParts(es, below, CollapseActs(d));
      var a, b := es[..|below|], es[|below|..];
      DelEffects(s, db.tree, k, order, a);
      CollapseEffects(s, d, Effects(s, a), b);
      Append(s, a, b);
      ToldAppend(a, b);
      DeleteReplay(s, db.tree, k, order, db.height, true);
    } else {
      assert es == [];
    }
  }

  lemma {:induction false} CollapseEffects(s: Store, d: Fixed, s1: Store, b: seq<Event>)
    requires Acts(b) == CollapseActs(d) && s1 == Replay(s, d.log)
    ensures Effects(s1, b) == Replay(s, CollapseLog(d)) && d.log + ToldAll(b) == CollapseLog(d)
  {
    if Collapse(d) != d.node {
      var m := MetaUpdate(Collapse(d).id);
      assert b == [b[0]] && Acts(b)[0] == b[0].act;
      One(s1, b[0]);
      ReplayAppend(s, d.log, [m]);
      ReplayOne(s1, m);
    } else {
      assert b == [] && d.log + [] == d.log;
    }
  }

  /** So does a run. */
  lemma {:induction false} RunExact(s: Store, db: Db, ops: seq<Op>, order: nat, es: seq<Event>)
    requires Healthy(db, order) && Spelled(s, db) && Acts(es) == RunActs(db, ops, order) && NoneLost(es)
    ensures Spelled(Effects(s, es), DoAll(db, ops, order)) && ToldAll(es) == LogAll(db, ops, order)
    decreases |ops|
  {
    if ops == [] {
      assert es == [];
    } else {
      var n := |ops| - 1;
      var mid, below := DoAll(db, ops[..n], order), RunActs(db, ops[..n], order);
      ActsParts(es, below, OpActs(mid, ops[n], order));
      var a, b := es[..|below|], es[|below|..];
      assert NoneLost(a) && NoneLost(b);
      RunExact(s, db, ops[..n], order, a);
      HealthyRun(db, ops[..n], order);
      OpExact(Effects(s, a), mid, ops[n], order, b);
      Append(s, a, b);
      ToldAppend(a, b);
    }
  }

  // ---- When a cut is lost --------------------------------------------------------------------------

  ghost predicate NoAlters(es: seq<Event>) {
    forall i :: 0 <= i < |es| ==> !es[i].act.Alter?
  }

  /** The same acts with every cut kept, or every cut lost. */
  function With(es: seq<Event>, kept: bool): (r: seq<Event>)
    ensures |r| == |es| && Acts(r) == Acts(es)
  {
    seq(|es|, i requires 0 <= i < |es| => if es[i].act.Halve? then es[i].(kept := kept) else es[i])
  }

  lemma WithSnoc(es: seq<Event>, kept: bool)
    requires es != []
    ensures var n := |es| - 1;
            With(es, kept)[..n] == With(es[..n], kept)
            && With(es, kept)[n] == if es[n].act.Halve? then es[n].(kept := kept) else es[n]
  {
  }

  /** A page is as if all cuts had been lost when its own is, and else as if all had been kept. */
  lemma {:induction false} Mixed(s: Store, es: seq<Event>, id: PageId)
    requires NoAlters(es)
    ensures Agree(Effects(s, es), Effects(s, With(es, id !in Lost(es))), id)
    decreases |es|
  {
    if es != [] {
      var n := |es| - 1;
      Mixed(s, es[..n], id);
      WithSnoc(es, true);
      WithSnoc(es, false);
    }
  }

  lemma {:induction false} AllLost(s: Store, es: seq<Event>)
    requires NoAlters(es) && forall i :: 0 <= i < |es| && es[i].act.Halve? ==> !es[i].kept
    ensures Effects(s, es) == Replay(s, ToldAll(es))
    decreases |es|
  {
    if es != [] {
      var n := |es| - 1;
      var s1, a := Effects(s, es[..n]), es[n].act;
      AllLost(s, es[..n]);
      ReplayAppend(s, ToldAll(es[..n]), Told(a));
      ToldReplay(s1, es[n]);
    }
  }

  lemma ToldReplay(s: Store, e: Event)
    requires !e.act.Alter? && (e.act.Halve? ==> !e.kept)
    ensures Effect(s, e) == Replay(s, Told(e.act))
  {
    var told := Told(e.act);
    if |told| == 1 {
      ReplayOne(s, told[0]);
    } else if |told| == 2 {
      ReplayTwo(s, told[0], told[1]);
    }
  }

  lemma ToldWith(es: seq<Event>, kept: bool)
    ensures ToldAll(With(es, kept)) == ToldAll(es)
    decreases |es|
  {
    if es != [] {
      WithSnoc(es, kept);
      ToldWith(es[..|es| - 1], kept);
    }
  }

  /** Only pages that the operation cuts can be lost. */
  lemma {:induction false} LostAreCut(t: Tree, k: Key, v: Bytes, order: nat, next: PageId, es: seq<Event>)
    requires order >= 2 && Acts(es) == InsActs(t, k, v, order, next)
    ensures Lost(es) <= Cuts(t, k, v, order, next) && NoAlters(es)
    decreases t
  {
    if t.Lf? {
      assert es == [es[0]] && Acts(es)[0] == es[0].act;
      assert es[..0] == [];
    } else if |t.kids| == |t.keys| + 1 {
      var j := Route(t.keys, k);
      var g := Ins(t.kids[j], k, v, order, next);
      var below := InsActs(t.kids[j], k, v, order, next);
      ActsParts(es, below, if g.split.None? then [] else [NodeAct(t, g.split.value, order, g.next)]);
      LostAreCut(t.kids[j], k, v, order, next, es[..|below|]);
      if g.split.Some? {
        InsNoMeta(t.kids[j], k, v, order, next, 0);
        AdoptImage(t, j, g.left, g.split.value);
        assert es[|below|..] == [es[|below|]] && Acts(es[|below|..])[0] == es[|below|].act;
        assert es[..|es| - 1] == es[..|below|];
      } else {
        assert es == es[..|below|];
      }
    } else {
      assert es == [];
    }
  }

  lemma {:induction false} LostOfInsert(db: Db, k: Key, v: Bytes, order: nat, es: seq<Event>)
    requires order >= 2 && Acts(es) == OpActs(db, Insert(k, v), order)
    ensures Lost(es) <= Cuts(db.tree, k, v, order, db.next) && NoAlters(es)
  {
    var g, below := Ins(db.tree, k, v, order, db.next), InsActs(db.tree, k, v, order, db.next);
    ActsParts(es, below, RootActs(g));
    var a, b, n := es[..|below|], es[|below|..], |es|;
    LostAreCut(db.tree, k, v, order, db.next, a);
    if g.split.Some? {
      assert Acts(b)[0] == b[0].act == es[n - 2].act && Acts(b)[1] == b[1].act == es[n - 1].act;
      assert es[..n - 1][..n - 2] == a && es[..n - 1][n - 2] == es[n - 2];
      forall i | 0 <= i < n ensures !es[i].act.Alter? {
        assert i < n - 2 ==> es[i] == a[i];
      }
    } else {
      assert es == a;
    }
  }

  /** Pages that are as in a store that holds the tree, or exactly those of the tree, hold it too. */
  lemma {:induction false} MixHolds(s: Store, s': Store, t: Tree, hi: int)
    requires Holds(s, t, hi, false) && Distinct(Ids(t))
    requires forall id :: id in Ids(t) ==> id in s' && ((id in s && s'[id] == s[id]) || PageOf(t, id) == Some(s'[id]))
    ensures Holds(s', t, hi, false)
    decreases t
  {
    assert t.id in Ids(t);
    if t.Nd? {
      KidsDistinct(t);
      forall i {:trigger t.kids[i]} | 0 <= i < |t.kids| ensures Holds(s', t.kids[i], Upper(t.keys, hi, i), false) {
        KidAmong(t.kids, i);
        assert forall id :: Ids(t.kids[i])[id] <= IdsOf(t.kids)[id] <= Ids(t)[id];
        forall id | id in Ids(t.kids[i])
          ensures id in s' && ((id in s && s'[id] == s[id]) || PageOf(t.kids[i], id) == Some(s'[id]))
        {
          KidPage(t, i, id);
        }
        MixHolds(s, s', t.kids[i], Upper(t.keys, hi, i));
      }
    }
  }

  /** After one insertion the pages are exactly those of the tree if and only if no cut was lost; lookups are right
      either way. */
  lemma {:induction false} InsertKept(s: Store, db: Db, k: Key, v: Bytes, order: nat, es: seq<Event>)
    requires Healthy(db, order) && Spelled(s, db) && Acts(es) == OpActs(db, Insert(k, v), order)
    ensures var t := Do(db, Insert(k, v), order).tree;
            && (Holds(Effects(s, es), t, KEY_LIMIT, true) <==> Lost(es) == {})
            && Holds(Effects(s, es), t, KEY_LIMIT, false)
  {
    var op, s1 := Insert(k, v), Effects(s, es);
    var db', log := Do(db, op, order), DoLog(db, op, order);
    var kept, lost := Effects(s, With(es, true)), Replay(s, log);
    LostOfInsert(db, k, v, order, es);
    DoKeeps(db, op, order);
    InsertExact(s, db, k, v, order, With(es, true));
    ToldWith(es, true);
    ToldWith(es, false);
    AllLost(s, With(es, false));
    HoldsInexact(s, db.tree, KEY_LIMIT);
    DoReplay(s, db, op, order);
    forall id ensures Agree(s1, if id in Lost(es) then lost else kept, id) {
      Mixed(s, es, id);
    }
    PagesKept(s, s1, kept, lost, db, op, order, Lost(es));
  }

  lemma {:induction false} PagesKept(s: Store, s1: Store, kept: Store, lost: Store, db: Db, op: Op, order: nat,
                                     gone: set<PageId>)
    requires Healthy(db, order) && Healthy(Do(db, op, order), order) && lost == Replay(s, DoLog(db, op, order))
    requires Holds(kept, Do(db, op, order).tree, KEY_LIMIT, true)
             && Holds(lost, Do(db, op, order).tree, KEY_LIMIT, false)
    requires gone <= CutsOf(db, op, order) && forall id :: Agree(s1, if id in gone then lost else kept, id)
    ensures Holds(s1, Do(db, op, order).tree, KEY_LIMIT, true) <==> gone == {}
    ensures Holds(s1, Do(db, op, order).tree, KEY_LIMIT, false)
  {
    var t := Do(db, op, order).tree;
    forall id | id in Ids(t) ensures id in s1 && ((id in lost && s1[id] == lost[id]) || PageOf(t, id) == Some(s1[id])) {
      HeldPage(kept, t, KEY_LIMIT, id);
      OpFate(s, db, op, order, id);
      assert Agree(s1, if id in gone then lost else kept, id);
    }
    MixHolds(lost, s1, t, KEY_LIMIT);
    if gone == {} {
      SameStore(s1, kept, lost, gone);
    } else {
      var id :| id in gone;
      CutStays(db, op, order, id);
      OpFate(s, db, op, order, id);
      assert Agree(s1, if id in gone then lost else kept, id);
      if Holds(s1, t, KEY_LIMIT, true) {
        HeldPage(s1, t, KEY_LIMIT, id);
      }
    }
  }

  lemma SameStore(s: Store, kept: Store, lost: Store, gone: set<PageId>)
    requires gone == {} && forall id :: Agree(s, if id in gone then lost else kept, id)
    ensures s == kept
  {
    forall id ensures Agree(s, kept, id) {
      assert Agree(s, if id in gone then lost else kept, id);
    }
    assert forall id :: id in s ==> Agree(s, kept, id);
    assert forall id :: id in kept ==> Agree(s, kept, id);
  }

  /** A page that is cut is a page of the tree still. */
  lemma {:induction false} CutStays(db: Db, op: Op, order: nat, id: PageId)
    requires Healthy(db, order) && id in CutsOf(db, op, order)
    ensures id in Ids(Do(db, op, order).tree)
  {
    CutsInside(db.tree, op.key, op.record, order, db.next);
    InsertIds(db.tree, op.key, op.record, order, db.next, RootLeast(db.tree), db.height);
  }
}
