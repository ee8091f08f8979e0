/** Replaying the log: automatic writes at once, bracketed writes when their commit record is whole. */
module WalRecovery {
  import opened Entries
  import opened WalFormat

  type Image = (nat, Bytes)

  type DataFile = map<nat, Bytes>

  /** What replay has done and what it holds back; root is the last root record applied, if any. */
  datatype Replay = Replay(writes: seq<Image>, root: Option<Option<nat>>, active: Option<nat>,
                           pages: seq<Image>, metas: seq<Option<nat>>, nextLsn: nat)

  function Begin(nextLsn: nat): Replay {
    Replay([], None, None, [], [], nextLsn)
  }

  function LastOr(metas: seq<Option<nat>>, root: Option<Option<nat>>): Option<Option<nat>> {
    if metas == [] then root else Some(metas[|metas| - 1])
  }

  function Max(a: int, b: int): int {
    if a >= b then a else b
  }

  /** One record. */
  function Take(s: Replay, r: LogRecord): Replay {
    var s := s.(nextLsn := Max(s.nextLsn, r.lsn + 1));
    match r.kind
    case PageWrite(id, image) =>
      if s.active == None then s.(writes := s.writes + [(id, image)]) else s.(pages := s.pages + [(id, image)])
    case MetaUpdate(root) =>
      if s.active == None then s.(root := Some(root)) else s.(metas := s.metas + [root])
    case TxnBegin(t) => s.(active := Some(t), pages := [], metas := [])
    case TxnCommit(t) =>
      if s.active == Some(t) then Replay(s.writes + s.pages, LastOr(s.metas, s.root), None, [], [], s.nextLsn)
      else s.(active := None, pages := [], metas := [])
    case TxnAbort(_) => s.(active := None, pages := [], metas := [])
    case Checkpoint => s
  }

  function TakeAll(s: Replay, rs: seq<LogRecord>): Replay
    decreases |rs|
  {
    if rs == [] then s else Take(TakeAll(s, rs[..|rs| - 1]), rs[|rs| - 1])
  }

  lemma {:induction false} TakeAppend(s: Replay, a: seq<LogRecord>, b: seq<LogRecord>)
    ensures TakeAll(s, a + b) == TakeAll(TakeAll(s, a), b)
    decreases |b|
  {
    if b == [] {
      assert a + b == a;
    } else {
      assert (a + b)[..|a + b| - 1] == a + b[..|b| - 1];
      TakeAppend(s, a, b[..|b| - 1]);
    }
  }

  // ---- Logs of automatic changes and contiguous transactions ----------------------------------

  datatype Item = Auto(r: LogRecord) | Bracket(first: LogRecord, body: seq<LogRecord>, last: LogRecord)

  predicate IsChange(r: LogRecord) {
    r.kind.PageWrite? || r.kind.MetaUpdate? || r.kind.Checkpoint?
  }

  /** What may stand outside a transaction: a change, or the abort record of a rollback, which never opened a
      bracket. */
  predicate IsLoose(r: LogRecord) {
    IsChange(r) || r.kind.TxnAbort?
  }

  predicate Proper(i: Item) {
    match i
    case Auto(r) => IsLoose(r)
    case Bracket(first, body, last) =>
      && first.kind.TxnBegin?
      && (last.kind == TxnCommit(first.kind.txn) || last.kind == TxnAbort(first.kind.txn))
      && forall r :: r in body ==> IsChange(r)
  }

  function Records(i: Item): seq<LogRecord> {
    match i
    case Auto(r) => [r]
    case Bracket(first, body, last) => [first] + body + [last]
  }

  function Flatten(items: seq<Item>): seq<LogRecord>
    decreases |items|
  {
    if items == [] then [] else Flatten(items[..|items| - 1]) + Records(items[|items| - 1])
  }

  /** The changes an item stands for: an automatic one itself, a transaction's only if it committed. */
  function Effect(i: Item): seq<LogRecord> {
    match i
    case Auto(r) => [r]
    case Bracket(_, body, last) => if last.kind.TxnCommit? then body else []
  }

  function Effects(items: seq<Item>): seq<LogRecord>
    decreases |items|
  {
    if items == [] then [] else Effects(items[..|items| - 1]) + Effect(items[|items| - 1])
  }

  function PagesOf(rs: seq<LogRecord>): seq<Image>
    decreases |rs|
  {
    if rs == [] then []
    else
      var before := PagesOf(rs[..|rs| - 1]);
      match rs[|rs| - 1].kind
      case PageWrite(id, image) => before + [(id, image)]
      case _ => before
  }

  function MetasOf(rs: seq<LogRecord>): seq<Option<nat>>
    decreases |rs|
  {
    if rs == [] then []
    else
      var before := MetasOf(rs[..|rs| - 1]);
      match rs[|rs| - 1].kind
      case MetaUpdate(root) => before + [root]
      case _ => before
  }

  lemma {:induction false} PagesAppend(a: seq<LogRecord>, b: seq<LogRecord>)
    ensures PagesOf(a + b) == PagesOf(a) + PagesOf(b) && MetasOf(a + b) == MetasOf(a) + MetasOf(b)
    decreases |b|
  {
    if b == [] {
      assert a + b == a;
    } else {
      assert (a + b)[..|a + b| - 1] == a + b[..|b| - 1];
      PagesAppend(a, b[..|b| - 1]);
    }
  }

  /** No transaction is open, and exactly these changes have been applied, in order. */
  ghost predicate Applied(s0: Replay, s: Replay, done: seq<LogRecord>) {
    && s.writes == s0.writes + PagesOf(done)
    && s.root == LastOr(MetasOf(done), s0.root)
  }

  ghost predicate Idle(s: Replay) {
    s.active == None && s.pages == [] && s.metas == []
  }

  /** Inside an open transaction nothing is applied; its changes pile up. */
  lemma {:induction false} Inside(s: Replay, body: seq<LogRecord>)
    requires s.active.Some? && forall r :: r in body ==> IsChange(r)
    ensures var e := TakeAll(s, body);
            && e.writes == s.writes && e.root == s.root && e.active == s.active
            && e.pages == s.pages + PagesOf(body) && e.metas == s.metas + MetasOf(body)
    decreases |body|
  {
    if body != [] {
      var init, r := body[..|body| - 1], body[|body| - 1];
      assert body == init + [r];
      assert r in body;
      Inside(s, init);
    }
  }

  /** A whole item, from an idle state to an idle state. */
  lemma {:induction false} TakeItem(s0: Replay, s: Replay, done: seq<LogRecord>, i: Item)
    requires Proper(i) && Idle(s) && Applied(s0, s, done)
    ensures Idle(TakeAll(s, Records(i))) && Applied(s0, TakeAll(s, Records(i)), done + Effect(i))
  {
    match i
    case Auto(r) => TakeSingle(s, r);
    case Bracket(first, body, last) => TakeBracket(s, i);
    AppliedMore(s0, s, done, TakeAll(s, Records(i)), Effect(i));
  }

  lemma {:induction false} AppliedMore(s0: Replay, s: Replay, done: seq<LogRecord>, e: Replay, more: seq<LogRecord>)
    requires Applied(s0, s, done) && e.writes == s.writes + PagesOf(more) && e.root == LastOr(MetasOf(more), s.root)
    ensures Applied(s0, e, done + more)
  {
    PagesAppend(done, more);
    Joined(s0.writes, PagesOf(done), PagesOf(more));
  }

  lemma Joined(a: seq<Image>, b: seq<Image>, c: seq<Image>)
    ensures a + b + c == a + (b + c)
  {
  }

  lemma {:induction false} TakeSingle(s: Replay, r: LogRecord)
    ensures TakeAll(s, [r]) == Take(s, r)
    ensures PagesOf([r]) == if r.kind.PageWrite? then [(r.kind.id, r.kind.image)] else []
    ensures MetasOf([r]) == if r.kind.MetaUpdate? then [r.kind.root] else []
  {
    assert [r][..0] == [];
    assert TakeAll(s, [r]) == Take(TakeAll(s, []), r);
  }

  /** A whole bracket applies its body when it ends in a commit, and nothing otherwise. */
  lemma {:induction false} TakeBracket(s: Replay, i: Item)
    requires i.Bracket? && Proper(i) && Idle(s)
    ensures var e := TakeAll(s, Records(i));
            && Idle(e) && e.writes == s.writes + PagesOf(Effect(i)) && e.root == LastOr(MetasOf(Effect(i)), s.root)
  {
    OpenItem(s, i, |i.body|);
    assert i.body[..|i.body|] == i.body;
    assert Records(i)[..|i.body| + 1] == [i.first] + i.body;
  }

  /** An unfinished transaction: its first record and part of its body. */
  lemma {:induction false} OpenItem(s: Replay, i: Item, j: nat)
    requires i.Bracket? && Proper(i) && Idle(s) && j <= |i.body|
    ensures var e := TakeAll(s, [i.first] + i.body[..j]);
            && e.writes == s.writes && e.root == s.root && e.active == Some(i.first.kind.txn)
            && e.pages == PagesOf(i.body[..j]) && e.metas == MetasOf(i.body[..j])
  {
    TakeAppend(s, [i.first], i.body[..j]);
    assert [i.first][..0] == [];
    assert TakeAll(s, [i.first]) == Take(TakeAll(s, []), i.first);
    Inside(Take(s, i.first), i.body[..j]);
  }

  /** A proper part of an item applies nothing. */
  lemma {:induction false} PartItem(s: Replay, i: Item, n: nat)
    requires Proper(i) && Idle(s) && n < |Records(i)|
    ensures var e := TakeAll(s, Records(i)[..n]);
            e.writes == s.writes && e.root == s.root
  {
    if n > 0 {
      assert Records(i)[..n] == [i.first] + i.body[..n - 1];
      OpenItem(s, i, n - 1);
    }
  }

  lemma {:induction false} TakeItems(s0: Replay, items: seq<Item>)
    requires Idle(s0) && forall i :: i in items ==> Proper(i)
    ensures Idle(TakeAll(s0, Flatten(items))) && Applied(s0, TakeAll(s0, Flatten(items)), Effects(items))
    decreases |items|
  {
    if items != [] {
      var init, i := items[..|items| - 1], items[|items| - 1];
      assert items == init + [i];
      TakeItems(s0, init);
      TakeAppend(s0, Flatten(init), Records(i));
      TakeItem(s0, TakeAll(s0, Flatten(init)), Effects(init), i);
    }
  }

  /** How many items the first n records hold whole. */
  function WholeItems(items: seq<Item>, n: nat): (m: nat)
    ensures m <= |items|
    decreases |items|
  {
    if items == [] || n >= |Flatten(items)| then |items| else WholeItems(items[..|items| - 1], n)
  }

  /** A log cut after n records: exactly the items that are whole before the cut take effect. */
  lemma {:induction false} CutItems(s0: Replay, items: seq<Item>, n: nat)
    requires Idle(s0) && (forall i :: i in items ==> Proper(i)) && n <= |Flatten(items)|
    ensures Applied(s0, TakeAll(s0, Flatten(items)[..n]), Effects(items[..WholeItems(items, n)]))
    decreases |items|
  {
    var all := Flatten(items);
    if items == [] || n == |all| {
      assert all[..n] == all && items[..|items|] == items;
      TakeItems(s0, items);
    } else {
      var init, i := items[..|items| - 1], items[|items| - 1];
      assert items == init + [i];
      if n < |Flatten(init)| {
        CutItems(s0, init, n);
      }
      CutBeforeLast(s0, init, i, n);
    }
  }

  /** The last item is not whole: it is cut off, or nothing of it takes effect. */
  lemma {:induction false} CutBeforeLast(s0: Replay, init: seq<Item>, i: Item, n: nat)
    requires Idle(s0) && (forall i :: i in init ==> Proper(i)) && Proper(i) && n < |Flatten(init + [i])|
    requires n < |Flatten(init)| ==>
               Applied(s0, TakeAll(s0, Flatten(init)[..n]), Effects(init[..WholeItems(init, n)]))
    ensures Applied(s0, TakeAll(s0, Flatten(init + [i])[..n]), Effects((init + [i])[..WholeItems(init + [i], n)]))
  {
    CutLast(init, i, n);
    assert (init + [i])[..WholeItems(init + [i], n)] == init[..WholeItems(init, n)];
    if n >= |Flatten(init)| {
      assert init[..|init|] == init;
      CutInside(s0, init, i, n - |Flatten(init)|);
    }
  }

  /** The cut is before the last item, or inside it. */
  lemma {:induction false} CutLast(init: seq<Item>, i: Item, n: nat)
    requires n < |Flatten(init + [i])|
    ensures Flatten(init + [i]) == Flatten(init) + Records(i)
    ensures WholeItems(init + [i], n) == WholeItems(init, n)
    ensures n >= |Flatten(init)| ==> WholeItems(init, n) == |init|
    ensures Flatten(init + [i])[..n] == if n < |Flatten(init)| then Flatten(init)[..n]
            else Flatten(init) + Records(i)[..n - |Flatten(init)|]
  {
    assert (init + [i])[..|init|] == init;
  }

  /** All items before, and a proper part of one more. */
  lemma {:induction false} CutInside(s0: Replay, init: seq<Item>, i: Item, n: nat)
    requires Idle(s0) && (forall i :: i in init ==> Proper(i)) && Proper(i) && n < |Records(i)|
    ensures Applied(s0, TakeAll(s0, Flatten(init) + Records(i)[..n]), Effects(init))
  {
    TakeItems(s0, init);
    TakeAppend(s0, Flatten(init), Records(i)[..n]);
    PartItem(TakeAll(s0, Flatten(init)), i, n);
  }

  /** Torn-log atomicity: cut the log after any number of bytes, and recovery applies exactly the automatic changes
      and the committed transactions whose records are whole before the cut, in log order. */
  lemma {:induction false} TornAtomicity(crc: CrcFn, items: seq<Item>, n: nat, nextLsn: nat)
    requires (forall i :: i in items ==> Proper(i)) && AllFit(Flatten(items)) && n <= |EncodeAll(crc, Flatten(items))|
    ensures var s := TakeAll(Begin(nextLsn), ParseAll(crc, EncodeAll(crc, Flatten(items))[..n]));
            var done := Effects(items[..WholeItems(items, Whole(crc, Flatten(items), n))]);
            s.writes == PagesOf(done) && s.root == LastOr(MetasOf(done), None)
  {
    TornLog(crc, Flatten(items), n);
    CutItems(Begin(nextLsn), items, Whole(crc, Flatten(items), n));
  }

  // ---- The database file after recovery ----------------------------------------------------------

  function WriteAll(data: DataFile, writes: seq<Image>): DataFile
    decreases |writes|
  {
    if writes == [] then data
    else WriteAll(data, writes[..|writes| - 1])[writes[|writes| - 1].0 := writes[|writes| - 1].1]
  }

  function MaxId(writes: seq<Image>): int
    decreases |writes|
  {
    if writes == [] then -1 else Max(MaxId(writes[..|writes| - 1]), writes[|writes| - 1].0)
  }

  /** The pages, the root and the next page id, as the data file and its meta page keep them. */
  datatype Db = Db(data: DataFile, root: Option<nat>, next: nat)

  function Recover(db: Db, s: Replay): Db {
    Db(WriteAll(db.data, s.writes), if s.root.Some? then s.root.value else db.root, Max(db.next, MaxId(s.writes) + 1))
  }

  function Written(writes: seq<Image>): set<nat> {
    set w | w in writes :: w.0
  }

  lemma {:induction false} WriteAgain(data: DataFile, data': DataFile, writes: seq<Image>)
    requires forall id :: id !in Written(writes) ==>
               (id in data <==> id in data')
               && (id in data ==> data[id] == data'[id])
    ensures WriteAll(data, writes) == WriteAll(data', writes)
  {
    var d, d' := WriteAll(data, writes), WriteAll(data', writes);
    forall id ensures (id in d <==> id in d') && (id in d ==> d[id] == d'[id]) {
      SameAfter(data, data', writes, id);
    }
    assert d.Keys == d'.Keys;
  }

  lemma {:induction false} SameAfter(data: DataFile, data': DataFile, writes: seq<Image>, id: nat)
    requires id in Written(writes) || ((id in data <==> id in data') && (id in data ==> data[id] == data'[id]))
    ensures var d, d' := WriteAll(data, writes), WriteAll(data', writes);
            (id in d <==> id in d') && (id in d ==> d[id] == d'[id])
    decreases |writes|
  {
    if writes != [] {
      var init, w := writes[..|writes| - 1], writes[|writes| - 1];
      assert writes == init + [w];
      if w.0 != id {
        SameAfter(data, data', init, id);
      }
    }
  }

  lemma {:induction false} Unwritten(data: DataFile, writes: seq<Image>, id: nat)
    requires id !in Written(writes)
    ensures var d := WriteAll(data, writes); (id in d <==> id in data) && (id in data ==> d[id] == data[id])
    decreases |writes|
  {
    if writes != [] {
      var init, w := writes[..|writes| - 1], writes[|writes| - 1];
      assert writes == init + [w];
      assert w in writes;
      Unwritten(data, init, id);
    }
  }

  /** Recovery that stopped after any number of page writes, and is run again from the same log, ends the same. */
  lemma {:induction false} RecoverRestarts(db: Db, s: Replay, n: nat)
    requires n <= |s.writes|
    ensures Recover(db.(data := WriteAll(db.data, s.writes[..n])), s) == Recover(db, s)
  {
    var part := WriteAll(db.data, s.writes[..n]);
    forall id | id !in Written(s.writes)
      ensures (id in part <==> id in db.data) && (id in part ==> part[id] == db.data[id])
    {
      assert Written(s.writes[..n]) <= Written(s.writes);
      Unwritten(db.data, s.writes[..n], id);
    }
    WriteAgain(part, db.data, s.writes);
  }

  /** So does recovery that was complete, meta page included, when the log had not been truncated yet. */
  lemma {:induction false} RecoverTwice(db: Db, s: Replay)
    ensures Recover(Recover(db, s), s) == Recover(db, s)
  {
    assert s.writes[..|s.writes|] == s.writes;
    RecoverRestarts(db, s, |s.writes|);
  }

  /** A checkpoint record that was written before the truncation changes nothing. */
  lemma {:induction false} CheckpointTail(db: Db, s: Replay, rs: seq<LogRecord>, r: LogRecord)
    requires r.kind.Checkpoint?
    ensures Recover(db, TakeAll(s, rs + [r])) == Recover(db, TakeAll(s, rs))
  {
    TakeAppend(s, rs, [r]);
    assert [r][..0] == [];
    assert TakeAll(TakeAll(s, rs), [r]) == Take(TakeAll(TakeAll(s, rs), []), r);
  }
}
