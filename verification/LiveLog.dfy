/** The log records since the last checkpoint: what replay of any of their prefixes does to a data file that the
    write-ahead rule has protected. */
module LiveLog {
  import opened Entries
  import opened WalFormat
  import opened WalRecovery

  // ---- Which records take effect ------------------------------------------------------------

  /** Replay ends outside any transaction and has applied every change. */
  ghost predicate Settled(rs: seq<LogRecord>) {
    Idle(TakeAll(Begin(0), rs)) && Applied(Begin(0), TakeAll(Begin(0), rs), rs)
  }

  ghost predicate AllLoose(rs: seq<LogRecord>) {
    forall i :: 0 <= i < |rs| ==> IsLoose(rs[i])
  }

  ghost predicate AllChanges(rs: seq<LogRecord>) {
    forall i :: 0 <= i < |rs| ==> IsChange(rs[i])
  }

  lemma {:induction false} SettledOne(rs: seq<LogRecord>, r: LogRecord)
    requires Settled(rs) && IsLoose(r)
    ensures Settled(rs + [r])
  {
    TakeAppend(Begin(0), rs, [r]);
    TakeItem(Begin(0), TakeAll(Begin(0), rs), rs, Auto(r));
  }

  lemma {:induction false} SettledMore(rs: seq<LogRecord>, more: seq<LogRecord>)
    requires Settled(rs) && AllLoose(more)
    ensures Settled(rs + more)
    decreases |more|
  {
    if more == [] {
      assert rs + more == rs;
    } else {
      var n := |more| - 1;
      SettledMore(rs, more[..n]);
      SettledOne(rs + more[..n], more[n]);
      assert rs + more == rs + more[..n] + [more[n]];
    }
  }

  /** A committed bracket settles what was written inside it. */
  lemma {:induction false} SettledBracket(rs: seq<LogRecord>, first: LogRecord, body: seq<LogRecord>, last: LogRecord)
    requires Settled(rs) && first.kind.TxnBegin? && last.kind == TxnCommit(first.kind.txn) && AllChanges(body)
    ensures Settled(rs + ([first] + body + [last]))
  {
    var i := Bracket(first, body, last);
    TakeAppend(Begin(0), rs, Records(i));
    TakeItem(Begin(0), TakeAll(Begin(0), rs), rs, i);
    PagesAppend(rs, Records(i));
    PagesAppend([first] + body, [last]);
    PagesAppend([first], body);
    PagesAppend(rs, body);
    NoPages(first);
    NoPages(last);
  }

  lemma NoPages(r: LogRecord)
    requires !r.kind.PageWrite? && !r.kind.MetaUpdate?
    ensures PagesOf([r]) == [] && MetasOf([r]) == []
  {
    assert [r][..0] == [];
  }

  /** The log as the pager keeps it: what is durable is settled; what is not are single changes, or single changes, the
      begin record of the transaction that is being applied, and its changes. */
  ghost predicate InOrder(live: seq<LogRecord>, durable: nat, open: Option<nat>) {
    && durable <= |live| && Settled(live[..durable])
    && match open
       case None => AllLoose(live[durable..])
       case Some(b) =>
         && durable <= b < |live| && AllLoose(live[durable..b])
         && live[b].kind.TxnBegin? && AllChanges(live[b + 1..])
  }

  lemma {:induction false} OrderMore(live: seq<LogRecord>, durable: nat, open: Option<nat>, r: LogRecord)
    requires InOrder(live, durable, open) && if open.Some? then IsChange(r) else IsLoose(r)
    ensures InOrder(live + [r], durable, open)
  {
    assert (live + [r])[..durable] == live[..durable];
    if open.Some? {
      assert (live + [r])[durable..open.value] == live[durable..open.value];
    }
  }

  lemma {:induction false} OrderOpens(live: seq<LogRecord>, durable: nat, r: LogRecord)
    requires InOrder(live, durable, None) && r.kind.TxnBegin?
    ensures InOrder(live + [r], durable, Some(|live|))
  {
    assert (live + [r])[..durable] == live[..durable];
    assert (live + [r])[durable..|live|] == live[durable..];
  }

  /** Outside a transaction, more of the log becomes durable. */
  lemma {:induction false} OrderDurable(live: seq<LogRecord>, durable: nat, durable': nat)
    requires InOrder(live, durable, None) && durable <= durable' <= |live|
    ensures InOrder(live, durable', None)
  {
    SettledMore(live[..durable], live[durable..durable']);
    assert live[..durable'] == live[..durable] + live[durable..durable'];
  }

  /** The commit record closes the transaction, and everything becomes durable with it. */
  lemma {:induction false} OrderCommits(live: seq<LogRecord>, durable: nat, b: nat, r: LogRecord)
    requires InOrder(live, durable, Some(b)) && r.kind == TxnCommit(live[b].kind.txn)
    ensures InOrder(live + [r], |live| + 1, None)
  {
    SettledMore(live[..durable], live[durable..b]);
    assert live[..b] == live[..durable] + live[durable..b];
    SettledBracket(live[..b], live[b], live[b + 1..], r);
    assert live + [r] == live[..b] + ([live[b]] + live[b + 1..] + [r]);
    assert (live + [r])[..|live| + 1] == live + [r];
  }

  /** Until the begin record of an open transaction, the log is settled wherever it is cut. */
  lemma {:induction false} SettledCut(live: seq<LogRecord>, durable: nat, open: Option<nat>, n: nat)
    requires InOrder(live, durable, open) && durable <= n <= |live| && (open.Some? ==> n <= open.value)
    ensures Settled(live[..n])
  {
    var loose := live[durable..if open.Some? then open.value else |live|];
    assert AllLoose(loose);
    assert live[durable..n] == loose[..n - durable];
    SettledMore(live[..durable], live[durable..n]);
    assert live[..n] == live[..durable] + live[durable..n];
  }

  /** How much of a log cut after n records takes effect: nothing of a transaction whose commit record is not there. */
  function Effective(open: Option<nat>, n: nat): nat {
    if open.Some? && n > open.value then open.value else n
  }

  lemma CutParts(live: seq<LogRecord>, b: nat, n: nat)
    requires b < n <= |live|
    ensures live[..n] == live[..b] + ([live[b]] + live[b + 1..][..n - b - 1])
  {
  }

  lemma {:induction false} CutReplay(live: seq<LogRecord>, durable: nat, open: Option<nat>, n: nat)
    requires InOrder(live, durable, open) && durable <= n <= |live|
    ensures Applied(Begin(0), TakeAll(Begin(0), live[..n]), live[..Effective(open, n)])
  {
    if open.Some? && n > open.value {
      var b := open.value;
      SettledCut(live, durable, open, b);
      var i := Bracket(live[b], live[b + 1..], LogRecord(0, TxnCommit(live[b].kind.txn)));
      OpenItem(TakeAll(Begin(0), live[..b]), i, n - b - 1);
      TakeAppend(Begin(0), live[..b], [live[b]] + i.body[..n - b - 1]);
      CutParts(live, b, n);
    } else {
      SettledCut(live, durable, open, n);
    }
  }

  // ---- Replay from any number -----------------------------------------------------------------

  /** The number that replay starts counting from plays no part in what it applies. */
  lemma {:induction false} LsnApart(rs: seq<LogRecord>, lsn: nat)
    ensures var s, s' := TakeAll(Begin(0), rs), TakeAll(Begin(lsn), rs);
            s'.writes == s.writes && s'.root == s.root && s'.active == s.active && s'.pages == s.pages
            && s'.metas == s.metas
    decreases |rs|
  {
    if rs != [] {
      LsnApart(rs[..|rs| - 1], lsn);
    }
  }

  lemma {:induction false} WritesGrow(s: Replay, rs: seq<LogRecord>)
    ensures s.writes <= TakeAll(s, rs).writes
    decreases |rs|
  {
    if rs != [] {
      WritesGrow(s, rs[..|rs| - 1]);
    }
  }

  // ---- The data file behind the log -----------------------------------------------------------

  /** Two data files agree on a page. */
  predicate Same(data: DataFile, data': DataFile, id: nat) {
    (id in data <==> id in data') && (id in data ==> data[id] == data'[id])
  }

  /** What the write-ahead rule is for: a page that existed when the meta page was last written still has the image it
      had then, or the durable log writes it. */
  ghost predicate Guarded(data: DataFile, stable: DataFile, bound: nat, live: seq<LogRecord>, durable: nat) {
    durable <= |live| && forall id: nat :: id < bound ==>
        Same(data, stable, id)
        || id in Written(PagesOf(live[..durable]))
  }

  lemma {:induction false} GuardedMore(data: DataFile, stable: DataFile, bound: nat, live: seq<LogRecord>, durable: nat,
                                       more: seq<LogRecord>, durable': nat)
    requires Guarded(data, stable, bound, live, durable) && durable <= durable' <= |live + more|
    ensures Guarded(data, stable, bound, live + more, durable')
  {
    var now := (live + more)[..durable'];
    assert now == live[..durable] + now[durable..];
    PagesAppend(live[..durable], now[durable..]);
    WrittenGrows(PagesOf(live[..durable]), PagesOf(now[durable..]));
  }

  lemma WrittenGrows(a: seq<Image>, b: seq<Image>)
    ensures Written(a) <= Written(a + b)
  {
    forall w | w in a ensures w in a + b {
    }
  }

  lemma {:induction false} PageIn(rs: seq<LogRecord>, i: nat)
    requires i < |rs| && rs[i].kind.PageWrite?
    ensures rs[i].kind.id in Written(PagesOf(rs))
  {
    assert rs == rs[..i] + [rs[i]] + rs[i + 1..];
    PagesAppend(rs[..i] + [rs[i]], rs[i + 1..]);
    PagesAppend(rs[..i], [rs[i]]);
    assert [rs[i]][..0] == [];
    var w := (rs[i].kind.id, rs[i].kind.image);
    assert PagesOf([rs[i]]) == [w];
    assert w in PagesOf(rs);
  }

  /** Writing a page whose record is durable keeps the guard. */
  lemma {:induction false} GuardedWrite(data: DataFile, stable: DataFile, bound: nat, live: seq<LogRecord>,
                                        durable: nat, id: nat, bs: Bytes, i: nat)
    requires Guarded(data, stable, bound, live, durable)
    requires id >= bound || (i < durable && live[i].kind.PageWrite? && live[i].kind.id == id)
    ensures Guarded(data[id := bs], stable, bound, live, durable)
  {
    if id < bound {
      PageIn(live[..durable], i);
    }
    forall q: nat | q < bound ensures Same(data[id := bs], stable, q) || q in Written(PagesOf(live[..durable])) {
      if q != id {
        assert Same(data, stable, q) || q in Written(PagesOf(live[..durable]));
      }
    }
  }

  /** Crash with any part of the log durable that holds the durable records: recovery from the pages as they were left
      gives the same as recovery from the pages as the last checkpoint left them. */
  lemma {:induction false} GuardedReplay(data: DataFile, stable: DataFile, bound: nat, live: seq<LogRecord>,
                                         durable: nat, open: Option<nat>, n: nat, lsn: nat, id: nat)
    requires Guarded(data, stable, bound, live, durable) && InOrder(live, durable, open) && durable <= n <= |live|
             && id < bound
    ensures var s := TakeAll(Begin(lsn), live[..n]);
            Same(WriteAll(data, s.writes), WriteAll(stable, s.writes), id)
  {
    LsnApart(live[..n], lsn);
    assert live[..n] == live[..durable] + live[durable..n];
    TakeAppend(Begin(0), live[..durable], live[durable..n]);
    var s := TakeAll(Begin(0), live[..durable]);
    WritesGrow(s, live[durable..n]);
    var ws := TakeAll(s, live[durable..n]).writes;
    assert Applied(Begin(0), s, live[..durable]) && s.writes == PagesOf(live[..durable]);
    WrittenGrows(s.writes, ws[|s.writes|..]);
    assert ws == s.writes + ws[|s.writes|..];
    SameAfter(data, stable, ws, id);
  }

  // ---- What the log remembers of each page -----------------------------------------------------

  /** The last image of a page among the writes. */
  function LastImage(ws: seq<Image>, id: nat): Option<Bytes>
    decreases |ws|
  {
    if ws == [] then None
    else if ws[|ws| - 1].0 == id then Some(ws[|ws| - 1].1)
    else LastImage(ws[..|ws| - 1], id)
  }

  lemma {:induction false} LastWritten(data: DataFile, ws: seq<Image>, id: nat)
    ensures match LastImage(ws, id)
            case None => Same(WriteAll(data, ws), data, id)
            case Some(bs) => id in WriteAll(data, ws) && WriteAll(data, ws)[id] == bs
    decreases |ws|
  {
    if ws != [] {
      LastWritten(data, ws[..|ws| - 1], id);
    }
  }

  lemma {:induction false} LastOfWritten(ws: seq<Image>, id: nat)
    ensures LastImage(ws, id).Some? <==> id in Written(ws)
    decreases |ws|
  {
    if ws != [] {
      var n := |ws| - 1;
      assert ws == ws[..n] + [ws[n]];
      LastOfWritten(ws[..n], id);
    }
  }

  lemma LastOfMore(rs: seq<LogRecord>, r: LogRecord, id: nat)
    ensures LastImage(PagesOf(rs + [r]), id)
         == if r.kind.PageWrite? && r.kind.id == id then Some(r.kind.image) else LastImage(PagesOf(rs), id)
    ensures MetasOf(rs + [r]) == if r.kind.MetaUpdate? then MetasOf(rs) + [r.kind.root] else MetasOf(rs)
  {
    assert (rs + [r])[..|rs|] == rs;
    if r.kind.PageWrite? {
      var w := (r.kind.id, r.kind.image);
      assert (PagesOf(rs) + [w])[..|PagesOf(rs)|] == PagesOf(rs);
    }
  }

  /** The records with their bytes cut anywhere: at least what was durable is read back. */
  lemma {:induction false} WholeLeast(crc: CrcFn, rs: seq<LogRecord>, k: nat, m: nat)
    requires k <= |rs| && m >= |EncodeAll(crc, rs[..k])|
    ensures Whole(crc, rs, m) >= k
    decreases |rs|
  {
    if k > 0 {
      assert rs[..k][1..] == rs[1..][..k - 1];
      WholeLeast(crc, rs[1..], k - 1, m - |Encode(crc, rs[0])|);
    }
  }
}
