/** The write-ahead log: records get consecutive numbers, wait in a buffer, and become durable in order. */
module Wal {
  import opened Entries
  import opened WalFormat
  import opened WalRecovery

  lemma {:induction false} WriteAppend(data: DataFile, a: seq<Image>, b: seq<Image>)
    ensures WriteAll(data, a + b) == WriteAll(WriteAll(data, a), b)
    ensures MaxId(a + b) == Max(MaxId(a), MaxId(b))
    decreases |b|
  {
    if b == [] {
      assert a + b == a;
      MaxIdLow(a);
    } else {
      assert (a + b)[..|a + b| - 1] == a + b[..|b| - 1];
      WriteAppend(data, a, b[..|b| - 1]);
    }
  }

  lemma {:induction false} MaxIdLow(a: seq<Image>)
    ensures MaxId(a) >= -1
    decreases |a|
  {
    if a != [] { MaxIdLow(a[..|a| - 1]); }
  }

  /** The largest sequence number in a log, or what it was before. */
  function MaxLsn(next: nat, rs: seq<LogRecord>): nat
    decreases |rs|
  {
    if rs == [] then next else MaxLsn(Max(next, rs[0].lsn + 1), rs[1..])
  }

  lemma {:induction false} MaxLsnAbove(next: nat, rs: seq<LogRecord>)
    ensures next <= MaxLsn(next, rs) && forall r :: r in rs ==> r.lsn < MaxLsn(next, rs)
    ensures MaxLsn(next, rs) == next || exists r :: r in rs && MaxLsn(next, rs) == r.lsn + 1
    decreases |rs|
  {
    if rs != [] {
      MaxLsnAbove(Max(next, rs[0].lsn + 1), rs[1..]);
      assert rs == [rs[0]] + rs[1..];
    }
  }

  /** The bytes of buffered records, one after the other. */
  function Join(buf: seq<(nat, Bytes)>): Bytes
    decreases |buf|
  {
    if buf == [] then [] else Join(buf[..|buf| - 1]) + buf[|buf| - 1].1
  }

  /** Numbers go up. */
  ghost predicate Consecutive(buf: seq<(nat, Bytes)>) {
    forall i, j :: 0 <= i < j < |buf| ==> buf[i].0 < buf[j].0
  }

  /** Numbers go up by one. */
  ghost predicate Numbered(bs: seq<(nat, Bytes)>, first: nat) {
    forall i :: 0 <= i < |bs| ==> bs[i].0 == first + i
  }

  /** Split the buffer at a number. */
  method Partition(buf: seq<(nat, Bytes)>, lsn: nat) returns (toWrite: Bytes, remaining: seq<(nat, Bytes)>, n: nat)
    requires Consecutive(buf)
    ensures n <= |buf| && toWrite == Join(buf[..n]) && remaining == buf[n..]
    ensures forall i :: 0 <= i < |buf| ==> (buf[i].0 <= lsn <==> i < n)
  {
    toWrite, remaining, n := [], [], 0;
    for i := 0 to |buf|
      invariant n <= i && toWrite == Join(buf[..n]) && remaining == buf[n..i]
      invariant forall j :: 0 <= j < i ==> (buf[j].0 <= lsn <==> j < n)
    {
      ghost var e := buf[n];
      assert n < i ==> e.0 < buf[i].0;
      if buf[i].0 <= lsn {
        assert buf[..i + 1][..i] == buf[..i];
        toWrite := toWrite + buf[i].1;
        n := n + 1;
      } else {
        assert buf[n..i + 1] == buf[n..i] + [buf[i]];
        remaining := remaining + [buf[i]];
      }
    }
  }

  lemma {:induction false} JoinAppend(a: seq<(nat, Bytes)>, b: seq<(nat, Bytes)>)
    ensures Join(a + b) == Join(a) + Join(b)
    decreases |b|
  {
    if b == [] {
      assert a + b == a;
    } else {
      assert (a + b)[..|a + b| - 1] == a + b[..|b| - 1];
      JoinAppend(a, b[..|b| - 1]);
    }
  }

  /** The records from j on. */
  ghost predicate Tail(bs: seq<(nat, Bytes)>, j: nat, rest: seq<(nat, Bytes)>) {
    j <= |bs| && rest == bs[j..]
  }

  /** Some more of a run of records. */
  lemma JoinMore(bs: seq<(nat, Bytes)>, i: nat, j: nat, n: nat, rest: seq<(nat, Bytes)>)
    requires i <= j && Tail(bs, j, rest) && n <= |rest|
    ensures Tail(bs, j + n, rest[n..]) && Join(bs[i..j + n]) == Join(bs[i..j]) + Join(rest[..n])
  {
    assert rest[..n] == bs[j..j + n];
    assert bs[i..j + n] == bs[i..j] + bs[j..j + n];
    JoinAppend(bs[i..j], bs[j..j + n]);
  }

  lemma JoinBytes(a: Bytes, b: Bytes, c: Bytes)
    ensures a + b + c == a + (b + c)
  {
  }

  /** A numbered, encoded record. */
  ghost predicate Encodes(crc: CrcFn, b: (nat, Bytes), r: LogRecord) {
    b == (r.lsn, Encode(crc, r))
  }

  ghost predicate AllEncode(crc: CrcFn, bs: seq<(nat, Bytes)>, rs: seq<LogRecord>) {
    |bs| == |rs| && forall i {:trigger Encodes(crc, bs[i], rs[i])} :: 0 <= i < |bs| ==> Encodes(crc, bs[i], rs[i])
  }

  lemma {:induction false} JoinEncoded(crc: CrcFn, bs: seq<(nat, Bytes)>, rs: seq<LogRecord>)
    requires AllEncode(crc, bs, rs)
    ensures Join(bs) == EncodeAll(crc, rs)
    decreases |bs|
  {
    if bs != [] {
      var n := |rs| - 1;
      JoinEncoded(crc, bs[..n], rs[..n]);
      assert Encodes(crc, bs[n], rs[n]);
      EncodeSnoc(crc, rs[..n], rs[n]);
      assert rs == rs[..n] + [rs[n]];
    }
  }

  lemma {:induction false} EncodeSnoc(crc: CrcFn, rs: seq<LogRecord>, r: LogRecord)
    ensures EncodeAll(crc, rs + [r]) == EncodeAll(crc, rs) + Encode(crc, r)
  {
    EncodeAppend(crc, rs, [r]);
    assert [r][1..] == [];
  }

  /** The first number above every number in a log file. */
  method ScanForMaxLsn(crc: CrcFn, bytes: Bytes) returns (next: nat)
    ensures next == MaxLsn(1, ParseAll(crc, bytes)) >= 1 && forall r :: r in ParseAll(crc, bytes) ==> r.lsn < next
    ensures next == 1 || exists r :: r in ParseAll(crc, bytes) && next == r.lsn + 1
  {
    var rest := bytes;
    next := 1;
    MaxLsnAbove(1, ParseAll(crc, bytes));
    while true
      invariant 1 <= next && MaxLsn(next, ParseAll(crc, rest)) == MaxLsn(1, ParseAll(crc, bytes))
      decreases |rest|
    {
      match Parse(crc, rest)
      case Stop =>
        return;
      case Next(r, size) =>
        MaxLsnCons(next, r, ParseAll(crc, rest[size..]));
        next := Max(next, r.lsn + 1);
        rest := rest[size..];
    }
  }

  lemma MaxLsnCons(next: nat, r: LogRecord, rest: seq<LogRecord>)
    ensures MaxLsn(next, [r] + rest) == MaxLsn(Max(next, r.lsn + 1), rest)
  {
    assert ([r] + rest)[1..] == rest;
  }

  lemma {:induction false} TakeCons(s: Replay, r: LogRecord, rest: seq<LogRecord>)
    ensures TakeAll(s, [r] + rest) == TakeAll(Take(s, r), rest)
  {
    TakeAppend(s, [r], rest);
    assert [r][..0] == [];
    assert TakeAll(s, [r]) == Take(TakeAll(s, []), r);
  }

  lemma TakeLsn(s: Replay, r: LogRecord)
    ensures Take(s, r).nextLsn == Max(s.nextLsn, r.lsn + 1)
  {
  }

  class WAL {
    const crc: CrcFn
    var nextLsn: nat
    var flushedLsn: nat
    /** Numbered records that are not in the file yet, oldest first. */
    var buf: seq<(nat, Bytes)>
    /** The durable contents of the log file. */
    var file: Bytes
    /** Every record numbered by this process, with its bytes; how many are durable; how many a checkpoint has dropped
        since. */
    ghost var history: seq<LogRecord>
    ghost var encoded: seq<(nat, Bytes)>
    ghost var wrote: nat
    ghost var dropped: nat
    ghost var first: nat
    /** What was in the file before this process wrote to it. */
    ghost var base: Bytes

    ghost predicate Valid()
      reads this
    {
      && first >= 1 && nextLsn == first + |encoded|
      && dropped <= wrote <= |encoded| && Tail(encoded, wrote, buf)
      && Numbered(encoded, first)
      && file == base + Join(encoded[dropped..wrote])
    }

    /** The flushed number is that of the last record written by this process, if any. */
    ghost predicate Truthful()
      reads this
    {
      flushedLsn == if wrote == 0 then 0 else first + wrote - 1
    }

    /** The bytes of each numbered record are its encoding. */
    ghost predicate Logged()
      reads this
    {
      AllEncode(crc, encoded, history)
    }

    /** Every record up to a number that this process assigned has been written to the file. */
    ghost predicate Durable(lsn: nat)
      reads this
    {
      forall i :: 0 <= i < |encoded| && encoded[i].0 <= lsn ==> i < wrote
    }

    /** Up to flushedLsn everything is durable, and the buffer holds exactly the consecutive numbers above it. */
    lemma FlushedIsDurable()
      requires Valid() && Truthful()
      ensures Durable(flushedLsn)
      ensures flushedLsn < nextLsn && (forall i :: 0 <= i < |buf| ==> flushedLsn < buf[i].0 == nextLsn - |buf| + i)
    {
    }

    /** The file holds what was there before, and the records written since the last checkpoint. */
    lemma FileRecords()
      requires Valid() && Logged()
      ensures |history| == |encoded| && file == base + EncodeAll(crc, history[dropped..wrote])
    {
      JoinEncoded(crc, encoded[dropped..wrote], history[dropped..wrote]);
    }

    /** Open a log file: no number that is in it is ever used again. */
    constructor (crc: CrcFn, bytes: Bytes)
      ensures Valid() && Truthful() && Logged() && this.crc == crc && file == bytes && base == bytes && buf == []
              && flushedLsn == 0 && history == []
      ensures wrote == dropped == 0
      ensures nextLsn == MaxLsn(1, ParseAll(crc, bytes)) && forall r :: r in ParseAll(crc, bytes) ==> r.lsn < nextLsn
      ensures 1 <= nextLsn && (nextLsn == 1 || exists r :: r in ParseAll(crc, bytes) && nextLsn == r.lsn + 1)
    {
      this.crc := crc;
      file, base := bytes, bytes;
      buf, flushedLsn, history, encoded, wrote, dropped := [], 0, [], [], 0, 0;
      nextLsn, first := 1, 1;
      new;
      var next := ScanForMaxLsn(crc, bytes);
      nextLsn, first := next, next;
    }

    /** Number a record and put it in the buffer; it is not durable yet. */
    method Append(kind: Kind) returns (lsn: nat)
      requires Valid() && Logged()
      modifies this
      ensures Valid() && Logged() && lsn == old(nextLsn) && nextLsn == lsn + 1 && (old(Truthful()) ==> Truthful())
      ensures history == old(history) + [LogRecord(lsn, kind)]
      ensures wrote == old(wrote) && dropped == old(dropped) && first == old(first) && base == old(base)
      ensures file == old(file) && flushedLsn == old(flushedLsn)
    {
      lsn := nextLsn;
      var r := LogRecord(lsn, kind);
      nextLsn := nextLsn + 1;
      var b := (lsn, Encode(crc, r));
      assert Encodes(crc, b, r);
      buf := buf + [b];
      history, encoded := history + [r], encoded + [b];
      assert encoded[dropped..wrote] == old(encoded)[dropped..wrote];
    }

    /** A record that this process numbered is durable when it is among the first `wrote` ones. */
    lemma RecordDurable(lsn: nat)
      requires Valid() && first <= lsn < nextLsn
      ensures Durable(lsn) <==> lsn - first < wrote
      ensures Truthful() && lsn <= flushedLsn ==> Durable(lsn)
    {
      assert encoded[lsn - first].0 == lsn;
    }

    /** How many records are durable once everything up to a number is written. */
    ghost function WroteUpTo(lsn: nat): nat
      requires Valid()
      reads this
    {
      if lsn < first + wrote then wrote else if lsn < nextLsn then lsn + 1 - first else nextLsn - first
    }

    lemma Position(lsn: nat, n: nat)
      requires Valid() && n <= |buf| && forall i :: 0 <= i < |buf| ==> (buf[i].0 <= lsn <==> i < n)
      ensures wrote + n == WroteUpTo(lsn)
    {
      var i := lsn - first - wrote;
      if 0 <= i {
        assert i < |buf| ==> buf[i].0 == lsn;
        assert i + 1 < |buf| ==> buf[i + 1].0 == lsn + 1;
        assert i >= |buf| > 0 ==> buf[|buf| - 1].0 == nextLsn - 1;
      } else if |buf| > 0 {
        assert buf[0].0 == first + wrote;
      }
    }

    /** Write every buffered record up to a number, in order. The number is then taken as flushed, even one that no
        record has yet: with records to write, that is true of the log exactly when the number has been assigned. */
    method FsyncUpTo(lsn: nat)
      requires Valid()
      modifies this`file, this`buf, this`flushedLsn, this`wrote
      ensures Valid() && Durable(lsn) && wrote == old(WroteUpTo(lsn)) >= old(wrote)
      ensures flushedLsn == if wrote == old(wrote) then old(flushedLsn) else Max(old(flushedLsn), lsn)
      ensures old(Truthful()) ==> (Truthful() <==> lsn < nextLsn || old(buf) == [])
    {
      var toWrite, remaining, n := Partition(buf, lsn);
      var flushed := if n > 0 then Max(flushedLsn, lsn) else flushedLsn;
      FlushPlan(lsn, n, flushed);
      WriteOut(toWrite, remaining, n, flushed);
      AllWritten(lsn);
    }

    lemma FlushPlan(lsn: nat, n: nat, flushed: nat)
      requires Valid() && n <= |buf| && (forall i :: 0 <= i < |buf| ==> (buf[i].0 <= lsn <==> i < n))
      requires flushed == if n > 0 then Max(flushedLsn, lsn) else flushedLsn
      ensures Tail(encoded, wrote + n, buf[n..]) && file + Join(buf[..n]) == base + Join(encoded[dropped..wrote + n])
      ensures wrote + n == WroteUpTo(lsn)
      ensures Truthful() ==>
                (flushed == (if wrote + n == 0 then 0 else first + wrote + n - 1) <==> lsn < nextLsn || buf == [])
    {
      Position(lsn, n);
      JoinMore(encoded, dropped, wrote, n, buf);
      JoinBytes(base, Join(encoded[dropped..wrote]), Join(buf[..n]));
    }

    lemma AllWritten(lsn: nat)
      requires Valid() && (lsn < first + wrote || wrote == |encoded|)
      ensures Durable(lsn)
    {
    }

    /** The next n records go to the file; the rest stay in the buffer. */
    method WriteOut(toWrite: Bytes, remaining: seq<(nat, Bytes)>, n: nat, flushed: nat)
      requires Valid() && n <= |buf| && Tail(encoded, wrote + n, remaining)
      requires file + toWrite == base + Join(encoded[dropped..wrote + n])
      modifies this`file, this`buf, this`flushedLsn, this`wrote
      ensures Valid() && wrote == old(wrote) + n && flushedLsn == flushed
    {
      file := file + toWrite;
      flushedLsn := flushed;
      wrote := wrote + n;
      buf := remaining;
    }

    /** Write everything. */
    method Fsync()
      requires Valid()
      modifies this`file, this`buf, this`flushedLsn, this`wrote
      ensures Valid() && buf == [] && wrote == |encoded| && (old(Truthful()) ==> Truthful())
    {
      if buf != [] {
        assert buf[|buf| - 1].0 == nextLsn - 1;
        FsyncUpTo(buf[|buf| - 1].0);
      }
    }

    /** Log a checkpoint, make everything durable, then empty the file. */
    method Checkpoint()
      requires Valid() && Logged() && Truthful()
      modifies this
      ensures Valid() && Logged() && Truthful() && file == [] && buf == [] && base == []
              && wrote == |encoded| == dropped
      ensures nextLsn == old(nextLsn) + 1 && history == old(history) + [LogRecord(old(nextLsn), Kind.Checkpoint)]
      ensures flushedLsn == nextLsn - 1 && first == old(first)
    {
      var lsn := Append(Kind.Checkpoint);
      Fsync();
      file := [];
      base, dropped := [], wrote;
      assert encoded[dropped..wrote] == [];
    }
  }

  // ---- Recovery as the loop over the file -----------------------------------------------------------

  /** Write a batch of pages. */
  method ApplyPages(data: DataFile, maxId: int, pages: seq<Image>) returns (data': DataFile, maxId': int)
    requires maxId >= -1
    ensures data' == WriteAll(data, pages) && maxId' == Max(maxId, MaxId(pages))
  {
    data', maxId' := data, maxId;
    for i := 0 to |pages|
      invariant data' == WriteAll(data, pages[..i]) && maxId' == Max(maxId, MaxId(pages[..i]))
    {
      assert pages[..i + 1][..i] == pages[..i];
      data' := data'[pages[i].0 := pages[i].1];
      maxId' := Max(maxId', pages[i].0);
    }
    assert pages[..|pages|] == pages;
  }

  /** Replay the log file over the data file, holding back what an open transaction wrote. */
  method Recover(crc: CrcFn, file: Bytes, data: DataFile, nextLsn: nat)
    returns (data': DataFile, maxId: int, root: Option<Option<nat>>, next: nat)
    ensures var s := TakeAll(Begin(nextLsn), ParseAll(crc, file));
            data' == WriteAll(data, s.writes) && maxId == MaxId(s.writes) && root == s.root && next == s.nextLsn
  {
    data', maxId, root, next := data, -1, None, nextLsn;
    var active: Option<nat> := None;
    var pages: seq<Image> := [];
    var metas: seq<Option<nat>> := [];
    var rest := file;
    ghost var s := Begin(nextLsn);
    while true
      invariant TakeAll(s, ParseAll(crc, rest)) == TakeAll(Begin(nextLsn), ParseAll(crc, file))
      invariant Follows(s, data, data', maxId, root, active, pages, metas) && s.nextLsn == next
      decreases |rest|
    {
      match Parse(crc, rest)
      case Stop =>
        return;
      case Next(r, size) =>
        TakeCons(s, r, ParseAll(crc, rest[size..]));
        TakeLsn(s, r);
        data', maxId, root, active, pages, metas := TakeOne(data', maxId, root, active, pages, metas, r, data, s);
        next := Max(next, r.lsn + 1);
        s, rest := Take(s, r), rest[size..];
    }
  }

  /** The state of the loop is the state of the replay, its writes already in the data file. */
  ghost predicate Follows(s: Replay, data0: DataFile, data: DataFile, maxId: int, root: Option<Option<nat>>,
                          active: Option<nat>, pages: seq<Image>, metas: seq<Option<nat>>)
  {
    && s == Replay(s.writes, root, active, pages, metas, s.nextLsn)
    && data == WriteAll(data0, s.writes) && maxId == MaxId(s.writes) && maxId >= -1
  }

  lemma {:induction false} WriteOne(data: DataFile, writes: seq<Image>, w: Image)
    ensures WriteAll(data, writes + [w]) == WriteAll(data, writes)[w.0 := w.1]
            && MaxId(writes + [w]) == Max(MaxId(writes), w.0)
  {
    assert (writes + [w])[..|writes|] == writes;
  }

  method TakeOne(data: DataFile, maxId: int, root: Option<Option<nat>>, active: Option<nat>, pages: seq<Image>,
                 metas: seq<Option<nat>>, r: LogRecord, ghost data0: DataFile, ghost s: Replay)
    returns (data': DataFile, maxId': int, root': Option<Option<nat>>, active': Option<nat>, pages': seq<Image>,
             metas': seq<Option<nat>>)
    requires Follows(s, data0, data, maxId, root, active, pages, metas)
    ensures Follows(Take(s, r), data0, data', maxId', root', active', pages', metas')
  {
    if r.kind.TxnBegin? || r.kind.TxnCommit? || r.kind.TxnAbort? {
      data', maxId', root', active', pages', metas' := TakeBracket(data, maxId, root, active, pages, metas, r, data0,
        s);
      return;
    }
    data', maxId', root', active', pages', metas' := data, maxId, root, active, pages, metas;
    if r.kind.PageWrite? {
      if active == None {
        WriteOne(data0, s.writes, (r.kind.id, r.kind.image));
        data' := data[r.kind.id := r.kind.image];
        maxId' := Max(maxId, r.kind.id);
      } else {
        pages' := pages + [(r.kind.id, r.kind.image)];
      }
    } else if r.kind.MetaUpdate? {
      if active == None {
        root' := Some(r.kind.root);
      } else {
        metas' := metas + [r.kind.root];
      }
    }
  }

  method TakeBracket(data: DataFile, maxId: int, root: Option<Option<nat>>, active: Option<nat>, pages: seq<Image>,
                     metas: seq<Option<nat>>, r: LogRecord, ghost data0: DataFile, ghost s: Replay)
    returns (data': DataFile, maxId': int, root': Option<Option<nat>>, active': Option<nat>, pages': seq<Image>,
             metas': seq<Option<nat>>)
    requires r.kind.TxnBegin? || r.kind.TxnCommit? || r.kind.TxnAbort?
    requires Follows(s, data0, data, maxId, root, active, pages, metas)
    ensures Follows(Take(s, r), data0, data', maxId', root', active', pages', metas')
  {
    data', maxId', root' := data, maxId, root;
    if r.kind.TxnCommit? && active == Some(r.kind.txn) {
      WriteAppend(data0, s.writes, pages);
      data', maxId' := ApplyPages(data, maxId, pages);
      root' := if metas != [] then Some(metas[|metas| - 1]) else root;
    }
    active', pages', metas' := if r.kind.TxnBegin? then Some(r.kind.txn) else None, [], [];
  }
}
