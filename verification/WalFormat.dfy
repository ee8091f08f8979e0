/** The records of the write-ahead log as bytes, and what a torn log still says. */
module WalFormat {
  import opened Entries
  import opened ByteOrder

  const PAGE_SIZE := 4096
  const NO_ROOT := 0xFFFF_FFFF

  type Crc = c: int | 0 <= c < 0x1_0000_0000

  /** The checksum: any function of the payload. */
  type CrcFn = Bytes -> Crc

  datatype Kind = PageWrite(id: nat, image: Bytes) | MetaUpdate(root: Option<nat>)
                | TxnBegin(txn: nat) | TxnCommit(txn: nat) | TxnAbort(txn: nat) | Checkpoint

  datatype LogRecord = LogRecord(lsn: nat, kind: Kind)

  function TypeByte(k: Kind): Byte {
    match k
    case PageWrite(_, _) => 1
    case Checkpoint => 2
    case MetaUpdate(_) => 3
    case TxnBegin(_) => 4
    case TxnCommit(_) => 5
    case TxnAbort(_) => 6
  }

  function RootField(root: Option<nat>): nat {
    if root == None then NO_ROOT else root.value
  }

  /** The numbers fit their fields; a real root is never the sentinel. */
  predicate Fits(r: LogRecord) {
    && r.lsn < LIMIT64
    && match r.kind
       case PageWrite(id, image) => id < LIMIT32 && |image| == PAGE_SIZE
       case MetaUpdate(root) => root.Some? ==> root.value < NO_ROOT
       case TxnBegin(t) => t < LIMIT64
       case TxnCommit(t) => t < LIMIT64
       case TxnAbort(t) => t < LIMIT64
       case Checkpoint => true
  }

  function Body(k: Kind): Bytes {
    match k
    case PageWrite(id, image) => LE(id, 4) + image
    case MetaUpdate(root) => LE(RootField(root), 4)
    case TxnBegin(t) => LE(t, 8)
    case TxnCommit(t) => LE(t, 8)
    case TxnAbort(t) => LE(t, 8)
    case Checkpoint => []
  }

  function Payload(r: LogRecord): Bytes {
    LE(r.lsn, 8) + [TypeByte(r.kind)] + Body(r.kind)
  }

  function Encode(crc: CrcFn, r: LogRecord): Bytes {
    Payload(r) + LE(crc(Payload(r)), 4)
  }

  function EncodeAll(crc: CrcFn, rs: seq<LogRecord>): Bytes
    decreases |rs|
  {
    if rs == [] then [] else Encode(crc, rs[0]) + EncodeAll(crc, rs[1..])
  }

  /** The number of body bytes that a record type announces. */
  function BodySize(t: Byte): Option<nat> {
    if t == 1 then Some(4 + PAGE_SIZE)
    else if t == 3 then Some(4)
    else if t == 4 || t == 5 || t == 6 then Some(8)
    else if t == 2 then Some(0)
    else None
  }

  function KindOf(t: Byte, body: Bytes): Kind
    requires BodySize(t) == Some(|body|)
  {
    if t == 1 then PageWrite(FromLE(body[..4]), body[4..])
    else if t == 3 then MetaUpdate(if FromLE(body) == NO_ROOT then None else Some(FromLE(body)))
    else if t == 4 then TxnBegin(FromLE(body))
    else if t == 5 then TxnCommit(FromLE(body))
    else if t == 6 then TxnAbort(FromLE(body))
    else Checkpoint
  }

  datatype Parsed = Stop | Next(r: LogRecord, size: nat)

  /** Read one record: stop at a short header, an unknown type, a short body or a wrong checksum. */
  function Parse(crc: CrcFn, bs: Bytes): (p: Parsed)
    ensures p.Next? ==> 13 <= p.size <= |bs|
  {
    if |bs| < 9 then Stop
    else
      var size := BodySize(bs[8]);
      if size == None || |bs| < 9 + size.value + 4 then Stop
      else
        var end := 9 + size.value;
        if crc(bs[..end]) != FromLE(bs[end..end + 4]) then Stop
        else Next(LogRecord(FromLE(bs[..8]), KindOf(bs[8], bs[9..end])), end + 4)
  }

  function ParseAll(crc: CrcFn, bs: Bytes): seq<LogRecord>
    decreases |bs|
  {
    match Parse(crc, bs)
    case Stop => []
    case Next(r, size) => [r] + ParseAll(crc, bs[size..])
  }

  // ---- One record -------------------------------------------------------------------------

  lemma BodySizes(k: Kind)
    requires k.PageWrite? ==> |k.image| == PAGE_SIZE
    ensures BodySize(TypeByte(k)) == Some(|Body(k)|)
  {
  }

  lemma {:induction false} KindTrip(r: LogRecord)
    requires Fits(r)
    ensures BodySize(TypeByte(r.kind)) == Some(|Body(r.kind)|) && KindOf(TypeByte(r.kind), Body(r.kind)) == r.kind
  {
    match r.kind
    case PageWrite(id, image) =>
      Trip4(id);
      assert Body(r.kind)[..4] == LE(id, 4) && Body(r.kind)[4..] == image;
    case MetaUpdate(root) => Trip4(RootField(root));
    case TxnBegin(t) => Trip8(t);
    case TxnCommit(t) => Trip8(t);
    case TxnAbort(t) => Trip8(t);
    case Checkpoint =>
  }

  /** The bytes of a record, whatever follows. */
  lemma {:induction false} EncodeParts(crc: CrcFn, r: LogRecord, rest: Bytes)
    requires Fits(r)
    ensures var bs, end := Encode(crc, r) + rest, 9 + |Body(r.kind)|;
            && |bs| >= end + 4
            && bs[..8] == LE(r.lsn, 8) && bs[8] == TypeByte(r.kind) && bs[9..end] == Body(r.kind)
            && bs[..end] == Payload(r) && bs[end..end + 4] == LE(crc(Payload(r)), 4) && bs[end + 4..] == rest
  {
    var bs, p := Encode(crc, r) + rest, Payload(r);
    assert bs[..|p|] == p;
    assert bs[..8] == p[..8] == LE(r.lsn, 8);
    assert bs[8] == p[8];
    assert bs[9..|p|] == p[9..];
  }

  /** A whole record is read back, with anything after it. */
  lemma {:induction false} ParseEncoded(crc: CrcFn, r: LogRecord, rest: Bytes)
    requires Fits(r)
    ensures Parse(crc, Encode(crc, r) + rest) == Next(r, |Encode(crc, r)|)
  {
    EncodeParts(crc, r, rest);
    KindTrip(r);
    Trip8(r.lsn);
    Trip4(crc(Payload(r)));
  }

  /** A torn record is not read: its length gives it away, whatever its checksum. */
  lemma {:induction false} ParseTorn(crc: CrcFn, r: LogRecord, n: nat)
    requires Fits(r) && n < |Encode(crc, r)|
    ensures Parse(crc, Encode(crc, r)[..n]) == Stop
  {
    EncodeParts(crc, r, []);
    assert Encode(crc, r) + [] == Encode(crc, r);
    BodySizes(r.kind);
  }

  /** A whole record whose checksum is not that of its payload is not read, whatever follows it. */
  lemma {:induction false} ParseCorrupt(crc: CrcFn, r: LogRecord, sum: Bytes, rest: Bytes)
    requires Fits(r) && |sum| == 4 && FromLE(sum) != crc(Payload(r))
    ensures Parse(crc, Payload(r) + sum + rest) == Stop
  {
    var bs, p := Payload(r) + sum + rest, Payload(r);
    BodySizes(r.kind);
    assert bs[8] == p[8] == TypeByte(r.kind);
    assert bs[..|p|] == p && bs[|p|..|p| + 4] == sum;
  }

  /** Nor is a record of an unknown type. */
  lemma ParseUnknown(crc: CrcFn, bs: Bytes)
    requires |bs| >= 9 && !(1 <= bs[8] <= 6)
    ensures Parse(crc, bs) == Stop
  {
  }

  /** What is read was written that way: the bytes of a record that is read are those of its encoding. */
  lemma {:induction false} ParseOnly(crc: CrcFn, bs: Bytes)
    requires Parse(crc, bs).Next?
    ensures var p := Parse(crc, bs); Fits(p.r) && p.size == |Encode(crc, p.r)| && bs[..p.size] == Encode(crc, p.r)
  {
    var p := Parse(crc, bs);
    var end := p.size - 4;
    HeaderBack(bs, end, p.r);
    LEBack(bs[end..end + 4]);
    assert bs[..p.size] == bs[..end] + bs[end..end + 4];
  }

  lemma {:induction false} HeaderBack(bs: Bytes, end: nat, r: LogRecord)
    requires 9 <= end <= |bs| && BodySize(bs[8]) == Some(end - 9)
    requires r == LogRecord(FromLE(bs[..8]), KindOf(bs[8], bs[9..end]))
    ensures Fits(r) && Payload(r) == bs[..end]
  {
    Widths();
    LEBack(bs[..8]);
    BodyBack(bs[8], bs[9..end]);
    assert bs[..end] == bs[..8] + [bs[8]] + bs[9..end];
  }

  lemma {:induction false} BodyBack(t: Byte, body: Bytes)
    requires BodySize(t) == Some(|body|)
    ensures var k := KindOf(t, body); TypeByte(k) == t && Body(k) == body && Fits(LogRecord(0, k))
  {
    Widths();
    if t == 1 {
      LEBack(body[..4]);
      assert body == body[..4] + body[4..];
    } else {
      LEBack(body);
    }
  }

  /** Where the parts of a record stand, and what the type bytes are. */
  lemma RecordLayout(crc: CrcFn, r: LogRecord)
    requires Fits(r)
    ensures var bs := Encode(crc, r);
            && bs[..8] == LE(r.lsn, 8)
            && match r.kind
               case PageWrite(id, image) =>
                 |bs| == 4113 && bs[8] == 1 && bs[9..13] == LE(id, 4) && bs[13..4109] == image
               case Checkpoint => |bs| == 13 && bs[8] == 2
               case MetaUpdate(root) =>
                 && |bs| == 17 && bs[8] == 3
                 && bs[9..13] == if root == None then [255, 255, 255, 255] else LE(root.value, 4)
               case TxnBegin(t) => |bs| == 21 && bs[8] == 4 && bs[9..17] == LE(t, 8)
               case TxnCommit(t) => |bs| == 21 && bs[8] == 5 && bs[9..17] == LE(t, 8)
               case TxnAbort(t) => |bs| == 21 && bs[8] == 6 && bs[9..17] == LE(t, 8)
    ensures Encode(crc, r)[|Encode(crc, r)| - 4..] == LE(crc(Payload(r)), 4)
            && Payload(r) == Encode(crc, r)[..|Encode(crc, r)| - 4]
  {
  }

  // ---- The whole log ----------------------------------------------------------------------------

  ghost predicate AllFit(rs: seq<LogRecord>) {
    forall r :: r in rs ==> Fits(r)
  }

  /** How many whole records the first n bytes hold. */
  function Whole(crc: CrcFn, rs: seq<LogRecord>, n: nat): (m: nat)
    ensures m <= |rs|
    decreases |rs|
  {
    if rs == [] || n < |Encode(crc, rs[0])| then 0 else 1 + Whole(crc, rs[1..], n - |Encode(crc, rs[0])|)
  }

  lemma {:induction false} ParseAllCons(crc: CrcFn, r: LogRecord, rest: Bytes)
    requires Fits(r)
    ensures ParseAll(crc, Encode(crc, r) + rest) == [r] + ParseAll(crc, rest)
  {
    ParseEncoded(crc, r, rest);
    assert (Encode(crc, r) + rest)[|Encode(crc, r)|..] == rest;
  }

  lemma CutJoin(e: Bytes, tail: Bytes, n: nat)
    requires n <= |e| + |tail|
    ensures (e + tail)[..n] == if n < |e| then e[..n] else e + tail[..n - |e|]
  {
  }

  /** Cut a log after any number of bytes: exactly the whole records before the cut are read back. */
  lemma {:induction false} TornLog(crc: CrcFn, rs: seq<LogRecord>, n: nat)
    requires AllFit(rs) && n <= |EncodeAll(crc, rs)|
    ensures ParseAll(crc, EncodeAll(crc, rs)[..n]) == rs[..Whole(crc, rs, n)]
    decreases |rs|
  {
    if rs != [] {
      var e, tail := Encode(crc, rs[0]), EncodeAll(crc, rs[1..]);
      CutJoin(e, tail, n);
      if n < |e| {
        ParseTorn(crc, rs[0], n);
      } else {
        TornLog(crc, rs[1..], n - |e|);
        ParseAllCons(crc, rs[0], tail[..n - |e|]);
        PrefixCons(rs, Whole(crc, rs[1..], n - |e|));
      }
    }
  }

  lemma PrefixCons(rs: seq<LogRecord>, m: nat)
    requires rs != [] && m <= |rs| - 1
    ensures rs[..m + 1] == [rs[0]] + rs[1..][..m]
  {
  }

  lemma {:induction false} EncodeAppend(crc: CrcFn, a: seq<LogRecord>, b: seq<LogRecord>)
    ensures EncodeAll(crc, a + b) == EncodeAll(crc, a) + EncodeAll(crc, b)
    decreases |a|
  {
    if a == [] {
      assert a + b == b;
    } else {
      assert (a + b)[1..] == a[1..] + b;
      EncodeAppend(crc, a[1..], b);
    }
  }
}
