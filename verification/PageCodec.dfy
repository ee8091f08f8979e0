/** Leaf and index pages as bytes: cells in a slotted body, key and child arrays, and what comes back. */
module PageCodec {
  import opened Entries
  import opened ByteOrder
  import opened Tree
  import opened SlottedLayout
  import opened SlottedPages

  const PAGE := 4096
  const LEAF_HEADER := 13
  const LEAF_BODY := 4083
  const NO_NEXT := 0xFFFF_FFFF
  const MAX_ROOM := LEAF_BODY - HEADER

  // ---- Cells -----------------------------------------------------------------------------

  /** A leaf cell: the key, then the record. */
  function Cell(e: Entry): Bytes {
    LE(e.key, 4) + e.val
  }

  function Cells(es: seq<Entry>): (r: seq<Option<Bytes>>)
    ensures |r| == |es|
  {
    seq(|es|, i requires 0 <= i < |es| => Some(Cell(es[i])))
  }

  /** The entries of the live cells, in slot order; a cell too short for a key is an error. */
  function EntriesOf(rows: seq<Option<Bytes>>): Option<seq<Entry>>
    decreases |rows|
  {
    if rows == [] then Some([])
    else
      var before := EntriesOf(rows[..|rows| - 1]);
      var last := rows[|rows| - 1];
      if before == None || last == None then before
      else if |last.value| < 4 then None
      else Some(before.value + [Entry(KeyField(last.value), last.value[4..])])
  }

  function KeyField(cell: Bytes): Key
    requires |cell| >= 4
  {
    LEBack(cell[..4]);
    Widths();
    FromLE(cell[..4])
  }

  /** Cells read back as the entries they were made from. */
  lemma {:induction false} CellsTrip(es: seq<Entry>)
    ensures EntriesOf(Cells(es)) == Some(es)
    decreases |es|
  {
    if es != [] {
      var n := |es| - 1;
      CellsTrip(es[..n]);
      assert Cells(es)[..n] == Cells(es[..n]);
      CellTrip(es[n]);
      assert es == es[..n] + [es[n]];
    }
  }

  lemma CellTrip(e: Entry)
    ensures |Cell(e)| >= 4 && KeyField(Cell(e)) == e.key && Cell(e)[4..] == e.val
  {
    Trip4(e.key);
    assert Cell(e)[..4] == LE(e.key, 4);
  }

  /** The room that entries take on a slotted page: length field, slot entry, key and record each. */
  function Room(es: seq<Entry>): nat
    decreases |es|
  {
    if es == [] then 0 else Room(es[..|es| - 1]) + 12 + |es[|es| - 1].val|
  }

  lemma {:induction false} RoomPrefix(es: seq<Entry>, i: nat)
    requires i <= |es|
    ensures Room(es[..i]) <= Room(es)
    decreases |es|
  {
    if i < |es| {
      RoomPrefix(es[..|es| - 1], i);
      assert es[..|es| - 1][..i] == es[..i];
    } else {
      assert es[..i] == es;
    }
  }

  // ---- The slotted body of a leaf ---------------------------------------------------------------

  ghost predicate HasEntries(d: Bytes, es: seq<Entry>) {
    |d| == LEAF_BODY && Layout(d) && Reads(d) == Cells(es) && Free(d) == MAX_ROOM - Room(es)
  }

  /** A fresh slotted page with the cells inserted in order. */
  function LeafBody(es: seq<Entry>): (d: Bytes)
    requires Room(es) <= MAX_ROOM
    ensures HasEntries(d, es)
    decreases |es|
  {
    if es == [] then
      EmptyLayout(LEAF_BODY);
      EmptyPage(LEAF_BODY)
    else
      var n := |es| - 1;
      RoomPrefix(es, n);
      var d := LeafBody(es[..n]);
      CellAdds(d, es);
      Inserted(d, Cell(es[n]))
  }

  lemma {:induction false} CellAdds(d: Bytes, es: seq<Entry>)
    requires es != [] && Room(es) <= MAX_ROOM && HasEntries(d, es[..|es| - 1])
    ensures Fits(d, Cell(es[|es| - 1])) && HasEntries(Inserted(d, Cell(es[|es| - 1])), es)
  {
    var n := |es| - 1;
    InsertedLayout(d, Cell(es[n]));
    assert Cells(es) == Cells(es[..n]) + [Some(Cell(es[n]))];
  }

  /** Put exactly these entries on a fresh page: it works if and only if they fit. */
  method Rebuild(es: seq<Entry>) returns (page: SlottedPage, ok: bool)
    ensures fresh(page) && fresh(page.data) && page.Valid()
    ensures ok <==> Room(es) <= MAX_ROOM
    ensures ok ==> page.data[..] == LeafBody(es) && page.Rows() == Cells(es)
  {
    page := new SlottedPage(LEAF_BODY);
    for i := 0 to |es|
      invariant fresh(page) && fresh(page.data) && page.Valid()
      invariant Room(es[..i]) <= MAX_ROOM && page.data[..] == LeafBody(es[..i])
    {
      CellNext(es, i);
      var id := page.Insert(Cell(es[i]));
      if id == None {
        return page, false;
      }
    }
    assert es[..|es|] == es;
    ok := true;
  }

  /** One more cell. */
  lemma {:induction false} CellNext(es: seq<Entry>, i: nat)
    requires i < |es| && Room(es[..i]) <= MAX_ROOM
    ensures Free(LeafBody(es[..i])) >= |Cell(es[i])| + 8 <==> Room(es[..i + 1]) <= MAX_ROOM
    ensures Room(es[..i + 1]) <= MAX_ROOM ==>
              Fits(LeafBody(es[..i]), Cell(es[i])) && LeafBody(es[..i + 1]) == Inserted(LeafBody(es[..i]), Cell(es[i]))
    ensures Room(es[..i + 1]) <= Room(es)
  {
    assert es[..i + 1][..i] == es[..i];
    RoomPrefix(es, i + 1);
  }

  /** Read the entries of a page. */
  method ReadEntries(page: SlottedPage) returns (es: Option<seq<Entry>>)
    requires page.Valid()
    ensures es == EntriesOf(page.Rows())
  {
    var n := U32(page.data[..], 8);
    es := Some([]);
    for i := 0 to n
      invariant n == |page.Rows()| && es == EntriesOf(page.Rows()[..i])
    {
      assert page.Rows()[..i + 1][..i] == page.Rows()[..i];
      var r := page.Read(i);
      match r
      case DeletedSlot =>
      case InvalidSlot =>
      case Payload(raw) =>
        if es.Some? {
          es := if |raw| < 4 then None else Some(es.value + [Entry(KeyField(raw), raw[4..])]);
        }
    }
    assert page.Rows()[..n] == page.Rows();
  }

  /** A page rebuilt from entries reads back exactly those entries. */
  method RebuildThenRead(es: seq<Entry>) returns (back: Option<seq<Entry>>)
    requires Room(es) <= MAX_ROOM
    ensures back == Some(es)
  {
    var page, ok := Rebuild(es);
    CellsTrip(es);
    back := ReadEntries(page);
  }

  // ---- Leaf pages ------------------------------------------------------------------------------

  datatype LeafImage = LeafImage(lsn: nat, next: Option<nat>, body: Bytes)

  function LeafToBytes(p: LeafImage): Bytes {
    LE(p.lsn, 8) + [1] + LE(if p.next == None then NO_NEXT else p.next.value, 4) + p.body
  }

  function LeafFromBytes(bs: Bytes): LeafImage
    requires |bs| >= LEAF_HEADER
  {
    var next := FromLE(bs[9..13]);
    LeafImage(FromLE(bs[..8]), if next == NO_NEXT then None else Some(next), bs[13..])
  }

  lemma LeafParts(p: LeafImage)
    ensures var bs, next := LeafToBytes(p), LE(if p.next == None then NO_NEXT else p.next.value, 4);
            |bs| == LEAF_HEADER + |p.body| && bs[..8] == LE(p.lsn, 8) && bs[8] == 1 && bs[9..13] == next
            && bs[13..] == p.body
  {
  }

  /** A leaf comes back with its number, link and body if and only if its link is not the sentinel. */
  lemma LeafTrip(p: LeafImage)
    requires p.lsn < LIMIT64 && (p.next.Some? ==> p.next.value < LIMIT32) && |p.body| == LEAF_BODY
    ensures |LeafToBytes(p)| == PAGE
    ensures LeafFromBytes(LeafToBytes(p)) == p <==> p.next != Some(NO_NEXT)
  {
    LeafParts(p);
    Trip8(p.lsn);
    Trip4(if p.next == None then NO_NEXT else p.next.value);
  }

  // ---- Index pages -------------------------------------------------------------------------------

  datatype IndexImage = IndexImage(lsn: nat, keys: seq<Key>, children: seq<nat>)

  function Pack32(xs: seq<nat>): (r: Bytes)
    ensures |r| == 4 * |xs|
    decreases |xs|
  {
    if xs == [] then [] else LE(xs[0], 4) + Pack32(xs[1..])
  }

  function Unpack32(bs: Bytes, n: nat): (r: seq<Key>)
    requires 4 * n <= |bs|
    ensures |r| == n
    decreases n, |bs|
  {
    if n == 0 then [] else [KeyField(bs)] + Unpack32(bs[4..], n - 1)
  }

  lemma {:induction false} PackTrip(xs: seq<nat>, rest: Bytes)
    requires forall x :: x in xs ==> x < LIMIT32
    ensures Unpack32(Pack32(xs) + rest, |xs|) == xs
    decreases |xs|
  {
    if xs != [] {
      var bs := Pack32(xs) + rest;
      assert xs[0] in xs && forall x :: x in xs[1..] ==> x in xs;
      Trip4(xs[0]);
      assert bs[..4] == LE(xs[0], 4) && bs[4..] == Pack32(xs[1..]) + rest;
      PackTrip(xs[1..], rest);
    }
  }

  /** Page type, number of keys, keys and children. */
  function IndexArrays(keys: seq<Key>, children: seq<nat>): Bytes {
    [0] + LE(|keys|, 4) + Pack32(keys) + Pack32(children)
  }

  /** The bytes of an index page; None when they do not fit a page. */
  function IndexToBytes(p: IndexImage): Option<Bytes> {
    var used := IndexArrays(p.keys, p.children);
    if |used| > PAGE - 8 then None else Some(LE(p.lsn, 8) + (used + Blank(PAGE - 8 - |used|)))
  }

  /** A page with no keys comes back with no children either. */
  function IndexFromBytes(bs: Bytes): Option<IndexImage>
    requires |bs| == PAGE
  {
    var n := FromLE(bs[9..13]);
    if n == 0 then Some(IndexImage(FromLE(bs[..8]), [], []))
    else if 13 + 4 * n + 4 * (n + 1) > PAGE then None
    else Some(IndexImage(FromLE(bs[..8]), Unpack32(bs[13..], n), Unpack32(bs[13 + 4 * n..], n + 1)))
  }

  lemma IndexParts(bs: Bytes, lsn: Bytes, n: Bytes, keys: Bytes, kids: Bytes, rest: Bytes)
    requires |lsn| == 8 && |n| == 4 && bs == lsn + ([0] + n + keys + kids + rest)
    ensures bs[..8] == lsn && bs[9..13] == n && bs[13..] == keys + (kids + rest) && bs[13 + |keys|..] == kids + rest
  {
  }

  lemma IndexType(p: IndexImage)
    requires IndexToBytes(p).Some?
    ensures IndexToBytes(p).value[8] == 0
  {
  }

  /** Number of keys that fit an index page. */
  lemma IndexFits(p: IndexImage)
    requires |p.children| == |p.keys| + 1
    ensures IndexToBytes(p).Some? <==> |p.keys| <= 509
  {
  }

  /** An index page that fits comes back whole if and only if it has a key: a page without keys loses its only child. */
  lemma IndexTrip(p: IndexImage)
    requires |p.children| == |p.keys| + 1 && |p.keys| <= 509 && p.lsn < LIMIT64
    requires forall i :: 0 <= i < |p.children| ==> p.children[i] < LIMIT32
    ensures IndexToBytes(p).Some? && |IndexToBytes(p).value| == PAGE
    ensures IndexFromBytes(IndexToBytes(p).value) == Some(if |p.keys| >= 1 then p else IndexImage(p.lsn, [], []))
  {
    var bs := IndexToBytes(p).value;
    var rest := Blank(PAGE - (13 + 4 * |p.keys| + 4 * |p.children|));
    IndexParts(bs, LE(p.lsn, 8), LE(|p.keys|, 4), Pack32(p.keys), Pack32(p.children), rest);
    Trip8(p.lsn);
    Trip4(|p.keys|);
    PackTrip(p.keys, Pack32(p.children) + rest);
    PackTrip(p.children, rest);
  }
}
