/** A page of the tree as the bytes that are logged and written, and the page those bytes are read back as. */
module PageBytes {
  import opened Entries
  import opened ByteOrder
  import opened Tree
  import opened SlottedLayout
  import opened PageCodec

  const MAX_INDEX := 509

  /** The page can be rebuilt and written: its cells fit the slotted body, its keys and children fit the page. */
  predicate Writable(p: Page) {
    match p
    case Leaf(entries, _) => Room(entries) <= MAX_ROOM
    case Index(keys, children) => |children| == |keys| + 1 && |keys| <= MAX_INDEX
  }

  /** Page ids fit their fields, and a leaf's link is not the value that stands for none. */
  predicate Linkable(p: Page) {
    match p
    case Leaf(_, next) => next.Some? ==> next.value < NO_NEXT
    case Index(_, children) => forall i :: 0 <= i < |children| ==> children[i] < LIMIT32
  }

  // ---- Pages ------------------------------------------------------------------------------------

  /** The bytes of a page with a number; None when the page does not fit, and the write raises an error. */
  function Encode(p: Page, lsn: nat): (r: Option<Bytes>)
    ensures Writable(p) ==> r.Some?
    ensures r.Some? ==> |r.value| == PAGE
  {
    match p
    case Leaf(entries, next) =>
      if Room(entries) > MAX_ROOM then None else Some(LeafToBytes(LeafImage(lsn, next, LeafBody(entries))))
    case Index(keys, children) => IndexToBytes(IndexImage(lsn, keys, children))
  }

  lemma AfterNumber(n: Bytes, z: Bytes, kind: Bytes, link: Bytes, body: Bytes)
    requires |z| == 8
    ensures n + kind + link + body == n + (z + kind + link + body)[8..]
  {
    assert z + kind + link + body == z + (kind + link + body);
  }

  /** The number stands in the first eight bytes, and nowhere else. */
  lemma {:induction false} NumberFirst(p: Page, lsn: nat)
    requires Encode(p, 0).Some?
    ensures Encode(p, lsn).Some? && Encode(p, lsn).value == LE(lsn, 8) + Encode(p, 0).value[8..]
  {
    match p
    case Leaf(entries, next) =>
      var link := LE(if next == None then NO_NEXT else next.value, 4);
      AfterNumber(LE(lsn, 8), LE(0, 8), [1], link, LeafBody(entries));
    case Index(keys, children) =>
      var used := IndexArrays(keys, children);
      assert Encode(p, 0).value[8..] == used + Blank(PAGE - 8 - |used|);
  }

  /** The page that bytes are read back as; None for another length, an unknown type, a malformed slotted page or arrays
      that run over the page. */
  function Decode(bs: Bytes): Option<Page> {
    if |bs| != PAGE then None
    else if bs[8] == 1 then
      var i := LeafFromBytes(bs);
      if !Framed(i.body) then None
      else
        var es := EntriesOf(Reads(i.body));
        if es == None then None else Some(Leaf(es.value, i.next))
    else if bs[8] == 0 then
      var i := IndexFromBytes(bs);
      if i == None then None else Some(Index(i.value.keys, i.value.children))
    else None
  }

  /** What is left of a page once written and read back: an index page without keys has lost its only child. */
  function ReadBack(p: Page): Page {
    if p.Index? && p.keys == [] then Index([], []) else p
  }

  lemma {:induction false} LeafBack(entries: seq<Entry>, next: Option<PageId>, lsn: nat)
    requires Writable(Leaf(entries, next)) && Linkable(Leaf(entries, next)) && lsn < LIMIT64
    ensures Decode(Encode(Leaf(entries, next), lsn).value) == Some(Leaf(entries, next))
  {
    var i := LeafImage(lsn, next, LeafBody(entries));
    LeafTrip(i);
    LeafParts(i);
    CellsTrip(entries);
  }

  lemma {:induction false} IndexBack(keys: seq<Key>, children: seq<PageId>, lsn: nat)
    requires Writable(Index(keys, children)) && Linkable(Index(keys, children)) && lsn < LIMIT64
    ensures Decode(Encode(Index(keys, children), lsn).value) == Some(ReadBack(Index(keys, children)))
  {
    var i := IndexImage(lsn, keys, children);
    IndexTrip(i);
    IndexType(i);
  }

  /** A page that can be written comes back as it was if and only if it is not an index page without keys. */
  lemma {:induction false} PageBack(p: Page, lsn: nat)
    requires Writable(p) && Linkable(p) && lsn < LIMIT64
    ensures Decode(Encode(p, lsn).value) == Some(ReadBack(p))
    ensures ReadBack(p) == p <==> !(p.Index? && p.keys == [])
  {
    match p
    case Leaf(entries, next) => LeafBack(entries, next, lsn);
    case Index(keys, children) => IndexBack(keys, children, lsn);
  }

  /** The number of a page plays no part in what its bytes are read back as. */
  lemma {:induction false} NumberApart(bs: Bytes, bs': Bytes)
    requires |bs| == |bs'| == PAGE && bs[8..] == bs'[8..]
    ensures Decode(bs) == Decode(bs')
  {
    assert bs[8] == bs[8..][0] && bs'[8] == bs'[8..][0];
    assert bs[8..PAGE] == bs[8..] && bs'[8..PAGE] == bs'[8..];
    SameField(bs, bs', 8, PAGE, 9, 13);
    SameField(bs, bs', 8, PAGE, 13, PAGE);
    assert bs[13..PAGE] == bs[13..] && bs'[13..PAGE] == bs'[13..];
    var n := FromLE(bs[9..13]);
    if 13 + 4 * n + 4 * (n + 1) <= PAGE {
      SameField(bs, bs', 8, PAGE, 13 + 4 * n, PAGE);
      assert bs[13 + 4 * n..PAGE] == bs[13 + 4 * n..] && bs'[13 + 4 * n..PAGE] == bs'[13 + 4 * n..];
    }
  }
}
