/** The bytes of a slotted page: header, slot array growing up, records growing down. */
module SlottedLayout {
  import opened Entries
  import opened ByteOrder

  const HEADER := 12

  // ---- Reading and writing at an offset -------------------------------------------------

  function U32(d: Bytes, o: nat): nat
    requires o + 4 <= |d|
  {
    FromLE(d[o..o + 4])
  }

  function Splice(d: Bytes, o: nat, bs: Bytes): (r: Bytes)
    requires o + |bs| <= |d|
    ensures |r| == |d|
  {
    seq(|d|, i requires 0 <= i < |d| => if o <= i < o + |bs| then bs[i - o] else d[i])
  }

  lemma SpliceIn(d: Bytes, o: nat, bs: Bytes)
    requires o + |bs| <= |d|
    ensures Splice(d, o, bs)[o..o + |bs|] == bs
  {
  }

  lemma SpliceOut(d: Bytes, o: nat, bs: Bytes, p: nat, q: nat)
    requires o + |bs| <= |d| && p <= q <= |d| && (q <= o || o + |bs| <= p)
    ensures Splice(d, o, bs)[p..q] == d[p..q]
  {
  }

  /** A number written and read back; other fields are untouched. */
  lemma SpliceNumber(d: Bytes, o: nat, n: nat)
    requires o + 4 <= |d| && n < LIMIT32
    ensures U32(Splice(d, o, LE(n, 4)), o) == n
  {
    SpliceIn(d, o, LE(n, 4));
    Trip4(n);
  }

  // ---- The layout ---------------------------------------------------------------------------

  function Start(d: Bytes): nat
    requires |d| >= HEADER
  {
    U32(d, 0)
  }

  function End(d: Bytes): nat
    requires |d| >= HEADER
  {
    U32(d, 4)
  }

  function Num(d: Bytes): nat
    requires |d| >= HEADER
  {
    U32(d, 8)
  }

  /** Header and slot array are inside the page, and the record region starts after them. */
  predicate Framed(d: Bytes) {
    && HEADER <= |d| < LIMIT32
    && Start(d) == HEADER + 4 * Num(d)
    && Start(d) <= End(d) <= |d|
  }

  function SlotOf(d: Bytes, i: nat): nat
    requires Framed(d) && i < Num(d)
  {
    U32(d, HEADER + 4 * i)
  }

  /** Where a record ends: after its length field and its payload. */
  function RecordEnd(d: Bytes, o: nat): nat
    requires o + 4 <= |d|
  {
    o + 4 + U32(d, o)
  }

  /** A live slot points to a whole record in the record region. */
  ghost predicate SlotOk(d: Bytes, i: nat)
    requires Framed(d) && i < Num(d)
  {
    var o := SlotOf(d, i);
    o != 0 ==> End(d) <= o && o + 4 <= |d| && RecordEnd(d, o) <= |d|
  }

  /** Later records lie below earlier ones, so no two of them overlap. */
  ghost predicate Stacked(d: Bytes, i: nat, j: nat)
    requires Framed(d) && i < j < Num(d)
  {
    var p, o := SlotOf(d, i), SlotOf(d, j);
    p != 0 && o != 0 && o + 4 <= |d| ==> RecordEnd(d, o) <= p
  }

  ghost predicate Layout(d: Bytes) {
    && Framed(d)
    && (forall i :: 0 <= i < Num(d) ==> SlotOk(d, i))
    && (forall i, j :: 0 <= i < j < Num(d) ==> Stacked(d, i, j))
  }

  /** What a slot reads back: its payload, or nothing when it was deleted. */
  function ReadSlot(d: Bytes, i: nat): Option<Bytes>
    requires Framed(d) && i < Num(d)
  {
    var o := SlotOf(d, i);
    if o == 0 || |d| < o + 4 || |d| < RecordEnd(d, o) then None else Some(d[o + 4..RecordEnd(d, o)])
  }

  /** What the page holds, slot by slot. */
  function Reads(d: Bytes): (r: seq<Option<Bytes>>)
    requires Framed(d)
    ensures |r| == Num(d)
  {
    seq(Num(d), i requires 0 <= i < Num(d) => ReadSlot(d, i))
  }

  function Free(d: Bytes): int
    requires |d| >= HEADER
  {
    End(d) - Start(d)
  }

  /** Two live records never share a byte, and none reaches into the slot array. */
  lemma NoOverlap(d: Bytes, i: nat, j: nat)
    requires Layout(d) && i < Num(d) && j < Num(d) && i != j && SlotOf(d, i) != 0 && SlotOf(d, j) != 0
    ensures var p, o := SlotOf(d, i), SlotOf(d, j);
            && p + 4 <= |d| && o + 4 <= |d|
            && (RecordEnd(d, o) <= p || RecordEnd(d, p) <= o)
            && Start(d) <= p && RecordEnd(d, p) <= |d|
  {
    assert SlotOk(d, i) && SlotOk(d, j);
    if i < j {
      assert Stacked(d, i, j);
    } else {
      assert Stacked(d, j, i);
    }
  }

  // ---- An empty page --------------------------------------------------------------------------

  function Blank(size: nat): (r: Bytes)
    ensures |r| == size
  {
    seq(size, _ => 0)
  }

  /** The page with these three header fields. */
  function Headed(d: Bytes, start: nat, end: nat, n: nat): (r: Bytes)
    requires |d| >= HEADER
    ensures |r| == |d|
  {
    Splice(Splice(Splice(d, 0, LE(start, 4)), 4, LE(end, 4)), 8, LE(n, 4))
  }

  lemma HeadedFields(d: Bytes, start: nat, end: nat, n: nat)
    requires |d| >= HEADER && start < LIMIT32 && end < LIMIT32 && n < LIMIT32
    ensures var r := Headed(d, start, end, n); Start(r) == start && End(r) == end && Num(r) == n
  {
    var a := Splice(d, 0, LE(start, 4));
    var b := Splice(a, 4, LE(end, 4));
    SpliceNumber(d, 0, start);
    SpliceNumber(a, 4, end);
    SpliceNumber(b, 8, n);
    SpliceOut(a, 4, LE(end, 4), 0, 4);
    SpliceOut(b, 8, LE(n, 4), 0, 4);
    SpliceOut(b, 8, LE(n, 4), 4, 8);
  }

  /** Writing the header leaves the rest of the page alone. */
  lemma HeadedRest(d: Bytes, start: nat, end: nat, n: nat, p: nat, q: nat)
    requires HEADER <= p <= q <= |d|
    ensures Headed(d, start, end, n)[p..q] == d[p..q]
  {
    var a := Splice(d, 0, LE(start, 4));
    var b := Splice(a, 4, LE(end, 4));
    SpliceOut(d, 0, LE(start, 4), p, q);
    SpliceOut(a, 4, LE(end, 4), p, q);
    SpliceOut(b, 8, LE(n, 4), p, q);
  }

  function EmptyPage(size: nat): Bytes
    requires HEADER <= size
  {
    Headed(Blank(size), HEADER, size, 0)
  }

  lemma EmptyLayout(size: nat)
    requires HEADER <= size < LIMIT32
    ensures var d := EmptyPage(size);
            |d| == size && Layout(d) && Num(d) == 0 && Reads(d) == [] && Free(d) == size - HEADER
  {
    HeadedFields(Blank(size), HEADER, size, 0);
  }

  // ---- Insertion ----------------------------------------------------------------------------------

  predicate Fits(d: Bytes, record: Bytes)
    requires Framed(d)
  {
    Free(d) >= |record| + 8
  }

  /** The record and its slot entry, written. */
  function WithRecord(d: Bytes, record: Bytes): (r: Bytes)
    requires Framed(d) && Fits(d, record)
    ensures |r| == |d|
  {
    var end := End(d) - (4 + |record|);
    Splice(Splice(d, end, LE(|record|, 4) + record), HEADER + Num(d) * 4, LE(end, 4))
  }

  /** The page after an insertion: record, slot entry, then the three header fields. */
  function Inserted(d: Bytes, record: Bytes): (r: Bytes)
    requires Framed(d) && Fits(d, record)
    ensures |r| == |d|
  {
    Headed(WithRecord(d, record), Start(d) + 4, End(d) - (4 + |record|), Num(d) + 1)
  }

  lemma {:induction false} RecordBytes(d: Bytes, record: Bytes)
    requires Framed(d) && Fits(d, record)
    ensures var r, n, end := WithRecord(d, record), Num(d), End(d) - (4 + |record|);
            && r[HEADER..HEADER + 4 * n] == d[HEADER..HEADER + 4 * n]
            && r[HEADER + 4 * n..HEADER + 4 * n + 4] == LE(end, 4)
            && r[end..End(d)] == LE(|record|, 4) + record
            && r[End(d)..|d|] == d[End(d)..|d|]
  {
    var n, end := Num(d), End(d) - (4 + |record|);
    var rec := LE(|record|, 4) + record;
    var a, o := Splice(d, end, rec), HEADER + n * 4;
    SpliceIn(d, end, rec);
    SpliceOut(d, end, rec, HEADER, o);
    SpliceOut(d, end, rec, End(d), |d|);
    SpliceIn(a, o, LE(end, 4));
    SpliceOut(a, o, LE(end, 4), HEADER, o);
    SpliceOut(a, o, LE(end, 4), end, End(d));
    SpliceOut(a, o, LE(end, 4), End(d), |d|);
  }

  lemma InsertedHeader(d: Bytes, record: Bytes)
    requires Framed(d) && Fits(d, record)
    ensures var r := Inserted(d, record);
            Start(r) == Start(d) + 4 && End(r) == End(d) - (4 + |record|) && Num(r) == Num(d) + 1
  {
    HeadedFields(WithRecord(d, record), Start(d) + 4, End(d) - (4 + |record|), Num(d) + 1);
  }

  lemma InsertedRegion(d: Bytes, record: Bytes, p: nat, q: nat)
    requires Framed(d) && Fits(d, record) && HEADER <= p <= q <= |d|
    ensures Inserted(d, record)[p..q] == WithRecord(d, record)[p..q]
  {
    HeadedRest(WithRecord(d, record), Start(d) + 4, End(d) - (4 + |record|), Num(d) + 1, p, q);
  }

  /** What an insertion writes and what it leaves alone, region by region. */
  lemma {:induction false} InsertedBytes(d: Bytes, record: Bytes)
    requires Framed(d) && Fits(d, record)
    ensures var r, n, end := Inserted(d, record), Num(d), End(d) - (4 + |record|);
            && r[HEADER..HEADER + 4 * n] == d[HEADER..HEADER + 4 * n]
            && r[HEADER + 4 * n..HEADER + 4 * n + 4] == LE(end, 4)
            && r[end..End(d)] == LE(|record|, 4) + record
            && r[End(d)..|d|] == d[End(d)..|d|]
  {
    var n, end := Num(d), End(d) - (4 + |record|);
    RecordBytes(d, record);
    InsertedRegion(d, record, HEADER, HEADER + 4 * n);
    InsertedRegion(d, record, HEADER + 4 * n, HEADER + 4 * n + 4);
    InsertedRegion(d, record, end, End(d));
    InsertedRegion(d, record, End(d), |d|);
  }

  /** A field inside a region that is the same in both pages. */
  lemma SameField(d: Bytes, r: Bytes, p: nat, q: nat, a: nat, b: nat)
    requires p <= a <= b <= q <= |d| && q <= |r| && r[p..q] == d[p..q]
    ensures r[a..b] == d[a..b]
  {
    forall k | a <= k < b ensures r[k] == d[k] {
      assert r[p..q][k - p] == r[k] && d[p..q][k - p] == d[k];
    }
  }

  /** Page r is page d with one more record: the regions of both, and the new header. */
  ghost predicate Grew(d: Bytes, record: Bytes, r: Bytes) {
    && Framed(d) && Fits(d, record) && |r| == |d| && Framed(r)
    && End(r) == End(d) - (4 + |record|) && Num(r) == Num(d) + 1
    && r[HEADER..HEADER + 4 * Num(d)] == d[HEADER..HEADER + 4 * Num(d)]
    && r[HEADER + 4 * Num(d)..HEADER + 4 * Num(d) + 4] == LE(End(r), 4)
    && r[End(r)..End(d)] == LE(|record|, 4) + record
    && r[End(d)..|d|] == d[End(d)..|d|]
  }

  lemma InsertedGrew(d: Bytes, record: Bytes)
    requires Framed(d) && Fits(d, record)
    ensures Grew(d, record, Inserted(d, record))
  {
    InsertedHeader(d, record);
    InsertedBytes(d, record);
  }

  /** An old slot after an insertion: same offset, same record. */
  lemma {:induction false} OldSlot(d: Bytes, record: Bytes, r: Bytes, i: nat)
    requires Grew(d, record, r) && i < Num(d) && SlotOk(d, i)
    ensures var o := SlotOf(d, i);
            && SlotOf(r, i) == o && ReadSlot(r, i) == ReadSlot(d, i)
            && (o != 0 ==> o + 4 <= |d| && RecordEnd(r, o) == RecordEnd(d, o))
  {
    var o := SlotOf(d, i);
    SameField(d, r, HEADER, HEADER + 4 * Num(d), HEADER + 4 * i, HEADER + 4 * i + 4);
    if o != 0 {
      SameField(d, r, End(d), |d|, o, o + 4);
      SameField(d, r, End(d), |d|, o + 4, RecordEnd(d, o));
    }
  }

  lemma RecordParts(r: Bytes, from: nat, to: nat, record: Bytes)
    requires from + 4 + |record| == to <= |r| && |record| < LIMIT32 && r[from..to] == LE(|record|, 4) + record
    ensures U32(r, from) == |record| && r[from + 4..to] == record
  {
    Trip4(|record|);
    assert r[from..from + 4] == r[from..to][..4] && r[from + 4..to] == r[from..to][4..];
  }

  lemma {:induction false} NewSlot(d: Bytes, record: Bytes, r: Bytes)
    requires Grew(d, record, r)
    ensures SlotOf(r, Num(d)) == End(r) != 0 && End(r) + 4 <= |r|
    ensures RecordEnd(r, End(r)) == End(d) && ReadSlot(r, Num(d)) == Some(record)
  {
    Trip4(End(r));
    RecordParts(r, End(r), End(d), record);
  }

  lemma {:induction false} InsertedSlots(d: Bytes, record: Bytes, r: Bytes)
    requires Layout(d) && Grew(d, record, r)
    ensures forall i :: 0 <= i < Num(r) ==> SlotOk(r, i)
    ensures Reads(r) == Reads(d) + [Some(record)]
  {
    NewSlot(d, record, r);
    forall i | 0 <= i < Num(r) ensures SlotOk(r, i) && ReadSlot(r, i) == (Reads(d) + [Some(record)])[i] {
      if i < Num(d) {
        assert SlotOk(d, i);
        OldSlot(d, record, r, i);
      }
    }
  }

  lemma {:induction false} InsertedStacked(d: Bytes, record: Bytes, r: Bytes, i: nat, j: nat)
    requires Layout(d) && Grew(d, record, r) && i < j <= Num(d)
    ensures Stacked(r, i, j)
  {
    assert SlotOk(d, i);
    OldSlot(d, record, r, i);
    if j < Num(d) {
      assert SlotOk(d, j) && Stacked(d, i, j);
      OldSlot(d, record, r, j);
    } else {
      NewSlot(d, record, r);
    }
  }

  /** An insertion appends one slot that reads back the record; everything else reads as before. */
  lemma {:induction false} InsertedLayout(d: Bytes, record: Bytes)
    requires Layout(d) && Fits(d, record)
    ensures var r := Inserted(d, record);
            Layout(r) && Reads(r) == Reads(d) + [Some(record)] && Free(r) == Free(d) - (|record| + 8)
  {
    var r := Inserted(d, record);
    InsertedGrew(d, record);
    InsertedSlots(d, record, r);
    forall i, j | 0 <= i < j < Num(r) ensures Stacked(r, i, j) {
      InsertedStacked(d, record, r, i, j);
    }
  }

  // ---- Deletion -----------------------------------------------------------------------------------

  function Deleted(d: Bytes, i: nat): (r: Bytes)
    requires Framed(d) && i < Num(d)
    ensures |r| == |d|
  {
    Splice(d, HEADER + i * 4, LE(0, 4))
  }

  lemma {:induction false} DeletedBytes(d: Bytes, i: nat)
    requires Framed(d) && i < Num(d)
    ensures var r := Deleted(d, i);
            && Framed(r) && Start(r) == Start(d) && End(r) == End(d) && Num(r) == Num(d)
            && SlotOf(r, i) == 0 && r[End(d)..|d|] == d[End(d)..|d|]
            && forall j :: 0 <= j < Num(d) && j != i ==> SlotOf(r, j) == SlotOf(d, j)
  {
    var o, z := HEADER + i * 4, LE(0, 4);
    DeletedFrame(d, i);
    SpliceNumber(d, o, 0);
    SpliceOut(d, o, z, End(d), |d|);
    forall j | 0 <= j < Num(d) && j != i ensures SlotOf(Deleted(d, i), j) == SlotOf(d, j) {
      SpliceOut(d, o, z, HEADER + j * 4, HEADER + j * 4 + 4);
    }
  }

  lemma {:induction false} DeletedFrame(d: Bytes, i: nat)
    requires Framed(d) && i < Num(d)
    ensures var r := Deleted(d, i);
            Framed(r) && Start(r) == Start(d) && End(r) == End(d) && Num(r) == Num(d)
  {
    var o, z := HEADER + i * 4, LE(0, 4);
    SpliceOut(d, o, z, 0, 4);
    SpliceOut(d, o, z, 4, 8);
    SpliceOut(d, o, z, 8, 12);
  }

  /** A deletion empties one slot; its space stays taken, and everything else reads as before. */
  lemma {:induction false} DeletedLayout(d: Bytes, i: nat)
    requires Layout(d) && i < Num(d)
    ensures var r := Deleted(d, i);
            Layout(r) && Reads(r) == Reads(d)[i := None] && Free(r) == Free(d)
  {
    var r := Deleted(d, i);
    DeletedBytes(d, i);
    forall j | 0 <= j < Num(d) ensures SlotOk(r, j) && (j != i ==> ReadSlot(r, j) == ReadSlot(d, j)) {
      KeptSlot(d, r, i, j);
    }
    forall j, k | 0 <= j < k < Num(d) ensures Stacked(r, j, k) {
      assert Stacked(d, j, k);
      KeptSlot(d, r, i, j);
      KeptSlot(d, r, i, k);
    }
  }

  lemma {:induction false} KeptSlot(d: Bytes, r: Bytes, i: nat, j: nat)
    requires Layout(d) && i < Num(d) && j < Num(d) && r == Deleted(d, i) && Framed(r) && Num(r) == Num(d)
    ensures SlotOk(r, j)
    ensures j != i ==> ReadSlot(r, j) == ReadSlot(d, j) && SlotOf(r, j) == SlotOf(d, j)
    ensures j != i && SlotOf(d, j) != 0 ==>
              SlotOf(d, j) + 4 <= |d|
              && RecordEnd(r, SlotOf(d, j)) == RecordEnd(d, SlotOf(d, j))
  {
    DeletedBytes(d, i);
    assert SlotOk(d, j);
    if j != i && SlotOf(d, j) != 0 {
      RecordKept(d, r, End(d), SlotOf(d, j));
    }
  }

  /** A record in a region that is the same in both pages. */
  lemma RecordKept(d: Bytes, r: Bytes, from: nat, o: nat)
    requires from <= o && o + 4 <= |d| == |r| && RecordEnd(d, o) <= |d| && r[from..|d|] == d[from..|d|]
    ensures RecordEnd(r, o) == RecordEnd(d, o) && r[o + 4..RecordEnd(d, o)] == d[o + 4..RecordEnd(d, o)]
  {
    SameField(d, r, from, |d|, o, o + 4);
    SameField(d, r, from, |d|, o + 4, RecordEnd(d, o));
  }

  // ---- Compaction -----------------------------------------------------------------------------------

  /** The bytes that live records take, with their length fields. */
  function LiveSize(rs: seq<Option<Bytes>>): nat
    decreases |rs|
  {
    if rs == [] then 0
    else
      LiveSize(rs[..|rs| - 1]) + (if rs[|rs| - 1].Some? then 4 + |rs[|rs| - 1].value| else 0)
  }

  /** The lowest live record among the first i slots, or the end of the page. */
  function Lowest(d: Bytes, i: nat): nat
    requires Framed(d) && i <= Num(d)
    decreases i
  {
    if i == 0 then |d| else if SlotOf(d, i - 1) == 0 then Lowest(d, i - 1) else SlotOf(d, i - 1)
  }

  lemma {:induction false} LowestBelow(d: Bytes, i: nat, k: nat)
    requires Layout(d) && i <= k < Num(d) && SlotOf(d, k) != 0
    ensures SlotOf(d, k) + 4 <= |d| && RecordEnd(d, SlotOf(d, k)) <= Lowest(d, i)
    decreases i
  {
    assert SlotOk(d, k);
    if i > 0 {
      assert SlotOk(d, i - 1);
      assert Stacked(d, i - 1, k);
      LowestBelow(d, i - 1, k);
    }
  }

  /** Live records fit above the lowest of them: they do not overlap. */
  lemma {:induction false} LiveBound(d: Bytes, i: nat)
    requires Layout(d) && i <= Num(d)
    ensures LiveSize(Reads(d)[..i]) <= |d| - Lowest(d, i) <= |d| - End(d)
    decreases i
  {
    if i > 0 {
      LiveBound(d, i - 1);
      assert Reads(d)[..i][..i - 1] == Reads(d)[..i - 1];
      assert SlotOk(d, i - 1);
      if SlotOf(d, i - 1) != 0 {
        LowestBelow(d, i - 1, i - 1);
      }
    }
  }

  /** Records copied so far: their bytes, where they start, and the new slot entries. */
  datatype Pack = Pack(data: Bytes, end: nat, slots: seq<nat>)

  /** The whole stored form of a live record. */
  function Stored(d: Bytes, i: nat): Bytes
    requires Framed(d) && i < Num(d) && SlotOf(d, i) + 4 <= |d| && RecordEnd(d, SlotOf(d, i)) <= |d|
  {
    d[SlotOf(d, i)..RecordEnd(d, SlotOf(d, i))]
  }

  function PackSlot(d: Bytes, p: Pack, i: nat): Pack
    requires Framed(d) && i < Num(d) && |p.data| == |d|
  {
    var o := SlotOf(d, i);
    if o == 0 || |d| < o + 4 || |d| < RecordEnd(d, o) || p.end < RecordEnd(d, o) - o || p.end > |d|
      then p.(slots := p.slots + [0])
    else
      var end := p.end - (RecordEnd(d, o) - o);
      Pack(Splice(p.data, end, Stored(d, i)), end, p.slots + [end])
  }

  function PackTo(d: Bytes, i: nat): (p: Pack)
    requires Framed(d) && i <= Num(d)
    ensures |p.data| == |d| && |p.slots| == i
    decreases i
  {
    if i == 0 then Pack(Blank(|d|), |d|, []) else PackSlot(d, PackTo(d, i - 1), i - 1)
  }

  /** Slot j has been copied: its stored bytes lie above the end of what is packed. */
  ghost predicate Packed(d: Bytes, p: Pack, j: nat)
    requires Framed(d) && j < Num(d) && j < |p.slots| && |p.data| == |d|
  {
    var o, s := SlotOf(d, j), p.slots[j];
    if o == 0 then s == 0
    else
      && o + 4 <= |d| && RecordEnd(d, o) <= |d|
      && 0 < p.end <= s && s + (RecordEnd(d, o) - o) <= |d| && p.data[s..s + (RecordEnd(d, o) - o)] == Stored(d, j)
  }

  ghost predicate PackedApart(d: Bytes, p: Pack, j: nat, k: nat)
    requires Framed(d) && j < k < Num(d) && k < |p.slots|
  {
    var o := SlotOf(d, k);
    SlotOf(d, j) != 0 && o != 0 && o + 4 <= |d| ==> p.slots[k] + (RecordEnd(d, o) - o) <= p.slots[j]
  }

  ghost predicate PackOk(d: Bytes, i: nat)
    requires Framed(d) && i <= Num(d)
  {
    var p := PackTo(d, i);
    && p.end + LiveSize(Reads(d)[..i]) == |d|
    && (forall j :: 0 <= j < i ==> Packed(d, p, j))
    && (forall j, k :: 0 <= j < k < i ==> PackedApart(d, p, j, k))
  }

  lemma {:induction false} PackAll(d: Bytes, i: nat)
    requires Layout(d) && i <= Num(d)
    ensures PackOk(d, i) && PackTo(d, i).end >= End(d)
    decreases i
  {
    LiveBound(d, i);
    if i > 0 {
      PackAll(d, i - 1);
      assert Reads(d)[..i][..i - 1] == Reads(d)[..i - 1];
      PackOne(d, i - 1);
    }
  }

  lemma {:induction false} PackOne(d: Bytes, i: nat)
    requires Layout(d) && i < Num(d) && PackOk(d, i)
    requires LiveSize(Reads(d)[..i + 1]) <= |d| - End(d) && Reads(d)[..i + 1][..i] == Reads(d)[..i]
    ensures PackOk(d, i + 1)
  {
    var p, q, o := PackTo(d, i), PackTo(d, i + 1), SlotOf(d, i);
    assert SlotOk(d, i);
    if o != 0 {
      SpliceIn(p.data, p.end - (RecordEnd(d, o) - o), Stored(d, i));
    }
    forall j | 0 <= j < i ensures Packed(d, q, j) {
      assert Packed(d, p, j);
      PackedStays(d, p, i, j);
    }
    forall j, k | 0 <= j < k < i + 1 ensures PackedApart(d, q, j, k) {
      if k < i { assert PackedApart(d, p, j, k); } else { assert Packed(d, p, j); }
    }
  }

  /** A record copied earlier is still there after the next one is copied below it. */
  lemma PackedStays(d: Bytes, p: Pack, i: nat, j: nat)
    requires Framed(d) && j < i < Num(d) && |p.slots| == i && |p.data| == |d| && Packed(d, p, j)
    requires var o := SlotOf(d, i);
             o != 0 ==> o + 4 <= |d| && RecordEnd(d, o) <= |d| && RecordEnd(d, o) - o < p.end <= |d|
    ensures Packed(d, PackSlot(d, p, i), j)
  {
    var o := SlotOf(d, i);
    if o != 0 && SlotOf(d, j) != 0 {
      SpliceOut(p.data, p.end - (RecordEnd(d, o) - o), Stored(d, i), p.slots[j], p.slots[j] + |Stored(d, j)|);
    }
  }

  /** The slot array, entry by entry. */
  function WithSlots(data: Bytes, slots: seq<nat>): (r: Bytes)
    requires HEADER + 4 * |slots| <= |data|
    ensures |r| == |data|
    decreases |slots|
  {
    if slots == [] then data
    else
      var n := |slots| - 1;
      Splice(WithSlots(data, slots[..n]), HEADER + n * 4, LE(slots[n], 4))
  }

  lemma {:induction false} SlotWritten(data: Bytes, slots: seq<nat>, j: nat)
    requires HEADER + 4 * |slots| <= |data| && j < |slots|
    ensures WithSlots(data, slots)[HEADER + 4 * j..HEADER + 4 * j + 4] == LE(slots[j], 4)
    decreases |slots|
  {
    var n := |slots| - 1;
    var before, o := WithSlots(data, slots[..n]), HEADER + n * 4;
    SpliceIn(before, o, LE(slots[n], 4));
    if j < n {
      SlotWritten(data, slots[..n], j);
      SpliceOut(before, o, LE(slots[n], 4), HEADER + 4 * j, HEADER + 4 * j + 4);
    }
  }

  lemma {:induction false} AboveSlots(data: Bytes, slots: seq<nat>, p: nat, q: nat)
    requires HEADER + 4 * |slots| <= p <= q <= |data|
    ensures WithSlots(data, slots)[p..q] == data[p..q]
    decreases |slots|
  {
    if slots != [] {
      var n := |slots| - 1;
      AboveSlots(data, slots[..n], p, q);
      SpliceOut(WithSlots(data, slots[..n]), HEADER + n * 4, LE(slots[n], 4), p, q);
    }
  }

  /** The page after compaction. */
  function Compacted(d: Bytes): (r: Bytes)
    requires Framed(d)
    ensures |r| == |d|
  {
    var p := PackTo(d, Num(d));
    Headed(WithSlots(p.data, p.slots), HEADER + 4 * Num(d), p.end, Num(d))
  }

  /** The new slot array, before the header is written. */
  function Slotted(d: Bytes): (r: Bytes)
    requires Framed(d)
    ensures |r| == |d|
  {
    WithSlots(PackTo(d, Num(d)).data, PackTo(d, Num(d)).slots)
  }

  lemma {:induction false} CompactedHeader(d: Bytes)
    requires Layout(d)
    ensures var r, p := Compacted(d), PackTo(d, Num(d));
            && PackOk(d, Num(d)) && p.end >= End(d)
            && Framed(r) && Start(r) == Start(d) && Num(r) == Num(d) && End(r) == p.end
            && r[HEADER..|d|] == Slotted(d)[HEADER..|d|]
  {
    var p, n := PackTo(d, Num(d)), Num(d);
    PackAll(d, n);
    HeadedFields(Slotted(d), HEADER + 4 * n, p.end, n);
    HeadedRest(Slotted(d), HEADER + 4 * n, p.end, n, HEADER, |d|);
  }

  lemma {:induction false} CompactedEntry(d: Bytes, j: nat)
    requires Layout(d) && j < Num(d)
    ensures var r, p := Compacted(d), PackTo(d, Num(d));
            Framed(r) && Num(r) == Num(d) && Packed(d, p, j) && SlotOf(r, j) == p.slots[j]
  {
    var r, p := Compacted(d), PackTo(d, Num(d));
    var o := HEADER + 4 * j;
    CompactedHeader(d);
    assert Packed(d, p, j);
    SlotWritten(p.data, p.slots, j);
    SameField(Slotted(d), r, HEADER, |d|, o, o + 4);
    Trip4(p.slots[j]);
  }

  /** A live record among the packed ones. */
  lemma {:induction false} PackedRecord(d: Bytes, j: nat)
    requires Layout(d) && j < Num(d) && SlotOf(d, j) != 0
    ensures var p, o := PackTo(d, Num(d)), SlotOf(d, j);
            && o + 4 <= |d| && RecordEnd(d, o) <= |d| && |p.slots| == Num(d) && |p.data| == |d|
            && HEADER + 4 * Num(d) <= p.slots[j] && p.slots[j] + (RecordEnd(d, o) - o) <= |d|
            && p.data[p.slots[j]..p.slots[j] + (RecordEnd(d, o) - o)] == d[o..RecordEnd(d, o)]
  {
    CompactedHeader(d);
    assert Packed(d, PackTo(d, Num(d)), j);
    assert SlotOk(d, j);
  }

  lemma {:induction false} CompactedRecord(d: Bytes, j: nat)
    requires Layout(d) && j < Num(d) && SlotOf(d, j) != 0
    ensures var r, o, s := Compacted(d), SlotOf(d, j), PackTo(d, Num(d)).slots[j];
            && o + 4 <= |d| && RecordEnd(d, o) <= |d| && s + (RecordEnd(d, o) - o) <= |r|
            && r[s..s + (RecordEnd(d, o) - o)] == d[o..RecordEnd(d, o)]
  {
    var p, o := PackTo(d, Num(d)), SlotOf(d, j);
    CompactedHeader(d);
    PackedRecord(d, j);
    StaysPut(p.data, p.slots, Compacted(d), p.slots[j], p.slots[j] + (RecordEnd(d, o) - o), d[o..RecordEnd(d, o)]);
  }

  /** What lies above the slot array is what was packed there. */
  lemma {:induction false} StaysPut(data: Bytes, slots: seq<nat>, r: Bytes, a: nat, b: nat, x: Bytes)
    requires HEADER + 4 * |slots| <= a <= b <= |data| == |r|
    requires r[HEADER..|data|] == WithSlots(data, slots)[HEADER..|data|] && data[a..b] == x
    ensures r[a..b] == x
  {
    AboveSlots(data, slots, a, b);
    SameField(WithSlots(data, slots), r, HEADER, |data|, a, b);
  }

  /** A slot of one page and the same slot of another hold the same. */
  ghost predicate SameSlot(d: Bytes, r: Bytes, j: nat)
    requires Framed(d) && Framed(r) && j < Num(d) && j < Num(r)
  {
    && SlotOk(r, j) && ReadSlot(r, j) == ReadSlot(d, j) && (SlotOf(r, j) == 0 <==> SlotOf(d, j) == 0)
    && (SlotOf(r, j) != 0 ==>
          && SlotOf(r, j) + 4 <= |r| && SlotOf(d, j) + 4 <= |d|
          && RecordEnd(r, SlotOf(r, j)) - SlotOf(r, j) == RecordEnd(d, SlotOf(d, j)) - SlotOf(d, j))
  }

  lemma LiveSlot(d: Bytes, r: Bytes, j: nat)
    requires Framed(d) && Framed(r) && j < Num(d) && j < Num(r) && SlotOf(d, j) != 0 && SlotOf(r, j) != 0
             && End(r) <= SlotOf(r, j)
    requires var o, s := SlotOf(d, j), SlotOf(r, j);
             && o + 4 <= |d| && RecordEnd(d, o) <= |d| && s + (RecordEnd(d, o) - o) <= |r|
             && r[s..s + (RecordEnd(d, o) - o)] == d[o..RecordEnd(d, o)]
    ensures SameSlot(d, r, j)
  {
    SameRecord(d, SlotOf(d, j), r, SlotOf(r, j));
  }

  /** A slot after compaction: its record is whole, and reads as before. */
  lemma {:induction false} CompactedSlot(d: Bytes, j: nat)
    requires Layout(d) && j < Num(d)
    ensures var r := Compacted(d); Framed(r) && Num(r) == Num(d) && SameSlot(d, r, j)
  {
    CompactedHeader(d);
    CompactedEntry(d, j);
    if SlotOf(d, j) != 0 {
      CompactedRecord(d, j);
      LiveSlot(d, Compacted(d), j);
    }
  }

  /** The same stored bytes at two places are the same record. */
  lemma SameRecord(d: Bytes, o: nat, r: Bytes, s: nat)
    requires o + 4 <= |d| && RecordEnd(d, o) <= |d| && s + (RecordEnd(d, o) - o) <= |r|
    requires r[s..s + (RecordEnd(d, o) - o)] == d[o..RecordEnd(d, o)]
    ensures U32(r, s) == U32(d, o) && r[s + 4..RecordEnd(r, s)] == d[o + 4..RecordEnd(d, o)]
  {
    var size := RecordEnd(d, o) - o;
    SlicePart(r, d, s, o, size, 0, 4);
    SlicePart(r, d, s, o, size, 4, size);
  }

  lemma SlicePart(r: Bytes, d: Bytes, s: nat, o: nat, size: nat, a: nat, b: nat)
    requires a <= b <= size && s + size <= |r| && o + size <= |d| && r[s..s + size] == d[o..o + size]
    ensures r[s + a..s + b] == d[o + a..o + b]
  {
    var x, y := r[s + a..s + b], d[o + a..o + b];
    forall i | 0 <= i < |x| ensures x[i] == y[i] {
      assert x[i] == r[s..s + size][a + i];
      assert y[i] == d[o..o + size][a + i];
    }
  }

  /** Compaction keeps every slot id and what it reads, and leaves free all that header, slots and live records do not
      take. */
  lemma {:induction false} CompactedLayout(d: Bytes)
    requires Layout(d)
    ensures var r := Compacted(d);
            && Layout(r) && Reads(r) == Reads(d)
            && Free(r) == |d| - HEADER - 4 * Num(d) - LiveSize(Reads(d)) && Free(r) >= Free(d)
  {
    var r, p := Compacted(d), PackTo(d, Num(d));
    CompactedHeader(d);
    assert Reads(d)[..Num(d)] == Reads(d);
    LiveBound(d, Num(d));
    forall j | 0 <= j < Num(d) ensures SlotOk(r, j) && Reads(r)[j] == Reads(d)[j] {
      CompactedSlot(d, j);
    }
    forall j, k | 0 <= j < k < Num(d) ensures Stacked(r, j, k) {
      CompactedSlot(d, j);
      CompactedSlot(d, k);
      CompactedEntry(d, j);
      CompactedEntry(d, k);
      assert PackedApart(d, p, j, k);
    }
  }
}
