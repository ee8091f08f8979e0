/** A slotted page over a byte array that is written in place. */
module SlottedPages {
  import opened Entries
  import opened ByteOrder
  import opened SlottedLayout

  /** Copy bytes into an array. */
  method Write(a: array<Byte>, o: nat, bs: Bytes)
    requires o + |bs| <= a.Length
    modifies a
    ensures a[..] == Splice(old(a[..]), o, bs)
  {
    for i := 0 to |bs|
      invariant a[..o] == old(a[..o]) && a[o..o + i] == bs[..i] && a[o + i..] == old(a[o + i..])
    {
      ghost var tail := a[o + i..];
      a[o + i] := bs[i];
      assert a[o + i + 1..] == tail[1..];
      assert a[o..o + i + 1] == bs[..i] + [bs[i]];
    }
    assert a[..] == a[..o] + a[o..o + |bs|] + a[o + |bs|..];
  }

  datatype ReadResult = Payload(bytes: Bytes) | DeletedSlot | InvalidSlot

  class SlottedPage {
    var data: array<Byte>

    ghost predicate Valid()
      reads this, data
    {
      Layout(data[..])
    }

    /** What the slots hold. */
    ghost function Rows(): seq<Option<Bytes>>
      reads this, data
      requires Valid()
    {
      Reads(data[..])
    }

    constructor (size: nat)
      requires HEADER <= size < LIMIT32
      ensures Valid() && fresh(data) && data[..] == EmptyPage(size) && Rows() == [] && Free(data[..]) == size - HEADER
    {
      data := new Byte[size](_ => 0);
      new;
      assert data[..] == Blank(size);
      SetHeader(data, HEADER, size, 0);
      EmptyLayout(size);
    }

    static method SetHeader(a: array<Byte>, start: nat, end: nat, n: nat)
      requires a.Length >= HEADER
      modifies a
      ensures a[..] == Headed(old(a[..]), start, end, n)
    {
      Write(a, 0, LE(start, 4));
      Write(a, 4, LE(end, 4));
      Write(a, 8, LE(n, 4));
    }

    /** Append a record; its slot id is the number of slots so far. None when it does not fit. */
    method Insert(record: Bytes) returns (id: Option<nat>)
      requires Valid()
      modifies data
      ensures Valid() && data == old(data)
      ensures id == if Free(old(data[..])) >= |record| + 8 then Some(|old(Rows())|) else None
      ensures id.Some? ==>
                Rows() == old(Rows()) + [Some(record)]
                && Free(data[..]) == Free(old(data[..])) - (|record| + 8)
      ensures data[..] == if id == None then old(data[..]) else Inserted(old(data[..]), record)
    {
      var d := data[..];
      var start, end, n := U32(d, 0), U32(d, 4), U32(d, 8);
      if end - start < |record| + 4 + 4 {
        return None;
      }
      InsertedLayout(d, record);
      WriteRecord(data, record, start, end, n);
      id := Some(n);
    }

    static method WriteRecord(a: array<Byte>, record: Bytes, start: nat, end: nat, n: nat)
      requires Framed(a[..]) && Fits(a[..], record) && start == Start(a[..]) && end == End(a[..]) && n == Num(a[..])
      modifies a
      ensures a[..] == Inserted(old(a[..]), record)
    {
      ghost var d := a[..];
      WriteCell(a, record, end, n);
      assert a[..] == WithRecord(d, record);
      SetHeader(a, start + 4, end - (4 + |record|), n + 1);
    }

    /** The record and its slot entry. */
    static method WriteCell(a: array<Byte>, record: Bytes, end: nat, n: nat)
      requires end <= a.Length && HEADER + 4 * n + 4 + 4 + |record| <= end
      modifies a
      ensures a[..] == Splice(Splice(old(a[..]), end - (4 + |record|), LE(|record|, 4) + record), HEADER + n * 4,
              LE(end - (4 + |record|), 4))
    {
      var at := end - (4 + |record|);
      Write(a, at, LE(|record|, 4) + record);
      Write(a, HEADER + n * 4, LE(at, 4));
    }

    /** The payload of a slot. */
    method Read(id: nat) returns (r: ReadResult)
      requires Valid()
      ensures r == if id >= |Rows()| then InvalidSlot else if Rows()[id] == None then DeletedSlot
              else Payload(Rows()[id].value)
    {
      if id >= U32(data[..], 8) {
        return InvalidSlot;
      }
      assert SlotOk(data[..], id);
      var o := U32(data[..], HEADER + id * 4);
      if o == 0 {
        return DeletedSlot;
      }
      var length := U32(data[..], o);
      r := Payload(data[o + 4..o + 4 + length]);
    }

    /** Empty a slot; its space is not reclaimed. */
    method Delete(id: nat) returns (ok: bool)
      requires Valid()
      modifies data
      ensures Valid() && data == old(data) && ok == (id < |old(Rows())|)
      ensures Rows() == if ok then old(Rows())[id := None] else old(Rows())
      ensures Free(data[..]) == Free(old(data[..]))
    {
      if id >= U32(data[..], 8) {
        return false;
      }
      DeletedLayout(data[..], id);
      Write(data, HEADER + id * 4, LE(0, 4));
      ok := true;
    }

    /** Reclaim the space of deleted records: every slot id keeps what it reads. */
    method Compact()
      requires Valid()
      modifies this
      ensures Valid() && fresh(data) && data.Length == old(data.Length)
      ensures Rows() == old(Rows())
      ensures Free(data[..]) == data.Length - HEADER - 4 * |Rows()| - LiveSize(Rows())
    {
      ghost var d := data[..];
      var copy := CopyCompacted();
      CompactedLayout(d);
      data := copy;
    }

    method CopyCompacted() returns (copy: array<Byte>)
      requires Valid()
      ensures fresh(copy) && copy[..] == Compacted(data[..])
    {
      copy := CompactBytes(data[..]);
    }

    static method CompactBytes(d: Bytes) returns (copy: array<Byte>)
      requires Layout(d)
      ensures fresh(copy) && copy[..] == Compacted(d)
    {
      var n := U32(d, 8);
      copy := new Byte[|d|](_ => 0);
      assert copy[..] == Blank(|d|);
      var end, slots := PackInto(d, copy, n);
      ghost var p := PackTo(d, n);
      assert copy[..] == p.data && end == p.end && slots == p.slots && |slots| == n;
      Finish(copy, slots, end, p.data);
    }

    static method Finish(a: array<Byte>, slots: seq<nat>, end: nat, ghost before: Bytes)
      requires HEADER + 4 * |slots| <= a.Length && a[..] == before
      modifies a
      ensures a[..] == Headed(WithSlots(before, slots), HEADER + 4 * |slots|, end, |slots|)
    {
      WriteSlots(a, slots, before);
      SetHeader(a, HEADER + |slots| * 4, end, |slots|);
    }

    /** Copy the live records, oldest first, to the far end of a new page. */
    static method PackInto(d: Bytes, a: array<Byte>, n: nat) returns (end: nat, slots: seq<nat>)
      requires Layout(d) && a[..] == Blank(|d|) && n == Num(d)
      modifies a
      ensures Pack(a[..], end, slots) == PackTo(d, n)
    {
      end, slots := |d|, [];
      for i := 0 to n
        invariant Pack(a[..], end, slots) == PackTo(d, i)
      {
        end, slots := PackNext(d, a, end, slots, i);
      }
    }

    static method PackNext(d: Bytes, a: array<Byte>, end: nat, slots: seq<nat>, i: nat)
    returns (end': nat, slots': seq<nat>)
      requires Layout(d) && i < Num(d) && Pack(a[..], end, slots) == PackTo(d, i)
      modifies a
      ensures Pack(a[..], end', slots') == PackTo(d, i + 1)
    {
      PackStep(d, i);
      var o := U32(d, HEADER + i * 4);
      if o == 0 {
        return end, slots + [0];
      }
      var total := 4 + U32(d, o);
      end' := end - total;
      slots' := slots + [end'];
      Write(a, end', d[o..o + total]);
    }

    static method WriteSlots(a: array<Byte>, slots: seq<nat>, ghost before: Bytes)
      requires HEADER + 4 * |slots| <= a.Length && a[..] == before
      modifies a
      ensures a[..] == WithSlots(before, slots)
    {
      for i := 0 to |slots|
        invariant a[..] == WithSlots(before, slots[..i])
      {
        assert slots[..i + 1][..i] == slots[..i];
        Write(a, HEADER + i * 4, LE(slots[i], 4));
      }
      assert slots[..|slots|] == slots;
    }
  }

  /** One more record in the new page: there is always room for it. */
  lemma {:induction false} PackStep(d: Bytes, i: nat)
    requires Layout(d) && i < Num(d)
    ensures var p, q, o := PackTo(d, i), PackTo(d, i + 1), SlotOf(d, i);
            if o == 0 then q == Pack(p.data, p.end, p.slots + [0])
            else
              && o + 4 <= |d| && RecordEnd(d, o) <= |d|
              && var total := 4 + U32(d, o);
                 total <= p.end <= |d| && q == Pack(Splice(p.data, p.end - total, d[o..o + total]), p.end - total,
                 p.slots + [p.end - total])
  {
    LiveStep(d, i);
    LiveBound(d, i + 1);
    PackAll(d, i);
  }

  lemma {:induction false} LiveStep(d: Bytes, i: nat)
    requires Layout(d) && i < Num(d)
    ensures var o := SlotOf(d, i);
            && (o != 0 ==> o + 4 <= |d| && RecordEnd(d, o) <= |d|)
            && LiveSize(Reads(d)[..i + 1]) == LiveSize(Reads(d)[..i]) + if o == 0 then 0 else RecordEnd(d, o) - o
  {
    assert SlotOk(d, i);
    assert Reads(d)[..i + 1][..i] == Reads(d)[..i];
  }
}
