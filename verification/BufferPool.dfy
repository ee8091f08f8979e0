/** An LRU buffer pool: frames from least to most recently used, with dirty bits and pin counts. */
module BufferPools {
  import opened Entries

  /** A page as the pool holds it: its body, and the number of the last log record that described it. */
  datatype PageVal = PageVal(body: Bytes, lsn: nat)

  datatype Frame = Frame(page: PageVal, dirty: bool, pins: nat)

  datatype Slot = Slot(id: nat, frame: Frame)

  type Frames = map<nat, Frame>

  ghost predicate DistinctIds(slots: seq<Slot>) {
    forall i, j :: 0 <= i < j < |slots| ==> slots[i].id != slots[j].id
  }

  ghost predicate Listed(slots: seq<Slot>, id: nat) {
    exists i :: 0 <= i < |slots| && slots[i].id == id
  }

  /** The slots as a map; each id has one slot. */
  ghost predicate Shows(slots: seq<Slot>, m: Frames) {
    && DistinctIds(slots)
    && (forall i :: 0 <= i < |slots| ==> slots[i].id in m && m[slots[i].id] == slots[i].frame)
    && (forall id {:trigger Listed(slots, id)} :: id in m ==> Listed(slots, id))
  }

  function Without(slots: seq<Slot>, i: nat): seq<Slot>
    requires i < |slots|
  {
    slots[..i] + slots[i + 1..]
  }

  lemma ShowsWithout(slots: seq<Slot>, m: Frames, i: nat)
    requires Shows(slots, m) && i < |slots|
    ensures Shows(Without(slots, i), m - {slots[i].id})
  {
    var r, m' := Without(slots, i), m - {slots[i].id};
    forall j | 0 <= j < |r| ensures r[j].id in m' && m'[r[j].id] == r[j].frame {
      assert r[j] == if j < i then slots[j] else slots[j + 1];
    }
    forall id | id in m' ensures Listed(r, id) {
      assert Listed(slots, id);
      var j :| 0 <= j < |slots| && slots[j].id == id;
      assert r[if j < i then j else j - 1].id == id;
    }
  }

  /** The pool holds as many pages as it has slots. */
  lemma {:induction false} ShowsCount(slots: seq<Slot>, m: Frames)
    requires Shows(slots, m)
    ensures |slots| == |m|
    decreases |slots|
  {
    if slots == [] {
      forall id | id in m ensures Listed(slots, id) {
      }
      assert m.Keys == {};
    } else {
      var n := |slots| - 1;
      ShowsWithout(slots, m, n);
      ShowsCount(Without(slots, n), m - {slots[n].id});
      assert m.Keys == (m - {slots[n].id}).Keys + {slots[n].id};
    }
  }

  lemma ShowsAdd(slots: seq<Slot>, m: Frames, s: Slot)
    requires Shows(slots, m) && s.id !in m
    ensures Shows(slots + [s], m[s.id := s.frame])
  {
    var r, m' := slots + [s], m[s.id := s.frame];
    forall id | id in m' ensures Listed(r, id) {
      if id == s.id {
        assert r[|slots|].id == id;
      } else {
        assert Listed(slots, id);
        var j :| 0 <= j < |slots| && slots[j].id == id;
        assert r[j].id == id;
      }
    }
  }

  lemma ShowsUpdate(slots: seq<Slot>, m: Frames, i: nat, f: Frame)
    requires Shows(slots, m) && i < |slots|
    ensures Shows(slots[i := Slot(slots[i].id, f)], m[slots[i].id := f])
  {
    var r, m' := slots[i := Slot(slots[i].id, f)], m[slots[i].id := f];
    forall id | id in m' ensures Listed(r, id) {
      assert Listed(slots, id);
      var j :| 0 <= j < |slots| && slots[j].id == id;
      assert r[j].id == id;
    }
  }

  // ---- Recency ------------------------------------------------------------------------------

  /** When each page was last inserted, replaced or read: later slots were used later. */
  ghost predicate Recent(slots: seq<Slot>, used: map<nat, nat>, now: nat) {
    && (forall i :: 0 <= i < |slots| ==> slots[i].id in used && used[slots[i].id] < now)
    && (forall i, j :: 0 <= i < j < |slots| ==> used[slots[i].id] < used[slots[j].id])
  }

  /** The ids from least to most recently used. */
  function Order(slots: seq<Slot>): (r: seq<nat>)
    ensures |r| == |slots| && forall i :: 0 <= i < |slots| ==> r[i] == slots[i].id
  {
    seq(|slots|, i requires 0 <= i < |slots| => slots[i].id)
  }

  /** All slots but that of one page, in the same order. */
  function Others(slots: seq<Slot>, id: nat): seq<Slot>
    decreases |slots|
  {
    if slots == [] then []
    else
      var n := |slots| - 1;
      Others(slots[..n], id) + if slots[n].id == id then [] else [slots[n]]
  }

  lemma {:induction false} OthersAt(slots: seq<Slot>, i: nat)
    requires DistinctIds(slots) && i < |slots|
    ensures Others(slots, slots[i].id) == Without(slots, i)
    decreases |slots|
  {
    var n := |slots| - 1;
    if i == n {
      OthersNone(slots[..n], slots[n].id);
      assert Without(slots, i) == slots[..n];
    } else {
      OthersAt(slots[..n], i);
      assert Without(slots, i) == Without(slots[..n], i) + [slots[n]];
    }
  }

  lemma {:induction false} OthersNone(slots: seq<Slot>, id: nat)
    requires forall i :: 0 <= i < |slots| ==> slots[i].id != id
    ensures Others(slots, id) == slots
    decreases |slots|
  {
    if slots != [] {
      OthersNone(slots[..|slots| - 1], id);
    }
  }

  /** A page used now goes last. */
  lemma RecentUse(slots: seq<Slot>, used: map<nat, nat>, now: nat, s: Slot)
    requires Recent(slots, used, now) && forall i :: 0 <= i < |slots| ==> slots[i].id != s.id
    ensures Recent(slots + [s], used[s.id := now], now + 1)
  {
  }

  lemma RecentWithout(slots: seq<Slot>, used: map<nat, nat>, now: nat, i: nat)
    requires Recent(slots, used, now) && i < |slots|
    ensures Recent(Without(slots, i), used, now)
  {
    var r := Without(slots, i);
    forall j | 0 <= j < |r| ensures r[j] == if j < i then slots[j] else slots[j + 1] {
    }
  }

  /** The page to evict: not pinned, and no other page that is not pinned was left unused for longer. */
  ghost predicate LeastRecent(view: Frames, used: map<nat, nat>, v: nat) {
    && v in view && view[v].pins == 0 && v in used
    && forall id :: id in view && view[id].pins == 0 ==> id in used && used[v] <= used[id]
  }

  /** There is at most one such page. */
  lemma LeastOnly(slots: seq<Slot>, view: Frames, used: map<nat, nat>, now: nat, v: nat, w: nat)
    requires Shows(slots, view) && Recent(slots, used, now) && LeastRecent(view, used, v) && LeastRecent(view, used, w)
    ensures v == w
  {
    assert Listed(slots, v) && Listed(slots, w);
    var i :| 0 <= i < |slots| && slots[i].id == v;
    var j :| 0 <= j < |slots| && slots[j].id == w;
  }

  ghost predicate AllPinned(view: Frames) {
    forall id :: id in view ==> view[id].pins > 0
  }

  lemma {:induction false} FirstIsLeast(slots: seq<Slot>, view: Frames, used: map<nat, nat>, now: nat, i: nat)
    requires Shows(slots, view) && Recent(slots, used, now) && i < |slots| && slots[i].frame.pins == 0
    requires forall j :: 0 <= j < i ==> slots[j].frame.pins > 0
    ensures LeastRecent(view, used, slots[i].id)
  {
    forall id | id in view && view[id].pins == 0 ensures id in used && used[slots[i].id] <= used[id] {
      assert Listed(slots, id);
      var j :| 0 <= j < |slots| && slots[j].id == id;
      assert i <= j;
    }
  }

  lemma {:induction false} ShownAtEnd(slots: seq<Slot>, view: Frames, i: nat)
    requires Shows(slots, view) && i < |slots|
    ensures Shows(Without(slots, i) + [slots[i]], view)
  {
    var s := slots[i];
    ShowsWithout(slots, view, i);
    ShowsAdd(Without(slots, i), view - {s.id}, s);
    assert (view - {s.id})[s.id := s.frame] == view;
  }

  lemma {:induction false} RecentAtEnd(slots: seq<Slot>, used: map<nat, nat>, now: nat, i: nat)
    requires DistinctIds(slots) && Recent(slots, used, now) && i < |slots|
    ensures Recent(Without(slots, i) + [slots[i]], used[slots[i].id := now], now + 1)
  {
    RecentWithout(slots, used, now, i);
    forall j | 0 <= j < |slots| - 1 ensures Without(slots, i)[j].id != slots[i].id {
      assert Without(slots, i)[j] == if j < i then slots[j] else slots[j + 1];
    }
    RecentUse(Without(slots, i), used, now, slots[i]);
  }

  lemma {:induction false} NoneUnpinned(slots: seq<Slot>, view: Frames)
    requires Shows(slots, view) && forall j :: 0 <= j < |slots| ==> slots[j].frame.pins > 0
    ensures AllPinned(view)
  {
    forall id | id in view ensures view[id].pins > 0 {
      assert Listed(slots, id);
      var j :| 0 <= j < |slots| && slots[j].id == id;
    }
  }

  /** The frames without the one that was pushed out. */
  function Rest(view: Frames, victim: Option<nat>): Frames {
    if victim.Some? then view - {victim.value} else view
  }

  /** What the caller gets back: the page pushed out, when it is dirty. */
  function Evicted(view: Frames, victim: Option<nat>): seq<(nat, PageVal)>
    requires victim.Some? ==> victim.value in view
  {
    if victim.Some? && view[victim.value].dirty then [(victim.value, view[victim.value].page)] else []
  }

  /** A frame whose page object was changed in place. */
  function Rewritten(f: Frame, body: Bytes): Frame {
    f.(page := f.page.(body := body))
  }

  class BufferPool {
    const capacity: nat
    var slots: seq<Slot>
    ghost var view: Frames
    /** The time of the last use of each page, and the present. */
    ghost var used: map<nat, nat>
    ghost var now: nat

    ghost predicate Valid()
      reads this
    {
      capacity >= 1 && Shows(slots, view) && Recent(slots, used, now)
    }

    constructor (capacity: nat)
      requires capacity >= 1
      ensures Valid() && view == map[] && slots == [] && this.capacity == capacity
    {
      this.capacity := capacity;
      slots, view, used, now := [], map[], map[], 0;
    }

    method IndexOf(id: nat) returns (r: Option<nat>)
      requires Valid()
      ensures r == None <==> id !in view
      ensures r.Some? ==> r.value < |slots| && slots[r.value].id == id
    {
      for i := 0 to |slots|
        invariant forall j :: 0 <= j < i ==> slots[j].id != id
      {
        if slots[i].id == id {
          return Some(i);
        }
      }
      assert id in view ==> Listed(slots, id);
      r := None;
    }

    method Contains(id: nat) returns (b: bool)
      requires Valid()
      ensures b == (id in view)
    {
      var at := IndexOf(id);
      b := at.Some?;
    }

    /** The cached page; its frame becomes the most recently used one, and the others keep their order. */
    method Get(id: nat) returns (r: Option<PageVal>)
      requires Valid()
      modifies this`slots, this`used, this`now
      ensures Valid() && r == if id in view then Some(view[id].page) else None
      ensures id in view ==> slots == Others(old(slots), id) + [Slot(id, view[id])] && used == old(used)[id := old(now)]
      ensures id !in view ==> slots == old(slots) && used == old(used)
    {
      var at := IndexOf(id);
      if at == None {
        return None;
      }
      r := Some(slots[at.value].frame.page);
      ToEnd(at.value);
    }

    method ToEnd(i: nat)
      requires Valid() && i < |slots|
      modifies this`slots, this`used, this`now
      ensures Valid() && slots == Others(old(slots), old(slots)[i].id) + [old(slots)[i]]
      ensures used == old(used)[old(slots)[i].id := old(now)]
    {
      var s := slots[i];
      ShownAtEnd(slots, view, i);
      RecentAtEnd(slots, used, now, i);
      OthersAt(slots, i);
      slots := Without(slots, i) + [s];
      used, now := used[s.id := now], now + 1;
    }

    /** Insert or replace a page; it becomes the most recently used one. A new page pushes out a frame when the pool is
        full: the least recently used one that is not pinned, if any. The caller gets it back when it is dirty. */
    method Put(id: nat, page: PageVal, dirty: bool) returns (evicted: seq<(nat, PageVal)>, ghost victim: Option<nat>)
      requires Valid()
      modifies this
      ensures Valid() && id in view && used == old(used)[id := old(now)]
      ensures id in old(view) ==>
                && victim == None
                && view == old(view)[id := Frame(page, old(view)[id].dirty || dirty, old(view)[id].pins)]
                && slots == Others(old(slots), id) + [Slot(id, view[id])]
      ensures id !in old(view) ==>
                && (victim == None <==> |old(view)| < capacity || AllPinned(old(view)))
                && view == Rest(old(view), victim)[id := Frame(page, dirty, 0)]
                && slots == (if victim.Some? then Others(old(slots), victim.value) else old(slots)) +
                [Slot(id, Frame(page, dirty, 0))]
      ensures victim.Some? ==> victim.value != id && LeastRecent(old(view), old(used), victim.value)
      ensures evicted == Evicted(old(view), victim)
    {
      evicted, victim := [], None;
      var at := IndexOf(id);
      if at.Some? {
        Replace(at.value, page, dirty);
        return;
      }
      ShowsCount(slots, view);
      if |slots| >= capacity {
        evicted, victim := EvictOne();
      }
      AddNew(Slot(id, Frame(page, dirty, 0)));
    }

    method Replace(i: nat, page: PageVal, dirty: bool)
      requires Valid() && i < |slots|
      modifies this
      ensures Valid() && used == old(used)[old(slots)[i].id := old(now)]
      ensures var id, f := old(slots)[i].id, old(slots)[i].frame;
              var g := Frame(page, f.dirty || dirty, f.pins);
              view == old(view)[id := g] && slots == Others(old(slots), id) + [Slot(id, g)]
    {
      var f := slots[i].frame;
      OthersAt(slots, i);
      SetFrame(i, Frame(page, f.dirty || dirty, f.pins));
      OthersAt(slots, i);
      assert Without(slots, i) == Without(old(slots), i);
      ToEnd(i);
    }

    method AddNew(s: Slot)
      requires Valid() && s.id !in view
      modifies this
      ensures Valid() && slots == old(slots) + [s] && view == old(view)[s.id := s.frame]
              && used == old(used)[s.id := old(now)]
    {
      ShowsAdd(slots, view, s);
      RecentUse(slots, used, now, s);
      slots, view := slots + [s], view[s.id := s.frame];
      used, now := used[s.id := now], now + 1;
    }

    /** Let the least recently used frame go that is not pinned; with all pinned, none goes. */
    method EvictOne() returns (evicted: seq<(nat, PageVal)>, ghost victim: Option<nat>)
      requires Valid()
      modifies this`slots, this`view
      ensures Valid() && (victim == None <==> AllPinned(old(view)))
      ensures victim == None ==> slots == old(slots)
      ensures victim.Some? ==> LeastRecent(old(view), used, victim.value) && slots == Others(old(slots), victim.value)
      ensures view == Rest(old(view), victim) && evicted == Evicted(old(view), victim)
    {
      evicted, victim := [], None;
      for i := 0 to |slots|
        invariant slots == old(slots) && view == old(view)
        invariant forall j :: 0 <= j < i ==> slots[j].frame.pins > 0
      {
        if slots[i].frame.pins == 0 {
          if slots[i].frame.dirty {
            evicted := [(slots[i].id, slots[i].frame.page)];
          }
          victim := Some(slots[i].id);
          RemoveAt(i);
          return;
        }
      }
      NoneUnpinned(slots, view);
    }

    method RemoveAt(i: nat)
      requires Valid() && i < |slots| && slots[i].frame.pins == 0 && forall j :: 0 <= j < i ==> slots[j].frame.pins > 0
      modifies this`slots, this`view
      ensures Valid() && LeastRecent(old(view), used, old(slots)[i].id)
      ensures slots == Others(old(slots), old(slots)[i].id) && view == old(view) - {old(slots)[i].id}
    {
      var s := slots[i];
      FirstIsLeast(slots, view, used, now, i);
      ShowsWithout(slots, view, i);
      RecentWithout(slots, used, now, i);
      OthersAt(slots, i);
      slots, view := Without(slots, i), view - {s.id};
    }

    method SetFrame(i: nat, f: Frame)
      requires Valid() && i < |slots|
      modifies this`slots, this`view
      ensures Valid() && view == old(view)[old(slots)[i].id := f] && slots == old(slots)[i := Slot(old(slots)[i].id, f)]
    {
      ShowsUpdate(slots, view, i, f);
      slots, view := slots[i := Slot(slots[i].id, f)], view[slots[i].id := f];
    }

    /** The page object was changed and is dirty now; a frame changed in place keeps its place. */
    method MarkDirty(id: nat, page: PageVal)
      requires Valid()
      modifies this`slots, this`view
      ensures Valid() && Order(slots) == Order(old(slots))
      ensures view == if id in old(view) then old(view)[id := Frame(page, true, old(view)[id].pins)] else old(view)
    {
      var at := IndexOf(id);
      if at.Some? {
        SetFrame(at.value, Frame(page, true, slots[at.value].frame.pins));
      }
    }

    /** The page object in the frame is changed in place; neither the flag nor the order tells of it. */
    method Change(id: nat, body: Bytes)
      requires Valid()
      modifies this`slots, this`view
      ensures Valid() && Order(slots) == Order(old(slots))
      ensures view == if id in old(view) then old(view)[id := Rewritten(old(view)[id], body)] else old(view)
    {
      var at := IndexOf(id);
      if at.Some? {
        SetFrame(at.value, Rewritten(slots[at.value].frame, body));
      }
    }

    method ClearDirty(id: nat)
      requires Valid()
      modifies this`slots, this`view
      ensures Valid() && Order(slots) == Order(old(slots))
      ensures view == if id in old(view) then old(view)[id := old(view)[id].(dirty := false)] else old(view)
    {
      var at := IndexOf(id);
      if at.Some? {
        SetFrame(at.value, slots[at.value].frame.(dirty := false));
      }
    }

    method Pin(id: nat)
      requires Valid()
      modifies this`slots, this`view
      ensures Valid() && Order(slots) == Order(old(slots))
      ensures view == if id in old(view) then old(view)[id := old(view)[id].(pins := old(view)[id].pins + 1)]
              else old(view)
    {
      var at := IndexOf(id);
      if at.Some? {
        SetFrame(at.value, slots[at.value].frame.(pins := slots[at.value].frame.pins + 1));
      }
    }

    /** A pin count never goes below zero. */
    method Unpin(id: nat)
      requires Valid()
      modifies this`slots, this`view
      ensures Valid() && Order(slots) == Order(old(slots))
      ensures view == if id in old(view) && old(view)[id].pins > 0
                      then old(view)[id := old(view)[id].(pins := old(view)[id].pins - 1)] else old(view)
    {
      var at := IndexOf(id);
      if at.Some? && slots[at.value].frame.pins > 0 {
        SetFrame(at.value, slots[at.value].frame.(pins := slots[at.value].frame.pins - 1));
      }
    }

    /** Every dirty page, least recently used first. */
    method DirtyPages() returns (r: seq<(nat, PageVal)>)
      requires Valid()
      ensures forall i :: 0 <= i < |r| ==> r[i].0 in view && view[r[i].0].dirty && view[r[i].0].page == r[i].1
      ensures forall i, j :: 0 <= i < j < |r| ==> r[i].0 != r[j].0
      ensures forall id :: id in view && view[id].dirty ==> exists i :: 0 <= i < |r| && r[i].0 == id
    {
      r := [];
      for k := 0 to |slots|
        invariant forall i :: 0 <= i < |r| ==> r[i].0 in view && view[r[i].0].dirty && view[r[i].0].page == r[i].1
        invariant forall i, j :: 0 <= i < j < |r| ==> r[i].0 != r[j].0
        invariant forall i :: 0 <= i < |r| ==> forall j :: k <= j < |slots| ==> r[i].0 != slots[j].id
        invariant forall j :: 0 <= j < k && slots[j].frame.dirty ==> exists i :: 0 <= i < |r| && r[i].0 == slots[j].id
      {
        var s := slots[k];
        if s.frame.dirty {
          ghost var before := r;
          r := r + [(s.id, s.frame.page)];
          assert r[|before|].0 == s.id;
          forall j | 0 <= j < k && slots[j].frame.dirty ensures exists i :: 0 <= i < |r| && r[i].0 == slots[j].id {
            var i :| 0 <= i < |before| && before[i].0 == slots[j].id;
            assert r[i].0 == slots[j].id;
          }
        }
      }
      forall id | id in view && view[id].dirty ensures exists i :: 0 <= i < |r| && r[i].0 == id {
        assert Listed(slots, id);
        var j :| 0 <= j < |slots| && slots[j].id == id;
        assert slots[j].frame.dirty;
      }
    }
  }
}
