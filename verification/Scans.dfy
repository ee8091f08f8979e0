/** Range scans over recovered pages: when reading along the recorded links gives the rows of the tree. */
module Scans {
  import opened Entries
  import opened Tree
  import opened Log
  import opened TreeInsert
  import opened TreeRecovery
  import opened TreeDeleteRecovery
  import opened TreeLive
  import opened TreeLeaves
  import opened TreeSteps
  import opened CrashReplay
  import opened Restored
  import opened LeafOrder

  // ---- Reading pages as a range scan does ------------------------------------------------------

  /** The leaf page that descending for a key ends at. */
  function LeafFor(s: Store, id: PageId, k: int, h: nat): PageId
    decreases h
  {
    if id !in s || s[id].Leaf? || h == 0 || Route(s[id].keys, k) >= |s[id].children| then id
    else LeafFor(s, s[id].children[Route(s[id].keys, k)], k, h - 1)
  }

  /** The cells before the first key beyond the range. */
  function UpTo(es: seq<Entry>, b: int): (r: seq<Entry>)
    ensures r <= es
  {
    if es == [] || es[0].key > b then [] else [es[0]] + UpTo(es[1..], b)
  }

  /** From a leaf on along the links, until a key beyond the range or the end of the chain. */
  function ScanPages(s: Store, leaf: PageId, a: int, b: int, fuel: nat): seq<Entry>
    decreases fuel
  {
    if fuel == 0 || leaf !in s || s[leaf].Index? then []
    else
      var es := s[leaf].entries;
      var rows := Range(UpTo(es, b), a, b);
      if |UpTo(es, b)| < |es| || s[leaf].next == None then rows
        else rows + ScanPages(s, s[leaf].next.value, a, b, fuel - 1)
  }

  /** A scan of the pages from a root: descend for the start of the range, then follow the links. */
  function ScanFrom(s: Store, root: PageId, h: nat, a: int, b: int, fuel: nat): seq<Entry> {
    ScanPages(s, LeafFor(s, root, a, h), a, b, fuel)
  }

  lemma {:induction false} UpToParts(es: seq<Entry>, b: int)
    ensures |UpTo(es, b)| < |es| ==> es[|UpTo(es, b)|].key > b
    ensures forall i :: 0 <= i < |UpTo(es, b)| ==> es[i].key <= b
  {
    if es != [] && es[0].key <= b {
      UpToParts(es[1..], b);
    }
  }

  /** In a sorted list nothing beyond the stop is in the range. */
  lemma {:induction false} UpToRange(es: seq<Entry>, a: int, b: int)
    requires Sorted(es)
    ensures Range(UpTo(es, b), a, b) == Range(es, a, b)
  {
    var n := |UpTo(es, b)|;
    UpToParts(es, b);
    assert es == UpTo(es, b) + es[n..];
    if n < |es| {
      RangePast(UpTo(es, b), es[n..], a, b);
    } else {
      assert UpTo(es, b) == es;
    }
  }

  // ---- What is recorded of a leaf --------------------------------------------------------------------

  /** The recorded page of a leaf is a leaf with its entries, and perhaps more entries after them. */
  ghost predicate Recorded(s: Store, l: Tree) {
    && l.Lf? && l.id in s && s[l.id].Leaf? && l.entries <= s[l.id].entries && Sorted(s[l.id].entries)
  }

  lemma {:induction false} LeafRecorded(s: Store, t: Tree, order: nat, least: nat, lo: int, hi: int, h: nat, l: Tree)
    requires Shape(t, order, least, lo, hi, h) && Holds(s, t, hi, false) && l in Leaves(t)
    ensures Recorded(s, l)
    decreases t, 1
  {
    if t.Nd? {
      assert t.kids[..|t.kids|] == t.kids;
      AmongRecorded(s, t, order, lo, hi, h, |t.kids|, l);
    }
  }

  lemma {:induction false} AmongRecorded(s: Store, t: Tree, order: nat, lo: int, hi: int, h: nat, n: nat, l: Tree)
    requires Formed(t, order, lo, hi, h) && n <= |t.kids| && l in LeavesOf(t.kids[..n])
    requires forall i {:trigger t.kids[i]} :: 0 <= i < |t.kids| ==> Holds(s, t.kids[i], Upper(t.keys, hi, i), false)
    ensures Recorded(s, l)
    decreases t, 0, n
  {
    assert n > 0;
    var ts := t.kids[..n];
    LeavesAround(ts, n - 1);
    assert ts[n..] == [] && ts[..n - 1] == t.kids[..n - 1] && ts[n - 1] == t.kids[n - 1];
    if l in Leaves(ts[n - 1]) {
      LeafRecorded(s, t.kids[n - 1], order, order / 2, Lower(t.keys, lo, n - 1), Upper(t.keys, hi, n - 1), h - 1, l);
    } else {
      AmongRecorded(s, t, order, lo, hi, h, n - 1, l);
    }
  }

  /** Descending over recorded pages ends at the leaf the key is routed to. */
  lemma {:induction false} LeafForRight(s: Store, t: Tree, k: int, order: nat, least: nat, lo: int, hi: int, h: nat)
    requires Shape(t, order, least, lo, hi, h) && Holds(s, t, hi, false) && k < hi
    ensures LeafIndex(t, k) < |Leaves(t)| && LeafFor(s, t.id, k, h) == Leaves(t)[LeafIndex(t, k)].id
    decreases t
  {
    RoutedLeaf(t, k, order, least, lo, hi, h);
    if t.Nd? {
      var j := Route(t.keys, k);
      if s[t.id] != Image(t) {
        RouteStale(s[t.id].keys, t.keys, k, hi);
      }
      assert s[t.id].children[j] == KidIds(t.kids)[j] == t.kids[j].id;
      LeafForRight(s, t.kids[j], k, order, order / 2, Lower(t.keys, lo, j), Upper(t.keys, hi, j), h - 1);
      LeafIndexStep(t, k);
    }
  }

  // ---- Stretches: what is read until the next page of the tree ---------------------------------------------

  /** The cells that are read, the pages that are no longer in the tree they are read from, and where the reading goes
      on. */
  datatype Stretch = Stretch(cells: seq<Entry>, dead: seq<PageId>, next: Option<PageId>)

  /** What is read from a page on until the next page of the tree: the page's own cells, and those of the pages its link
      leads through that are not in the tree any more. None when there are more than `fuel` pages, or one is no leaf. */
  function StretchOf(s: Store, live: set<PageId>, p: PageId, fuel: nat): Option<Stretch>
    decreases fuel
  {
    if fuel == 0 || p !in s || s[p].Index? then None
    else if s[p].next == None || s[p].next.value in live then Some(Stretch(s[p].entries, [], s[p].next))
    else
      var r := StretchOf(s, live, s[p].next.value, fuel - 1);
      if r == None then None
      else Some(Stretch(s[p].entries + r.value.cells, [s[p].next.value] + r.value.dead, r.value.next))
  }

  /** The pages passed over are not in the tree, and are in the store; the page reached is in the tree. */
  lemma {:induction false} StretchEnds(s: Store, live: set<PageId>, p: PageId, fuel: nat)
    requires StretchOf(s, live, p, fuel).Some?
    ensures var r := StretchOf(s, live, p, fuel).value;
            && (r.next.Some? ==> r.next.value in live)
            && forall d :: d in r.dead ==> d !in live && d in s
    decreases fuel
  {
    if s[p].next.Some? && s[p].next.value !in live {
      StretchEnds(s, live, s[p].next.value, fuel - 1);
    }
  }

  lemma {:induction false} UpToAppend(x: seq<Entry>, y: seq<Entry>, b: int)
    ensures UpTo(x + y, b) == if |UpTo(x, b)| < |x| then UpTo(x, b) else x + UpTo(y, b)
  {
    if x == [] {
      assert x + y == y;
    } else if x[0].key <= b {
      assert (x + y)[1..] == x[1..] + y;
      UpToAppend(x[1..], y, b);
      assert |UpTo(x[1..], b)| == |x[1..]| ==> UpTo(x[1..], b) == x[1..];
    }
  }

  /** A scan reads the stretch of a page, and goes on where it ends unless a key is beyond the range. */
  ghost predicate ReadOn(s: Store, r: Stretch, a: int, b: int, rows: seq<Entry>, left: nat) {
    var es := UpTo(r.cells, b);
    rows == Range(es, a, b)
            + (if |es| < |r.cells| || r.next == None then [] else ScanPages(s, r.next.value, a, b, left))
  }

  lemma {:induction false} ScanStretch(s: Store, live: set<PageId>, p: PageId, f: nat, a: int, b: int, fuel: nat)
    returns (left: nat)
    requires StretchOf(s, live, p, f).Some? && fuel >= f
    ensures left + f >= fuel && ReadOn(s, StretchOf(s, live, p, f).value, a, b, ScanPages(s, p, a, b, fuel), left)
    decreases f
  {
    left := fuel - 1;
    var es := s[p].entries;
    if s[p].next.Some? && s[p].next.value !in live {
      var r := StretchOf(s, live, s[p].next.value, f - 1).value;
      left := ScanStretch(s, live, s[p].next.value, f - 1, a, b, fuel - 1);
      ReadStep(s, es, r, [s[p].next.value] + r.dead, a, b, ScanPages(s, s[p].next.value, a, b, fuel - 1), left);
    }
  }

  /** Some cells, and then a stretch. */
  lemma {:induction false} ReadStep(s: Store, es: seq<Entry>, r: Stretch, dead: seq<PageId>, a: int, b: int,
      rows: seq<Entry>, left: nat)
    requires ReadOn(s, r, a, b, rows, left)
    ensures ReadOn(s, Stretch(es + r.cells, dead, r.next), a, b,
                   Range(UpTo(es, b), a, b) + (if |UpTo(es, b)| < |es| then [] else rows), left)
  {
    UpToAppend(es, r.cells, b);
    if |UpTo(es, b)| == |es| {
      assert UpTo(es, b) == es;
      RangeAppend(es, UpTo(r.cells, b), a, b);
    }
  }

  // ---- When a scan is right --------------------------------------------------------------------------

  /** The leaf after the first m ones, if any. */
  function Link(ls: seq<Tree>, m: nat): Option<PageId> {
    if m < |ls| then Some(ls[m].id) else None
  }

  function LiveIds(t: Tree): set<PageId> {
    set id | id in Ids(t)
  }

  /** The stretch of leaf i stands for leaves i to m: it has exactly their entries, and leads on to leaf m, or ends the
      chain when m is the end. */
  ghost predicate Covers(s: Store, t: Tree, i: nat, m: nat, fuel: nat) {
    && i < m <= |Leaves(t)|
    && var r := StretchOf(s, LiveIds(t), Leaves(t)[i].id, fuel);
       r.Some? && r.value.cells == ContentsOf(Leaves(t)[i..m]) && r.value.next == Link(Leaves(t), m)
  }

  ghost predicate Covered(s: Store, t: Tree, i: nat) {
    exists m: nat, fuel: nat :: Covers(s, t, i, m, fuel)
  }

  ghost predicate AllCovered(s: Store, t: Tree) {
    forall i :: 0 <= i < |Leaves(t)| ==> Covered(s, t, i)
  }

  lemma SortedParts(a: seq<Entry>, b: seq<Entry>)
    requires Sorted(a + b)
    ensures Sorted(a) && Sorted(b)
  {
    assert [] + a + b == a + b && a + b + [] == a + b;
    SortedMiddle([], a, b);
    SortedMiddle(a, b, []);
  }

  lemma {:induction false} BeyondEmpty(a: seq<Entry>, b: seq<Entry>, n: nat, lo: int, hi: int)
    requires Sorted(a + b) && n < |a| && a[n].key > hi
    ensures Range(b, lo, hi) == []
  {
    forall q | 0 <= q < |b| ensures hi < b[q].key {
      assert b[q] == (a + b)[|a| + q] && a[n] == (a + b)[n];
    }
    RangeEmpty(b, lo, hi);
  }

  /** Within so many pages, reading from leaf i on gives what the leaves from there on hold of a range. */
  ghost predicate ReadsFrom(s: Store, t: Tree, i: nat, bound: nat)
    requires i < |Leaves(t)|
  {
    forall a: int, b: int, fuel: nat {:trigger ScanPages(s, Leaves(t)[i].id, a, b, fuel)} :: fuel >= bound ==>
      ScanPages(s, Leaves(t)[i].id, a, b, fuel) == Range(ContentsOf(Leaves(t)[i..]), a, b)
  }

  lemma {:induction false} ScanCovered(s: Store, t: Tree, i: nat) returns (bound: nat)
    requires i <= |Leaves(t)| && Sorted(ContentsOf(Leaves(t)[i..]))
    requires forall q :: i <= q < |Leaves(t)| ==> Covered(s, t, q)
    ensures forall q :: i <= q < |Leaves(t)| ==> ReadsFrom(s, t, q, bound)
    decreases |Leaves(t)| - i
  {
    var ls := Leaves(t);
    if i == |ls| {
      return 0;
    }
    assert ls[i..] == [ls[i]] + ls[i + 1..];
    ContentsAppend([ls[i]], ls[i + 1..]);
    SortedParts(ContentsOf([ls[i]]), ContentsOf(ls[i + 1..]));
    var rest := ScanCovered(s, t, i + 1);
    assert Covered(s, t, i);
    var m: nat, f: nat :| Covers(s, t, i, m, f);
    bound := f + rest;
    ReadCover(s, t, i, m, f, rest);
    forall q | i < q < |ls| ensures ReadsFrom(s, t, q, bound) {
      assert ReadsFrom(s, t, q, rest);
    }
  }

  lemma {:induction false} ReadCover(s: Store, t: Tree, i: nat, m: nat, f: nat, rest: nat)
    requires Covers(s, t, i, m, f) && Sorted(ContentsOf(Leaves(t)[i..]))
    requires m < |Leaves(t)| ==> ReadsFrom(s, t, m, rest)
    ensures ReadsFrom(s, t, i, f + rest)
  {
    var p := Leaves(t)[i].id;
    var r := StretchOf(s, LiveIds(t), p, f).value;
    forall a: int, b: int, fuel: nat {:trigger ScanPages(s, p, a, b, fuel)} | fuel >= f + rest
      ensures ScanPages(s, p, a, b, fuel) == Range(ContentsOf(Leaves(t)[i..]), a, b)
    {
      var left := ScanStretch(s, LiveIds(t), p, f, a, b, fuel);
      CoverReads(s, Leaves(t), i, m, r, a, b, ScanPages(s, p, a, b, fuel), left);
    }
  }

  /** The stretch, and then the leaves from m on. */
  lemma {:induction false} CoverReads(s: Store, ls: seq<Tree>, i: nat, m: nat, r: Stretch, a: int, b: int,
      rows: seq<Entry>, left: nat)
    requires i < m <= |ls| && r.cells == ContentsOf(ls[i..m]) && r.next == Link(ls, m)
    requires ReadOn(s, r, a, b, rows, left) && Sorted(ContentsOf(ls[i..]))
    requires m < |ls| ==> ScanPages(s, ls[m].id, a, b, left) == Range(ContentsOf(ls[m..]), a, b)
    ensures rows == Range(ContentsOf(ls[i..]), a, b)
  {
    assert ls[i..] == ls[i..m] + ls[m..];
    ContentsAppend(ls[i..m], ls[m..]);
    if m == |ls| {
      assert ls[m..] == [];
    }
    StretchReads(s, r, ContentsOf(ls[m..]), a, b, rows, left);
  }

  lemma {:induction false} StretchReads(s: Store, r: Stretch, rest: seq<Entry>, a: int, b: int, rows: seq<Entry>,
      left: nat)
    requires ReadOn(s, r, a, b, rows, left) && Sorted(r.cells + rest)
    requires if r.next == None then rest == [] else ScanPages(s, r.next.value, a, b, left) == Range(rest, a, b)
    ensures rows == Range(r.cells + rest, a, b)
  {
    ReadParts(r.cells, rest, a, b);
  }

  /** Reading stops in the first part, or goes on with the second. */
  lemma {:induction false} ReadParts(es: seq<Entry>, rest: seq<Entry>, a: int, b: int)
    requires Sorted(es + rest)
    ensures Range(es + rest, a, b) == Range(UpTo(es, b), a, b) + if |UpTo(es, b)| < |es| then [] else Range(rest, a, b)
  {
    SortedParts(es, rest);
    UpToRange(es, a, b);
    UpToParts(es, b);
    RangeAppend(es, rest, a, b);
    if |UpTo(es, b)| < |es| {
      BeyondEmpty(es, rest, |UpTo(es, b)|, a, b);
    }
  }

  /** What the leaves of a sound tree look like in the recovered pages. */
  ghost predicate Recovered(s: Store, t: Tree, order: nat, h: nat) {
    order >= 2 && Shape(t, order, RootLeast(t), 0, KEY_LIMIT, h) && Chained(t, None) && Holds(s, t, KEY_LIMIT, false)
  }

  /** Every scan that starts below the largest key finds exactly the rows of the range, in order, within so many
      pages. */
  ghost predicate ScansWithin(s: Store, t: Tree, h: nat, bound: nat) {
    forall a: int, b: int, fuel: nat :: a < KEY_LIMIT && fuel >= bound ==>
      ScanFrom(s, t.id, h, a, b, fuel) == Range(Contents(t), a, b)
  }

  /** Every scan ends, with exactly the rows of the range. */
  ghost predicate ScansRight(s: Store, t: Tree, h: nat) {
    exists bound: nat :: ScansWithin(s, t, h, bound)
  }

  /** If every leaf's stretch stands for leaves of the tree, all scans are right. */
  lemma {:induction false} CoveredScans(s: Store, t: Tree, order: nat, h: nat)
    requires Recovered(s, t, order, h) && AllCovered(s, t)
    ensures ScansRight(s, t, h)
  {
    Ordered(t, order, RootLeast(t), 0, KEY_LIMIT, h);
    LeavesContents(t);
    assert Leaves(t)[0..] == Leaves(t);
    var bound := ScanCovered(s, t, 0);
    forall a: int, b: int, fuel: nat | a < KEY_LIMIT && fuel >= bound
      ensures ScanFrom(s, t.id, h, a, b, fuel) == Range(Contents(t), a, b)
    {
      CoveredScan(s, t, order, h, bound, a, b, fuel);
    }
    assert ScansWithin(s, t, h, bound);
  }

  /** One scan: it starts in the leaf its lower bound is routed to. */
  lemma {:induction false} CoveredScan(s: Store, t: Tree, order: nat, h: nat, bound: nat, a: int, b: int, fuel: nat)
    requires Recovered(s, t, order, h) && a < KEY_LIMIT && fuel >= bound
    requires forall q :: 0 <= q < |Leaves(t)| ==> ReadsFrom(s, t, q, bound)
    ensures ScanFrom(s, t.id, h, a, b, fuel) == Range(Contents(t), a, b)
  {
    LeafForRight(s, t, a, order, RootLeast(t), 0, KEY_LIMIT, h);
    ScanStart(t, a, b, order, RootLeast(t), 0, KEY_LIMIT, h);
    LeavesContents(t);
    var ls, i := Leaves(t), LeafIndex(t, a);
    assert ls == ls[..i] + ls[i..];
    ContentsAppend(ls[..i], ls[i..]);
    RangeAppend(ContentsOf(ls[..i]), ContentsOf(ls[i..]), a, b);
    assert ReadsFrom(s, t, i, bound);
  }

  /** A leaf that is restored exactly stands for itself. */
  lemma {:induction false} ExactCovers(s: Store, t: Tree, order: nat, h: nat, i: nat)
    requires Recovered(s, t, order, h) && i < |Leaves(t)| && Leaves(t)[i].id in s
             && s[Leaves(t)[i].id] == Image(Leaves(t)[i])
    ensures Covered(s, t, i)
  {
    var ls := Leaves(t);
    LeafRecorded(s, t, order, RootLeast(t), 0, KEY_LIMIT, h, ls[i]);
    ChainThreads(t, order, RootLeast(t), 0, KEY_LIMIT, h, None);
    assert LinkOk(ls, None, i);
    if i + 1 < |ls| {
      LeafInTree(t, i + 1);
    }
    assert ls[i..i + 1] == [ls[i]];
    Single(ls[i]);
    assert Covers(s, t, i, i + 1, 1);
  }

  lemma {:induction false} LeafInTree(t: Tree, i: nat)
    requires i < |Leaves(t)|
    ensures Leaves(t)[i].id in LiveIds(t)
  {
    LeafIdsAmong(t);
    assert LeafIds(t)[i] in multiset(LeafIds(t));
  }

  // ---- The converse ------------------------------------------------------------------------------------

  /** No cell is below the first key of the leaf. */
  ghost predicate NotBefore(own: seq<Entry>, cells: seq<Entry>) {
    own != [] ==> forall e :: e in cells ==> own[0].key <= e.key
  }

  /** The stretch of leaf i has no smaller key than the leaf, and ends the chain or leads to a later leaf. */
  ghost predicate Leads(s: Store, t: Tree, i: nat, fuel: nat) {
    && i < |Leaves(t)| && Recorded(s, Leaves(t)[i])
    && var r := StretchOf(s, LiveIds(t), Leaves(t)[i].id, fuel);
       && r.Some? && NotBefore(Leaves(t)[i].entries, r.value.cells)
       && (r.value.next == None || exists m: nat :: i < m < |Leaves(t)| && r.value.next == Some(Leaves(t)[m].id))
  }

  ghost predicate Forward(s: Store, t: Tree, i: nat) {
    exists fuel: nat :: Leads(s, t, i, fuel)
  }

  ghost predicate AllForward(s: Store, t: Tree) {
    forall i :: 0 <= i < |Leaves(t)| ==> Forward(s, t, i)
  }

  /** The leaf that holds a key is the one the key is routed to. */
  lemma {:induction false} RoutedToFirst(t: Tree, order: nat, h: nat, i: nat)
    requires Shape(t, order, RootLeast(t), 0, KEY_LIMIT, h) && i < |Leaves(t)| && Leaves(t)[i].Lf?
             && Leaves(t)[i].entries != []
    ensures LeafIndex(t, Leaves(t)[i].entries[0].key) == i
  {
    var ls, e := Leaves(t), Leaves(t)[i].entries[0];
    var q := LeafIndex(t, e.key);
    RoutedLeaf(t, e.key, order, RootLeast(t), 0, KEY_LIMIT, h);
    if i < q {
      FirstIn(ls[..q], i);
    } else if i > q {
      FirstIn(ls[q + 1..], i - q - 1);
    }
  }

  lemma {:induction false} FirstIn(ls: seq<Tree>, i: nat)
    requires i < |ls| && ls[i].Lf? && ls[i].entries != []
    ensures exists p :: 0 <= p < |ContentsOf(ls)| && ContentsOf(ls)[p] == ls[i].entries[0]
  {
    Around(ls, i);
    assert ContentsOf(ls)[|ContentsOf(ls[..i])|] == ls[i].entries[0];
  }

  /** With no upper bound, a scan reads the whole leaf and goes on. */
  lemma {:induction false} UpToAll(es: seq<Entry>)
    ensures UpTo(es, KEY_LIMIT) == es
  {
    if es != [] {
      UpToAll(es[1..]);
    }
  }

  lemma {:induction false} RangeAll(es: seq<Entry>, a: int)
    requires forall i :: 0 <= i < |es| ==> a <= es[i].key
    ensures Range(es, a, KEY_LIMIT) == es
  {
    if es != [] {
      RangeAll(es[1..], a);
    }
  }

  lemma {:induction false} PartOf(ls: seq<Tree>, i: nat, m: nat)
    requires i < m <= |ls| && ls[i].Lf?
    ensures ls[i].entries + ContentsOf(ls[i + 1..m]) == ContentsOf(ls[i..m])
    ensures ContentsOf(ls[i..]) == ContentsOf(ls[i..m]) + ContentsOf(ls[m..])
  {
    assert ls[i..m] == [ls[i]] + ls[i + 1..m];
    ContentsAppend([ls[i]], ls[i + 1..m]);
    Single(ls[i]);
    assert ls[i..] == ls[i..m] + ls[m..];
    ContentsAppend(ls[i..m], ls[m..]);
  }

  /** The entries from a leaf on: its own and those after it, sorted; before it there are only smaller ones. */
  lemma {:induction false} SuffixParts(t: Tree, order: nat, h: nat, i: nat)
    requires Shape(t, order, RootLeast(t), 0, KEY_LIMIT, h) && i < |Leaves(t)| && Leaves(t)[i].Lf?
    ensures Contents(t) == ContentsOf(Leaves(t)[..i]) + ContentsOf(Leaves(t)[i..])
    ensures ContentsOf(Leaves(t)[i..]) == Leaves(t)[i].entries + ContentsOf(Leaves(t)[i + 1..])
    ensures Sorted(ContentsOf(Leaves(t)[i..])) && Sorted(ContentsOf(Leaves(t)[i + 1..]))
  {
    var ls := Leaves(t);
    Ordered(t, order, RootLeast(t), 0, KEY_LIMIT, h);
    LeavesContents(t);
    assert ls == ls[..i] + ls[i..];
    ContentsAppend(ls[..i], ls[i..]);
    SortedParts(ContentsOf(ls[..i]), ContentsOf(ls[i..]));
    PartOf(ls, i, |ls|);
    assert ls[i + 1..|ls|] == ls[i + 1..] && ls[i..|ls|] == ls[i..];
    SortedParts(ls[i].entries, ContentsOf(ls[i + 1..]));
  }

  lemma {:induction false} SortedFirst(es: seq<Entry>, rest: seq<Entry>)
    requires Sorted(es + rest) && es != []
    ensures forall i :: 0 <= i < |es + rest| ==> es[0].key <= (es + rest)[i].key
    ensures forall i :: 0 <= i < |rest| ==> es[0].key <= rest[i].key
  {
    assert es[0] == (es + rest)[0];
    forall i | 0 <= i < |rest| ensures es[0].key <= rest[i].key {
      assert rest[i] == (es + rest)[|es| + i];
    }
  }

  /** From the first key of a leaf on, the range is what the leaves from there on hold. */
  lemma {:induction false} RangeFrom(t: Tree, order: nat, h: nat, i: nat)
    requires Shape(t, order, RootLeast(t), 0, KEY_LIMIT, h) && i < |Leaves(t)| && Leaves(t)[i].Lf?
             && Leaves(t)[i].entries != []
    ensures Range(Contents(t), Leaves(t)[i].entries[0].key, KEY_LIMIT) == ContentsOf(Leaves(t)[i..])
  {
    var ls, a := Leaves(t), Leaves(t)[i].entries[0].key;
    SuffixParts(t, order, h, i);
    RoutedLeaf(t, a, order, RootLeast(t), 0, KEY_LIMIT, h);
    RoutedToFirst(t, order, h, i);
    RangeAppend(ContentsOf(ls[..i]), ContentsOf(ls[i..]), a, KEY_LIMIT);
    RangeEmpty(ContentsOf(ls[..i]), a, KEY_LIMIT);
    SortedFirst(ls[i].entries, ContentsOf(ls[i + 1..]));
    RangeAll(ContentsOf(ls[i..]), a);
  }

  lemma {:induction false} ScanFromFirst(s: Store, t: Tree, order: nat, h: nat, i: nat, bound: nat, fuel: nat)
    requires Recovered(s, t, order, h) && ScansWithin(s, t, h, bound) && fuel >= bound
    requires i < |Leaves(t)| && Leaves(t)[i].Lf? && Leaves(t)[i].entries != []
    ensures ScanPages(s, Leaves(t)[i].id, Leaves(t)[i].entries[0].key, KEY_LIMIT, fuel) == ContentsOf(Leaves(t)[i..])
  {
    var a := Leaves(t)[i].entries[0].key;
    LeafForRight(s, t, a, order, RootLeast(t), 0, KEY_LIMIT, h);
    RoutedToFirst(t, order, h, i);
    RangeFrom(t, order, h, i);
    assert ScanFrom(s, t.id, h, a, KEY_LIMIT, fuel) == Range(Contents(t), a, KEY_LIMIT);
  }

  /** A scan that is right from the first key of a leaf needs its stretch to stand for leaves of the tree. */
  lemma {:induction false} ScanNeedsCover(s: Store, t: Tree, order: nat, h: nat, i: nat, bound: nat)
    requires Recovered(s, t, order, h) && ScansWithin(s, t, h, bound) && Forward(s, t, i) && AllFilled(s, Leaves(t))
    ensures Covered(s, t, i)
  {
    var f: nat :| Leads(s, t, i, f);
    var l, fuel := Leaves(t)[i], bound + f + 1;
    assert Filled(s, l);
    ScanFromFirst(s, t, order, h, i, bound, fuel);
    var left := ScanStretch(s, LiveIds(t), l.id, f, l.entries[0].key, KEY_LIMIT, fuel);
    CoverOf(s, t, order, h, i, f, ScanPages(s, l.id, l.entries[0].key, KEY_LIMIT, fuel), left);
  }

  ghost predicate Filled(s: Store, l: Tree) {
    Recorded(s, l) && l.entries != []
  }

  ghost predicate AllFilled(s: Store, ls: seq<Tree>) {
    forall i {:trigger Filled(s, ls[i])} :: 0 <= i < |ls| ==> Filled(s, ls[i])
  }

  lemma {:induction false} CoverOf(s: Store, t: Tree, order: nat, h: nat, i: nat, f: nat, rows: seq<Entry>, left: nat)
    requires Shape(t, order, RootLeast(t), 0, KEY_LIMIT, h) && Leads(s, t, i, f) && left > 0
    requires AllFilled(s, Leaves(t)) && Filled(s, Leaves(t)[i]) && rows == ContentsOf(Leaves(t)[i..])
    requires ReadOn(s, StretchOf(s, LiveIds(t), Leaves(t)[i].id, f).value, Leaves(t)[i].entries[0].key, KEY_LIMIT, rows,
                    left)
    ensures Covered(s, t, i)
  {
    var ls, a := Leaves(t), Leaves(t)[i].entries[0].key;
    var r := StretchOf(s, LiveIds(t), ls[i].id, f).value;
    UpToAll(r.cells);
    RangeAll(r.cells, a);
    if r.next == None {
      assert ls[i..|ls|] == ls[i..];
      assert Covers(s, t, i, |ls|, f);
    } else {
      var m: nat :| i < m < |ls| && r.next == Some(ls[m].id);
      SuffixParts(t, order, h, i);
      assert Filled(s, ls[m]);
      LinkedOn(s, t, order, h, i, m, left);
      SameStart(r.cells, ScanPages(s, ls[m].id, a, KEY_LIMIT, left), ls, i, m);
      assert Covers(s, t, i, m, f);
    }
  }

  /** What is read after the link begins with the first entry of the leaf it names. */
  lemma {:induction false} LinkedOn(s: Store, t: Tree, order: nat, h: nat, i: nat, m: nat, fuel: nat)
    requires Shape(t, order, RootLeast(t), 0, KEY_LIMIT, h) && i < m < |Leaves(t)| && fuel > 0
    requires Leaves(t)[i].Lf? && Leaves(t)[i].entries != [] && Recorded(s, Leaves(t)[m]) && Leaves(t)[m].entries != []
    ensures var on := ScanPages(s, Leaves(t)[m].id, Leaves(t)[i].entries[0].key, KEY_LIMIT, fuel);
            on != [] && on[0] == Leaves(t)[m].entries[0]
  {
    var ls := Leaves(t);
    SuffixParts(t, order, h, i);
    SortedFirst(ls[i].entries, ContentsOf(ls[i + 1..]));
    FirstIn(ls[i + 1..], m - i - 1);
    UpToAll(s[ls[m].id].entries);
  }

  /** Two ways to split the entries from leaf i on that agree on what comes second agree on what comes first. */
  lemma {:induction false} SameStart(cells: seq<Entry>, on: seq<Entry>, ls: seq<Tree>, i: nat, m: nat)
    requires i < m < |ls| && ls[m].Lf? && ls[m].entries != [] && on != [] && on[0] == ls[m].entries[0]
    requires cells + on == ContentsOf(ls[i..]) && Sorted(ContentsOf(ls[i..]))
    ensures cells == ContentsOf(ls[i..m])
  {
    var all, front := ContentsOf(ls[i..]), ContentsOf(ls[i..m]);
    assert ls[i..] == ls[i..m] + ls[m..];
    ContentsAppend(ls[i..m], ls[m..]);
    assert ls[m..][0] == ls[m];
    assert all[|front|] == ls[m].entries[0] && all[|cells|] == on[0];
    assert front == all[..|front|] && cells == all[..|cells|];
  }

  /** Below an index root every leaf has an entry. */
  lemma {:induction false} LeavesFilled(t: Tree, order: nat, least: nat, lo: int, hi: int, h: nat, l: Tree)
    requires order >= 2 && Shape(t, order, least, lo, hi, h) && (t.Lf? ==> least >= 1) && l in Leaves(t)
    ensures l.Lf? && l.entries != []
    decreases t, 1
  {
    if t.Nd? {
      assert t.kids[..|t.kids|] == t.kids;
      KidsFilled(t, order, lo, hi, h, |t.kids|, l);
    }
  }

  lemma {:induction false} KidsFilled(t: Tree, order: nat, lo: int, hi: int, h: nat, n: nat, l: Tree)
    requires order >= 2 && Formed(t, order, lo, hi, h) && n <= |t.kids| && l in LeavesOf(t.kids[..n])
    ensures l.Lf? && l.entries != []
    decreases t, 0, n
  {
    assert n > 0;
    var ts := t.kids[..n];
    LeavesAround(ts, n - 1);
    assert ts[n..] == [] && ts[..n - 1] == t.kids[..n - 1] && ts[n - 1] == t.kids[n - 1];
    if l in Leaves(ts[n - 1]) {
      LeavesFilled(t.kids[n - 1], order, order / 2, Lower(t.keys, lo, n - 1), Upper(t.keys, hi, n - 1), h - 1, l);
    } else {
      KidsFilled(t, order, lo, hi, h, n - 1, l);
    }
  }

  /** All scans are right if and only if every leaf's stretch stands for leaves of the tree, where all links lead
      forward. */
  lemma {:induction false} ScansIff(s: Store, t: Tree, order: nat, h: nat)
    requires Recovered(s, t, order, h) && AllForward(s, t)
    ensures ScansRight(s, t, h) <==> AllCovered(s, t)
  {
    if AllCovered(s, t) {
      CoveredScans(s, t, order, h);
    }
    if ScansRight(s, t, h) {
      var bound: nat :| ScansWithin(s, t, h, bound);
      forall i | 0 <= i < |Leaves(t)| ensures Covered(s, t, i) {
        assert Forward(s, t, i);
        if t.Lf? {
          RootCovered(s, t, order, h, bound);
        } else {
          AllLeavesFilled(s, t, order, h);
          ScanNeedsCover(s, t, order, h, i, bound);
        }
      }
    }
  }

  lemma {:induction false} AllLeavesFilled(s: Store, t: Tree, order: nat, h: nat)
    requires Recovered(s, t, order, h) && t.Nd?
    ensures AllFilled(s, Leaves(t))
  {
    var ls := Leaves(t);
    forall q | 0 <= q < |ls| ensures Filled(s, ls[q]) {
      LeavesFilled(t, order, RootLeast(t), 0, KEY_LIMIT, h, ls[q]);
      LeafRecorded(s, t, order, RootLeast(t), 0, KEY_LIMIT, h, ls[q]);
    }
  }

  /** A root leaf has to be read as it is. */
  lemma {:induction false} RootCovered(s: Store, t: Tree, order: nat, h: nat, bound: nat)
    requires Recovered(s, t, order, h) && t.Lf? && Forward(s, t, 0) && ScansWithin(s, t, h, bound)
    ensures Covered(s, t, 0)
  {
    var f: nat :| Leads(s, t, 0, f);
    assert Leaves(t) == [t];
    var fuel := bound + f;
    var left := ScanStretch(s, LiveIds(t), t.id, f, 0, KEY_LIMIT, fuel);
    assert ScanFrom(s, t.id, h, 0, KEY_LIMIT, fuel) == Range(Contents(t), 0, KEY_LIMIT);
    OneRead(StretchOf(s, LiveIds(t), t.id, f).value, t, s, left);
    assert Leaves(t)[0..1] == [t];
    Single(t);
    assert Covers(s, t, 0, 1, f);
  }

  lemma {:induction false} OneRead(r: Stretch, t: Tree, s: Store, left: nat)
    requires t.Lf? && r.next == None && ReadOn(s, r, 0, KEY_LIMIT, Range(t.entries, 0, KEY_LIMIT), left)
    ensures r.cells == t.entries
  {
    UpToAll(r.cells);
    RangeAll(r.cells, 0);
    RangeAll(t.entries, 0);
  }
}
