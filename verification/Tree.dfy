/** Page images, the shape of a B+Tree spread over them, and what a tree and its pages mean. */
module Tree {
  import opened Entries

  type PageId = nat

  /** The contents of one page, as written to the log and to the data file. */
  datatype Page =
    | Leaf(entries: seq<Entry>, next: Option<PageId>)
    | Index(keys: seq<Key>, children: seq<PageId>)

  /** A tree of pages, with the page ids that hold its nodes. */
  datatype Tree =
    | Lf(id: PageId, entries: seq<Entry>, next: Option<PageId>)
    | Nd(id: PageId, keys: seq<Key>, kids: seq<Tree>)

  function NumKeys(t: Tree): nat {
    if t.Lf? then |t.entries| else |t.keys|
  }

  /** The entries of the leaves, left to right. */
  function Contents(t: Tree): seq<Entry> {
    match t
    case Lf(_, entries, _) => entries
    case Nd(_, _, kids) => ContentsOf(kids)
  }

  function ContentsOf(ts: seq<Tree>): seq<Entry> {
    if ts == [] then [] else Contents(ts[0]) + ContentsOf(ts[1..])
  }

  function Ids(t: Tree): multiset<PageId> {
    match t
    case Lf(id, _, _) => multiset{id}
    case Nd(id, _, kids) => multiset{id} + IdsOf(kids)
  }

  function IdsOf(ts: seq<Tree>): multiset<PageId> {
    if ts == [] then multiset{} else Ids(ts[0]) + IdsOf(ts[1..])
  }

  /** No page is used twice. */
  ghost predicate Distinct(ids: multiset<PageId>) {
    forall id :: id in ids ==> ids[id] == 1
  }

  function KidIds(ts: seq<Tree>): (r: seq<PageId>)
    ensures |r| == |ts| && forall i :: 0 <= i < |ts| ==> r[i] == ts[i].id
  {
    seq(|ts|, i requires 0 <= i < |ts| => ts[i].id)
  }

  function Image(t: Tree): Page {
    match t
    case Lf(_, entries, next) => Leaf(entries, next)
    case Nd(_, keys, kids) => Index(keys, KidIds(kids))
  }

  // ---- Routing ----------------------------------------------------------

  /** The child a key is routed to: the first separator above it, else the last child. */
  function Route(keys: seq<Key>, k: int): (i: nat)
    ensures i <= |keys|
    ensures forall j :: 0 <= j < i ==> keys[j] <= k
    ensures i < |keys| ==> k < keys[i]
  {
    RouteFrom(keys, k, 0)
  }

  function RouteFrom(keys: seq<Key>, k: int, from: nat): (i: nat)
    requires from <= |keys|
    ensures from <= i <= |keys|
    ensures forall j :: from <= j < i ==> keys[j] <= k
    ensures i < |keys| ==> k < keys[i]
    decreases |keys| - from
  {
    if from == |keys| || k < keys[from] then from else RouteFrom(keys, k, from + 1)
  }

  /** Where a new separator goes: the first position whose key is not below it. */
  function Slot(keys: seq<Key>, k: int): (i: nat)
    ensures i <= |keys|
    ensures forall j :: 0 <= j < i ==> keys[j] < k
    ensures i < |keys| ==> k <= keys[i]
  {
    SlotFrom(keys, k, 0)
  }

  function SlotFrom(keys: seq<Key>, k: int, from: nat): (i: nat)
    requires from <= |keys|
    ensures from <= i <= |keys|
    ensures forall j :: from <= j < i ==> keys[j] < k
    ensures i < |keys| ==> k <= keys[i]
    decreases |keys| - from
  {
    if from == |keys| || k <= keys[from] then from else SlotFrom(keys, k, from + 1)
  }

  /** An index page with a separator and a new child put in. */
  function WidenedPage(p: Page, sep: Key, child: PageId): Page
    requires p.Index? && |p.children| == |p.keys| + 1
  {
    var i := Slot(p.keys, sep);
    Index(p.keys[..i] + [sep] + p.keys[i..], p.children[..i + 1] + [child] + p.children[i + 1..])
  }

  /** The lower and upper bound of the keys below child i of a node whose own bounds are lo and hi. */
  function Lower(keys: seq<Key>, lo: int, i: nat): int
    requires i <= |keys|
  {
    if i == 0 then lo else keys[i - 1]
  }

  function Upper(keys: seq<Key>, hi: int, i: nat): int
    requires i <= |keys|
  {
    if i == |keys| then hi else keys[i]
  }

  // ---- Shape ------------------------------------------------------------

  /** Separators strictly increase and lie strictly between the bounds of the node. */
  ghost predicate Separators(keys: seq<Key>, lo: int, hi: int) {
    && lo < hi
    && (forall i, j :: 0 <= i < j < |keys| ==> keys[i] < keys[j])
    && (forall i :: 0 <= i < |keys| ==> lo < keys[i] < hi)
  }

  /** Uniform depth h, keys in [lo, hi), at least `least` keys here and order / 2 below, at most order anywhere. */
  ghost predicate Shape(t: Tree, order: nat, least: nat, lo: int, hi: int, h: nat)
    decreases t
  {
    && least <= NumKeys(t) <= order
    && match t
       case Lf(_, entries, _) => h == 0 && lo < hi && Sorted(entries) && Within(entries, lo, hi)
       case Nd(_, keys, kids) =>
         && h > 0
         && |kids| == |keys| + 1
         && Separators(keys, lo, hi)
         && forall i {:trigger kids[i]} :: 0 <= i < |kids| ==>
              Shape(kids[i], order, order / 2, Lower(keys, lo, i), Upper(keys, hi, i), h - 1)
  }

  /** The leftmost leaf. */
  function FirstLeaf(t: Tree): PageId {
    if t.Lf? || t.kids == [] then t.id else FirstLeaf(t.kids[0])
  }

  /** The leaves are linked left to right, and the last one points to `after`. */
  ghost predicate Chained(t: Tree, after: Option<PageId>)
    decreases t
  {
    match t
    case Lf(_, _, next) => next == after
    case Nd(_, _, kids) =>
      forall i {:trigger Follower(kids, after, i)} :: 0 <= i < |kids| ==> Chained(kids[i], Follower(kids, after, i))
  }

  function Follower(kids: seq<Tree>, after: Option<PageId>, i: nat): Option<PageId>
    requires i < |kids|
  {
    if i + 1 < |kids| then Some(FirstLeaf(kids[i + 1])) else after
  }

  // ---- Pages ------------------------------------------------------------

  type Store = map<PageId, Page>

  /** p is an image of page q from before q was split off at hi: q plus material that only keys >= hi reach. */
  ghost predicate StaleAbove(p: Page, q: Page, hi: int) {
    match (p, q)
    case (Leaf(es, _), Leaf(fs, _)) =>
      fs <= es && Sorted(es) && forall i :: |fs| <= i < |es| ==> hi <= es[i].key
    case (Index(ks, cs), Index(ls, ds)) =>
      ls <= ks && ds <= cs && |cs| == |ks| + 1 && |ls| < |ks| && hi <= ks[|ls|]
    case _ => false
  }

  /** Every node of t is in the store; when not exact, a page may still carry material above its upper bound. */
  ghost predicate Holds(s: Store, t: Tree, hi: int, exact: bool)
    decreases t
  {
    && t.id in s
    && (s[t.id] == Image(t) || (!exact && StaleAbove(s[t.id], Image(t), hi)))
    && (t.Nd? ==>
          && |t.kids| == |t.keys| + 1
          && forall i {:trigger t.kids[i]} :: 0 <= i < |t.kids| ==>
               Holds(s, t.kids[i], Upper(t.keys, hi, i), exact))
  }

  // ---- Sequences of subtrees -------------------------------------------

  lemma {:induction false} ContentsAppend(a: seq<Tree>, b: seq<Tree>)
    ensures ContentsOf(a + b) == ContentsOf(a) + ContentsOf(b)
  {
    if a == [] {
      assert a + b == b;
    } else {
      assert (a + b)[1..] == a[1..] + b;
      ContentsAppend(a[1..], b);
    }
  }

  lemma {:induction false} IdsAppend(a: seq<Tree>, b: seq<Tree>)
    ensures IdsOf(a + b) == IdsOf(a) + IdsOf(b)
  {
    if a == [] {
      assert a + b == b;
    } else {
      assert (a + b)[1..] == a[1..] + b;
      IdsAppend(a[1..], b);
    }
  }

  /** A sequence of subtrees around position i. */
  lemma {:induction false} Around(ts: seq<Tree>, i: nat)
    requires i < |ts|
    ensures ts == ts[..i] + [ts[i]] + ts[i + 1..]
    ensures ContentsOf(ts) == ContentsOf(ts[..i]) + Contents(ts[i]) + ContentsOf(ts[i + 1..])
    ensures IdsOf(ts) == IdsOf(ts[..i]) + Ids(ts[i]) + IdsOf(ts[i + 1..])
  {
    assert ts == ts[..i] + [ts[i]] + ts[i + 1..];
    ContentsAppend(ts[..i] + [ts[i]], ts[i + 1..]);
    ContentsAppend(ts[..i], [ts[i]]);
    IdsAppend(ts[..i] + [ts[i]], ts[i + 1..]);
    IdsAppend(ts[..i], [ts[i]]);
    assert [ts[i]][1..] == [];
  }

  /** A sequence of subtrees around two neighbours. */
  lemma {:induction false} AroundTwo(ts: seq<Tree>, i: nat)
    requires i + 1 < |ts|
    ensures ts == ts[..i] + [ts[i], ts[i + 1]] + ts[i + 2..]
    ensures ContentsOf(ts) == ContentsOf(ts[..i]) + (Contents(ts[i]) + Contents(ts[i + 1])) + ContentsOf(ts[i + 2..])
    ensures IdsOf(ts) == IdsOf(ts[..i]) + Ids(ts[i]) + Ids(ts[i + 1]) + IdsOf(ts[i + 2..])
  {
    var two := [ts[i], ts[i + 1]];
    assert ts == ts[..i] + two + ts[i + 2..];
    ContentsAppend(ts[..i] + two, ts[i + 2..]);
    ContentsAppend(ts[..i], two);
    IdsAppend(ts[..i] + two, ts[i + 2..]);
    IdsAppend(ts[..i], two);
    Pair(ts[i], ts[i + 1]);
  }

  lemma {:induction false} Pair(a: Tree, b: Tree)
    ensures ContentsOf([a, b]) == Contents(a) + Contents(b)
    ensures IdsOf([a, b]) == Ids(a) + Ids(b)
  {
    assert [a, b] == [a] + [b] && [a][1..] == [] && [b][1..] == [];
    ContentsAppend([a], [b]);
    IdsAppend([a], [b]);
  }

  lemma {:induction false} KidAmong(ts: seq<Tree>, i: nat)
    requires i < |ts|
    ensures Ids(ts[i]) <= IdsOf(ts)
    ensures ts[i].id in Ids(ts[i])
  {
    Around(ts, i);
  }

  /** Siblings use different pages. */
  lemma {:induction false} KidsApart(ts: seq<Tree>, i: nat, j: nat)
    requires i < |ts| && j < |ts| && i != j && Distinct(IdsOf(ts))
    ensures Ids(ts[i]) !! Ids(ts[j])
  {
    var a, b := if i < j then i else j, if i < j then j else i;
    Around(ts, a);
    KidAmong(ts[a + 1..], b - a - 1);
    assert ts[a + 1..][b - a - 1] == ts[b];
    PartsApart(IdsOf(ts), IdsOf(ts[..a]), Ids(ts[a]), IdsOf(ts[a + 1..]), Ids(ts[b]));
  }

  lemma PartsApart(all: multiset<PageId>, x: multiset<PageId>, y: multiset<PageId>, z: multiset<PageId>,
      part: multiset<PageId>)
    requires Distinct(all) && all == x + y + z && part <= z
    ensures y !! part
  {
    forall id | id in y ensures id !in part {
      assert all[id] == x[id] + y[id] + z[id] && part[id] <= z[id];
    }
  }

  // ---- Consequences of the shape ----------------------------------------

  /** The bounds of a tree may be wider. */
  lemma {:induction false} ShapeWider(t: Tree, order: nat, least: nat, lo: int, hi: int, h: nat, lo': int, hi': int)
    requires Shape(t, order, least, lo, hi, h) && lo' <= lo && hi <= hi'
    ensures Shape(t, order, least, lo', hi', h)
    decreases t
  {
    if t.Nd? {
      forall i {:trigger t.kids[i]} | 0 <= i < |t.kids|
        ensures Shape(t.kids[i], order, order / 2, Lower(t.keys, lo', i), Upper(t.keys, hi', i), h - 1)
      {
        ShapeWider(t.kids[i], order, order / 2, Lower(t.keys, lo, i), Upper(t.keys, hi, i), h - 1,
          Lower(t.keys, lo', i), Upper(t.keys, hi', i));
      }
    }
  }

  lemma {:induction false} KidsWithin(ts: seq<Tree>, order: nat, keys: seq<Key>, lo: int, hi: int, h: nat)
    requires |ts| <= |keys| + 1 && Separators(keys, lo, hi)
    requires forall i {:trigger ts[i]} :: 0 <= i < |ts| ==>
               Shape(ts[i], order, order / 2, Lower(keys, lo, i), Upper(keys, hi, i), h)
    ensures Sorted(ContentsOf(ts))
    ensures Within(ContentsOf(ts), lo, if |ts| == 0 then hi else Upper(keys, hi, |ts| - 1))
    decreases ts, 0
  {
    if |ts| > 0 {
      var n := |ts| - 1;
      var l, u := Lower(keys, lo, n), Upper(keys, hi, n);
      KidsWithin(ts[..n], order, keys, lo, hi, h);
      Ordered(ts[n], order, order / 2, l, u, h);
      assert Within(ContentsOf(ts[..n]), lo, l);
      SortedAppend(ContentsOf(ts[..n]), Contents(ts[n]), lo, l, u);
      ContentsSnoc(ts);
    }
  }

  lemma {:induction false} ContentsSnoc(ts: seq<Tree>)
    requires ts != []
    ensures ContentsOf(ts) == ContentsOf(ts[..|ts| - 1]) + Contents(ts[|ts| - 1])
  {
    Around(ts, |ts| - 1);
    assert ts[|ts|..] == [];
  }

  /** The contents of a well-shaped tree are strictly sorted and within its bounds. */
  lemma {:induction false} Ordered(t: Tree, order: nat, least: nat, lo: int, hi: int, h: nat)
    requires Shape(t, order, least, lo, hi, h)
    ensures Sorted(Contents(t)) && Within(Contents(t), lo, hi)
    decreases t, 1
  {
    if t.Nd? {
      KidsWithin(t.kids, order, t.keys, lo, hi, h - 1);
    }
  }

  /** The contents of the children left of i lie below its lower bound. */
  lemma {:induction false} LeftBelow(ts: seq<Tree>, order: nat, keys: seq<Key>, lo: int, hi: int, h: nat, i: nat)
    requires i < |ts| <= |keys| + 1 && Separators(keys, lo, hi)
    requires forall j {:trigger ts[j]} :: 0 <= j < |ts| ==>
               Shape(ts[j], order, order / 2, Lower(keys, lo, j), Upper(keys, hi, j), h)
    ensures Within(ContentsOf(ts[..i]), lo, Lower(keys, lo, i))
  {
    assert forall j :: 0 <= j < i ==> ts[..i][j] == ts[j];
    KidsWithin(ts[..i], order, keys, lo, hi, h);
  }

  /** The contents of the children right of i lie at or above its upper bound. */
  lemma {:induction false} RightAbove(ts: seq<Tree>, order: nat, keys: seq<Key>, lo: int, hi: int, h: nat, i: nat)
    requires i < |ts| == |keys| + 1 && Separators(keys, lo, hi)
    requires forall j {:trigger ts[j]} :: 0 <= j < |ts| ==>
               Shape(ts[j], order, order / 2, Lower(keys, lo, j), Upper(keys, hi, j), h)
    ensures Within(ContentsOf(ts[i + 1..]), Upper(keys, hi, i), hi)
    decreases |ts| - i
  {
    if i + 1 < |ts| {
      assert ts[i + 1..][1..] == ts[i + 2..];
      Ordered(ts[i + 1], order, order / 2, Lower(keys, lo, i + 1), Upper(keys, hi, i + 1), h);
      RightAbove(ts, order, keys, lo, hi, h, i + 1);
    }
  }

  // ---- Stores ------------------------------------------------------------

  /** Pages outside a tree do not matter to it. */
  lemma {:induction false} HoldsFrame(s: Store, s': Store, t: Tree, hi: int, exact: bool)
    requires Holds(s, t, hi, exact)
    requires forall id :: id in Ids(t) && id in s ==> id in s' && s'[id] == s[id]
    ensures Holds(s', t, hi, exact)
    decreases t
  {
    if t.Nd? {
      forall i {:trigger t.kids[i]} | 0 <= i < |t.kids| ensures Holds(s', t.kids[i], Upper(t.keys, hi, i), exact) {
        KidAmong(t.kids, i);
        HoldsFrame(s, s', t.kids[i], Upper(t.keys, hi, i), exact);
      }
    }
  }

  /** The bound plays no part for exact pages. */
  lemma {:induction false} ExactBound(s: Store, t: Tree, hi: int, hi': int)
    requires Holds(s, t, hi, true)
    ensures Holds(s, t, hi', true)
    decreases t
  {
    if t.Nd? {
      forall i {:trigger t.kids[i]} | 0 <= i < |t.kids| ensures Holds(s, t.kids[i], Upper(t.keys, hi', i), true) {
        ExactBound(s, t.kids[i], Upper(t.keys, hi, i), Upper(t.keys, hi', i));
      }
    }
  }

  lemma {:induction false} HoldsInexact(s: Store, t: Tree, hi: int)
    requires Holds(s, t, hi, true)
    ensures Holds(s, t, hi, false)
    decreases t
  {
    if t.Nd? {
      forall i {:trigger t.kids[i]} | 0 <= i < |t.kids| ensures Holds(s, t.kids[i], Upper(t.keys, hi, i), false) {
        HoldsInexact(s, t.kids[i], Upper(t.keys, hi, i));
      }
    }
  }
}
