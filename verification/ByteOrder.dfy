/** Unsigned integers as little-endian bytes of a fixed width. */
module ByteOrder {
  import opened Entries

  function Pow256(w: nat): (r: nat)
    ensures r >= 1
  {
    if w == 0 then 1 else 256 * Pow256(w - 1)
  }

  function LE(n: nat, w: nat): (r: Bytes)
    ensures |r| == w
    decreases w, n
  {
    if w == 0 then [] else [n % 256] + LE(n / 256, w - 1)
  }

  function FromLE(bs: Bytes): nat
    decreases |bs|
  {
    if bs == [] then 0 else bs[0] + 256 * FromLE(bs[1..])
  }

  /** What fits in w bytes comes back. */
  lemma {:induction false} LERoundTrip(n: nat, w: nat)
    requires n < Pow256(w)
    ensures FromLE(LE(n, w)) == n
    decreases w
  {
    if w > 0 {
      assert LE(n, w)[1..] == LE(n / 256, w - 1);
      LERoundTrip(n / 256, w - 1);
    }
  }

  lemma {:induction false} LEBack(bs: Bytes)
    ensures FromLE(bs) < Pow256(|bs|) && LE(FromLE(bs), |bs|) == bs
    decreases |bs|
  {
    if bs != [] {
      LEBack(bs[1..]);
      assert bs == [bs[0]] + bs[1..];
    }
  }

  /** The lowest digit comes first. */
  lemma {:induction false} LEDigit(n: nat, w: nat, i: nat)
    requires i < w
    ensures LE(n, w)[i] == n / Pow256(i) % 256
    decreases w
  {
    if i > 0 {
      LEDigit(n / 256, w - 1, i - 1);
      DivTwice(n, Pow256(i - 1));
    }
  }

  lemma DivTwice(n: nat, p: nat)
    requires p >= 1
    ensures n / 256 / p == n / (256 * p)
  {
    var q, r, low := n / 256 / p, n / 256 % p, n % 256;
    assert n / 256 == p * q + r;
    assert n == (256 * p) * q + (256 * r + low) && 256 * r + low < 256 * p;
    DivUnique(n, 256 * p, q, 256 * r + low);
  }

  lemma DivUnique(n: nat, d: nat, q: nat, r: nat)
    requires d >= 1 && n == d * q + r && r < d
    ensures n / d == q
  {
    var k := n / d;
    assert n == d * k + n % d;
    if k > q {
      Multiples(d, q + 1, k);
    } else if k < q {
      Multiples(d, k + 1, q);
    }
  }

  lemma Multiples(d: nat, a: nat, b: nat)
    requires a <= b
    ensures d * a <= d * b
  {
  }

  const LIMIT16 := 0x1_0000
  const LIMIT32 := 0x1_0000_0000
  const LIMIT64 := 0x1_0000_0000_0000_0000

  lemma Widths()
    ensures Pow256(1) == 256 && Pow256(2) == LIMIT16 && Pow256(4) == LIMIT32 && Pow256(8) == LIMIT64
  {
    assert Pow256(3) == 0x100_0000 && Pow256(5) == 0x100_0000_0000 && Pow256(6) == 0x1_0000_0000_0000;
    assert Pow256(7) == 0x100_0000_0000_0000;
  }

  lemma Trip2(n: nat)
    requires n < LIMIT16
    ensures FromLE(LE(n, 2)) == n
  {
    Widths();
    LERoundTrip(n, 2);
  }

  lemma Trip4(n: nat)
    requires n < LIMIT32
    ensures FromLE(LE(n, 4)) == n
  {
    Widths();
    LERoundTrip(n, 4);
  }

  lemma Trip8(n: nat)
    requires n < LIMIT64
    ensures FromLE(LE(n, 8)) == n
  {
    Widths();
    LERoundTrip(n, 8);
  }
}
