/** Byte strings and the numbers they spell. */
module Bytes {
  type Byte = x: int | 0 <= x < 256

  function Pow256(n: nat): (r: nat)
    ensures r > 0
  {
    if n == 0 then 1 else 256 * Pow256(n - 1)
  }

  /** Big-endian value. */
  function BE(s: seq<Byte>): nat {
    if s == [] then 0 else BE(s[..|s| - 1]) * 256 + s[|s| - 1]
  }

  /** The big-endian digits of v, n of them. */
  function ToBE(v: nat, n: nat): (s: seq<Byte>)
    ensures |s| == n
  {
    if n == 0 then [] else ToBE(v / 256, n - 1) + [v % 256]
  }

  /** Little-endian value. */
  function LE(s: seq<Byte>): nat {
    if s == [] then 0 else s[0] + 256 * LE(s[1..])
  }

  /** The little-endian digits of v, n of them. */
  function ToLE(v: nat, n: nat): (s: seq<Byte>)
    ensures |s| == n
  {
    if n == 0 then [] else [v % 256] + ToLE(v / 256, n - 1)
  }

  lemma {:induction false} BEBound(s: seq<Byte>)
    ensures BE(s) < Pow256(|s|)
  {
    if s != [] {
      BEBound(s[..|s| - 1]);
    }
  }

  /** Unpacking undoes packing. */
  lemma {:induction false} ToBEInverts(s: seq<Byte>)
    ensures ToBE(BE(s), |s|) == s
  {
    if s != [] {
      var k := |s| - 1;
      var v := BE(s[..k]);
      assert (v * 256 + s[k]) / 256 == v && (v * 256 + s[k]) % 256 == s[k];
      ToBEInverts(s[..k]);
    }
  }

  /** Packing is injective on strings of one length. */
  lemma BEInjective(a: seq<Byte>, b: seq<Byte>)
    requires |a| == |b| && BE(a) == BE(b)
    ensures a == b
  {
    ToBEInverts(a);
    ToBEInverts(b);
  }

  lemma {:induction false} BEConcat(a: seq<Byte>, b: seq<Byte>)
    ensures BE(a + b) == BE(a) * Pow256(|b|) + BE(b)
  {
    if b == [] {
      assert a + b == a;
    } else {
      var k := |b| - 1;
      BEConcat(a, b[..k]);
      assert (a + b)[..|a + b| - 1] == a + b[..k];
      ConcatIdentity(BE(a), Pow256(k), BE(b[..k]), b[k]);
    }
  }

  lemma ConcatIdentity(x: int, p: int, y: int, d: int)
    ensures (x * p + y) * 256 + d == x * (256 * p) + (y * 256 + d)
  {}

  /** Reading back the little-endian digits of a number that fits. */
  lemma {:induction false} LEInverts(v: nat, n: nat)
    requires v < Pow256(n)
    ensures LE(ToLE(v, n)) == v
  {
    if n > 0 {
      assert v / 256 < Pow256(n - 1);
      LEInverts(v / 256, n - 1);
      assert ToLE(v, n)[1..] == ToLE(v / 256, n - 1);
    }
  }

  /** One more, most significant, digit. */
  lemma {:induction false} LEAppend(s: seq<Byte>, d: Byte)
    ensures LE(s + [d]) == LE(s) + Pow256(|s|) * d
  {
    if s == [] {
      assert s + [d] == [d];
      assert LE([d]) == d + 256 * LE([d][1..]);
    } else {
      LEAppend(s[1..], d);
      assert (s + [d])[1..] == s[1..] + [d];
      LEIdentity(s[0], LE(s[1..]), Pow256(|s| - 1), d);
    }
  }

  lemma LEIdentity(a: int, b: int, p: int, d: int)
    ensures a + 256 * (b + p * d) == a + 256 * b + 256 * p * d
  {}

  // ----- octet by octet -----------------------------------------------------------------------

  /** One octet spells itself; with BEConcat this fixes the big-endian value. */
  lemma BEOctet(d: Byte)
    ensures BE([]) == 0 && BE([d]) == d
  {
    assert [d][..0] == [];
    assert BE([d][..0]) == 0;
  }

  lemma {:induction false} LEConcat(a: seq<Byte>, b: seq<Byte>)
    ensures LE(a + b) == LE(a) + Pow256(|a|) * LE(b)
  {
    if a == [] {
      assert a + b == b;
    } else {
      LEConcat(a[1..], b);
      assert (a + b)[1..] == a[1..] + b;
      ScaledStep(a[0], LE(a[1..]), Pow256(|a| - 1), LE(b));
    }
  }

  lemma ScaledStep(a: int, b: int, p: int, c: int)
    ensures a + 256 * (b + p * c) == a + 256 * b + 256 * p * c
  {}

  /** Octet i of the little-endian digits is the i-th digit to the base 256. */
  lemma {:induction false} ToLEOctet(v: nat, n: nat, i: nat)
    requires i < n
    ensures ToLE(v, n)[i] == v / Pow256(i) % 256
  {
    if i > 0 {
      ToLEOctet(v / 256, n - 1, i - 1);
      DivideTwice(v, Pow256(i - 1));
    }
  }

  lemma DivideTwice(v: nat, p: nat)
    requires p > 0
    ensures v / 256 / p == v / (256 * p)
  {
    var q := v / 256 / p;
    var r, s := v % 256, v / 256 % p;
    assert v == 256 * (p * q + s) + r;
    assert 256 * s + r < 256 * p;
    Quotient(v, 256 * p, q, 256 * s + r);
  }

  lemma Quotient(v: nat, m: nat, q: nat, r: nat)
    requires m > 0 && r < m && v == m * q + r
    ensures v / m == q
  {
    var d := v / m - q;
    assert m * d == r - v % m;
    NoSmallMultiple(m, d);
  }

  lemma NoSmallMultiple(m: int, d: int)
    requires m > 0
    ensures -m < m * d < m ==> d == 0
  {
    if d >= 1 {
      assert m * d >= m;
    } else if d <= -1 {
      assert m * d <= -m;
    }
  }
}
