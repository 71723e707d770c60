/** Arithmetic modulo a prime, as the big-integer fields Fp and Fn of the
    repository compute it: every result is the canonical residue in [0, p).

    Identities modulo p are proved through integer identities: to show that an
    expression vanishes modulo p it is written as a sum of multiples of
    expressions already known to vanish. */
module PrimeField {
  import opened Sets


  ghost predicate IsPrime(p: int) {
    1 < p && forall d :: 1 < d < p ==> p % d != 0
  }

  /** x is a multiple of p. */
  ghost predicate Zero(x: int, p: int)
    requires 0 < p
  {
    x % p == 0
  }

  /** a and b have the same residue. */
  ghost predicate Congruent(a: int, b: int, p: int)
    requires 0 < p
  {
    Zero(a - b, p)
  }

  // ----- operations of the field, as the library defines them ---------------

  function Add(a: int, b: int, p: int): int requires 0 < p { (a + b) % p }
  function Sub(a: int, b: int, p: int): int requires 0 < p { (a - b) % p }
  function Mul(a: int, b: int, p: int): int requires 0 < p { (a * b) % p }
  function Neg(a: int, p: int): int requires 0 < p { (-a) % p }

  /** The modular inverse of a residue, by descending remainders. */
  function InvResidue(a: int, p: int): (r: int)
    requires IsPrime(p) && 1 <= a < p
    ensures 0 <= r < p && Zero(a * r - 1, p)
    decreases a
  {
    if a == 1 then OneIsOwnInverse(p); 1
    else
      var q, s := p / a, p % a;
      assert s != 0;
      var i := InvResidue(s, p);
      InverseStep(a, q, s, i, p);
      (-q * i) % p
  }

  /** Fp.inv; zero has no inverse and the library throws on it. */
  function Inv(a: int, p: int): (r: int)
    requires IsPrime(p) && !Zero(a, p)
    ensures 0 <= r < p && Zero(a * r - 1, p)
  {
    var r := InvResidue(a % p, p);
    ReduceZero(a, p);
    Combine(r, a - a % p, 1, a % p * r - 1, p);
    assert a * r - 1 == r * (a - a % p) + 1 * (a % p * r - 1);
    r
  }

  lemma OneIsOwnInverse(p: int)
    requires 1 < p
    ensures Zero(1 * 1 - 1, p)
  {}

  lemma InverseStep(a: int, q: int, s: int, i: int, p: int)
    requires 0 < p && p == q * a + s && Zero(s * i - 1, p)
    ensures Zero(a * ((-q * i) % p) - 1, p)
  {
    var r := (-q * i) % p;
    ReduceZero(-q * i, p);
    MultipleZero(-i, p);
    hide Zero;
    Combine3(-a, -q * i - r, 1, s * i - 1, 1, -i * p, p);
    InverseIdentity(a, q, s, i, r, p);
  }

  lemma InverseIdentity(a: int, q: int, s: int, i: int, r: int, p: int)
    requires p == q * a + s
    ensures a * r - 1 == -a * (-q * i - r) + 1 * (s * i - 1) + 1 * (-i * p)
  {
    assert i * p == i * (q * a) + i * s;
    assert a * (q * i) == i * (q * a);
  }

  // ----- multiples of p ------------------------------------------------------

  lemma MultipleZero(k: int, p: int)
    requires 0 < p
    ensures Zero(k * p, p)
  {
    var z := k * p;
    SmallMultiple(k - z / p, p);
    assert (k - z / p) * p == z % p;
  }

  lemma SmallMultiple(m: int, p: int)
    requires 0 < p
    ensures -p < m * p < p ==> m == 0
  {
    if m >= 1 {
      assert m * p >= p;
    } else if m <= -1 {
      assert m * p <= -p;
    }
  }

  lemma ScaleZero(q: int, x: int, p: int)
    requires 0 < p && Zero(x, p)
    ensures Zero(q * x, p)
  {
    var k := x / p;
    assert q * x == (q * k) * p by { assert x == k * p; }
    MultipleZero(q * k, p);
  }

  lemma SumZero(x: int, y: int, p: int)
    requires 0 < p && Zero(x, p) && Zero(y, p)
    ensures Zero(x + y, p)
  {
    var k, l := x / p, y / p;
    assert x + y == (k + l) * p by { assert x == k * p && y == l * p; }
    MultipleZero(k + l, p);
  }

  /** A combination of multiples of p is a multiple of p. */
  lemma Combine(q1: int, h1: int, q2: int, h2: int, p: int)
    requires 0 < p && Zero(h1, p) && Zero(h2, p)
    ensures Zero(q1 * h1 + q2 * h2, p)
  {
    ScaleZero(q1, h1, p);
    ScaleZero(q2, h2, p);
    SumZero(q1 * h1, q2 * h2, p);
  }

  lemma Combine3(q1: int, h1: int, q2: int, h2: int, q3: int, h3: int, p: int)
    requires 0 < p && Zero(h1, p) && Zero(h2, p) && Zero(h3, p)
    ensures Zero(q1 * h1 + q2 * h2 + q3 * h3, p)
  {
    Combine(q1, h1, q2, h2, p);
    Combine(1, q1 * h1 + q2 * h2, q3, h3, p);
  }

  /** The same, for an expression known to be such a combination. */
  lemma Certify(e: int, q1: int, h1: int, q2: int, h2: int, p: int)
    requires 0 < p && Zero(h1, p) && Zero(h2, p)
    requires e == q1 * h1 + q2 * h2
    ensures Zero(e, p)
  {
    Combine(q1, h1, q2, h2, p);
  }

  lemma ReduceZero(x: int, p: int)
    requires 0 < p
    ensures Zero(x - x % p, p) && Zero(x % p - x, p)
  {
    assert x - x % p == (x / p) * p;
    MultipleZero(x / p, p);
    assert x % p - x == (-(x / p)) * p;
    MultipleZero(-(x / p), p);
  }

  /** Congruent numbers have the same residue. */
  lemma SameResidue(x: int, y: int, p: int)
    requires 0 < p && Zero(x - y, p)
    ensures x % p == y % p
  {
    ReduceZero(x, p);
    ReduceZero(y, p);
    var d := x % p - y % p;
    Combine3(1, x % p - x, 1, x - y, 1, y - y % p, p);
    assert d == 1 * (x % p - x) + 1 * (x - y) + 1 * (y - y % p);
    assert d == (d / p) * p;
    SmallMultiple(d / p, p);
  }

  lemma BelowModulus(x: int, p: int)
    requires 0 <= x < p
    ensures x % p == x && x / p == 0
  {}

  /** Congruent residues are equal. */
  lemma Canonical(x: int, y: int, p: int)
    requires 0 <= x < p && 0 <= y < p && Zero(x - y, p)
    ensures x == y
  {
    var k := (x - y) / p;
    assert x - y == k * p;
    SmallMultiple(k, p);
  }

  lemma ResidueZero(x: int, y: int, p: int)
    requires 0 < p && x % p == y % p
    ensures Zero(x - y, p)
  {
    ReduceZero(x, p);
    ReduceZero(y, p);
    Combine(1, x - x % p, 1, y % p - y, p);
  }

  lemma ZeroShift(x: int, y: int, p: int)
    requires 0 < p && Zero(x - y, p)
    ensures Zero(x, p) <==> Zero(y, p)
  {
    SameResidue(x, y, p);
  }

  /** A prime that divides a product divides a factor. */
  lemma Euclid(a: int, b: int, p: int)
    requires IsPrime(p) && Zero(a * b, p)
    ensures Zero(a, p) || Zero(b, p)
  {
    if !Zero(a, p) {
      var r := Inv(a, p);
      Combine(r, a * b, -b, a * r - 1, p);
      assert b == r * (a * b) + -b * (a * r - 1);
    }
  }

  /** A non-zero factor cancels. */
  lemma Cancel(a: int, x: int, p: int)
    requires IsPrime(p) && !Zero(a, p) && Zero(a * x, p)
    ensures Zero(x, p)
  {
    Euclid(a, x, p);
  }

  // ----- squares ---------------------------------------------------------------

  ghost predicate IsRoot(y: int, v: int, p: int)
    requires 0 < p
  {
    Zero(y * y - v, p)
  }

  ghost predicate IsSquare(v: int, p: int)
    requires 0 < p
  {
    exists y :: IsRoot(y, v, p)
  }

  lemma SquareShift(v: int, w: int, p: int)
    requires 0 < p && Zero(v - w, p)
    ensures IsSquare(v, p) ==> IsSquare(w, p)
  {
    if IsSquare(v, p) {
      var y :| IsRoot(y, v, p);
      SumZero(y * y - v, v - w, p);
      assert IsRoot(y, w, p);
    }
  }

  lemma ZeroIsSquare(v: int, p: int)
    requires 0 < p && Zero(v, p)
    ensures IsSquare(v, p)
  {
    ScaleZero(-1, v, p);
    assert IsRoot(0, v, p);
  }

  lemma RootOfNonzero(y: int, v: int, p: int)
    requires 0 < p && IsRoot(y, v, p) && !Zero(v, p)
    ensures !Zero(y, p)
  {
    if Zero(y, p) {
      ScaleZero(y, y, p);
      ZeroShift(y * y, v, p);
    }
  }

  /** A non-square times a nonzero square is a non-square. */
  lemma NonSquareTimesSquare(n: int, s: int, p: int)
    requires IsPrime(p) && !IsSquare(n, p) && IsSquare(s, p) && !Zero(s, p)
    ensures !IsSquare(n * s, p)
  {
    if IsSquare(n * s, p) {
      var y :| IsRoot(y, n * s, p);
      var z :| IsRoot(z, s, p);
      RootOfNonzero(z, s, p);
      RootQuotient(n, s, y, z, p);
    }
  }

  lemma QuotientIdentity(n: int, s: int, y: int, z: int, i: int)
    ensures (y * i) * (y * i) - n
         == i * i * (y * y - n * s) + -n * i * i * (z * z - s) + n * (z * i + 1) * (z * i - 1)
  {}

  /** sqrt(n*s) / sqrt(s) is a root of n. */
  lemma RootQuotient(n: int, s: int, y: int, z: int, p: int)
    requires IsPrime(p) && IsRoot(y, n * s, p) && IsRoot(z, s, p) && !Zero(z, p)
    ensures IsSquare(n, p)
  {
    var i := Inv(z, p);
    Combine3(i * i, y * y - n * s, -n * i * i, z * z - s, n * (z * i + 1), z * i - 1, p);
    var w := y * i;
    QuotientIdentity(n, s, y, z, i);
    assert IsRoot(w, n, p);
  }

  // ----- counting the squares ----------------------------------------------------

  ghost function NonzeroSquares(p: nat): set<int>
    requires 0 < p
  {
    set x | x in Below(p) && x != 0 && IsSquare(x, p)
  }

  ghost function NonSquares(p: nat): set<int>
    requires 0 < p
  {
    set x | x in Below(p) && !IsSquare(x, p)
  }

  lemma SmallNotZero(y: int, p: nat)
    requires 0 < y < p
    ensures !Zero(y, p)
  {
    if Zero(y, p) {
      Canonical(y, 0, p);
    }
  }

  lemma SmallSquareIn(y: int, p: nat)
    requires IsPrime(p) && 0 < y < p
    ensures Mul(y, y, p) in NonzeroSquares(p)
  {
    SmallNotZero(y, p);
    if Zero(y * y, p) {
      Euclid(y, y, p);
    }
    NonzeroSquareIn(y, y * y, p);
  }

  lemma NonzeroSquareIn(y: int, q: int, p: nat)
    requires 0 < p && q == y * y && !Zero(q, p)
    ensures q % p in NonzeroSquares(p)
  {
    ReduceZero(q, p);
    assert IsRoot(y, q % p, p);
  }

  lemma DifferenceOfSquares(x: int, y: int)
    ensures x * x - y * y == (x - y) * (x + y)
  {}

  lemma SmallSquaresDistinct(x: int, y: int, p: nat)
    requires IsPrime(p) && 0 < x && 0 < y && x + y < p && Mul(x, x, p) == Mul(y, y, p)
    ensures x == y
  {
    ResidueZero(x * x, y * y, p);
    DifferenceOfSquares(x, y);
    Euclid(x - y, x + y, p);
    if Zero(x + y, p) {
      Canonical(x + y, 0, p);
    }
    Canonical(x, y, p);
  }

  /** At least half of the nonzero residues are squares: 1, 4, 9, ... up to
      ((p-1)/2)^2 are distinct. */
  lemma SquaresAreHalf(p: nat)
    requires IsPrime(p) && p % 2 == 1
    ensures |NonzeroSquares(p)| >= (p - 1) / 2
  {
    hide IsPrime, Mul;
    var half := Below((p + 1) / 2) - {0};
    var f := (y: int) => Mul(y, y, p);
    forall y | y in half ensures f(y) in NonzeroSquares(p) {
      SmallSquareIn(y, p);
    }
    forall x, y | x in half && y in half && f(x) == f(y) ensures x == y {
      SmallSquaresDistinct(x, y, p);
    }
    InjectiveImage(half, f);
    SubsetSize(set y | y in half :: f(y), NonzeroSquares(p));
  }

  lemma NonSquareCount(p: nat)
    requires IsPrime(p) && p % 2 == 1
    ensures |NonSquares(p)| <= |NonzeroSquares(p)|
  {
    hide IsPrime;
    SquaresAreHalf(p);
    ZeroIsSquare(0, p);
    var s, n, all := NonzeroSquares(p), NonSquares(p), Below(p) - {0};
    hide IsSquare;
    assert s <= all && n <= all && s !! n;
    hide NonzeroSquares, NonSquares;
    assert |all| == p - 1;
    OtherHalf(s, n, all, (p - 1) / 2);
  }

  lemma MultipleIsNonSquare(n: int, x: int, p: nat)
    requires IsPrime(p) && !IsSquare(n, p) && x in NonzeroSquares(p)
    ensures Mul(n, x, p) in NonSquares(p)
  {
    SmallNotZero(x, p);
    NonSquareTimesSquare(n, x, p);
    ReduceZero(n * x, p);
    SquareShift(Mul(n, x, p), n * x, p);
  }

  lemma MultiplesDistinct(n: int, x: int, y: int, p: nat)
    requires IsPrime(p) && !Zero(n, p) && 0 <= x < p && 0 <= y < p && Mul(n, x, p) == Mul(n, y, p)
    ensures x == y
  {
    ResidueZero(n * x, n * y, p);
    assert Zero(n * (x - y), p) by {
      assert n * x - n * y == n * (x - y);
    }
    Cancel(n, x - y, p);
    Canonical(x, y, p);
  }

  /** The multiples of one non-square by the nonzero squares are as many as
      the non-squares, so they are all of them. */
  lemma NonSquaresAreMultiples(n: int, p: nat)
    requires IsPrime(p) && p % 2 == 1 && !IsSquare(n, p)
    ensures forall m :: m in NonSquares(p) ==> exists x :: x in NonzeroSquares(p) && Mul(n, x, p) == m
  {
    var s, t := NonzeroSquares(p), NonSquares(p);
    var f := (x: int) => Mul(n, x, p);
    if Zero(n, p) {
      ZeroIsSquare(n, p);
    }
    forall x | x in s ensures f(x) in t {
      MultipleIsNonSquare(n, x, p);
    }
    forall x, y | x in s && y in s && f(x) == f(y) ensures x == y {
      MultiplesDistinct(n, x, y, p);
    }
    InjectiveImage(s, f);
    NonSquareCount(p);
    var image := set x | x in s :: f(x);
    SubsetSize(image, t);
    assert image == t;
  }

  /** Modulo an odd prime the product of two non-squares is a square. */
  lemma NonSquareProduct(n: int, m: int, p: nat)
    requires IsPrime(p) && p % 2 == 1 && !IsSquare(n, p) && !IsSquare(m, p)
    ensures IsSquare(n * m, p)
  {
    NonSquaresAreMultiples(n, p);
    ReduceZero(m, p);
    SquareShift(m % p, m, p);
    assert m % p in NonSquares(p);
    var x :| x in NonzeroSquares(p) && Mul(n, x, p) == m % p;
    ResidueZero(n * x, m, p);
    ProductWithMultiple(n, m, x, p);
  }

  /** If m = n x for a square x then n m = n^2 x is a square. */
  lemma ProductWithMultiple(n: int, m: int, x: int, p: int)
    requires 0 < p && IsSquare(x, p) && Zero(n * x - m, p)
    ensures IsSquare(n * m, p)
  {
    var z :| IsRoot(z, x, p);
    MultipleIdentity(n, m, x, z);
    Certify((n * z) * (n * z) - n * m, n * n, z * z - x, n, n * x - m, p);
    assert IsRoot(n * z, n * m, p);
  }

  lemma MultipleIdentity(n: int, m: int, x: int, z: int)
    ensures (n * z) * (n * z) - n * m == n * n * (z * z - x) + n * (n * x - m)
  {
    assert (n * z) * (n * z) == n * n * (z * z);
  }
}
