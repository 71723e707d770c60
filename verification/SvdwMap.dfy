/** The Shallue-van de Woestijne map of the Grumpkin curve y^2 = x^3 - 17
    (section 6.6.1 and appendix F.1 of RFC 9380 with Z = 1), together with the
    square-root hints the enrollment circuit takes as witnesses. */
module SvdwMap {
  import opened PrimeField
  import opened Wrappers

  /** The base field: its modulus, the library square root (None where the
      library throws) and the pinned non-square ZETA. */
  datatype BaseField = BaseField(p: nat, sqrt: int -> Option<int>, zeta: int)

  /** sqrt returns a canonical root of every square and throws on the rest. */
  ghost predicate SqrtSpec(f: BaseField)
    requires 0 < f.p
  {
    forall v {:trigger f.sqrt(v)} :: 0 <= v < f.p ==>
      && (f.sqrt(v).Some? <==> IsSquare(v, f.p))
      && (f.sqrt(v).Some? ==> 0 <= f.sqrt(v).value < f.p && IsRoot(f.sqrt(v).value, v, f.p))
  }

  /** What the module relies on when it is loaded: a prime modulus for which 48
      is a square (otherwise the constant c3 cannot be computed) and a
      non-square ZETA. */
  ghost predicate Suitable(f: BaseField) {
    && IsPrime(f.p) && 3 < f.p
    && SqrtSpec(f)
    && IsSquare(48, f.p)
    && !IsSquare(f.zeta, f.p)
  }

  /** The curve polynomial, unreduced. */
  function Curve(x: int): int { x * x * x - 17 }

  /** g(x) as the code computes it, with B = -17 reduced. */
  function G(x: int, p: nat): int
    requires 0 < p
  {
    Add(Mul(Mul(x, x, p), x, p), Neg(17, p), p)
  }

  lemma GValue(x: int, p: nat)
    requires 0 < p
    ensures Zero(G(x, p) - Curve(x), p) && 0 <= G(x, p) < p
  {
    hide Zero;
    var s, m, b := Mul(x, x, p), Mul(Mul(x, x, p), x, p), Neg(17, p);
    ReduceZero(x * x, p);
    ReduceZero(s * x, p);
    ReduceZero(-17, p);
    ReduceZero(m + b, p);
    Combine3(x, s - x * x, 1, m - s * x, 1, b - -17, p);
    var e := x * (s - x * x) + 1 * (m - s * x) + 1 * (b - -17);
    SumZero(e, G(x, p) - (m + b), p);
    assert e == m + b - Curve(x);
  }

  // ----- the algebra behind the map ----------------------------------------------

  /** The values the map computes, related by the equations it enforces. Every
      component is a field element; each equation holds modulo p. */
  datatype Trail = Trail(u: int, c2: int, c3: int, c4: int, tv1: int, tv2: int, inv: int,
                         tv4: int, t: int, x1: int, x2: int, x3: int)

  ghost predicate Consistent(v: Trail, p: nat)
    requires 0 < p
  {
    && Zero(2 * v.c2 + 1, p)
    && Zero(v.c3 * v.c3 - 48, p)
    && Zero(3 * v.c4 - 64, p)
    && Zero(v.tv1 - (1 + 16 * (v.u * v.u)), p)
    && Zero(v.tv2 - (1 - 16 * (v.u * v.u)), p)
    && Zero(v.tv1 * v.tv2 * v.inv - 1, p)
    && Zero(v.tv4 - v.u * v.tv1 * v.inv * v.c3, p)
    && Zero(v.t - v.tv2 * v.tv2 * v.inv, p)
    && Zero(v.x1 - (v.c2 - v.tv4), p)
    && Zero(v.x2 - (v.c2 + v.tv4), p)
    && Zero(v.x3 - (v.c4 * (v.t * v.t) + 1), p)
  }

  function H(x: int): int { x * x + x + 1 }

  /** 4 h = 3 + 192 w^2, where w = u / tv2. */
  lemma HValue(v: Trail, p: nat)
    requires 0 < p && Consistent(v, p)
    ensures var w := v.u * v.tv1 * v.inv; Zero(4 * H(v.x1) - 3 - 192 * (w * w), p)
  {
    var w := v.u * v.tv1 * v.inv;
    var a := 2 * v.x1 + 1;
    var b := -2 * w * v.c3;
    // a is congruent to b, and b^2 to 192 w^2
    Combine3(2, v.x1 - (v.c2 - v.tv4), 1, 2 * v.c2 + 1, -2, v.tv4 - w * v.c3, p);
    assert 2 * (v.x1 - (v.c2 - v.tv4)) + 1 * (2 * v.c2 + 1) + -2 * (v.tv4 - w * v.c3) == a - b;
    Combine(a + b, a - b, 4 * (w * w), v.c3 * v.c3 - 48, p);
    HIdentity(v.x1, w, v.c3);
  }

  lemma HIdentity(x: int, w: int, c: int)
    ensures var a, b := 2 * x + 1, -2 * w * c;
      (a + b) * (a - b) + 4 * (w * w) * (c * c - 48) == 4 * H(x) - 3 - 192 * (w * w)
  {
    var a, b := 2 * x + 1, -2 * w * c;
    assert (a + b) * (a - b) == a * a - b * b;
    assert a * a == 4 * (x * x) + 4 * x + 1;
    assert b * b == 4 * (w * w) * (c * c);
  }

  lemma InverseTimes(u: int, r: int, s: int, i: int, p: int)
    requires 0 < p && Zero(r * s * i - 1, p)
    ensures Zero(u * r * i * s - u, p)
  {
    ScaleZero(u, r * s * i - 1, p);
    hide Zero;
    assert u * (r * s * i - 1) == u * r * i * s - u;
  }

  lemma SquareScaled(h: int, s: int, w: int, u: int, p: int)
    requires 0 < p && Zero(4 * h - 3 - 192 * (w * w), p) && Zero(w * s - u, p)
    ensures Zero(4 * h * (s * s) - 3 * (s * s) - 192 * (u * u), p)
  {
    Combine(s * s, 4 * h - 3 - 192 * (w * w), 192 * (w * s + u), w * s - u, p);
    hide Zero;
    ScaledIdentity1(h, s, w, u);
  }

  /** w tv2 = u, hence 4 h tv2^2 = 3 tv2^2 + 192 u^2. */
  lemma HTimesSquare(v: Trail, p: nat)
    requires 0 < p && Consistent(v, p)
    ensures Zero(4 * H(v.x1) * (v.tv2 * v.tv2) - 3 * (v.tv2 * v.tv2) - 192 * (v.u * v.u), p)
  {
    HValue(v, p);
    hide Zero, H;
    InverseTimes(v.u, v.tv1, v.tv2, v.inv, p);
    SquareScaled(H(v.x1), v.tv2, v.u * v.tv1 * v.inv, v.u, p);
  }

  /** 3 tv2^2 + 192 u^2 = 3 tv1^2. */
  lemma SumOfSquares(v: Trail, p: nat)
    requires 0 < p && Consistent(v, p)
    ensures Zero(3 * (v.tv2 * v.tv2) + 192 * (v.u * v.u) - 3 * (v.tv1 * v.tv1), p)
  {
    var s, r, q := v.tv2, v.tv1, v.u * v.u;
    ScaledIdentity2(s, r, q);
    Certify(3 * (s * s) + 192 * q - 3 * (r * r),
            3 * (s + (1 - 16 * q)), s - (1 - 16 * q), -3 * (r + (1 + 16 * q)), r - (1 + 16 * q), p);
  }

  /** 4 h tv2^2 = 3 tv1^2. */
  lemma HScaled(v: Trail, p: nat)
    requires 0 < p && Consistent(v, p)
    ensures Zero(4 * H(v.x1) * (v.tv2 * v.tv2) - 3 * (v.tv1 * v.tv1), p)
  {
    HTimesSquare(v, p);
    SumOfSquares(v, p);
    SumZero(4 * H(v.x1) * (v.tv2 * v.tv2) - 3 * (v.tv2 * v.tv2) - 192 * (v.u * v.u),
            3 * (v.tv2 * v.tv2) + 192 * (v.u * v.u) - 3 * (v.tv1 * v.tv1), p);
  }

  lemma ScaledIdentity1(h: int, s: int, w: int, u: int)
    ensures s * s * (4 * h - 3 - 192 * (w * w)) + 192 * (w * s + u) * (w * s - u)
         == 4 * h * (s * s) - 3 * (s * s) - 192 * (u * u)
  {
    assert (w * s + u) * (w * s - u) == (w * w) * (s * s) - u * u;
    assert s * s * (192 * (w * w)) == 192 * ((w * w) * (s * s));
  }

  lemma ScaledIdentity2(s: int, r: int, q: int)
    ensures 3 * (s + (1 - 16 * q)) * (s - (1 - 16 * q)) + -3 * (r + (1 + 16 * q)) * (r - (1 + 16 * q))
         == 3 * (s * s) + 192 * q - 3 * (r * r)
  {
    assert (s + (1 - 16 * q)) * (s - (1 - 16 * q)) == s * s - (1 - 16 * q) * (1 - 16 * q);
    assert (r + (1 + 16 * q)) * (r - (1 + 16 * q)) == r * r - (1 + 16 * q) * (1 + 16 * q);
  }

  /** 3 (x3 - 1) tv1^2 = 64 tv2^2. */
  lemma TScaled(v: Trail, p: nat)
    requires 0 < p && Consistent(v, p)
    ensures Zero(3 * (v.x3 - 1) * (v.tv1 * v.tv1) - 64 * (v.tv2 * v.tv2), p)
  {
    hide Zero;
    var r, s, t, y := v.tv1, v.tv2, v.t, v.x3 - 1;
    // t tv1 = tv2
    Combine(r, t - s * s * v.inv, s, r * s * v.inv - 1, p);
    assert r * (t - s * s * v.inv) + s * (r * s * v.inv - 1) == t * r - s;
    // 3 (x3 - 1) = 64 t^2
    Combine(3, y - v.c4 * (t * t), t * t, 3 * v.c4 - 64, p);
    assert 3 * (y - v.c4 * (t * t)) + t * t * (3 * v.c4 - 64) == 3 * y - 64 * (t * t);
    Combine(r * r, 3 * y - 64 * (t * t), 64 * (t * r + s), t * r - s, p);
    TIdentity(r, s, t, y);
  }

  lemma TIdentity(r: int, s: int, t: int, y: int)
    ensures r * r * (3 * y - 64 * (t * t)) + 64 * (t * r + s) * (t * r - s)
         == 3 * y * (r * r) - 64 * (s * s)
  {
    assert (t * r + s) * (t * r - s) == (t * t) * (r * r) - s * s;
    assert r * r * (64 * (t * t)) == 64 * ((t * t) * (r * r));
  }

  lemma SmallFactorsInvertible(p: nat)
    requires IsPrime(p) && 3 < p
    ensures !Zero(2, p) && !Zero(3, p) && !Zero(12, p) && !Zero(16, p)
  {
    assert 2 % p == 2 && 3 % p == 3;
    if Zero(12, p) { Euclid(2, 6, p); Euclid(2, 3, p); }
    if Zero(16, p) { Euclid(2, 8, p); Euclid(2, 4, p); Euclid(2, 2, p); }
  }

  /** The heart of the map: (x3 - 1) h = 16. */
  lemma KeyProduct(v: Trail, p: nat)
    requires IsPrime(p) && 3 < p && Consistent(v, p)
    ensures Zero((v.x3 - 1) * H(v.x1) - 16, p)
  {
    var r, s, y, h := v.tv1, v.tv2, v.x3 - 1, H(v.x1);
    HScaled(v, p);
    TScaled(v, p);
    var a, b := r * r, s * s;
    Combine(4 * h * b, 3 * y * a - 64 * b, 64 * b, 4 * h * b - 3 * a, p);
    var k := y * h - 16;
    KeyIdentity(y, h, a, b);
    assert Zero(12 * (a * (b * k)), p);
    SmallFactorsInvertible(p);
    Cancel(12, a * (b * k), p);
    UnitFactors(r, s, v.inv, p);
    Cancel(a, b * k, p);
    Cancel(b, k, p);
  }

  lemma KeyIdentity(y: int, h: int, a: int, b: int)
    ensures 4 * h * b * (3 * y * a - 64 * b) + 64 * b * (4 * h * b - 3 * a) == 12 * (a * (b * (y * h - 16)))
  {
    assert 4 * h * b * (3 * y * a) == 12 * (a * (b * (y * h)));
    assert 4 * h * b * (64 * b) == 64 * b * (4 * h * b);
    assert 64 * b * (3 * a) == 12 * (a * (b * 16));
  }

  lemma UnitFactors(r: int, s: int, i: int, p: nat)
    requires IsPrime(p) && Zero(r * s * i - 1, p)
    ensures !Zero(r * r, p) && !Zero(s * s, p)
  {
    OneNotZero(r * s * i, p);
    if Zero(r * r, p) {
      Euclid(r, r, p);
      assert s * i * r == r * s * i;
      ScaleZero(s * i, r, p);
    }
    if Zero(s * s, p) {
      Euclid(s, s, p);
      assert r * i * s == r * s * i;
      ScaleZero(r * i, s, p);
    }
  }

  lemma OneNotZero(e: int, p: nat)
    requires IsPrime(p) && Zero(e - 1, p)
    ensures !Zero(e, p)
  {
    SameResidue(e, 1, p);
  }

  /** x1 + x2 = -1, so x1 and x2 give the same h. */
  lemma HalvesSum(v: Trail, p: nat)
    requires 0 < p && Consistent(v, p)
    ensures Zero(v.x1 + v.x2 + 1, p)
  {
    Combine3(1, v.x1 - (v.c2 - v.tv4), 1, v.x2 - (v.c2 + v.tv4), 1, 2 * v.c2 + 1, p);
    assert v.x1 + v.x2 + 1
        == 1 * (v.x1 - (v.c2 - v.tv4)) + 1 * (v.x2 - (v.c2 + v.tv4)) + 1 * (2 * v.c2 + 1);
  }

  /** g(x1) = -h (x3 - x1), g(x2) = -h (x3 - x2), g(x3) = (x3 - 1)(x3 - x1)(x3 - x2). */
  lemma Factorisations(v: Trail, p: nat)
    requires IsPrime(p) && 3 < p && Consistent(v, p)
    ensures Zero(Curve(v.x1) + H(v.x1) * (v.x3 - v.x1), p)
    ensures Zero(Curve(v.x2) + H(v.x1) * (v.x3 - v.x2), p)
    ensures Zero(Curve(v.x3) - (v.x3 - 1) * ((v.x3 - v.x1) * (v.x3 - v.x2)), p)
  {
    var x1, x2, x3 := v.x1, v.x2, v.x3;
    KeyProduct(v, p);
    HalvesSum(v, p);
    FactorIdentity(x1, x3);
    SecondFactorIdentity(x1, x2, x3);
    Certify(Curve(x2) + H(x1) * (x3 - x2),
            1, (x3 - 1) * H(x1) - 16, (x2 - x1) * ((x3 - 1) - (x3 - x2)), x1 + x2 + 1, p);
    ThirdFactorIdentity(x1, x2, x3);
    Certify(Curve(x3) - (x3 - 1) * ((x3 - x1) * (x3 - x2)),
            1, (x3 - 1) * H(x1) - 16, (x3 - 1) * (x3 - x1), x1 + x2 + 1, p);
  }

  lemma FactorIdentity(x: int, z: int)
    ensures Curve(x) + H(x) * (z - x) == (z - 1) * H(x) - 16
  {
    assert H(x) * (z - x) == H(x) * (z - 1) - H(x) * (x - 1);
    assert H(x) * (x - 1) == x * x * x - 1;
  }

  lemma HDifference(x1: int, x2: int)
    ensures H(x2) - H(x1) == (x2 - x1) * (x1 + x2 + 1)
  {}

  lemma SecondFactorIdentity(x1: int, x2: int, z: int)
    ensures Curve(x2) + H(x1) * (z - x2)
         == 1 * ((z - 1) * H(x1) - 16) + (x2 - x1) * ((z - 1) - (z - x2)) * (x1 + x2 + 1)
  {
    hide H, Curve;
    FactorIdentity(x2, z);
    HDifference(x1, x2);
    ShiftFactor(H(x1), H(x2), z - x2, z - 1, x2 - x1, x1 + x2 + 1);
  }

  lemma ShiftFactor(h1: int, h2: int, m: int, n: int, a: int, b: int)
    requires h2 - h1 == a * b
    ensures h1 * m - h2 * m + n * h2 - n * h1 == a * (n - m) * b
  {
    assert h1 * m - h2 * m == -(a * b) * m;
    assert n * h2 - n * h1 == (a * b) * n;
    assert (a * b) * (n - m) == a * (n - m) * b;
  }

  lemma ThirdFactorIdentity(x1: int, x2: int, z: int)
    ensures Curve(z) - (z - 1) * ((z - x1) * (z - x2))
         == 1 * ((z - 1) * H(x1) - 16) + (z - 1) * (z - x1) * (x1 + x2 + 1)
  {
    var n, d := x1 + x2 + 1, z - x1;
    QuadraticIdentity(x1, x2, z);
    Distribute(z - 1, H(z), H(x1), d * n);
    CubeMinusOne(z);
    Reassociate(z - 1, d, n);
  }

  lemma QuadraticIdentity(x1: int, x2: int, z: int)
    ensures (z - x1) * (z - x2) == H(z) - H(x1) - (z - x1) * (x1 + x2 + 1)
  {}

  lemma CubeMinusOne(z: int)
    ensures (z - 1) * H(z) == z * z * z - 1
  {}

  lemma Distribute(k: int, a: int, b: int, c: int)
    ensures k * (a - b - c) == k * a - k * b - k * c
  {}

  lemma Reassociate(a: int, b: int, c: int)
    ensures a * (b * c) == a * b * c
  {}

  // ----- one of the three candidates is always a square ------------------------------

  lemma SquareTimesSquare(a: int, b: int, p: nat)
    requires 0 < p && IsSquare(a, p) && IsSquare(b, p)
    ensures IsSquare(a * b, p)
  {
    var y :| IsRoot(y, a, p);
    var z :| IsRoot(z, b, p);
    ProductIdentity(y, z, a, b);
    Certify((y * z) * (y * z) - a * b, z * z, y * y - a, a, z * z - b, p);
    assert IsRoot(y * z, a * b, p);
  }

  lemma ProductIdentity(y: int, z: int, a: int, b: int)
    ensures (y * z) * (y * z) - a * b == z * z * (y * y - a) + a * (z * z - b)
  {
    assert (y * z) * (y * z) == (z * z) * (y * y);
  }

  /** 3 (x3 - 1) = 64 t^2 and c3^2 = 48, so x3 - 1 = (32 t / c3)^2. */
  lemma ThirdMinusOneIsSquare(v: Trail, p: nat)
    requires IsPrime(p) && 3 < p && Consistent(v, p)
    ensures IsSquare(v.x3 - 1, p)
  {
    var y, t, c := v.x3 - 1, v.t, v.c3;
    RootQuotientIdentity(y, t, c, v.c4);
    Combine3(-48, y - v.c4 * (t * t), -16 * (t * t), 3 * v.c4 - 64, -y, c * c - 48, p);
    assert IsRoot(32 * t, y * (c * c), p);
    SmallFactorsInvertible(p);
    if Zero(48, p) { Euclid(3, 16, p); }
    RootOfNonzero(c, 48, p);
    assert IsRoot(c, c * c, p);
    RootQuotient(y, c * c, 32 * t, c, p);
  }

  lemma RootQuotientIdentity(y: int, t: int, c: int, d: int)
    ensures (32 * t) * (32 * t) - y * (c * c)
         == -48 * (y - d * (t * t)) + -16 * (t * t) * (3 * d - 64) + -y * (c * c - 48)
  {
    assert (32 * t) * (32 * t) == 1024 * (t * t);
    assert -16 * (t * t) * (3 * d - 64) == -48 * (d * (t * t)) + 1024 * (t * t);
  }

  /** g(x3) h^2 = (x3 - 1) g(x1) g(x2). */
  lemma CurveProduct(v: Trail, p: nat)
    requires IsPrime(p) && 3 < p && Consistent(v, p)
    ensures var h := H(v.x1);
      Zero((v.x3 - 1) * (Curve(v.x1) * Curve(v.x2)) - Curve(v.x3) * (h * h), p)
  {
    var h, y := H(v.x1), v.x3 - 1;
    var g1, g2, g3 := Curve(v.x1), Curve(v.x2), Curve(v.x3);
    var d1, d2 := v.x3 - v.x1, v.x3 - v.x2;
    Factorisations(v, p);
    CurveProductIdentity(g1, g2, g3, h, y, d1, d2);
    Combine3(y * g2, g1 + h * d1, -y * h * d1, g2 + h * d2, -h * h, g3 - y * (d1 * d2), p);
  }

  lemma CurveProductIdentity(g1: int, g2: int, g3: int, h: int, y: int, d1: int, d2: int)
    ensures y * (g1 * g2) - g3 * (h * h)
         == y * g2 * (g1 + h * d1) + -y * h * d1 * (g2 + h * d2) + -h * h * (g3 - y * (d1 * d2))
  {
    var k := y * h * d1;
    assert y * g2 * (g1 + h * d1) == y * (g1 * g2) + k * g2;
    assert -y * h * d1 == -k;
    assert -k * (g2 + h * d2) == -(k * g2) - k * (h * d2);
    assert k * (h * d2) == (h * h) * (y * (d1 * d2));
    assert -h * h * (g3 - y * (d1 * d2)) == -(g3 * (h * h)) + (h * h) * (y * (d1 * d2));
  }

  /** Whatever the input, one of the three candidates lies on the curve. */
  lemma SomeCandidateIsSquare(v: Trail, p: nat)
    requires IsPrime(p) && 3 < p && Consistent(v, p)
    ensures IsSquare(Curve(v.x1), p) || IsSquare(Curve(v.x2), p) || IsSquare(Curve(v.x3), p)
  {
    var h, y := H(v.x1), v.x3 - 1;
    var g1, g2, g3 := Curve(v.x1), Curve(v.x2), Curve(v.x3);
    if !IsSquare(g1, p) && !IsSquare(g2, p) {
      PrimeIsOdd(p);
      NonSquareProduct(g1, g2, p);
      ThirdMinusOneIsSquare(v, p);
      SquareTimesSquare(y, g1 * g2, p);
      CurveProduct(v, p);
      SquareShift(y * (g1 * g2), g3 * (h * h), p);
      HNotZero(v, p);
      var r :| IsRoot(r, g3 * (h * h), p);
      assert IsRoot(h, h * h, p);
      RootQuotient(g3, h * h, r, h, p);
    }
  }

  lemma PrimeIsOdd(p: nat)
    requires IsPrime(p) && 3 < p
    ensures p % 2 == 1
  {
    assert p % 2 != 0;
  }

  lemma HNotZero(v: Trail, p: nat)
    requires IsPrime(p) && 3 < p && Consistent(v, p)
    ensures !Zero(H(v.x1), p)
  {
    KeyProduct(v, p);
    SmallFactorsInvertible(p);
    if Zero(H(v.x1), p) {
      ScaleZero(v.x3 - 1, H(v.x1), p);
      ZeroShift((v.x3 - 1) * H(v.x1), 16, p);
    }
  }

  // ----- the map -----------------------------------------------------------------------

  datatype Constants = Constants(c1: int, c2: int, c3: int, c4: int)

  ghost predicate ValidConstants(c: Constants, p: nat)
    requires 0 < p
  {
    && Zero(c.c1 + 16, p)
    && Zero(2 * c.c2 + 1, p)
    && Zero(c.c3 * c.c3 - 48, p)
    && Zero(3 * c.c4 - 64, p)
  }

  /** The square root, which the caller knows to exist. */
  function Root(f: BaseField, v: int): (y: int)
    requires 0 < f.p && SqrtSpec(f) && 0 <= v < f.p && IsSquare(v, f.p)
    ensures 0 <= y < f.p && IsRoot(y, v, f.p)
  {
    f.sqrt(v).value
  }

  /** Zero, or anything the library finds a root of. */
  predicate IsSq(f: BaseField, v: int) {
    v == 0 || f.sqrt(v).Some?
  }

  lemma IsSqMeaning(f: BaseField, v: int)
    requires 0 < f.p && SqrtSpec(f) && 0 <= v < f.p
    ensures IsSq(f, v) <==> IsSquare(v, f.p)
  {
    ZeroIsSquare(0, f.p);
  }

  /** c1 = g(Z), c2 = -Z/2, c3 = sqrt(-3 c1), c4 = -4 c1 / 3 for Z = 1, A = 0. */
  method LoadConstants(f: BaseField) returns (c: Constants)
    requires Suitable(f)
    ensures ValidConstants(c, f.p)
    ensures 0 <= c.c1 < f.p && 0 <= c.c2 < f.p && 0 <= c.c4 < f.p && f.sqrt(48 % f.p) == Some(c.c3)
  {
    var p := f.p;
    SmallFactorsInvertible(p);
    var c1 := G(1, p);
    GValue(1, p);
    var i2 := Inv(2, p);
    var c2 := Mul(Neg(1, p), i2, p);
    HalfConstant(i2, p);
    var three := Add(Mul(3, Mul(1, 1, p), p), Mul(4, 0, p), p);
    ThreeConstant(p);
    var radicand := Mul(Neg(c1, p), three, p);
    RadicandIs48(c1, p);
    SquareShift(48, radicand, p);
    var c3 := Root(f, radicand);
    IsResidue(radicand, 48, p);
    SumZero(c3 * c3 - radicand, radicand - 48, p);
    var i3 := Inv(three, p);
    var c4 := Mul(Mul(-4, c1, p), i3, p);
    ThirdConstant(c1, i3, p);
    c := Constants(c1, c2, c3, c4);
  }

  /** A canonical number is the residue of every number congruent to it. */
  lemma IsResidue(r: int, x: int, p: int)
    requires 0 <= r < p && Zero(r - x, p)
    ensures x % p == r
  {
    SameResidue(r, x, p);
    BelowModulus(r, p);
  }

  lemma HalfConstant(i: int, p: nat)
    requires 0 < p && Zero(2 * i - 1, p)
    ensures Zero(2 * Mul(Neg(1, p), i, p) + 1, p)
  {
    var n := Neg(1, p);
    var c := Mul(n, i, p);
    ReduceZero(-1, p);
    ReduceZero(n * i, p);
    Combine3(2, c - n * i, 2 * i, n + 1, -1, 2 * i - 1, p);
    assert 2 * i * (n + 1) == 2 * (n * i) + 2 * i;
    assert 2 * c + 1 == 2 * (c - n * i) + 2 * i * (n + 1) + -1 * (2 * i - 1);
  }

  lemma ThreeConstant(p: nat)
    requires 3 < p
    ensures Add(Mul(3, Mul(1, 1, p), p), Mul(4, 0, p), p) == 3
  {
    assert Mul(1, 1, p) == 1;
    assert Mul(3, 1, p) == 3;
    assert Mul(4, 0, p) == 0;
  }

  lemma RadicandIs48(c1: int, p: nat)
    requires 0 < p && Zero(c1 + 16, p)
    ensures Zero(Mul(Neg(c1, p), 3, p) - 48, p) && Zero(48 - Mul(Neg(c1, p), 3, p), p)
  {
    hide Zero;
    var n := Neg(c1, p);
    var r := Mul(n, 3, p);
    ReduceZero(-c1, p);
    ReduceZero(n * 3, p);
    Combine3(1, r - n * 3, 3, n + c1, -3, c1 + 16, p);
    assert r - 48 == 1 * (r - n * 3) + 3 * (n + c1) + -3 * (c1 + 16);
    ScaleZero(-1, r - 48, p);
  }

  lemma ThirdConstant(c1: int, i: int, p: nat)
    requires 0 < p && Zero(c1 + 16, p) && Zero(3 * i - 1, p)
    ensures Zero(3 * Mul(Mul(-4, c1, p), i, p) - 64, p)
  {
    var m := Mul(-4, c1, p);
    var c := Mul(m, i, p);
    ReduceZero(-4 * c1, p);
    ReduceZero(m * i, p);
    // m = 64, and 3 c = 3 m i = m
    Combine(1, m - -4 * c1, -4, c1 + 16, p);
    assert m - 64 == 1 * (m - -4 * c1) + -4 * (c1 + 16);
    Combine3(3, c - m * i, m, 3 * i - 1, 1, m - 64, p);
    assert 3 * c - 64 == 3 * (c - m * i) + m * (3 * i - 1) + 1 * (m - 64);
  }

  datatype Hints = Hints(invT: int, e1: int, w1: int, e2: int, w2: int, sqrtX: int)
  datatype Mapped = Mapped(x: int, y: int, hints: Hints)
  datatype MapError = ZeroHasNoInverse

  /** The input for which the map divides by zero. */
  ghost predicate Exceptional(u: int, p: nat)
    requires 0 < p
  {
    Zero((1 + 16 * (u * u)) * (1 - 16 * (u * u)), p)
  }

  /** Exactly the roots of 4 u - 1, 4 u + 1 and 16 u^2 + 1 are exceptional. */
  lemma ExceptionalInputs(u: int, p: nat)
    requires IsPrime(p) && 3 < p
    ensures Exceptional(u, p) <==> Zero(4 * u - 1, p) || Zero(4 * u + 1, p) || Zero(16 * (u * u) + 1, p)
  {
    var plus, minus, a, b := 1 + 16 * (u * u), 1 - 16 * (u * u), 4 * u - 1, 4 * u + 1;
    assert -1 * (a * b) == minus && -1 * minus == a * b;
    hide IsPrime, Zero;
    if Zero(plus * minus, p) {
      Euclid(plus, minus, p);
      if Zero(minus, p) {
        ScaleZero(-1, minus, p);
        Euclid(a, b, p);
      }
    }
    if Zero(a, p) {
      ScaleZero(b, a, p);
    }
    if Zero(b, p) {
      ScaleZero(a, b, p);
    }
    if Zero(a, p) || Zero(b, p) {
      assert b * a == a * b;
      ScaleZero(-1, a * b, p);
      ScaleZero(plus, minus, p);
    }
    if Zero(plus, p) {
      ScaleZero(minus, plus, p);
      assert minus * plus == plus * minus;
    }
  }

  /** Every field has an exceptional input: the inverse of 4. */
  lemma SomeInputIsExceptional(p: nat)
    requires IsPrime(p) && 3 < p
    ensures !Zero(4, p) && Exceptional(Inv(4, p), p)
  {
    SmallFactorsInvertible(p);
    if Zero(2 * 2, p) {
      Euclid(2, 2, p);
    }
    ExceptionalInputs(Inv(4, p), p);
  }

  /** The three x-candidates of RFC 9380, with denominators cleared:
      x1, x2 = -1/2 -+ c3 u / (1 + c1 u^2) and x3 = 1 + c4 ((1 + c1 u^2) / (1 - c1 u^2))^2
      for c1 = -16 and c4 = 64/3. */
  ghost predicate Candidates(u: int, c3: int, x1: int, x2: int, x3: int, p: nat)
    requires 0 < p
  {
    var minus, plus := 1 - 16 * (u * u), 1 + 16 * (u * u);
    && Zero((2 * x1 + 1) * minus + 2 * c3 * u, p)
    && Zero((2 * x2 + 1) * minus - 2 * c3 * u, p)
    && Zero(3 * (x3 - 1) * (plus * plus) - 64 * (minus * minus), p)
  }

  /** e says whether g(x) is a square; w is the root of g(x), or of ZETA g(x), that
      sqrt returns. */
  ghost predicate HintFor(f: BaseField, x: int, e: int, w: int)
    requires 0 < f.p
  {
    && 0 <= w < f.p
    && (e == 1 || e == 0)
    && (e == 1 <==> IsSquare(Curve(x), f.p))
    && IsRoot(w, if e == 1 then Curve(x) else f.zeta * Curve(x), f.p)
    && f.sqrt((if e == 1 then Curve(x) else f.zeta * Curve(x)) % f.p) == Some(w)
  }

  lemma SquareAgrees(x: int, p: nat)
    requires 0 < p
    ensures IsSquare(G(x, p), p) <==> IsSquare(Curve(x), p)
  {
    GValue(x, p);
    hide G, Curve;
    SquareShift(G(x, p), Curve(x), p);
    Opposite(G(x, p), Curve(x), p);
    SquareShift(Curve(x), G(x, p), p);
  }

  /** A root of g(x) as reduced is a root of the curve polynomial. */
  lemma RootOfReduced(w: int, x: int, p: nat)
    requires 0 < p && IsRoot(w, G(x, p), p)
    ensures IsRoot(w, Curve(x), p)
  {
    GValue(x, p);
    hide G, Curve, Zero;
    SumZero(w * w - G(x, p), G(x, p) - Curve(x), p);
  }

  /** The same for the product with ZETA. */
  lemma RootOfTwist(w: int, x: int, zeta: int, p: nat)
    requires 0 < p && IsRoot(w, Mul(G(x, p), zeta, p), p)
    ensures IsRoot(w, zeta * Curve(x), p)
  {
    var gx, c := G(x, p), Curve(x);
    var m := Mul(gx, zeta, p);
    GValue(x, p);
    ReduceZero(gx * zeta, p);
    hide Zero, Mul, G, Curve;
    Combine3(1, w * w - m, 1, m - gx * zeta, zeta, gx - c, p);
    assert w * w - zeta * c == 1 * (w * w - m) + 1 * (m - gx * zeta) + zeta * (gx - c);
  }

  lemma TwistIsSquare(f: BaseField, v: int)
    requires Suitable(f) && !IsSquare(v, f.p)
    ensures IsSquare(Mul(v, f.zeta, f.p), f.p)
  {
    PrimeIsOdd(f.p);
    NonSquareProduct(v, f.zeta, f.p);
    ReduceZero(v * f.zeta, f.p);
    SquareShift(v * f.zeta, Mul(v, f.zeta, f.p), f.p);
  }

  /** The square test and the root of one candidate. */
  method CandidateHint(f: BaseField, x: int) returns (gx: int, e: int, w: int)
    requires Suitable(f)
    ensures gx == G(x, f.p) && HintFor(f, x, e, w)
  {
    gx := G(x, f.p);
    GValue(x, f.p);
    SquareAgrees(x, f.p);
    IsSqMeaning(f, gx);
    hide IsSquare, IsRoot, G, Curve;
    if IsSq(f, gx) {
      e := 1;
      w := Root(f, gx);
      RootOfReduced(w, x, f.p);
      IsResidue(gx, Curve(x), f.p);
    } else {
      e := 0;
      TwistIsSquare(f, gx);
      w := Root(f, Mul(gx, f.zeta, f.p));
      RootOfTwist(w, x, f.zeta, f.p);
      TwistedResidue(gx, x, f.zeta, f.p);
    }
  }

  lemma TwistedResidue(gx: int, x: int, zeta: int, p: nat)
    requires 0 < p && Zero(gx - Curve(x), p)
    ensures Mul(gx, zeta, p) == zeta * Curve(x) % p
  {
    ScaleZero(zeta, gx - Curve(x), p);
    assert zeta * (gx - Curve(x)) == gx * zeta - zeta * Curve(x);
    SameResidue(gx * zeta, zeta * Curve(x), p);
  }

  lemma Opposite(a: int, b: int, p: int)
    requires 0 < p && Zero(a - b, p)
    ensures Zero(b - a, p)
  {
    ScaleZero(-1, a - b, p);
  }

  /** The field operations of the map satisfy the equations of the trail. */
  lemma TrailConsistent(u: int, c: Constants, v: Trail, p: nat)
    requires IsPrime(p) && ValidConstants(c, p)
    requires v.u == u && v.c2 == c.c2 && v.c3 == c.c3 && v.c4 == c.c4
    requires var m := Mul(Mul(u, u, p), c.c1, p);
      v.tv2 == Add(1, m, p) && v.tv1 == Sub(1, m, p)
    requires Zero(Mul(v.tv1, v.tv2, p) * v.inv - 1, p)
    requires v.tv4 == Mul(Mul(Mul(u, v.tv1, p), v.inv, p), c.c3, p)
    requires v.t == Mul(Mul(v.tv2, v.tv2, p), v.inv, p)
    requires v.x1 == Sub(c.c2, v.tv4, p) && v.x2 == Add(c.c2, v.tv4, p)
    requires v.x3 == Add(Mul(Mul(v.t, v.t, p), c.c4, p), 1, p)
    ensures Consistent(v, p)
  {
    DenominatorValues(u, c.c1, v.tv1, v.tv2, p);
    InverseValue(v.tv1, v.tv2, v.inv, p);
    FourProduct(u, v.tv1, v.inv, c.c3, p);
    SquareProduct(v.tv2, v.inv, p);
    ReduceZero(c.c2 - v.tv4, p);
    ReduceZero(c.c2 + v.tv4, p);
    SquareProduct(v.t, c.c4, p);
    var m := Mul(Mul(v.t, v.t, p), c.c4, p);
    ReduceZero(m + 1, p);
    SumZero(v.x3 - (m + 1), m - v.t * v.t * c.c4, p);
    assert v.t * v.t * c.c4 == c.c4 * (v.t * v.t);
  }

  lemma DenominatorValues(u: int, c1: int, tv1: int, tv2: int, p: nat)
    requires 0 < p && Zero(c1 + 16, p)
    requires var m := Mul(Mul(u, u, p), c1, p); tv2 == Add(1, m, p) && tv1 == Sub(1, m, p)
    ensures Zero(tv1 - (1 + 16 * (u * u)), p) && Zero(tv2 - (1 - 16 * (u * u)), p)
  {
    var q, m := u * u, Mul(Mul(u, u, p), c1, p);
    SquareProduct(u, c1, p);
    ReduceZero(1 + m, p);
    ReduceZero(1 - m, p);
    Combine(1, m - q * c1, q, c1 + 16, p);
    assert m + 16 * q == 1 * (m - q * c1) + q * (c1 + 16);
    Combine(1, tv2 - (1 + m), 1, m + 16 * q, p);
    Combine(1, tv1 - (1 - m), -1, m + 16 * q, p);
  }

  lemma InverseValue(a: int, b: int, i: int, p: nat)
    requires 0 < p && Zero(Mul(a, b, p) * i - 1, p)
    ensures Zero(a * b * i - 1, p)
  {
    ReduceZero(a * b, p);
    Certify(a * b * i - 1, 1, Mul(a, b, p) * i - 1, i, a * b - Mul(a, b, p), p);
  }

  lemma SquareProduct(a: int, b: int, p: nat)
    requires 0 < p
    ensures Zero(Mul(Mul(a, a, p), b, p) - a * a * b, p)
  {
    var s := Mul(a, a, p);
    ReduceZero(a * a, p);
    ReduceZero(s * b, p);
    Certify(Mul(s, b, p) - a * a * b, 1, Mul(s, b, p) - s * b, b, s - a * a, p);
  }

  lemma FourProduct(a: int, b: int, c: int, d: int, p: nat)
    requires 0 < p
    ensures Zero(Mul(Mul(Mul(a, b, p), c, p), d, p) - a * b * c * d, p)
  {
    var m, n := Mul(a, b, p), Mul(Mul(a, b, p), c, p);
    ReduceZero(a * b, p);
    ReduceZero(m * c, p);
    ReduceZero(n * d, p);
    var o := Mul(n, d, p);
    Combine3(1, o - n * d, d, n - m * c, d * c, m - a * b, p);
    FourIdentity(a, b, c, d, m, n, o);
  }

  lemma FourIdentity(a: int, b: int, c: int, d: int, m: int, n: int, o: int)
    ensures o - a * b * c * d == 1 * (o - n * d) + d * (n - m * c) + d * c * (m - a * b)
  {
    assert d * c * (m - a * b) == d * (m * c) - a * b * c * d;
  }

  /** tv4 (1 - 16 u^2) = c3 u. */
  lemma StepValue(v: Trail, p: nat)
    requires 0 < p && Consistent(v, p)
    ensures Zero(v.tv4 * (1 - 16 * (v.u * v.u)) - v.c3 * v.u, p)
  {
    var minus, cu := 1 - 16 * (v.u * v.u), v.c3 * v.u;
    var s, r, w := v.tv2, v.tv1, v.tv4;
    StepIdentity(v.u, v.c3, r, s, v.inv, w, minus);
    Combine3(s, w - v.u * r * v.inv * v.c3, cu, r * s * v.inv - 1, -w, s - minus, p);
  }

  lemma StepIdentity(u: int, c: int, r: int, s: int, i: int, w: int, minus: int)
    ensures w * minus - c * u == s * (w - u * r * i * c) + c * u * (r * s * i - 1) + -w * (s - minus)
  {
    var e := c * u * (r * s * i);
    assert s * (u * r * i * c) == e;
    assert s * (w - u * r * i * c) == s * w - e;
    assert c * u * (r * s * i - 1) == e - c * u;
  }

  lemma ThirdCandidate(v: Trail, p: nat)
    requires 0 < p && Consistent(v, p)
    ensures var minus, plus := 1 - 16 * (v.u * v.u), 1 + 16 * (v.u * v.u);
      Zero(3 * (v.x3 - 1) * (plus * plus) - 64 * (minus * minus), p)
  {
    var minus, plus := 1 - 16 * (v.u * v.u), 1 + 16 * (v.u * v.u);
    var s, r, y := v.tv2, v.tv1, 3 * (v.x3 - 1);
    TScaled(v, p);
    Combine3(1, y * (r * r) - 64 * (s * s), -y * (r + plus), r - plus, 64 * (s + minus), s - minus, p);
    ThirdCandidateIdentity(y, r, s, plus, minus);
  }

  lemma FirstCandidate(x: int, c2: int, w: int, minus: int, c: int, u: int, p: nat)
    requires 0 < p && Zero(2 * c2 + 1, p) && Zero(x - (c2 - w), p) && Zero(w * minus - c * u, p)
    ensures Zero((2 * x + 1) * minus + 2 * c * u, p)
  {
    Combine3(2 * minus, x - (c2 - w), minus, 2 * c2 + 1, -2, w * minus - c * u, p);
    hide Zero;
    assert (2 * x + 1) * minus + 2 * c * u
        == 2 * minus * (x - (c2 - w)) + minus * (2 * c2 + 1) + -2 * (w * minus - c * u);
  }

  lemma SecondCandidate(x: int, c2: int, w: int, minus: int, c: int, u: int, p: nat)
    requires 0 < p && Zero(2 * c2 + 1, p) && Zero(x - (c2 + w), p) && Zero(w * minus - c * u, p)
    ensures Zero((2 * x + 1) * minus - 2 * c * u, p)
  {
    Combine3(2 * minus, x - (c2 + w), minus, 2 * c2 + 1, 2, w * minus - c * u, p);
    hide Zero;
    assert (2 * x + 1) * minus - 2 * c * u
        == 2 * minus * (x - (c2 + w)) + minus * (2 * c2 + 1) + 2 * (w * minus - c * u);
  }

  /** The trail's candidates are those of the RFC. */
  lemma TrailCandidates(v: Trail, p: nat)
    requires IsPrime(p) && 3 < p && Consistent(v, p)
    ensures Candidates(v.u, v.c3, v.x1, v.x2, v.x3, p)
  {
    hide IsPrime, Zero;
    var minus := 1 - 16 * (v.u * v.u);
    StepValue(v, p);
    ThirdCandidate(v, p);
    FirstCandidate(v.x1, v.c2, v.tv4, minus, v.c3, v.u, p);
    SecondCandidate(v.x2, v.c2, v.tv4, minus, v.c3, v.u, p);
  }

  lemma ThirdCandidateIdentity(y: int, r: int, s: int, plus: int, minus: int)
    ensures y * (plus * plus) - 64 * (minus * minus)
         == 1 * (y * (r * r) - 64 * (s * s)) + -y * (r + plus) * (r - plus) + 64 * (s + minus) * (s - minus)
  {
    assert (r + plus) * (r - plus) == r * r - plus * plus;
    assert (s + minus) * (s - minus) == s * s - minus * minus;
    assert -y * (r + plus) * (r - plus) == -y * (r * r - plus * plus);
  }

  /** mapToCurveSvdW. It fails exactly on the exceptional inputs; otherwise it
      returns a curve point whose x is the first candidate that has a point,
      whose y has the parity of u, and hints that satisfy the circuit. */
  method MapToCurve(f: BaseField, c: Constants, u: int)
    returns (res: Result<Mapped, MapError>, ghost x1: int, ghost x2: int, ghost x3: int)
    requires Suitable(f) && ValidConstants(c, f.p)
    ensures res.Err? <==> Exceptional(u, f.p)
    ensures res.Ok? ==>
      var m := res.value; var h := m.hints; var p := f.p;
      && Candidates(u, c.c3, x1, x2, x3, p) && 0 <= x1 < p && 0 <= x2 < p && 0 <= x3 < p
      && HintFor(f, x1, h.e1, h.w1) && HintFor(f, x2, h.e2, h.w2)
      && m.x == (if IsSquare(Curve(x1), p) then x1 else if IsSquare(Curve(x2), p) then x2 else x3)
      && 0 <= m.x < p && 0 <= m.y < p && 0 <= h.sqrtX < p
      && IsRoot(m.y, Curve(m.x), p) && IsRoot(h.sqrtX, Curve(m.x), p)
      && (m.y != 0 ==> m.y % 2 == u % 2)
      && f.sqrt(Curve(m.x) % p) == Some(h.sqrtX)
      && m.y == (if h.sqrtX % 2 == u % 2 then h.sqrtX else -h.sqrtX % p)
      && 0 <= h.invT < p
      && Zero((1 + 16 * (u * u)) * (1 - 16 * (u * u)) * h.invT - 1, p)
  {
    hide IsPrime, Zero;
    var p := f.p;
    var tv1 := Mul(Mul(u, u, p), c.c1, p);
    var tv2 := Add(1, tv1, p);
    tv1 := Sub(1, tv1, p);
    var d := Mul(tv1, tv2, p);
    DenominatorValues(u, c.c1, tv1, tv2, p);
    ExceptionalMeaning(u, tv1, tv2, p);
    if d == 0 {
      x1, x2, x3 := 0, 0, 0;
      res := Err(ZeroHasNoInverse);
      return;
    }
    NonzeroResidue(tv1 * tv2, p);
    var invT := Inv(d, p);
    var tv4 := Mul(Mul(Mul(u, tv1, p), invT, p), c.c3, p);

    var cand1 := Sub(c.c2, tv4, p);
    var gx1, e1, w1 := CandidateHint(f, cand1);
    var cand2 := Add(c.c2, tv4, p);
    var gx2, e2, w2 := CandidateHint(f, cand2);

    var t := Mul(Mul(tv2, tv2, p), invT, p);
    var cand3 := Add(Mul(Mul(t, t, p), c.c4, p), 1, p);

    var x := if e1 == 1 then cand1 else cand3;
    var e2sel := if e2 == 1 && e1 == 0 then 1 else 0;
    x := if e2sel == 1 then cand2 else x;

    ghost var v := Trail(u, c.c2, c.c3, c.c4, tv1, tv2, invT, tv4, t, cand1, cand2, cand3);
    TrailConsistent(u, c, v, p);
    TrailCandidates(v, p);
    SomeCandidateIsSquare(v, p);
    x1, x2, x3 := cand1, cand2, cand3;

    var gx := G(x, p);
    GValue(x, p);
    Opposite(gx, Curve(x), p);
    SquareShift(Curve(x), gx, p);
    var sqrtX := Root(f, gx);
    IsResidue(gx, Curve(x), p);
    SumZero(sqrtX * sqrtX - gx, gx - Curve(x), p);
    var y := sqrtX;
    if u % 2 != y % 2 {
      y := Neg(y, p);
      NegatedRoot(sqrtX, Curve(x), p);
    }
    InvTValue(u, tv1, tv2, invT, p);
    res := Ok(Mapped(x, y, Hints(invT, e1, w1, e2, w2, sqrtX)));
  }

  lemma ExceptionalMeaning(u: int, tv1: int, tv2: int, p: nat)
    requires 0 < p
    requires Zero(tv1 - (1 + 16 * (u * u)), p) && Zero(tv2 - (1 - 16 * (u * u)), p)
    ensures Mul(tv1, tv2, p) == 0 <==> Exceptional(u, p)
  {
    var a, b := 1 + 16 * (u * u), 1 - 16 * (u * u);
    Certify(tv1 * tv2 - a * b, tv2, tv1 - a, a, tv2 - b, p);
    ZeroShift(tv1 * tv2, a * b, p);
  }

  lemma InvTValue(u: int, tv1: int, tv2: int, i: int, p: nat)
    requires 0 < p && Zero(Mul(tv1, tv2, p) * i - 1, p)
    requires Zero(tv1 - (1 + 16 * (u * u)), p) && Zero(tv2 - (1 - 16 * (u * u)), p)
    ensures Zero((1 + 16 * (u * u)) * (1 - 16 * (u * u)) * i - 1, p)
  {
    var a, b := 1 + 16 * (u * u), 1 - 16 * (u * u);
    InverseValue(tv1, tv2, i, p);
    Combine3(1, tv1 * tv2 * i - 1, -i * tv2, tv1 - a, -i * a, tv2 - b, p);
    InvTIdentity(tv1, tv2, a, b, i);
  }

  lemma InvTIdentity(r: int, s: int, a: int, b: int, i: int)
    ensures a * b * i - 1 == 1 * (r * s * i - 1) + -i * s * (r - a) + -i * a * (s - b)
  {
    assert i * s * (r - a) == r * s * i - i * (a * s);
    assert i * a * (s - b) == i * (a * s) - a * b * i;
    assert -i * s * (r - a) == -(i * s * (r - a));
    assert -i * a * (s - b) == -(i * a * (s - b));
  }

  lemma NonzeroResidue(e: int, p: nat)
    requires 0 < p
    ensures Zero(e % p, p) <==> e % p == 0
  {
    if Zero(e % p, p) {
      Canonical(e % p, 0, p);
    }
  }

  lemma OppositeIsRoot(n: int, y: int, v: int, p: nat)
    requires 0 < p && Zero(n - -y, p) && IsRoot(y, v, p)
    ensures IsRoot(n, v, p)
  {
    hide Zero;
    DifferenceOfSquares(n, y);
    Combine(n - y, n - -y, 1, y * y - v, p);
    assert n * n - v == (n - y) * (n - -y) + 1 * (y * y - v);
  }

  lemma OppositeResidue(y: int, p: nat)
    requires 0 < p && 0 <= y < p
    ensures Neg(y, p) == if y == 0 then 0 else p - y
  {
    if y != 0 {
      ReduceZero(-y, p);
      SumZero(Neg(y, p) + y, -1 * p, p);
      Canonical(Neg(y, p), p - y, p);
    }
  }

  lemma NegIsRoot(y: int, v: int, p: nat)
    requires 0 < p && IsRoot(y, v, p)
    ensures IsRoot(Neg(y, p), v, p)
  {
    ReduceZero(-y, p);
    hide Zero, IsRoot;
    OppositeIsRoot(Neg(y, p), y, v, p);
  }

  lemma OtherParity(y: int, p: nat)
    requires p % 2 == 1
    ensures (p - y) % 2 != y % 2
  {}

  /** p - y is the other root, and has the other parity. */
  lemma NegatedRoot(y: int, v: int, p: nat)
    requires IsPrime(p) && 3 < p && 0 <= y < p && IsRoot(y, v, p)
    ensures var n := Neg(y, p);
      0 <= n < p && IsRoot(n, v, p) && (n != 0 ==> n % 2 != y % 2)
  {
    PrimeIsOdd(p);
    hide Neg, IsRoot, IsPrime;
    NegIsRoot(y, v, p);
    OppositeResidue(y, p);
    OtherParity(y, p);
  }
}
