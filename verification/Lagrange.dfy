/** Lagrange interpolation at zero modulo a prime: the coefficients the client
    computes and the theorem that they recover f(0) from enough shares. */
module Lagrange {
  import opened PrimeField
  import opened Wrappers

  function Last(xs: seq<int>): int
    requires |xs| > 0
  {
    xs[|xs| - 1]
  }

  function Front(xs: seq<int>): (r: seq<int>)
    requires |xs| > 0
    ensures |r| == |xs| - 1
  {
    xs[..|xs| - 1]
  }

  // ----- polynomials with integer coefficients, constant term first -------------------

  function Eval(f: seq<int>, x: int): int {
    if f == [] then 0 else f[0] + x * Eval(f[1..], x)
  }

  /** The quotient of f - f(a) by x - a. */
  function Quotient(f: seq<int>, a: int): (q: seq<int>)
    ensures |q| == if |f| == 0 then 0 else |f| - 1
  {
    if |f| <= 1 then [] else [Eval(f[1..], a)] + Quotient(f[1..], a)
  }

  lemma {:induction false} QuotientLaw(f: seq<int>, a: int, x: int)
    ensures Eval(f, x) == Eval(f, a) + (x - a) * Eval(Quotient(f, a), x)
  {
    if |f| > 1 {
      var t := f[1..];
      QuotientLaw(t, a, x);
      var q, e := Eval(Quotient(t, a), x), Eval(t, a);
      assert Quotient(f, a)[1..] == Quotient(t, a);
      assert Eval(Quotient(f, a), x) == e + x * q;
      QuotientIdentity(f[0], a, x, e, q);
    } else if |f| == 1 {
      assert Eval(f[1..], x) == 0 && Eval(f[1..], a) == 0;
    }
  }

  lemma QuotientIdentity(c: int, a: int, x: int, e: int, q: int)
    ensures c + x * (e + (x - a) * q) == c + a * e + (x - a) * (e + x * q)
  {}

  function AddConstant(f: seq<int>, c: int): (r: seq<int>)
    ensures |r| == if f == [] then 1 else |f|
    ensures forall x :: Eval(r, x) == Eval(f, x) + c
  {
    if f == [] then
      assert forall x :: Eval([c], x) == c + x * Eval([], x);
      [c]
    else
      assert ([f[0] + c] + f[1..])[1..] == f[1..];
      [f[0] + c] + f[1..]
  }

  /** (x - a) f. */
  function TimesLinear(f: seq<int>, a: int): (r: seq<int>)
    ensures |r| == if f == [] then 0 else |f| + 1
  {
    if f == [] then [] else [-a * f[0]] + AddConstant(TimesLinear(f[1..], a), f[0])
  }

  lemma {:induction false} TimesLinearLaw(f: seq<int>, a: int, x: int)
    ensures Eval(TimesLinear(f, a), x) == (x - a) * Eval(f, x)
  {
    if f != [] {
      TimesLinearLaw(f[1..], a, x);
      var t := AddConstant(TimesLinear(f[1..], a), f[0]);
      assert TimesLinear(f, a)[1..] == t;
      LinearIdentity(f[0], a, x, Eval(f[1..], x));
    }
  }

  lemma LinearIdentity(c: int, a: int, x: int, e: int)
    ensures -a * c + x * ((x - a) * e + c) == (x - a) * (c + x * e)
  {}

  /** The polynomial with the given roots. */
  function Vanish(xs: seq<int>): (f: seq<int>)
    ensures |f| == |xs| + 1
  {
    if xs == [] then [1] else TimesLinear(Vanish(Front(xs)), Last(xs))
  }

  // ----- coefficients --------------------------------------------------------------------

  /** The product of -j over the indices j other than i. */
  function Num(i: int, xs: seq<int>): int {
    if xs == [] then 1
    else
      var j := Last(xs);
      if j == i then Num(i, Front(xs)) else Num(i, Front(xs)) * -j
  }

  /** The product of i - j over the indices j other than i. */
  function Den(i: int, xs: seq<int>): int {
    if xs == [] then 1
    else
      var j := Last(xs);
      if j == i then Den(i, Front(xs)) else Den(i, Front(xs)) * (i - j)
  }

  lemma {:induction false} NumZero(i: int, xs: seq<int>, n: int)
    requires IsPrime(n)
    ensures Zero(Num(i, xs), n) <==> exists t :: 0 <= t < |xs| && xs[t] != i && Zero(xs[t], n)
  {
    if xs == [] {
      SameResidueOne(n);
    } else {
      var k := |xs| - 1;
      var j := xs[k];
      NumZero(i, xs[..k], n);
      if j != i {
        ProductZero(Num(i, xs[..k]), -j, n);
        ProductZero(-1, j, n);
        SameResidueOne(n);
      }
      assert forall t :: 0 <= t < k ==> xs[..k][t] == xs[t];
    }
  }

  lemma {:induction false} DenZero(i: int, xs: seq<int>, n: int)
    requires IsPrime(n)
    ensures Zero(Den(i, xs), n) <==> exists t :: 0 <= t < |xs| && xs[t] != i && Zero(i - xs[t], n)
  {
    if xs == [] {
      SameResidueOne(n);
    } else {
      var k := |xs| - 1;
      DenZero(i, xs[..k], n);
      if xs[k] != i {
        ProductZero(Den(i, xs[..k]), i - xs[k], n);
      }
      assert forall t :: 0 <= t < k ==> xs[..k][t] == xs[t];
    }
  }

  lemma SameResidueOne(n: int)
    requires 1 < n
    ensures !Zero(1, n) && !Zero(-1, n)
  {
    if Zero(-1, n) {
      ScaleZero(-1, -1, n);
    }
  }

  lemma ProductZero(a: int, b: int, n: int)
    requires IsPrime(n)
    ensures Zero(a * b, n) <==> Zero(a, n) || Zero(b, n)
  {
    if Zero(a * b, n) {
      Euclid(a, b, n);
    } else if Zero(a, n) {
      ScaleZero(b, a, n);
    } else if Zero(b, n) {
      ScaleZero(a, b, n);
    }
  }

  datatype LagrangeError = DenominatorNotInvertible

  /** lagrangeCoeff: the quotient of the two products, or the error of the
      inversion when two indices are congruent. */
  method LagrangeCoeff(i: int, indices: seq<int>, n: nat) returns (r: Result<int, LagrangeError>)
    requires IsPrime(n)
    ensures r.Err? <==> Zero(Den(i, indices), n)
    ensures r.Ok? ==> 0 <= r.value < n && Zero(r.value * Den(i, indices) - Num(i, indices), n)
  {
    var num, den := 1, 1;
    assert indices[..0] == [];
    for t := 0 to |indices|
      invariant Zero(num - Num(i, indices[..t]), n)
      invariant Zero(den - Den(i, indices[..t]), n)
      invariant 0 <= den < n
    {
      var j := indices[t];
      assert indices[..t + 1][..t] == indices[..t];
      if j == i {
        continue;
      }
      MulStep(num, Num(i, indices[..t]), Neg(j, n), -j, n);
      MulStep(den, Den(i, indices[..t]), Sub(i, j, n), i - j, n);
      num := Mul(num, Neg(j, n), n);
      den := Mul(den, Sub(i, j, n), n);
    }
    assert indices[..|indices|] == indices;
    ZeroShift(den, Den(i, indices), n);
    if den == 0 {
      return Err(DenominatorNotInvertible);
    }
    if Zero(den, n) {
      Canonical(den, 0, n);
    }
    var inv := Inv(den, n);
    QuotientValue(num, Num(i, indices), den, Den(i, indices), inv, n);
    r := Ok(Mul(num, inv, n));
  }

  lemma MulStep(a: int, b: int, c: int, d: int, n: int)
    requires 0 < n && Zero(a - b, n) && c == d % n
    ensures Zero(Mul(a, c, n) - b * d, n) && 0 <= Mul(a, c, n) < n
  {
    ReduceZero(d, n);
    ReduceZero(a * c, n);
    Combine3(1, Mul(a, c, n) - a * c, c, a - b, b, c - d, n);
    assert Mul(a, c, n) - b * d == 1 * (Mul(a, c, n) - a * c) + c * (a - b) + b * (c - d);
  }

  lemma QuotientValue(num: int, num0: int, den: int, den0: int, inv: int, n: int)
    requires 0 < n && Zero(num - num0, n) && Zero(den - den0, n) && Zero(den * inv - 1, n)
    ensures Zero(Mul(num, inv, n) * den0 - num0, n)
  {
    var m := Mul(num, inv, n);
    ReduceZero(num * inv, n);
    // m den0 = m den = num inv den = num = num0
    Combine3(-m, den - den0, den, m - num * inv, num, den * inv - 1, n);
    var e := -m * (den - den0) + den * (m - num * inv) + num * (den * inv - 1);
    SumZero(e, num - num0, n);
    QuotientValueIdentity(m, den, den0, num, inv);
  }

  lemma QuotientValueIdentity(m: int, den: int, den0: int, num: int, inv: int)
    ensures -m * (den - den0) + den * (m - num * inv) + num * (den * inv - 1) == m * den0 - num
  {
    assert den * (num * inv) == num * (den * inv);
  }

  // ----- interpolation -----------------------------------------------------------------------

  ghost predicate DistinctMod(xs: seq<int>, n: int)
    requires 0 < n
  {
    forall s, t :: 0 <= s < t < |xs| ==> !Zero(xs[s] - xs[t], n)
  }

  /** lam is the coefficient of the index i. */
  ghost predicate IsCoeff(lam: int, i: int, xs: seq<int>, n: int)
    requires 0 < n
  {
    Zero(lam * Den(i, xs) - Num(i, xs), n)
  }

  ghost predicate AreCoeffs(lams: seq<int>, xs: seq<int>, n: int)
    requires 0 < n
  {
    && |lams| == |xs|
    && forall t :: 0 <= t < |xs| ==> IsCoeff(lams[t], xs[t], xs, n)
  }

  function Sum(lams: seq<int>): int {
    if lams == [] then 0 else Sum(Front(lams)) + Last(lams)
  }

  /** The sum of lam_t f(x_t). */
  function Weighted(lams: seq<int>, xs: seq<int>, f: seq<int>): int
    requires |lams| <= |xs|
  {
    if lams == [] then 0
    else
      var k := |lams| - 1;
      Weighted(lams[..k], xs, f) + lams[k] * Eval(f, xs[k])
  }

  /** Dropping the last index x: lam (i - x) = -x lam'. */
  lemma DropIndex(lam: int, lam': int, i: int, xs: seq<int>, n: int)
    requires IsPrime(n) && |xs| > 0 && Last(xs) != i
    requires IsCoeff(lam, i, xs, n) && IsCoeff(lam', i, Front(xs), n)
    requires !Zero(Den(i, Front(xs)), n)
    ensures var x := Last(xs); Zero(lam * (i - x) + x * lam', n)
  {
    hide IsPrime, Zero;
    DropFactor(lam, lam', Den(i, Front(xs)), i, Last(xs), Num(i, Front(xs)), n);
  }

  lemma DropFactor(lam: int, lam': int, d: int, i: int, x: int, m: int, n: int)
    requires IsPrime(n) && !Zero(d, n)
    requires Zero(lam * (d * (i - x)) - m * -x, n) && Zero(lam' * d - m, n)
    ensures Zero(lam * (i - x) + x * lam', n)
  {
    DropIdentity(lam, lam', d, i, x, m);
    Certify(d * (lam * (i - x) + x * lam'), 1, lam * (d * (i - x)) - m * -x, x, lam' * d - m, n);
    Cancel(d, lam * (i - x) + x * lam', n);
  }

  lemma DropIdentity(lam: int, lam': int, d: int, i: int, x: int, m: int)
    ensures d * (lam * (i - x) + x * lam') == 1 * (lam * (d * (i - x)) - m * -x) + x * (lam' * d - m)
  {
    assert d * (lam * (i - x)) == lam * (d * (i - x));
    assert d * (x * lam') == x * (lam' * d);
  }

  lemma CoeffIdentity(m: int, d: int, inv: int)
    ensures m * (d * inv - 1) == (m * inv) * d - m
  {}

  lemma CoeffExists(i: int, xs: seq<int>, n: int) returns (lam: int)
    requires IsPrime(n) && !Zero(Den(i, xs), n)
    ensures IsCoeff(lam, i, xs, n)
  {
    hide IsPrime, Zero;
    var d, m := Den(i, xs), Num(i, xs);
    var inv := Inv(d, n);
    lam := m * inv;
    CoeffIdentity(m, d, inv);
    ScaleZero(m, d * inv - 1, n);
  }

  /** Coefficients exist for distinct indices. */
  lemma CoeffsExist(xs: seq<int>, n: int) returns (lams: seq<int>)
    requires IsPrime(n) && DistinctMod(xs, n)
    ensures AreCoeffs(lams, xs, n)
  {
    lams := [];
    while |lams| < |xs|
      invariant |lams| <= |xs|
      invariant forall t :: 0 <= t < |lams| ==> IsCoeff(lams[t], xs[t], xs, n)
    {
      DistinctDen(xs, |lams|, n);
      var lam := CoeffExists(xs[|lams|], xs, n);
      lams := lams + [lam];
    }
  }

  lemma PrefixDistinct(xs: seq<int>, n: int)
    requires 0 < n && DistinctMod(xs, n) && |xs| > 0
    ensures DistinctMod(Front(xs), n)
  {}

  lemma DistinctPair(xs: seq<int>, s: nat, t: nat, n: int)
    requires 0 < n && DistinctMod(xs, n) && s < |xs| && t < |xs| && s != t
    ensures !Zero(xs[s] - xs[t], n)
  {
    if t < s && Zero(xs[s] - xs[t], n) {
      ScaleZero(-1, xs[s] - xs[t], n);
    }
  }

  lemma DistinctDen(xs: seq<int>, k: nat, n: int)
    requires IsPrime(n) && DistinctMod(xs, n) && k < |xs|
    ensures !Zero(Den(xs[k], xs), n)
  {
    DenZero(xs[k], xs, n);
    forall t | 0 <= t < |xs| && xs[t] != xs[k] ensures !Zero(xs[k] - xs[t], n) {
      DistinctPair(xs, k, t, n);
    }
  }

  /** w = fa v - a u modulo n. */
  ghost predicate SplitsAs(w: int, fa: int, v: int, a: int, u: int, n: int)
    requires 0 < n
  {
    Zero(w - fa * v + a * u, n)
  }

  /** f(0) = f(a) - a q(0). */
  predicate DividesAtZero(f0: int, fa: int, a: int, e: int) {
    f0 == fa + (0 - a) * e
  }

  lemma QuotientAtZero(f: seq<int>, a: int)
    ensures DividesAtZero(Eval(f, 0), Eval(f, a), a, Eval(Quotient(f, a), 0))
  {
    QuotientLaw(f, a, 0);
  }

  /** The splitting of a weighted sum at the last index a: with f = f(a) + (x - a) q,
      sum lam_t f(x_t) = f(a) sum lam_t - a sum lam'_t q(x_t) over a prefix. */
  lemma {:induction false} SplitSum(lams: seq<int>, lams': seq<int>, xs: seq<int>, f: seq<int>, k: nat, n: int)
    requires IsPrime(n) && DistinctMod(xs, n) && |xs| > 0
    requires AreCoeffs(lams, xs, n) && AreCoeffs(lams', Front(xs), n)
    requires k <= |xs| - 1
    ensures var a := Last(xs); var q := Quotient(f, a);
      SplitsAs(Weighted(lams[..k], xs, f), Eval(f, a), Sum(lams[..k]),
               a, Weighted(lams'[..k], Front(xs), q), n)
  {
    var z := |xs| - 1;
    var a, ys := xs[z], xs[..z];
    assert 0 < n && |lams| == |xs| && |lams'| == z;
    hide IsPrime, Zero, Congruent, SplitsAs, DistinctMod, AreCoeffs, IsCoeff, Eval, Quotient;
    if k > 0 {
      var j := k - 1;
      SplitSum(lams, lams', xs, f, j, n);
      SplitTerm(lams, lams', xs, j, n);
      WeightedStep(lams, xs, f, j);
      WeightedStep(lams', ys, Quotient(f, a), j);
      QuotientLaw(f, a, xs[j]);
      hide Weighted, Sum;
      assert ys[j] == xs[j];
      SplitStep(Weighted(lams[..j], xs, f), Sum(lams[..j]), Weighted(lams'[..j], ys, Quotient(f, a)),
                lams[j], lams'[j], Eval(f, a), xs[j], a, Eval(Quotient(f, a), xs[j]), n);
    } else {
      NothingSplits(Eval(f, a), a, n);
    }
  }

  lemma NothingSplits(fa: int, a: int, n: int)
    requires 0 < n
    ensures SplitsAs(0, fa, 0, a, 0, n)
  {}

  lemma WeightedStep(lams: seq<int>, xs: seq<int>, f: seq<int>, k: nat)
    requires k < |lams| <= |xs|
    ensures Weighted(lams[..k + 1], xs, f) == Weighted(lams[..k], xs, f) + lams[k] * Eval(f, xs[k])
    ensures Sum(lams[..k + 1]) == Sum(lams[..k]) + lams[k]
  {
    hide Eval;
    assert lams[..k + 1][..k] == lams[..k];
  }

  lemma SplitTerm(lams: seq<int>, lams': seq<int>, xs: seq<int>, t: nat, n: int)
    requires IsPrime(n) && DistinctMod(xs, n) && t < |xs| - 1
    requires AreCoeffs(lams, xs, n) && AreCoeffs(lams', Front(xs), n)
    ensures var a := Last(xs); Zero(lams[t] * (xs[t] - a) + a * lams'[t], n)
  {
    var z := |xs| - 1;
    SameIndex(xs, t, z, n);
    PrefixDistinct(xs, n);
    assert xs[..z][t] == xs[t];
    assert IsCoeff(lams[t], xs[t], xs, n) && IsCoeff(lams'[t], xs[t], xs[..z], n);
    hide Zero;
    DistinctDen(xs[..z], t, n);
    DropIndex(lams[t], lams'[t], xs[t], xs, n);
  }

  lemma SplitStep(w: int, v: int, u: int, lam: int, lam': int, fa: int, x: int, a: int, e: int, n: int)
    requires 0 < n && SplitsAs(w, fa, v, a, u, n) && Zero(lam * (x - a) + a * lam', n)
    ensures SplitsAs(w + lam * (fa + (x - a) * e), fa, v + lam, a, u + lam' * e, n)
  {
    hide Zero;
    SplitIdentity(w, v, u, lam, lam', fa, x, a, e);
    Combine(1, w - fa * v + a * u, e, lam * (x - a) + a * lam', n);
  }

  lemma EvalOne(x: int)
    ensures Eval([1], x) == 1
  {
    assert Eval([1][1..], x) == 0;
  }

  lemma SameIndex(xs: seq<int>, s: nat, t: nat, n: int)
    requires 0 < n && DistinctMod(xs, n) && s < t < |xs|
    ensures xs[s] != xs[t]
  {
    assert !Zero(xs[s] - xs[t], n);
  }

  lemma SplitIdentity(w: int, v: int, u: int, lam: int, lam': int, fa: int, x: int, a: int, e: int)
    ensures (w + lam * (fa + (x - a) * e)) - fa * (v + lam) + a * (u + lam' * e)
         == 1 * (w - fa * v + a * u) + e * (lam * (x - a) + a * lam')
  {
    assert lam * (fa + (x - a) * e) == fa * lam + e * (lam * (x - a));
    assert fa * (v + lam) == fa * v + fa * lam;
    assert a * (u + lam' * e) == a * u + e * (a * lam');
  }

  /** The whole sum: the last index contributes lam f(a). */
  lemma SplitWhole(lams: seq<int>, lams': seq<int>, xs: seq<int>, f: seq<int>, n: int)
    requires IsPrime(n) && DistinctMod(xs, n) && |xs| > 0
    requires AreCoeffs(lams, xs, n) && AreCoeffs(lams', Front(xs), n)
    ensures var a := Last(xs); var q := Quotient(f, a);
      SplitsAs(Weighted(lams, xs, f), Eval(f, a), Sum(lams), a, Weighted(lams', Front(xs), q), n)
  {
    var z := |xs| - 1;
    assert 0 < n && |lams| == |xs| && lams'[..z] == lams';
    SplitSum(lams, lams', xs, f, z, n);
    assert Front(lams) == lams[..z] && xs[z] == Last(xs);
    hide IsPrime, Zero, Congruent, SplitsAs, Eval;
    SplitLast(Weighted(lams[..z], xs, f), Eval(f, Last(xs)), Sum(lams[..z]), Last(xs),
              Weighted(lams', Front(xs), Quotient(f, Last(xs))), lams[z], n);
  }

  lemma SplitLast(w: int, fa: int, v: int, a: int, u: int, lam: int, n: int)
    requires 0 < n && SplitsAs(w, fa, v, a, u, n)
    ensures SplitsAs(w + lam * fa, fa, v + lam, a, u, n)
  {
    hide Zero;
    assert (w + lam * fa) - fa * (v + lam) + a * u == w - fa * v + a * u;
  }

  lemma {:induction false} VanishAt(xs: seq<int>, t: nat)
    requires t < |xs|
    ensures Eval(Vanish(xs), xs[t]) == 0
  {
    var a, ys := Last(xs), Front(xs);
    assert Vanish(xs) == TimesLinear(Vanish(ys), a);
    if t < |xs| - 1 {
      VanishAt(ys, t);
      assert ys[t] == xs[t];
    }
    assert t < |xs| - 1 || xs[t] == a;
    hide Vanish, Eval, TimesLinear;
    TimesLinearLaw(Vanish(ys), a, xs[t]);
    ZeroFactor(xs[t] - a, Eval(Vanish(ys), xs[t]));
  }

  lemma ZeroFactor(a: int, b: int)
    requires a == 0 || b == 0
    ensures a * b == 0
  {}

  /** Away from its roots the vanishing polynomial is the denominator, and at
      zero the numerator, of the coefficient of a new index. */
  lemma {:induction false} VanishElsewhere(xs: seq<int>, a: int)
    requires a !in xs
    ensures Eval(Vanish(xs), a) == Den(a, xs) && Eval(Vanish(xs), 0) == Num(a, xs)
  {
    if xs == [] {
      EvalOne(a);
      EvalOne(0);
    } else {
      var ys, x := Front(xs), Last(xs);
      assert a != x && Vanish(xs) == TimesLinear(Vanish(ys), x);
      VanishElsewhere(ys, a);
      assert Den(a, xs) == Den(a, ys) * (a - x) && Num(a, xs) == Num(a, ys) * -x;
      hide Vanish, Eval, TimesLinear, Den, Num;
      TimesLinearLaw(Vanish(ys), x, a);
      TimesLinearLaw(Vanish(ys), x, 0);
      FactorsCommute(Eval(Vanish(ys), a), a - x);
      FactorsCommute(Eval(Vanish(ys), 0), 0 - x);
    }
  }

  lemma FactorsCommute(e: int, d: int)
    ensures e * d == d * e
  {}

  lemma {:induction false} WeightedVanish(lams: seq<int>, xs: seq<int>, ys: seq<int>)
    requires |lams| <= |ys| && ys <= xs
    ensures Weighted(lams, xs, Vanish(ys)) == 0
  {
    if lams != [] {
      var k := |lams| - 1;
      WeightedVanish(lams[..k], xs, ys);
      VanishAt(ys, k);
      assert xs[k] == ys[k];
    }
  }

  lemma NoShares(lams: seq<int>, xs: seq<int>, f: seq<int>, n: int)
    requires 0 < n && lams == [] && f == []
    ensures Congruent(Weighted(lams, xs, f), Eval(f, 0), n)
  {}

  /** Shares of a polynomial of degree below the number of indices recover its
      value at zero. */
  lemma {:induction false} Interpolates(lams: seq<int>, xs: seq<int>, f: seq<int>, n: int)
    requires IsPrime(n) && DistinctMod(xs, n) && |f| <= |xs|
    requires AreCoeffs(lams, xs, n)
    ensures Congruent(Weighted(lams, xs, f), Eval(f, 0), n)
    decreases |xs|
  {
    assert 0 < n && |lams| == |xs|;
    hide *;
    if |xs| == 0 {
      NoShares(lams, xs, f, n);
    } else {
      var lams' := ShorterCoeffs(xs, f, n);
      var a, ys := Last(xs), Front(xs);
      Interpolates(lams', ys, Quotient(f, a), n);
      Interpolates(lams', ys, Quotient(Vanish(ys), a), n);
      InterpolateStep(lams, lams', xs, f, n);
    }
  }

  /** The indices without the last one meet the conditions for both quotients. */
  lemma ShorterCoeffs(xs: seq<int>, f: seq<int>, n: int) returns (lams': seq<int>)
    requires IsPrime(n) && DistinctMod(xs, n) && |f| <= |xs| && |xs| > 0
    ensures DistinctMod(Front(xs), n) && AreCoeffs(lams', Front(xs), n) && |lams'| == |xs| - 1
    ensures |Quotient(f, Last(xs))| <= |Front(xs)|
    ensures |Quotient(Vanish(Front(xs)), Last(xs))| <= |Front(xs)|
  {
    PrefixDistinct(xs, n);
    lams' := CoeffsExist(Front(xs), n);
  }

  /** From the indices without the last one to all of them. */
  lemma InterpolateStep(lams: seq<int>, lams': seq<int>, xs: seq<int>, f: seq<int>, n: int)
    requires IsPrime(n) && DistinctMod(xs, n) && |xs| > 0
    requires AreCoeffs(lams, xs, n) && AreCoeffs(lams', Front(xs), n)
    requires var a, ys := Last(xs), Front(xs);
      && Congruent(Weighted(lams', ys, Quotient(f, a)), Eval(Quotient(f, a), 0), n)
      && Congruent(Weighted(lams', ys, Quotient(Vanish(ys), a)), Eval(Quotient(Vanish(ys), a), 0), n)
    ensures Congruent(Weighted(lams, xs, f), Eval(f, 0), n)
  {
    assert 0 < n && |lams| == |xs| && |lams'| == |xs| - 1;
    hide IsPrime, Zero, Congruent, SplitsAs, DividesAtZero, Weighted, Eval, Vanish, Sum, Quotient;
    SumOfCoeffs(lams, lams', xs, n);
    var a, ys := Last(xs), Front(xs);
    var q := Quotient(f, a);
    SplitWhole(lams, lams', xs, f, n);
    QuotientAtZero(f, a);
    ConcludeNumbers(Weighted(lams, xs, f), Eval(f, a), Sum(lams), a, Weighted(lams', ys, q), Eval(q, 0), Eval(f, 0), n);
  }

  lemma ConcludeNumbers(w: int, fa: int, v: int, a: int, u: int, e: int, f0: int, n: int)
    requires 0 < n && DividesAtZero(f0, fa, a, e) && SplitsAs(w, fa, v, a, u, n)
    requires Congruent(v, 1, n) && Congruent(u, e, n)
    ensures Congruent(w, f0, n)
  {
    hide Zero;
    ConcludeIdentity(w, fa, v, a, u, e);
    Combine3(1, w - fa * v + a * u, fa, v - 1, -a, u - e, n);
  }

  lemma ConcludeIdentity(w: int, fa: int, v: int, a: int, u: int, e: int)
    ensures w - (fa + (0 - a) * e) == 1 * (w - fa * v + a * u) + fa * (v - 1) + -a * (u - e)
  {}

  /** On the polynomial that vanishes at every index but the last, the
      weighted sum is its last term, and that term is the value at zero. */
  lemma TestPolynomial(lams: seq<int>, xs: seq<int>, n: int)
    requires IsPrime(n) && DistinctMod(xs, n) && |xs| > 0 && AreCoeffs(lams, xs, n)
    ensures var z := |xs| - 1; var f := Vanish(xs[..z]);
      && Congruent(Weighted(lams, xs, f), Eval(f, 0), n)
      && !Zero(Eval(f, xs[z]), n)
  {
    assert 0 < n;
    hide IsPrime, Zero;
    var z := |xs| - 1;
    var a, ys := xs[z], xs[..z];
    forall t | 0 <= t < z ensures ys[t] != a {
      SameIndex(xs, t, z, n);
    }
    VanishElsewhere(ys, a);
    WeightedVanish(lams[..z], xs, ys);
    DistinctDen(xs, z, n);
    assert IsCoeff(lams[z], a, xs, n);
    assert Den(a, xs) == Den(a, ys) && Num(a, xs) == Num(a, ys);
  }

  /** The coefficients sum to one, given that the shorter list of indices
      interpolates the quotient of the test polynomial. */
  lemma SumOfCoeffs(lams: seq<int>, lams': seq<int>, xs: seq<int>, n: int)
    requires IsPrime(n) && DistinctMod(xs, n) && |xs| > 0
    requires AreCoeffs(lams, xs, n) && AreCoeffs(lams', Front(xs), n)
    requires var ys := Front(xs); var q := Quotient(Vanish(ys), Last(xs));
      Congruent(Weighted(lams', ys, q), Eval(q, 0), n)
    ensures Congruent(Sum(lams), 1, n)
  {
    assert 0 < n && |lams| == |xs| && |lams'| == |xs| - 1;
    hide IsPrime, Zero, Congruent, SplitsAs, DividesAtZero, Weighted, Eval, Vanish, Sum;
    var a, ys := Last(xs), Front(xs);
    var f := Vanish(ys);
    var q := Quotient(f, a);
    TestPolynomial(lams, xs, n);
    SplitWhole(lams, lams', xs, f, n);
    QuotientAtZero(f, a);
    UnitSum(Weighted(lams, xs, f), Eval(f, a), Sum(lams), a, Weighted(lams', ys, q), Eval(q, 0), Eval(f, 0), n);
  }

  lemma UnitSum(w: int, d: int, v: int, a: int, u: int, e: int, f0: int, n: int)
    requires IsPrime(n) && !Zero(d, n) && DividesAtZero(f0, d, a, e)
    requires Congruent(w, f0, n) && SplitsAs(w, d, v, a, u, n) && Congruent(u, e, n)
    ensures Congruent(v, 1, n)
  {
    UnitSumIdentity(w, d, v, a, u, e, f0);
    Combine3(1, w - f0, -1, w - d * v + a * u, a, u - e, n);
    Cancel(d, v - 1, n);
  }

  lemma UnitSumIdentity(w: int, d: int, v: int, a: int, u: int, e: int, f0: int)
    requires f0 == d + (0 - a) * e
    ensures d * (v - 1) == 1 * (w - f0) + -1 * (w - d * v + a * u) + a * (u - e)
  {
    assert a * (u - e) == a * u - a * e;
    assert (0 - a) * e == -(a * e);
  }
}
