/** The client side of the threshold OPRF over Grumpkin: checking each node's
    proof, combining the partial evaluations and unblinding. */
module Threshold {
  import opened PrimeField
  import opened PrimeGroup
  import opened Lagrange
  import opened Wrappers

  datatype Dleq = Dleq(c: int, z: int)
  datatype Partial<P> = Partial(i: int, share: P, dleq: Dleq, nodeKey: P)

  // ----- combining partials -----------------------------------------------------------------

  datatype CombineError = DuplicateIndex | NoPartials | BadDenominator | BadScalar

  function Indices<P>(partials: seq<Partial<P>>): seq<int> {
    seq(|partials|, t requires 0 <= t < |partials| => partials[t].i)
  }

  function Shares<P>(partials: seq<Partial<P>>): seq<P> {
    seq(|partials|, t requires 0 <= t < |partials| => partials[t].share)
  }

  /** The sum of lam_t P_t, added from the left. */
  ghost function LinearCombination<P>(g: Group<P>, lams: seq<int>, points: seq<P>): P
    requires 0 < |lams| <= |points|
  {
    var k := |lams| - 1;
    var term := g.mul(lams[k], points[k]);
    if k == 0 then term else g.add(LinearCombination(g, lams[..k], points), term)
  }

  /** When the combination exists: the indices differ modulo the order and,
      unless there is only one, none of them is zero. */
  ghost predicate Combinable(xs: seq<int>, n: int)
    requires 0 < n
  {
    && |xs| > 0
    && DistinctMod(xs, n)
    && (|xs| > 1 ==> forall t :: 0 <= t < |xs| ==> !Zero(xs[t], n))
  }

  /** Every index has an invertible denominator and a nonzero numerator. */
  ghost predicate UsableUpTo(xs: seq<int>, k: int, n: int)
    requires 0 < n && k <= |xs|
  {
    forall t :: 0 <= t < k ==> !Zero(Den(xs[t], xs), n) && !Zero(Num(xs[t], xs), n)
  }

  lemma CombinableIsUsable(xs: seq<int>, n: int)
    requires IsPrime(n) && Combinable(xs, n)
    ensures UsableUpTo(xs, |xs|, n)
  {
    forall t | 0 <= t < |xs| ensures !Zero(Den(xs[t], xs), n) && !Zero(Num(xs[t], xs), n) {
      DistinctDen(xs, t, n);
      NumZero(xs[t], xs, n);
    }
  }

  lemma UsableIsCombinable(xs: seq<int>, n: int)
    requires IsPrime(n) && |xs| > 0 && UsableUpTo(xs, |xs|, n)
    requires forall s, t :: 0 <= s < t < |xs| ==> xs[s] != xs[t]
    ensures Combinable(xs, n)
  {
    forall s, t | 0 <= s < t < |xs| ensures !Zero(xs[s] - xs[t], n) {
      DenZero(xs[s], xs, n);
    }
    if |xs| > 1 {
      forall t | 0 <= t < |xs| ensures !Zero(xs[t], n) {
        var s := if t == 0 then 1 else 0;
        NumZero(xs[s], xs, n);
      }
    }
  }

  lemma {:induction false} DistinctCount(xs: seq<int>)
    ensures |set x | x in xs| == |xs| <==> forall s, t :: 0 <= s < t < |xs| ==> xs[s] != xs[t]
    ensures |set x | x in xs| <= |xs|
  {
    if xs != [] {
      var k := |xs| - 1;
      DistinctCount(xs[..k]);
      var all, front := set x | x in xs, set x | x in xs[..k];
      assert all == front + {xs[k]} by {
        assert xs == xs[..k] + [xs[k]];
      }
      if xs[k] in front {
        assert all == front;
      } else {
        assert |all| == |front| + 1;
      }
    }
  }

  lemma CoeffSign(lam: int, d: int, m: int, n: int)
    requires IsPrime(n) && 0 <= lam < n && Zero(lam * d - m, n) && !Zero(d, n)
    ensures lam == 0 <==> Zero(m, n)
  {
    ZeroShift(lam * d, m, n);
    if Zero(m, n) {
      Euclid(lam, d, n);
      Canonical(lam, 0, n);
    }
  }

  /** One term of the combination. */
  method Term<P(!new)>(g: Group<P>, i: int, share: P, indices: seq<int>)
    returns (r: Result<P, CombineError>, ghost lam: int)
    requires IsGroup(g)
    ensures r.Ok? <==> !Zero(Den(i, indices), g.order) && !Zero(Num(i, indices), g.order)
    ensures r.Ok? ==> IsCoeff(lam, i, indices, g.order) && r.value == g.mul(lam, share)
    ensures r == Err(BadDenominator) <==> Zero(Den(i, indices), g.order)
    ensures r.Err? ==> r.error == BadDenominator || r.error == BadScalar
  {
    lam := 0;
    var c := LagrangeCoeff(i, indices, g.order);
    if c.Err? {
      return Err(BadDenominator), lam;
    }
    lam := c.value;
    CoeffSign(lam, Den(i, indices), Num(i, indices), g.order);
    var term := Multiply(g, share, c.value);
    r := if term.Ok? then Ok(term.value) else Err(BadScalar);
  }

  lemma DistinctNecessary(xs: seq<int>, n: int)
    requires 0 < n && |set x | x in xs| != |xs|
    ensures !Combinable(xs, n)
  {
    DistinctCount(xs);
    var s, t :| 0 <= s < t < |xs| && xs[s] == xs[t];
    if DistinctMod(xs, n) {
      SameIndex(xs, s, t, n);
    }
  }

  /** The coefficients computed so far. */
  ghost predicate CoeffsUpTo(lams: seq<int>, xs: seq<int>, n: int)
    requires 0 < n
  {
    |lams| <= |xs| && forall t :: 0 <= t < |lams| ==> IsCoeff(lams[t], xs[t], xs, n)
  }

  lemma UsableNext(xs: seq<int>, k: nat, n: int)
    requires 0 < n && k < |xs| && UsableUpTo(xs, k, n)
    requires !Zero(Den(xs[k], xs), n) && !Zero(Num(xs[k], xs), n)
    ensures UsableUpTo(xs, k + 1, n)
  {}

  lemma CoeffsNext(lams: seq<int>, lam: int, xs: seq<int>, n: int)
    requires 0 < n && CoeffsUpTo(lams, xs, n) && |lams| < |xs| && IsCoeff(lam, xs[|lams|], xs, n)
    ensures CoeffsUpTo(lams + [lam], xs, n)
  {}

  /** The loop of combineThreshold. */
  method AddTerms<P(!new)>(g: Group<P>, partials: seq<Partial<P>>)
    returns (r: Result<P, CombineError>, ghost lams: seq<int>)
    requires IsGroup(g) && |partials| > 0
    ensures r.Ok? <==> UsableUpTo(Indices(partials), |partials|, g.order)
    ensures r.Ok? ==>
      && AreCoeffs(lams, Indices(partials), g.order)
      && r.value == LinearCombination(g, lams, Shares(partials))
    ensures r.Err? ==> r.error == BadDenominator || r.error == BadScalar
  {
    lams := [];
    var indices := Indices(partials);
    assert 0 < g.order;
    hide IsPrime, Zero, IsGroup, IsCoeff, Den, Num, LinearCombination;
    var y: P := g.base;
    for k := 0 to |partials|
      invariant |lams| == k && UsableUpTo(indices, k, g.order) && CoeffsUpTo(lams, indices, g.order)
      invariant k > 0 ==> y == LinearCombination(g, lams, Shares(partials))
    {
      var term, lam := Term(g, partials[k].i, partials[k].share, indices);
      assert indices[k] == partials[k].i && Shares(partials)[k] == partials[k].share;
      if term.Err? {
        return Err(term.error), lams;
      }
      LastTerm(g, lams, lam, Shares(partials));
      UsableNext(indices, k, g.order);
      CoeffsNext(lams, lam, indices, g.order);
      lams := lams + [lam];
      y := if k == 0 then term.value else g.add(y, term.value);
    }
    r := Ok(y);
  }

  lemma UsableIffCombinable(xs: seq<int>, n: int)
    requires IsPrime(n) && |xs| > 0 && |set x | x in xs| == |xs|
    ensures UsableUpTo(xs, |xs|, n) <==> Combinable(xs, n)
  {
    DistinctCount(xs);
    if Combinable(xs, n) {
      CombinableIsUsable(xs, n);
    } else if UsableUpTo(xs, |xs|, n) {
      UsableIsCombinable(xs, n);
    }
  }

  /** combineThreshold. It succeeds exactly on combinable indices, and then
      returns the combination with the Lagrange coefficients. */
  method CombineThreshold<P(!new)>(g: Group<P>, partials: seq<Partial<P>>)
    returns (r: Result<P, CombineError>, ghost lams: seq<int>)
    requires IsGroup(g)
    ensures r.Ok? <==> Combinable(Indices(partials), g.order)
    ensures r.Ok? ==>
      && AreCoeffs(lams, Indices(partials), g.order)
      && r.value == LinearCombination(g, lams, Shares(partials))
    ensures r == Err(DuplicateIndex) <==> exists s, t :: 0 <= s < t < |partials| && partials[s].i == partials[t].i
    ensures r == Err(NoPartials) <==> |partials| == 0
  {
    var indices := Indices(partials);
    DistinctCount(indices);
    assert forall t :: 0 <= t < |partials| ==> indices[t] == partials[t].i;
    if |set x | x in indices| != |indices| {
      ghost var s, t :| 0 <= s < t < |indices| && indices[s] == indices[t];
      assert partials[s].i == partials[t].i;
      DistinctNecessary(indices, g.order);
      return Err(DuplicateIndex), [];
    }
    if |partials| == 0 {
      return Err(NoPartials), [];
    }
    UsableIffCombinable(indices, g.order);
    r, lams := AddTerms(g, partials);
  }

  lemma LastTerm<P>(g: Group<P>, lams: seq<int>, lam: int, points: seq<P>)
    requires |lams| < |points|
    ensures var term := g.mul(lam, points[|lams|]);
      LinearCombination(g, lams + [lam], points)
        == if |lams| == 0 then term else g.add(LinearCombination(g, lams, points), term)
  {
    assert (lams + [lam])[..|lams|] == lams;
  }

  /** The points are k_t times one point m, with k_t congruent to f(i_t). */
  ghost predicate ShareOf<P>(g: Group<P>, f: seq<int>, i: int, share: P, m: P) {
    share == g.mul(Eval(f, i), m)
  }

  lemma {:induction false} CombinationOfMultiples<P(!new)>(g: Group<P>, lams: seq<int>, xs: seq<int>, points: seq<P>,
                                                           f: seq<int>, m: P)
    requires IsGroup(g) && 0 < |lams| <= |points| && |points| == |xs|
    requires forall t :: 0 <= t < |xs| ==> ShareOf(g, f, xs[t], points[t], m)
    ensures LinearCombination(g, lams, points) == g.mul(Weighted(lams, xs, f), m)
  {
    var k := |lams| - 1;
    var e := Eval(f, xs[k]);
    assert ShareOf(g, f, xs[k], points[k], m);
    assert ActsTwice(g, lams[k], e, m);
    if k > 0 {
      CombinationOfMultiples(g, lams[..k], xs, points, f, m);
      assert SumActs(g, Weighted(lams[..k], xs, f), lams[k] * e, m);
    } else {
      assert lams[..0] == [];
      assert Weighted(lams, xs, f) == Weighted(lams[..0], xs, f) + lams[0] * e;
    }
  }

  /** Threshold reconstruction: with at least as many responders as f has
      coefficients, the combination of the shares f(i) M is f(0) M. */
  lemma ReconstructsSecret<P(!new)>(g: Group<P>, lams: seq<int>, xs: seq<int>, points: seq<P>, f: seq<int>, m: P)
    requires IsGroup(g) && Combinable(xs, g.order) && AreCoeffs(lams, xs, g.order)
    requires |points| == |xs| && |f| <= |xs|
    requires forall t :: 0 <= t < |xs| ==> ShareOf(g, f, xs[t], points[t], m)
    ensures LinearCombination(g, lams, points) == g.mul(Eval(f, 0), m)
  {
    CombinationOfMultiples(g, lams, xs, points, f, m);
    Interpolates(lams, xs, f, g.order);
    CongruentScalars(g, Weighted(lams, xs, f), Eval(f, 0), m);
  }

  /** Any two large enough quorums reconstruct the same point. */
  lemma QuorumsAgree<P(!new)>(g: Group<P>, lams: seq<int>, xs: seq<int>, points: seq<P>,
                              lams': seq<int>, xs': seq<int>, points': seq<P>, f: seq<int>, m: P)
    requires IsGroup(g) && |points| == |xs| && |points'| == |xs'| && |f| <= |xs| && |f| <= |xs'|
    requires Combinable(xs, g.order) && AreCoeffs(lams, xs, g.order)
    requires Combinable(xs', g.order) && AreCoeffs(lams', xs', g.order)
    requires forall t :: 0 <= t < |xs| ==> ShareOf(g, f, xs[t], points[t], m)
    requires forall t :: 0 <= t < |xs'| ==> ShareOf(g, f, xs'[t], points'[t], m)
    ensures LinearCombination(g, lams, points) == LinearCombination(g, lams', points')
  {
    ReconstructsSecret(g, lams, xs, points, f, m);
    ReconstructsSecret(g, lams', xs', points', f, m);
  }

  // ----- the per-share proof of equal discrete logarithms --------------------------------------

  /** What the proof check depends on: the base-field modulus, the affine
      coordinates and the Pedersen hash of a list of field elements. */
  datatype Suite<!P> = Suite(g: Group<P>, p: nat, affine: P -> (int, int), hash: seq<int> -> int)

  function Coordinates<P>(s: Suite<P>, points: seq<P>): (r: seq<int>)
    ensures |r| == 2 * |points|
  {
    if points == [] then []
    else [s.affine(points[0]).0, s.affine(points[0]).1] + Coordinates(s, points[1..])
  }

  /** The 13 hashed fields, the epoch last. */
  function Transcript<P>(s: Suite<P>, key: P, m: P, share: P, a1: P, a2: P, epoch: int): seq<int> {
    Coordinates(s, [s.g.base, key, m, share, a1, a2]) + [epoch]
  }

  lemma {:induction false} CoordinatesAt<P>(s: Suite<P>, points: seq<P>, j: nat)
    requires j < |points|
    ensures Coordinates(s, points)[2 * j] == s.affine(points[j]).0
    ensures Coordinates(s, points)[2 * j + 1] == s.affine(points[j]).1
  {
    if j > 0 {
      CoordinatesAt(s, points[1..], j - 1);
    }
  }

  /** Which coordinate each hashed field is. */
  lemma TranscriptLayout<P>(s: Suite<P>, key: P, m: P, share: P, a1: P, a2: P, epoch: int)
    ensures var t := Transcript(s, key, m, share, a1, a2, epoch);
      && |t| == 13 && t[12] == epoch
      && t[0] == s.affine(s.g.base).0 && t[1] == s.affine(s.g.base).1
      && t[2] == s.affine(key).0 && t[3] == s.affine(key).1
      && t[4] == s.affine(m).0 && t[5] == s.affine(m).1
      && t[6] == s.affine(share).0 && t[7] == s.affine(share).1
      && t[8] == s.affine(a1).0 && t[9] == s.affine(a1).1
      && t[10] == s.affine(a2).0 && t[11] == s.affine(a2).1
  {
    var points := [s.g.base, key, m, share, a1, a2];
    CoordinatesAt(s, points, 0);
    CoordinatesAt(s, points, 1);
    CoordinatesAt(s, points, 2);
    CoordinatesAt(s, points, 3);
    CoordinatesAt(s, points, 4);
    CoordinatesAt(s, points, 5);
    hide Coordinates;
  }

  /** a1 = z G - c K and a2 = z M - c B; zero scalars are rejected by the library. */
  function Commitments<P>(s: Suite<P>, key: P, m: P, share: P, d: Dleq): Result<(P, P), CurveError>
    requires 0 < s.g.order
  {
    var g := s.g;
    var z, c := d.z % g.order, d.c % g.order;
    match (Multiply(g, g.base, z), Multiply(g, key, c), Multiply(g, m, z), Multiply(g, share, c))
    case (Ok(zg), Ok(ck), Ok(zm), Ok(cb)) => Ok((g.add(zg, g.neg(ck)), g.add(zm, g.neg(cb))))
    case _ => Err(InvalidScalar)
  }

  /** verifyPartialDleq. */
  function VerifyPartialDleq<P>(s: Suite<P>, key: P, m: P, share: P, epoch: int, d: Dleq): Result<bool, CurveError>
    requires 0 < s.g.order && 0 < s.p
  {
    match Commitments(s, key, m, share, d)
    case Err(e) => Err(e)
    case Ok((a1, a2)) => Ok(s.hash(Transcript(s, key, m, share, a1, a2, epoch)) % s.p == d.c % s.p)
  }

  /** The verdict on every proof, written out: which points are combined, and which
      13 numbers are hashed. */
  lemma VerdictIs<P>(s: Suite<P>, key: P, m: P, share: P, epoch: int, d: Dleq)
    requires 0 < s.g.order && 0 < s.p
    ensures var g := s.g; var z, c := d.z % g.order, d.c % g.order;
      var a1 := g.add(g.mul(z, g.base), g.neg(g.mul(c, key)));
      var a2 := g.add(g.mul(z, m), g.neg(g.mul(c, share)));
      VerifyPartialDleq(s, key, m, share, epoch, d)
        == if z == 0 || c == 0 then Err(InvalidScalar)
           else Ok(s.hash([s.affine(g.base).0, s.affine(g.base).1, s.affine(key).0, s.affine(key).1,
                           s.affine(m).0, s.affine(m).1, s.affine(share).0, s.affine(share).1,
                           s.affine(a1).0, s.affine(a1).1, s.affine(a2).0, s.affine(a2).1, epoch]) % s.p
                   == d.c % s.p)
  {
    var g := s.g;
    var z, c := d.z % g.order, d.c % g.order;
    if z != 0 && c != 0 {
      var a1 := g.add(g.mul(z, g.base), g.neg(g.mul(c, key)));
      var a2 := g.add(g.mul(z, m), g.neg(g.mul(c, share)));
      TranscriptLayout(s, key, m, share, a1, a2, epoch);
      hide Transcript;
      assert Transcript(s, key, m, share, a1, a2, epoch)
          == [s.affine(g.base).0, s.affine(g.base).1, s.affine(key).0, s.affine(key).1,
              s.affine(m).0, s.affine(m).1, s.affine(share).0, s.affine(share).1,
              s.affine(a1).0, s.affine(a1).1, s.affine(a2).0, s.affine(a2).1, epoch];
    }
  }

  /** The node's side of the epoch-bound proof with the nonce t. */
  function ProvePartial<P>(s: Suite<P>, k: int, key: P, m: P, share: P, epoch: int, t: int): Dleq
    requires 0 < s.g.order && 0 < s.p
  {
    var g := s.g;
    var a1, a2 := g.mul(t, g.base), g.mul(t, m);
    var c := s.hash(Transcript(s, key, m, share, a1, a2, epoch)) % s.p;
    Dleq(c, (t + c * k) % g.order)
  }

  lemma HonestCommitments<P(!new)>(s: Suite<P>, k: int, m: P, c: int, t: int)
    requires IsGroup(s.g)
    ensures var g := s.g; var z := (t + c * k) % g.order;
      Commitments(s, g.mul(k, g.base), m, g.mul(k, m), Dleq(c, z))
        == if Zero(c, g.order) || Zero(z, g.order) then Err(InvalidScalar)
           else Ok((g.mul(t, g.base), g.mul(t, m)))
  {
    HonestCommitment(s.g, k, c, t, s.g.base);
    HonestCommitment(s.g, k, c, t, m);
  }

  /** An honest partial is accepted unless the challenge or the response is a
      multiple of the group order, in which case the library throws. */
  lemma HonestPartialAccepted<P(!new)>(s: Suite<P>, k: int, m: P, epoch: int, t: int)
    requires IsGroup(s.g) && 0 < s.p
    ensures var key, share := s.g.mul(k, s.g.base), s.g.mul(k, m);
      var d := ProvePartial(s, k, key, m, share, epoch, t);
      VerifyPartialDleq(s, key, m, share, epoch, d)
        == (if Zero(d.c, s.g.order) || Zero(d.z, s.g.order) then Err(InvalidScalar) else Ok(true))
      && 0 <= d.c < s.p
  {
    var d := ProvePartial(s, k, s.g.mul(k, s.g.base), m, s.g.mul(k, m), epoch, t);
    HonestCommitments(s, k, m, d.c, t);
    ReducedTwice(s.hash(Transcript(s, s.g.mul(k, s.g.base), m, s.g.mul(k, m),
                                   s.g.mul(t, s.g.base), s.g.mul(t, m), epoch)), s.p);
  }

  lemma ReducedTwice(x: int, p: int)
    requires 0 < p
    ensures x % p % p == x % p
  {}

  /** z X - c (k X) = t X for z = t + c k. */
  lemma HonestCommitment<P(!new)>(g: Group<P>, k: int, c: int, t: int, x: P)
    requires IsGroup(g)
    ensures var z := ((t + c * k) % g.order) % g.order;
      g.add(g.mul(z, x), g.neg(g.mul(c % g.order, g.mul(k, x)))) == g.mul(t, x)
  {
    assert ReducedActs(g, (t + c * k) % g.order, x) && ReducedActs(g, t + c * k, x);
    assert ReducedActs(g, c, g.mul(k, x)) && ActsTwice(g, c, k, x);
    SubScalars(g, t + c * k, c * k, x);
  }

  /** Two answers to different challenges for the same commitments determine
      one scalar that is the logarithm of both the key and the share. */
  lemma TwoAnswersExtract<P(!new)>(s: Suite<P>, key: P, m: P, share: P, d: Dleq, d': Dleq)
    returns (k: int)
    requires IsGroup(s.g)
    requires Commitments(s, key, m, share, d).Ok?
    requires Commitments(s, key, m, share, d) == Commitments(s, key, m, share, d')
    requires !Zero(d.c - d'.c, s.g.order)
    ensures key == s.g.mul(k, s.g.base) && share == s.g.mul(k, m)
  {
    var g := s.g;
    var n := g.order;
    var z, c, z', c' := d.z % n, d.c % n, d'.z % n, d'.c % n;
    ResidueDifference(d.c, d'.c, n);
    var i := Inv(c - c', n);
    k := i * (z - z');
    ExtractLogarithm(g, g.base, key, z, c, z', c', i);
    ExtractLogarithm(g, m, share, z, c, z', c', i);
  }

  lemma ResidueDifference(a: int, b: int, n: int)
    requires 0 < n && !Zero(a - b, n)
    ensures !Zero(a % n - b % n, n)
  {
    if Zero(a % n - b % n, n) {
      Canonical(a % n, b % n, n);
      ResidueZero(a, b, n);
    }
  }

  // ----- what an accepted proof says -----------------------------------------------------------

  /** The share is k times m for the secret k of the key. */
  ghost predicate IsShare<P>(s: Suite<P>, key: P, m: P, share: P) {
    exists k: int :: key == s.g.mul(k, s.g.base) && share == s.g.mul(k, m)
  }

  /** The challenge that the check hashes at the commitments of d. */
  function HashedChallenge<P>(s: Suite<P>, key: P, m: P, share: P, epoch: int, d: Dleq): (c: int)
    requires 0 < s.g.order && 0 < s.p && Commitments(s, key, m, share, d).Ok?
    ensures 0 <= c < s.p
  {
    var a := Commitments(s, key, m, share, d).value;
    s.hash(Transcript(s, key, m, share, a.0, a.1, epoch)) % s.p
  }

  predicate Accepts<P>(s: Suite<P>, key: P, m: P, share: P, epoch: int, d: Dleq)
    requires 0 < s.g.order && 0 < s.p
  {
    VerifyPartialDleq(s, key, m, share, epoch, d) == Ok(true)
  }

  /** The test that the check leaves out: the challenge is a reduced field element. */
  predicate ChallengeInRange<P>(s: Suite<P>, d: Dleq) { 0 <= d.c < s.p }

  lemma DistinctPrimes(n: int, p: int)
    requires IsPrime(n) && IsPrime(p) && n != p
    ensures !Zero(n, p)
  {}

  lemma CommitmentsOfResidues<P>(s: Suite<P>, key: P, m: P, share: P, epoch: int, d: Dleq, d': Dleq)
    requires 0 < s.g.order && 0 < s.p && Commitments(s, key, m, share, d').Ok?
    requires d.z == d'.z && Zero(d.c - d'.c, s.g.order)
    ensures Commitments(s, key, m, share, d) == Commitments(s, key, m, share, d')
    ensures HashedChallenge(s, key, m, share, epoch, d) == HashedChallenge(s, key, m, share, epoch, d')
  {
    SameResidue(d.c, d'.c, s.g.order);
    hide Transcript;
  }

  lemma NonzeroScalarsCommit<P>(s: Suite<P>, key: P, m: P, share: P, d: Dleq)
    requires 0 < s.g.order && !Zero(d.z, s.g.order) && !Zero(d.c, s.g.order)
    ensures Commitments(s, key, m, share, d).Ok?
  {}

  /** One number with given residues modulo n and p. */
  lemma Remainders(c: int, h: int, n: int, p: int) returns (x: int)
    requires 1 < n && IsPrime(p) && !Zero(n, p)
    ensures Zero(x - c, n) && Zero(x - h, p)
  {
    var i := Inv(n, p);
    x := c + n * ((h - c) * i);
    MultipleZero((h - c) * i, n);
    assert x - c == (h - c) * i * n;
    ScaleZero(h - c, n * i - 1, p);
    assert x - h == (h - c) * (n * i - 1);
  }

  /** Without the test an accepted proof says nothing of the share: the challenge
      that is compared modulo p and the one that multiplies modulo the order are
      independent, so that for every key, m, share and epoch, and for any two
      scalars that the library accepts, a proof with these residues is accepted. */
  lemma AcceptanceBindsNoShare<P>(s: Suite<P>, key: P, m: P, share: P, epoch: int, c: int, z: int) returns (d: Dleq)
    requires IsPrime(s.g.order) && IsPrime(s.p) && s.g.order != s.p
    requires !Zero(c, s.g.order) && !Zero(z, s.g.order)
    ensures Accepts(s, key, m, share, epoch, d)
    ensures d.z == z && Zero(d.c - c, s.g.order)
  {
    NonzeroScalarsCommit(s, key, m, share, Dleq(c, z));
    DistinctPrimes(s.g.order, s.p);
    assert 1 < s.g.order && 1 < s.p;
    hide IsPrime, Zero, Commitments, HashedChallenge, Accepts;
    var h := HashedChallenge(s, key, m, share, epoch, Dleq(c, z));
    var x := Remainders(c, h, s.g.order, s.p);
    d := Dleq(x, z);
    CommitmentsOfResidues(s, key, m, share, epoch, d, Dleq(c, z));
    SameResidue(x, h, s.p);
    BelowModulus(h, s.p);
    AcceptedWhen(s, key, m, share, epoch, d);
  }

  lemma AcceptedWhen<P>(s: Suite<P>, key: P, m: P, share: P, epoch: int, d: Dleq)
    requires 0 < s.g.order && 0 < s.p
    ensures Accepts(s, key, m, share, epoch, d)
       <==> Commitments(s, key, m, share, d).Ok? && HashedChallenge(s, key, m, share, epoch, d) == d.c % s.p
  {
    hide Commitments, Transcript;
  }

  /** The multiplier of an accepted proof is the hashed challenge exactly when the
      quotient of the given challenge by p is a multiple of the order. */
  lemma MultiplierIsHashed<P>(s: Suite<P>, key: P, m: P, share: P, epoch: int, d: Dleq)
    requires IsPrime(s.g.order) && IsPrime(s.p) && s.g.order != s.p
    requires Accepts(s, key, m, share, epoch, d)
    ensures Commitments(s, key, m, share, d).Ok?
    ensures d.c % s.g.order == HashedChallenge(s, key, m, share, epoch, d) % s.g.order
       <==> Zero(d.c / s.p, s.g.order)
  {
    var n, p := s.g.order, s.p;
    var h, q := HashedChallenge(s, key, m, share, epoch, d), d.c / p;
    assert h == d.c % p && d.c - h == p * q;
    DistinctPrimes(p, n);
    hide IsPrime, VerifyPartialDleq, Commitments, HashedChallenge;
    if d.c % n == h % n {
      ResidueZero(d.c, h, n);
      Cancel(p, q, n);
    }
    if Zero(q, n) {
      ScaleZero(p, q, n);
      SameResidue(d.c, h, n);
    }
  }

  /** With the test a proof is accepted exactly when its challenge is the hashed
      one, so that commitments determine the challenge, and the quotient is 0. */
  lemma InRangeAcceptance<P>(s: Suite<P>, key: P, m: P, share: P, epoch: int, d: Dleq)
    requires 0 < s.g.order && 0 < s.p && ChallengeInRange(s, d)
    ensures Accepts(s, key, m, share, epoch, d)
       <==> Commitments(s, key, m, share, d).Ok? && d.c == HashedChallenge(s, key, m, share, epoch, d)
    ensures Zero(d.c / s.p, s.g.order)
  {
    BelowModulus(d.c, s.p);
  }

  lemma OneChallengeOrShare<P(!new)>(s: Suite<P>, key: P, m: P, share: P, d: Dleq, d': Dleq)
    requires IsGroup(s.g)
    requires Commitments(s, key, m, share, d).Ok?
    requires Commitments(s, key, m, share, d) == Commitments(s, key, m, share, d')
    ensures d.c % s.g.order == d'.c % s.g.order || IsShare(s, key, m, share)
  {
    if Zero(d.c - d'.c, s.g.order) {
      SameResidue(d.c, d'.c, s.g.order);
    } else {
      var k := TwoAnswersExtract(s, key, m, share, d, d');
      assert IsShare(s, key, m, share);
    }
  }

  /** With the test, only luck lets a false share pass: for any commitments there
      is at most one residue modulo the order that the hash may take there, over
      all hashes, if some answer is to be accepted. */
  lemma FalseShareNeedsOneChallenge<P(!new)>(s: Suite<P>, s': Suite<P>, key: P, m: P, share: P, epoch: int,
                                             d: Dleq, d': Dleq)
    requires IsGroup(s.g) && 0 < s.p && s' == s.(hash := s'.hash) && !IsShare(s, key, m, share)
    requires ChallengeInRange(s, d) && Accepts(s, key, m, share, epoch, d)
    requires ChallengeInRange(s, d') && Accepts(s', key, m, share, epoch, d')
    requires Commitments(s, key, m, share, d) == Commitments(s, key, m, share, d')
    ensures HashedChallenge(s, key, m, share, epoch, d) % s.g.order
         == HashedChallenge(s', key, m, share, epoch, d') % s.g.order
  {
    InRangeAcceptance(s, key, m, share, epoch, d);
    InRangeAcceptance(s', key, m, share, epoch, d');
    OneChallengeOrShare(s, key, m, share, d, d');
  }

  // ----- blind evaluation and unblinding ----------------------------------------------------------

  /** A partial and a published node key, as texts. */
  datatype WirePartial = WirePartial(i: string, share: string, c: string, z: string, nodeKey: string)
  datatype WireKey = WireKey(i: string, key: string)

  /** What the service sends: an error status, or a body, whose partials may not
      be a list. */
  datatype Answer = HttpError(status: int)
                  | Body(partials: Option<seq<WirePartial>>, epoch: string, published: seq<WireKey>)

  datatype Response<P> = Response(partials: seq<Partial<P>>, epoch: int, keys: seq<P>, y: P)

  datatype FlowError = Http(status: int) | TooFewPartials | BadNumber(text: string) | BadPoint(text: string)
                     | InvalidProof(i: int) | Curve(CurveError) | Combination(CombineError)

  /** BigInt and pointFromHex; None where they throw. */
  datatype Reader<P> = Reader(number: string -> Option<int>, point: string -> Option<P>) {
    function Number(text: string): Result<int, FlowError> {
      match number(text) case Some(n) => Ok(n) case None => Err(BadNumber(text))
    }

    function Point(text: string): Result<P, FlowError> {
      match point(text) case Some(x) => Ok(x) case None => Err(BadPoint(text))
    }

    function Index(k: WireKey): int {
      match number(k.i) case Some(n) => n case None => 0
    }
  }

  /** One partial, its texts in the order in which they are read. */
  function ReadPartial<P>(rd: Reader<P>, w: WirePartial): Result<Partial<P>, FlowError> {
    var i :- rd.Number(w.i);
    var share :- rd.Point(w.share);
    var c :- rd.Number(w.c);
    var z :- rd.Number(w.z);
    var nodeKey :- rd.Point(w.nodeKey);
    Ok(Partial(i, share, Dleq(c, z), nodeKey))
  }

  /** A partial is read exactly when its five texts are, each into its field;
      otherwise the first of them that cannot be read is the error. */
  lemma ReadPartialWhen<P>(rd: Reader<P>, w: WirePartial)
    ensures ReadPartial(rd, w).Ok? <==>
      && rd.number(w.i).Some? && rd.point(w.share).Some? && rd.number(w.c).Some? && rd.number(w.z).Some?
      && rd.point(w.nodeKey).Some?
    ensures ReadPartial(rd, w).Ok? ==>
      var q := ReadPartial(rd, w).value;
      && rd.number(w.i) == Some(q.i) && rd.point(w.share) == Some(q.share)
      && rd.number(w.c) == Some(q.dleq.c) && rd.number(w.z) == Some(q.dleq.z)
      && rd.point(w.nodeKey) == Some(q.nodeKey)
    ensures ReadPartial(rd, w).Err? ==>
      ReadPartial(rd, w).error == (if rd.number(w.i).None? then BadNumber(w.i)
                                   else if rd.point(w.share).None? then BadPoint(w.share)
                                   else if rd.number(w.c).None? then BadNumber(w.c)
                                   else if rd.number(w.z).None? then BadNumber(w.z)
                                   else BadPoint(w.nodeKey))
  {}

  /** All partials, or the first error. */
  function ReadPartials<P>(rd: Reader<P>, wire: seq<WirePartial>): (r: Result<seq<Partial<P>>, FlowError>)
    ensures r.Ok? ==> |r.value| == |wire|
  {
    if wire == [] then Ok([])
    else
      var z := |wire| - 1;
      var front :- ReadPartials(rd, wire[..z]);
      var last :- ReadPartial(rd, wire[z]);
      Ok(front + [last])
  }

  /** The partials are read exactly when each of them is, in place. */
  lemma {:induction false} ReadPartialsAt<P>(rd: Reader<P>, wire: seq<WirePartial>)
    ensures ReadPartials(rd, wire).Ok? <==> forall t :: 0 <= t < |wire| ==> ReadPartial(rd, wire[t]).Ok?
    ensures ReadPartials(rd, wire).Ok? ==>
      forall t :: 0 <= t < |wire| ==> ReadPartial(rd, wire[t]) == Ok(ReadPartials(rd, wire).value[t])
  {
    hide ReadPartial;
    if wire != [] {
      var z := |wire| - 1;
      ReadPartialsAt(rd, wire[..z]);
      assert forall t :: 0 <= t < z ==> wire[..z][t] == wire[t];
    }
  }

  lemma {:induction false} FirstErrorStays<P>(rd: Reader<P>, wire: seq<WirePartial>, t: nat)
    requires t <= |wire| && ReadPartials(rd, wire[..t]).Err?
    ensures ReadPartials(rd, wire) == ReadPartials(rd, wire[..t])
  {
    hide ReadPartial;
    var z := |wire| - 1;
    if t <= z {
      assert wire[..z][..t] == wire[..t];
      FirstErrorStays(rd, wire[..z], t);
    } else {
      assert wire[..t] == wire;
    }
  }

  /** The loop over the partials. */
  method DecodePartials<P>(rd: Reader<P>, wire: seq<WirePartial>) returns (r: Result<seq<Partial<P>>, FlowError>)
    ensures r == ReadPartials(rd, wire)
  {
    var partials: seq<Partial<P>> := [];
    for t := 0 to |wire|
      invariant ReadPartials(rd, wire[..t]) == Ok(partials)
    {
      var partial := ReadPartial(rd, wire[t]);
      assert wire[..t + 1][..t] == wire[..t];
      if partial.Err? {
        assert ReadPartials(rd, wire[..t + 1]) == Err(partial.error);
        FirstErrorStays(rd, wire, t + 1);
        return Err(partial.error);
      }
      partials := partials + [partial.value];
    }
    assert wire[..|wire|] == wire;
    r := Ok(partials);
  }

  /** Every partial carries an accepted proof. */
  ghost predicate AllVerify<P(!new)>(s: Suite<P>, m: P, partials: seq<Partial<P>>, epoch: int)
    requires 0 < s.g.order && 0 < s.p
  {
    forall t :: 0 <= t < |partials| ==>
      VerifyPartialDleq(s, partials[t].nodeKey, m, partials[t].share, epoch, partials[t].dleq) == Ok(true)
  }

  /** The error of a partial without an accepted proof. */
  function Complaint<P>(s: Suite<P>, m: P, q: Partial<P>, epoch: int): FlowError
    requires 0 < s.g.order && 0 < s.p
  {
    match VerifyPartialDleq(s, q.nodeKey, m, q.share, epoch, q.dleq)
    case Err(e) => Curve(e)
    case Ok(_) => InvalidProof(q.i)
  }

  /** Partial t is the first without an accepted proof, and this is its error. */
  ghost predicate FirstBad<P(!new)>(s: Suite<P>, m: P, partials: seq<Partial<P>>, epoch: int, t: nat, error: FlowError)
    requires 0 < s.g.order && 0 < s.p
  {
    && t < |partials| && AllVerify(s, m, partials[..t], epoch)
    && VerifyPartialDleq(s, partials[t].nodeKey, m, partials[t].share, epoch, partials[t].dleq) != Ok(true)
    && error == Complaint(s, m, partials[t], epoch)
  }

  /** The checking loop: the first partial without an accepted proof stops it. */
  method VerifyPartials<P(!new)>(s: Suite<P>, m: P, partials: seq<Partial<P>>, epoch: int)
    returns (error: Option<FlowError>, ghost t: nat)
    requires 0 < s.g.order && 0 < s.p
    ensures error.None? <==> AllVerify(s, m, partials, epoch)
    ensures error.Some? ==> FirstBad(s, m, partials, epoch, t, error.value)
  {
    t := 0;
    for k := 0 to |partials|
      invariant AllVerify(s, m, partials[..k], epoch)
    {
      var q := partials[k];
      var ok := VerifyPartialDleq(s, q.nodeKey, m, q.share, epoch, q.dleq);
      if ok != Ok(true) {
        t := k;
        return Some(if ok.Err? then Curve(ok.error) else InvalidProof(q.i)), t;
      }
    }
    assert partials[..|partials|] == partials;
    error := None;
  }

  // ----- the published keys -------------------------------------------------------------------

  predicate InIndexOrder<P>(rd: Reader<P>, keys: seq<WireKey>) {
    forall s, t :: 0 <= s < t < |keys| ==> rd.Index(keys[s]) <= rd.Index(keys[t])
  }

  /** k in its place behind the keys with the same index. */
  function Placed<P>(rd: Reader<P>, keys: seq<WireKey>, k: WireKey): (r: seq<WireKey>)
    ensures |r| == |keys| + 1
  {
    var z := |keys| - 1;
    if z < 0 || rd.Index(keys[z]) <= rd.Index(k) then keys + [k] else Placed(rd, keys[..z], k) + [keys[z]]
  }

  lemma {:induction false} PlacedHolds<P>(rd: Reader<P>, keys: seq<WireKey>, k: WireKey)
    ensures multiset(Placed(rd, keys, k)) == multiset(keys) + multiset{k}
    ensures forall x :: x in Placed(rd, keys, k) ==> x in keys || x == k
  {
    var z := |keys| - 1;
    if !(z < 0 || rd.Index(keys[z]) <= rd.Index(k)) {
      PlacedHolds(rd, keys[..z], k);
      assert keys == keys[..z] + [keys[z]];
    }
  }

  lemma {:induction false} PlacedInOrder<P>(rd: Reader<P>, keys: seq<WireKey>, k: WireKey)
    requires InIndexOrder(rd, keys)
    ensures InIndexOrder(rd, Placed(rd, keys, k))
  {
    var z := |keys| - 1;
    if !(z < 0 || rd.Index(keys[z]) <= rd.Index(k)) {
      PlacedInOrder(rd, keys[..z], k);
      PlacedHolds(rd, keys[..z], k);
      var front := Placed(rd, keys[..z], k);
      hide Placed;
      forall t | 0 <= t < |front| ensures rd.Index(front[t]) <= rd.Index(keys[z]) {
        assert front[t] in front;
      }
    }
  }

  /** The published keys by ascending index. */
  function Sorted<P>(rd: Reader<P>, keys: seq<WireKey>): (r: seq<WireKey>)
    ensures InIndexOrder(rd, r) && multiset(r) == multiset(keys) && |r| == |keys|
  {
    if keys == [] then []
    else
      var z := |keys| - 1;
      assert keys == keys[..z] + [keys[z]];
      PlacedHolds(rd, Sorted(rd, keys[..z]), keys[z]);
      PlacedInOrder(rd, Sorted(rd, keys[..z]), keys[z]);
      Placed(rd, Sorted(rd, keys[..z]), keys[z])
  }

  /** Readable indices ascend. */
  lemma SortedAscends<P>(rd: Reader<P>, keys: seq<WireKey>, a: nat, b: nat)
    requires a < b < |keys| && forall t :: 0 <= t < |keys| ==> rd.number(keys[t].i).Some?
    ensures rd.number(Sorted(rd, keys)[a].i).Some? && rd.number(Sorted(rd, keys)[b].i).Some?
    ensures rd.number(Sorted(rd, keys)[a].i).value <= rd.number(Sorted(rd, keys)[b].i).value
  {
    var r := Sorted(rd, keys);
    hide Sorted;
    assert r[a] in multiset(r) && r[b] in multiset(r);
    assert r[a] in keys && r[b] in keys;
    assert rd.Index(r[a]) <= rd.Index(r[b]);
  }

  /** The keys with one index, in their order. */
  function WithIndex<P>(rd: Reader<P>, keys: seq<WireKey>, i: int): seq<WireKey> {
    if keys == [] then []
    else
      var z := |keys| - 1;
      WithIndex(rd, keys[..z], i) + if rd.Index(keys[z]) == i then [keys[z]] else []
  }

  lemma {:induction false} NoneWithIndex<P>(rd: Reader<P>, keys: seq<WireKey>, i: int)
    requires forall t :: 0 <= t < |keys| ==> rd.Index(keys[t]) != i
    ensures WithIndex(rd, keys, i) == []
  {
    if keys != [] {
      NoneWithIndex(rd, keys[..|keys| - 1], i);
    }
  }

  lemma {:induction false} PlacedIsStable<P>(rd: Reader<P>, keys: seq<WireKey>, k: WireKey, i: int)
    requires InIndexOrder(rd, keys)
    ensures WithIndex(rd, Placed(rd, keys, k), i)
         == WithIndex(rd, keys, i) + if rd.Index(k) == i then [k] else []
  {
    var z := |keys| - 1;
    if z < 0 || rd.Index(keys[z]) <= rd.Index(k) {
      assert (keys + [k])[..|keys|] == keys;
    } else {
      PlacedIsStable(rd, keys[..z], k, i);
      var front := Placed(rd, keys[..z], k);
      assert (front + [keys[z]])[..|front|] == front;
    }
  }

  /** The sort is stable, as that of the language is. */
  lemma {:induction false} SortedIsStable<P>(rd: Reader<P>, keys: seq<WireKey>, i: int)
    ensures WithIndex(rd, Sorted(rd, keys), i) == WithIndex(rd, keys, i)
  {
    if keys != [] {
      var z := |keys| - 1;
      SortedIsStable(rd, keys[..z], i);
      PlacedIsStable(rd, Sorted(rd, keys[..z]), keys[z], i);
    }
  }

  /** The comparison reads the indices; a single key is compared with none. */
  predicate Comparable<P>(rd: Reader<P>, keys: seq<WireKey>) {
    |keys| < 2 || forall t :: 0 <= t < |keys| ==> rd.number(keys[t].i).Some?
  }

  predicate KeysDecode<P>(rd: Reader<P>, keys: seq<WireKey>) {
    forall t :: 0 <= t < |keys| ==> rd.point(keys[t].key).Some?
  }

  function DecodedKeys<P>(rd: Reader<P>, keys: seq<WireKey>): (r: seq<P>)
    requires KeysDecode(rd, keys)
    ensures |r| == |keys|
  {
    seq(|keys|, t requires 0 <= t < |keys| => rd.point(keys[t].key).value)
  }

  lemma SortedDecodes<P>(rd: Reader<P>, keys: seq<WireKey>)
    ensures KeysDecode(rd, Sorted(rd, keys)) <==> KeysDecode(rd, keys)
  {
    var r := Sorted(rd, keys);
    assert forall k :: k in keys <==> k in multiset(keys);
    assert forall k :: k in r <==> k in multiset(r);
    assert forall t :: 0 <= t < |keys| ==> keys[t] in r;
    assert forall t :: 0 <= t < |r| ==> r[t] in keys;
  }

  method DecodeKeys<P>(rd: Reader<P>, keys: seq<WireKey>) returns (r: Result<seq<P>, FlowError>)
    ensures r.Ok? <==> KeysDecode(rd, keys)
    ensures r.Ok? ==> r.value == DecodedKeys(rd, keys)
    ensures r.Err? ==> r.error.BadPoint?
  {
    var points: seq<P> := [];
    for t := 0 to |keys|
      invariant KeysDecode(rd, keys[..t]) && points == DecodedKeys(rd, keys[..t])
    {
      var point := rd.point(keys[t].key);
      if point.None? {
        return Err(BadPoint(keys[t].key));
      }
      points := points + [point.value];
      assert keys[..t + 1] == keys[..t] + [keys[t]];
    }
    assert keys[..|keys|] == keys;
    r := Ok(points);
  }

  /** The published keys, sorted and decoded; the sort reads their indices. */
  method SortedKeys<P>(rd: Reader<P>, keys: seq<WireKey>) returns (r: Result<seq<P>, FlowError>)
    ensures r.Ok? <==>
      && (|keys| < 2 || forall t :: 0 <= t < |keys| ==> rd.number(keys[t].i).Some?)
      && (forall t :: 0 <= t < |keys| ==> rd.point(keys[t].key).Some?)
    ensures r.Ok? ==> KeysDecode(rd, Sorted(rd, keys)) && r.value == DecodedKeys(rd, Sorted(rd, keys))
    ensures r.Ok? ==>
      && |r.value| == |keys|
      && forall t :: 0 <= t < |keys| ==> rd.point(Sorted(rd, keys)[t].key) == Some(r.value[t])
    ensures r.Err? ==> if Comparable(rd, keys) then r.error.BadPoint? else r.error.BadNumber?
  {
    if !Comparable(rd, keys) {
      var t :| 0 <= t < |keys| && rd.number(keys[t].i).None?;
      return Err(BadNumber(keys[t].i));
    }
    SortedDecodes(rd, keys);
    r := DecodeKeys(rd, Sorted(rd, keys));
  }

  /** The partials and the epoch of an answer, before any proof is checked. */
  function Received<P>(rd: Reader<P>, a: Answer): Result<(seq<Partial<P>>, int), FlowError> {
    match a
    case HttpError(status) => Err(Http(status))
    case Body(partials, epoch, _) =>
      if partials.None? || |partials.value| < 2 then Err(TooFewPartials)
      else
        var e :- rd.Number(epoch);
        var read :- ReadPartials(rd, partials.value);
        Ok((read, e))
  }

  /** Which answers are read, and otherwise which error comes first. */
  lemma ReceivedWhen<P>(rd: Reader<P>, a: Answer)
    ensures Received(rd, a).Ok? <==>
      && a.Body? && a.partials.Some? && |a.partials.value| >= 2 && rd.number(a.epoch).Some?
      && forall t :: 0 <= t < |a.partials.value| ==> ReadPartial(rd, a.partials.value[t]).Ok?
    ensures Received(rd, a).Ok? ==>
      var (partials, epoch) := Received(rd, a).value;
      && rd.number(a.epoch) == Some(epoch) && |partials| == |a.partials.value|
      && forall t :: 0 <= t < |partials| ==> ReadPartial(rd, a.partials.value[t]) == Ok(partials[t])
    ensures a.HttpError? ==> Received(rd, a) == Err(Http(a.status))
    ensures a.Body? && (a.partials.None? || |a.partials.value| < 2) ==> Received(rd, a) == Err(TooFewPartials)
    ensures a.Body? && a.partials.Some? && |a.partials.value| >= 2 && rd.number(a.epoch).None? ==>
      Received(rd, a) == Err(BadNumber(a.epoch))
  {
    hide ReadPartial, ReadPartials;
    if a.Body? && a.partials.Some? {
      ReadPartialsAt(rd, a.partials.value);
    }
  }

  // ----- the answer of an honest service --------------------------------------------------------

  /** The reader inverts a writer of numbers and of points. */
  ghost predicate Inverts<P(!new)>(rd: Reader<P>, writeNumber: int -> string, writePoint: P -> string) {
    && (forall n: int :: rd.number(writeNumber(n)) == Some(n))
    && (forall x: P :: rd.point(writePoint(x)) == Some(x))
  }

  function Written<P>(writeNumber: int -> string, writePoint: P -> string, q: Partial<P>): WirePartial {
    WirePartial(writeNumber(q.i), writePoint(q.share), writeNumber(q.dleq.c), writeNumber(q.dleq.z),
                writePoint(q.nodeKey))
  }

  function WrittenAll<P>(writeNumber: int -> string, writePoint: P -> string, partials: seq<Partial<P>>)
    : (wire: seq<WirePartial>)
    ensures |wire| == |partials|
  {
    seq(|partials|, t requires 0 <= t < |partials| => Written(writeNumber, writePoint, partials[t]))
  }

  /** What was written is received. */
  lemma WrittenIsReceived<P(!new)>(rd: Reader<P>, writeNumber: int -> string, writePoint: P -> string,
                                   partials: seq<Partial<P>>, epoch: int, published: seq<WireKey>)
    requires Inverts(rd, writeNumber, writePoint) && |partials| >= 2
    ensures Received(rd, Body(Some(WrittenAll(writeNumber, writePoint, partials)), writeNumber(epoch), published))
         == Ok((partials, epoch))
  {
    var wire := WrittenAll(writeNumber, writePoint, partials);
    forall t | 0 <= t < |wire| ensures ReadPartial(rd, wire[t]) == Ok(partials[t]) {
      ReadPartialWhen(rd, wire[t]);
      hide ReadPartial;
    }
    hide ReadPartial, ReadPartials, WrittenAll;
    ReceivedWhen(rd, Body(Some(wire), writeNumber(epoch), published));
    assert Received(rd, Body(Some(wire), writeNumber(epoch), published)).value.0 == partials;
  }

  /** A key that the service publishes. */
  datatype NodeKey<P> = NodeKey(i: int, point: P)

  /** The partial of the node with the secret k and the nonce t. */
  function HonestPartial<P>(s: Suite<P>, i: int, k: int, m: P, epoch: int, t: int): Partial<P>
    requires 0 < s.g.order && 0 < s.p
  {
    var key, share := s.g.mul(k, s.g.base), s.g.mul(k, m);
    Partial(i, share, ProvePartial(s, k, key, m, share, epoch, t), key)
  }

  /** The partials of the nodes with the given indices, secrets and nonces. */
  ghost predicate AreHonest<P(!new)>(s: Suite<P>, partials: seq<Partial<P>>, ks: seq<int>, m: P, epoch: int,
                                     ts: seq<int>)
    requires 0 < s.g.order && 0 < s.p
  {
    && |partials| == |ks| == |ts|
    && forall j :: 0 <= j < |partials| ==>
         && partials[j] == HonestPartial(s, partials[j].i, ks[j], m, epoch, ts[j])
         && !Zero(partials[j].dleq.c, s.g.order) && !Zero(partials[j].dleq.z, s.g.order)
  }

  lemma HonestVerify<P(!new)>(s: Suite<P>, partials: seq<Partial<P>>, ks: seq<int>, m: P, epoch: int, ts: seq<int>)
    requires IsGroup(s.g) && 0 < s.p && AreHonest(s, partials, ks, m, epoch, ts)
    ensures AllVerify(s, m, partials, epoch)
  {
    forall j | 0 <= j < |partials|
      ensures VerifyPartialDleq(s, partials[j].nodeKey, m, partials[j].share, epoch, partials[j].dleq) == Ok(true)
    {
      HonestPartialAccepted(s, ks[j], m, epoch, ts[j]);
      hide VerifyPartialDleq, ProvePartial, IsGroup, Zero;
      assert partials[j] == HonestPartial(s, partials[j].i, ks[j], m, epoch, ts[j]);
    }
  }

  /** An honest answer passes every check of blindEval, whatever the writer: all is
      read back, all proofs are accepted, and the published keys decode. */
  lemma HonestAnswerPasses<P(!new)>(s: Suite<P>, rd: Reader<P>, writeNumber: int -> string, writePoint: P -> string,
                                    partials: seq<Partial<P>>, ks: seq<int>, m: P, epoch: int, ts: seq<int>,
                                    keys: seq<NodeKey<P>>)
    requires IsGroup(s.g) && 0 < s.p && Inverts(rd, writeNumber, writePoint)
    requires |partials| >= 2 && AreHonest(s, partials, ks, m, epoch, ts)
    ensures var a := HonestAnswer(writeNumber, writePoint, partials, epoch, keys);
      && Received(rd, a) == Ok((partials, epoch))
      && AllVerify(s, m, partials, epoch)
      && Comparable(rd, a.published) && KeysDecode(rd, a.published)
      && forall t :: 0 <= t < |keys| ==> rd.point(a.published[t].key) == Some(keys[t].point)
  {
    hide IsGroup, AreHonest, AllVerify, Received;
    var published := HonestAnswer(writeNumber, writePoint, partials, epoch, keys).published;
    forall t | 0 <= t < |keys|
      ensures rd.number(published[t].i) == Some(keys[t].i) && rd.point(published[t].key) == Some(keys[t].point)
    {
      assert published[t] == WireKey(writeNumber(keys[t].i), writePoint(keys[t].point));
    }
    HonestVerify(s, partials, ks, m, epoch, ts);
    WrittenIsReceived(rd, writeNumber, writePoint, partials, epoch, published);
  }

  function HonestAnswer<P>(writeNumber: int -> string, writePoint: P -> string, partials: seq<Partial<P>>, epoch: int,
                           keys: seq<NodeKey<P>>): (a: Answer)
    ensures a.Body? && |a.published| == |keys|
  {
    Body(Some(WrittenAll(writeNumber, writePoint, partials)), writeNumber(epoch),
         seq(|keys|, t requires 0 <= t < |keys| => WireKey(writeNumber(keys[t].i), writePoint(keys[t].point))))
  }

  /** blindEval from the answer on: it succeeds exactly when the answer is a body with
      at least two partials, everything in it can be read, every partial carries an
      accepted proof and the indices can be combined. */
  method BlindEval<P(!new)>(s: Suite<P>, rd: Reader<P>, m: P, a: Answer)
    returns (r: Result<Response<P>, FlowError>, ghost lams: seq<int>)
    requires IsGroup(s.g) && 0 < s.p
    ensures Received(rd, a).Err? ==> r == Err(Received(rd, a).error)
    ensures Received(rd, a).Ok? ==>
      var (partials, epoch) := Received(rd, a).value;
      && |partials| >= 2
      && (r.Ok? <==>
            && AllVerify(s, m, partials, epoch)
            && Comparable(rd, a.published) && KeysDecode(rd, a.published)
            && Combinable(Indices(partials), s.g.order))
      && (!AllVerify(s, m, partials, epoch) ==> r.Err? && exists t :: FirstBad(s, m, partials, epoch, t, r.error))
      && (AllVerify(s, m, partials, epoch) && !(Comparable(rd, a.published) && KeysDecode(rd, a.published)) ==>
            r.Err? && if Comparable(rd, a.published) then r.error.BadPoint? else r.error.BadNumber?)
      && (r.Err? && AllVerify(s, m, partials, epoch) && Comparable(rd, a.published) && KeysDecode(rd, a.published) ==>
            r.error.Combination?)
      && (r.Ok? ==>
            && r.value.partials == partials && r.value.epoch == epoch
            && KeysDecode(rd, Sorted(rd, a.published)) && r.value.keys == DecodedKeys(rd, Sorted(rd, a.published))
            && AreCoeffs(lams, Indices(partials), s.g.order)
            && r.value.y == LinearCombination(s.g, lams, Shares(partials)))
  {
    assert 0 < s.g.order;
    hide IsPrime, LinearCombination, Combinable, AreCoeffs, VerifyPartialDleq;
    lams := [];
    if a.HttpError? {
      return Err(Http(a.status)), lams;
    }
    if a.partials.None? || |a.partials.value| < 2 {
      return Err(TooFewPartials), lams;
    }
    var epoch := rd.Number(a.epoch);
    if epoch.Err? {
      return Err(epoch.error), lams;
    }
    var decoded := DecodePartials(rd, a.partials.value);
    if decoded.Err? {
      return Err(decoded.error), lams;
    }
    var partials := decoded.value;
    var error, t := VerifyPartials(s, m, partials, epoch.value);
    if error.Some? {
      return Err(error.value), lams;
    }
    var keys := SortedKeys(rd, a.published);
    if keys.Err? {
      return Err(keys.error), lams;
    }
    var y;
    y, lams := CombineThreshold(s.g, partials);
    r := if y.Ok? then Ok(Response(partials, epoch.value, keys.value, y.value)) else Err(Combination(y.error));
  }

  /** deriveCommitment: unblind with the inverse of r and hash the coordinates. */
  function DeriveCommitment<P>(s: Suite<P>, r: int, y: P): Result<int, CurveError>
    requires IsPrime(s.g.order)
  {
    if r % s.g.order == 0 then Err(NotInvertible)
    else
      InvertibleResidue(r, s.g.order);
      match Multiply(s.g, y, Inv(r % s.g.order, s.g.order))
      case Err(e) => Err(e)
      case Ok(n) => Ok(s.hash([s.affine(n).0, s.affine(n).1]))
  }

  lemma InvertibleResidue(r: int, n: int)
    requires 0 < n
    ensures Zero(r % n, n) <==> r % n == 0
    ensures Zero(r % n, n) <==> Zero(r, n)
  {
    if Zero(r % n, n) {
      Canonical(r % n, 0, n);
    }
  }

  lemma InverseNotZero(a: int, i: int, n: int)
    requires 1 < n && Zero(a * i - 1, n)
    ensures i != 0
  {
    SameResidueOne(n);
  }

  /** The commitment of the identity point h under the secret k. */
  ghost function Commitment<P>(s: Suite<P>, k: int, h: P): int {
    var n := s.g.mul(k, h);
    s.hash([s.affine(n).0, s.affine(n).1])
  }

  /** Unblinding undoes blinding: from k (r H) the commitment of k H. */
  lemma UnblindingCancels<P(!new)>(s: Suite<P>, r: int, k: int, h: P)
    requires IsGroup(s.g)
    ensures DeriveCommitment(s, r, s.g.mul(k, s.g.mul(r, h)))
         == if Zero(r, s.g.order) then Err(NotInvertible) else Ok(Commitment(s, k, h))
  {
    var g := s.g;
    var n := g.order;
    InvertibleResidue(r, n);
    if !Zero(r, n) {
      var i := Inv(r % n, n);
      InverseNotZero(r % n, i, n);
      assert ActsTwice(g, i, k, g.mul(r, h)) && ActsTwice(g, i * k, r, h);
      UnblindScalar(i, k, r, n);
      CongruentScalars(g, i * k * r, k, h);
    }
  }

  lemma UnblindScalar(i: int, k: int, r: int, n: int)
    requires 0 < n && Zero(r % n * i - 1, n)
    ensures Zero(i * k * r - k, n)
  {
    ReduceZero(r, n);
    UnblindIdentity(i, k, r, r % n);
    Certify(i * k * r - k, k, r % n * i - 1, k * i, r - r % n, n);
  }

  lemma UnblindIdentity(i: int, k: int, r: int, q: int)
    ensures i * k * r - k == k * (q * i - 1) + k * i * (r - q)
  {
    assert k * (q * i - 1) == k * (q * i) - k;
    assert k * i * (r - q) == i * k * r - k * (q * i);
  }

  /** The whole flow. Whatever the blinding scalar and whichever quorum answers,
      a successful run over shares of f derives the commitment of f(0) H. */
  method EnrollIdentity<P(!new)>(s: Suite<P>, rd: Reader<P>, h: P, r: int, a: Answer, ghost f: seq<int>)
    returns (c: Result<int, FlowError>)
    requires IsGroup(s.g) && 0 < s.p
    requires Received(rd, a).Ok? ==>
      var partials := Received(rd, a).value.0;
      && |f| <= |partials|
      && forall t :: 0 <= t < |partials| ==> ShareOf(s.g, f, partials[t].i, partials[t].share, s.g.mul(r, h))
    ensures c.Ok? ==>
      var n := s.g.mul(Eval(f, 0), h);
      c.value == s.hash([s.affine(n).0, s.affine(n).1])
    ensures c.Ok? <==>
      && !Zero(r, s.g.order)
      && Received(rd, a).Ok?
      && var (partials, epoch) := Received(rd, a).value;
      && AllVerify(s, s.g.mul(r, h), partials, epoch)
      && Comparable(rd, a.published) && KeysDecode(rd, a.published)
      && Combinable(Indices(partials), s.g.order)
  {
    hide IsPrime, Zero;
    var m := s.g.mul(r, h);
    var e, lams := BlindEval(s, rd, m, a);
    if e.Err? {
      return Err(e.error);
    }
    var partials := e.value.partials;
    ReconstructsSecret(s.g, lams, Indices(partials), Shares(partials), f, m);
    UnblindingCancels(s, r, Eval(f, 0), h);
    var d := DeriveCommitment(s, r, e.value.y);
    c := if d.Ok? then Ok(d.value) else Err(Curve(d.error));
  }

  /** The nodes and the client together. Nodes that hold the values of f answer
      honestly with scalars that are not zero, at least as many as f has coefficients
      and at least two, with indices that can be combined: whatever they publish
      beside, the client derives the commitment of f(0) H. */
  method EnrollWithHonestNodes<P(!new)>(s: Suite<P>, rd: Reader<P>, writeNumber: int -> string,
                                        writePoint: P -> string, h: P, r: int, partials: seq<Partial<P>>,
                                        ghost ks: seq<int>, ghost ts: seq<int>, epoch: int, keys: seq<NodeKey<P>>,
                                        ghost f: seq<int>)
    returns (c: Result<int, FlowError>)
    requires IsGroup(s.g) && 0 < s.p && Inverts(rd, writeNumber, writePoint)
    requires !Zero(r, s.g.order)
    requires 2 <= |partials| && |f| <= |partials| && AreHonest(s, partials, ks, s.g.mul(r, h), epoch, ts)
    requires forall j :: 0 <= j < |partials| ==> ks[j] == Eval(f, partials[j].i)
    requires Combinable(Indices(partials), s.g.order)
    ensures var n := s.g.mul(Eval(f, 0), h);
      c == Ok(s.hash([s.affine(n).0, s.affine(n).1]))
  {
    var m := s.g.mul(r, h);
    HonestAnswerPasses(s, rd, writeNumber, writePoint, partials, ks, m, epoch, ts, keys);
    forall j | 0 <= j < |partials| ensures ShareOf(s.g, f, partials[j].i, partials[j].share, m) {
      assert partials[j] == HonestPartial(s, partials[j].i, ks[j], m, epoch, ts[j]);
    }
    hide IsGroup, AreHonest, AllVerify, Received, Combinable, Zero, ShareOf;
    c := EnrollIdentity(s, rd, h, r, HonestAnswer(writeNumber, writePoint, partials, epoch, keys), f);
  }
}
