/** A commutative group of prime order with its scalar action, standing for
    Grumpkin and ristretto255. The curve library supplies the operations; only
    the laws stated in IsGroup are used.

    Each law is a named predicate, so that a proof brings in an instance of a
    law by asserting it. */
module PrimeGroup {
  import opened PrimeField
  import opened Wrappers

  datatype Group<!P> = Group(order: nat, base: P, add: (P, P) -> P, neg: P -> P, mul: (int, P) -> P)

  ghost predicate Commutes<P>(g: Group<P>, x: P, y: P) { g.add(x, y) == g.add(y, x) }
  ghost predicate Associates<P>(g: Group<P>, x: P, y: P, z: P) { g.add(g.add(x, y), z) == g.add(x, g.add(y, z)) }
  ghost predicate ZeroIsNeutral<P>(g: Group<P>, x: P, y: P) { g.add(x, g.mul(0, y)) == x }
  ghost predicate NegIsMinusOne<P>(g: Group<P>, x: P) { g.neg(x) == g.mul(-1, x) }
  ghost predicate OneActs<P>(g: Group<P>, x: P) { g.mul(1, x) == x }
  ghost predicate ActsTwice<P>(g: Group<P>, a: int, b: int, x: P) { g.mul(a, g.mul(b, x)) == g.mul(a * b, x) }
  ghost predicate SumActs<P>(g: Group<P>, a: int, b: int, x: P) { g.add(g.mul(a, x), g.mul(b, x)) == g.mul(a + b, x) }
  ghost predicate ReducedActs<P>(g: Group<P>, a: int, x: P)
    requires 0 < g.order
  {
    g.mul(a % g.order, x) == g.mul(a, x)
  }

  ghost predicate IsGroup<P(!new)>(g: Group<P>) {
    && IsPrime(g.order)
    && (forall x, y :: Commutes(g, x, y))
    && (forall x, y, z :: Associates(g, x, y, z))
    && (forall x, y :: ZeroIsNeutral(g, x, y))
    && (forall x :: NegIsMinusOne(g, x))
    && (forall x :: OneActs(g, x))
    && (forall a, b, x :: ActsTwice(g, a, b, x))
    && (forall a, b, x :: SumActs(g, a, b, x))
    && (forall a, x :: ReducedActs(g, a, x))
  }

  datatype CurveError = InvalidScalar | NotInvertible

  /** Point.multiply: the library accepts only scalars in 1 .. order - 1. */
  function Multiply<P>(g: Group<P>, x: P, s: int): Result<P, CurveError> {
    if 1 <= s < g.order then Ok(g.mul(s, x)) else Err(InvalidScalar)
  }

  /** Congruent scalars act alike. */
  lemma CongruentScalars<P(!new)>(g: Group<P>, a: int, b: int, x: P)
    requires IsGroup(g) && Zero(a - b, g.order)
    ensures g.mul(a, x) == g.mul(b, x)
  {
    SameResidue(a, b, g.order);
    assert ReducedActs(g, a, x) && ReducedActs(g, b, x);
  }

  /** -y + y is neutral. */
  lemma NegCancels<P(!new)>(g: Group<P>, x: P, y: P)
    requires IsGroup(g)
    ensures g.add(x, g.add(g.neg(y), y)) == x
  {
    assert NegIsMinusOne(g, y) && OneActs(g, y) && SumActs(g, -1, 1, y) && ZeroIsNeutral(g, x, y);
  }

  /** (x - y) + y = x. */
  lemma AddBack<P(!new)>(g: Group<P>, x: P, y: P)
    requires IsGroup(g)
    ensures g.add(g.add(x, g.neg(y)), y) == x
  {
    assert Associates(g, x, g.neg(y), y);
    NegCancels(g, x, y);
  }

  /** (x + y) - y = x. */
  lemma SubtractBack<P(!new)>(g: Group<P>, x: P, y: P)
    requires IsGroup(g)
    ensures g.add(g.add(x, y), g.neg(y)) == x
  {
    assert Associates(g, x, y, g.neg(y)) && Commutes(g, y, g.neg(y));
    NegCancels(g, x, y);
  }

  /** a X - b X = (a - b) X. */
  lemma SubScalars<P(!new)>(g: Group<P>, a: int, b: int, x: P)
    requires IsGroup(g)
    ensures g.add(g.mul(a, x), g.neg(g.mul(b, x))) == g.mul(a - b, x)
  {
    assert NegIsMinusOne(g, g.mul(b, x)) && ActsTwice(g, -1, b, x) && SumActs(g, a, -1 * b, x);
  }

  /** (a + x) - (a + y) = x - y. */
  lemma DifferenceOfSums<P(!new)>(g: Group<P>, a: P, x: P, y: P)
    requires IsGroup(g)
    ensures g.add(g.add(a, x), g.neg(g.add(a, y))) == g.add(x, g.neg(y))
  {
    var s, d := g.add(a, y), g.add(x, g.neg(y));
    // a + x = (x - y) + (a + y)
    AddBack(g, x, y);
    assert Commutes(g, a, x) && Associates(g, d, y, a) && Commutes(g, y, a);
    SubtractBack(g, d, s);
  }

  /** From z X - c Y = z' X - c' Y: Y = ((z - z') / (c - c')) X. */
  lemma ExtractLogarithm<P(!new)>(g: Group<P>, x: P, y: P, z: int, c: int, z': int, c': int, i: int)
    requires IsGroup(g) && Zero((c - c') * i - 1, g.order)
    requires g.add(g.mul(z, x), g.neg(g.mul(c, y))) == g.add(g.mul(z', x), g.neg(g.mul(c', y)))
    ensures y == g.mul(i * (z - z'), x)
  {
    // z X = a + c Y and z' X = a + c' Y
    AddBack(g, g.mul(z, x), g.mul(c, y));
    AddBack(g, g.mul(z', x), g.mul(c', y));
    DifferenceOfSums(g, g.add(g.mul(z, x), g.neg(g.mul(c, y))), g.mul(c, y), g.mul(c', y));
    SubScalars(g, z, z', x);
    SubScalars(g, c, c', y);
    assert ActsTwice(g, i, z - z', x) && ActsTwice(g, i, c - c', y);
    CongruentScalars(g, i * (c - c'), 1, y) by {
      assert i * (c - c') == (c - c') * i;
    }
    assert OneActs(g, y);
  }
}
