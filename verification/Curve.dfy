/**
 * The group behind the elliptic-curve code: points under addition, a base point of order n, and
 * the x-coordinate.  The point at infinity is the group's zero and the only value not on the curve.
 */
module Curve {

  datatype Group<!P(==)> = Group(
    n: nat,
    g: P,
    zero: P,
    add: (P, P) -> P,
    neg: P -> P,
    x: P -> int)

  predicate Assoc<P(==)>(c: Group<P>, a: P, b: P, d: P) { c.add(c.add(a, b), d) == c.add(a, c.add(b, d)) }

  predicate Comm<P(==)>(c: Group<P>, a: P, b: P) { c.add(a, b) == c.add(b, a) }

  predicate Unit<P(==)>(c: Group<P>, a: P) { c.add(c.zero, a) == a && c.add(a, c.zero) == a }

  predicate Inverse<P(==)>(c: Group<P>, a: P) { c.add(a, c.neg(a)) == c.zero && c.x(c.neg(a)) == c.x(a) }

  predicate Torsion<P(==)>(c: Group<P>, a: P) { Mul(c, c.n, a) == c.zero }

  /** A commutative group in which n kills every point and the base point has order exactly n. */
  ghost predicate Lawful<P(!new)>(c: Group<P>) {
    && c.n > 2
    && (forall a, b, d :: Assoc(c, a, b, d))
    && (forall a, b :: Comm(c, a, b))
    && (forall a :: Unit(c, a))
    && (forall a :: Inverse(c, a))
    && (forall a :: Torsion(c, a))
    && (forall k :: 0 < k < c.n ==> Mul(c, k, c.g) != c.zero)
  }

  predicate OnCurve<P(==)>(c: Group<P>, p: P) {
    p != c.zero
  }

  /** k times p. */
  function Mul<P(==)>(c: Group<P>, k: nat, p: P): P {
    if k == 0 then c.zero else c.add(Mul(c, k - 1, p), p)
  }

  lemma {:induction false} MulAdd<P(!new)>(c: Group<P>, a: nat, b: nat, p: P)
    requires Lawful(c)
    ensures Mul(c, a + b, p) == c.add(Mul(c, a, p), Mul(c, b, p))
    decreases b
  {
    if b == 0 {
      assert Unit(c, Mul(c, a, p));
    } else {
      MulAdd(c, a, b - 1, p);
      assert Assoc(c, Mul(c, a, p), Mul(c, b - 1, p), p);
    }
  }

  lemma {:induction false} MulMultiple<P(!new)>(c: Group<P>, q: nat, p: P)
    requires Lawful(c)
    ensures Mul(c, q * c.n, p) == c.zero
  {
    if q > 0 {
      MulMultiple(c, q - 1, p);
      assert q * c.n == (q - 1) * c.n + c.n;
      MulAdd(c, (q - 1) * c.n, c.n, p);
      assert Torsion(c, p) && Unit(c, c.zero);
    } else {
      assert q * c.n == 0;
    }
  }

  /** Scalars only matter modulo the order. */
  lemma MulMod<P(!new)>(c: Group<P>, k: nat, p: P)
    requires Lawful(c)
    ensures Mul(c, k % c.n, p) == Mul(c, k, p)
  {
    var q, r := k / c.n, k % c.n;
    assert k == q * c.n + r;
    MulAdd(c, q * c.n, r, p);
    MulMultiple(c, q, p);
    assert Unit(c, Mul(c, r, p));
  }

  /** A multiple of the base point is infinity exactly when the scalar is 0 modulo the order. */
  lemma MulBaseZeroIff<P(!new)>(c: Group<P>, k: nat)
    requires Lawful(c)
    ensures Mul(c, k, c.g) == c.zero <==> k % c.n == 0
  {
    MulMod(c, k, c.g);
  }

  lemma NegUnique<P(!new)>(c: Group<P>, a: P, b: P)
    requires Lawful(c) && c.add(a, b) == c.zero
    ensures b == c.neg(a)
  {
    assert Inverse(c, a) && Comm(c, a, c.neg(a));
    assert Assoc(c, c.neg(a), a, b) && Unit(c, b) && Unit(c, c.neg(a));
  }

  lemma NegAdd<P(!new)>(c: Group<P>, a: P, b: P)
    requires Lawful(c)
    ensures c.add(c.neg(a), c.neg(b)) == c.neg(c.add(a, b))
  {
    var na, nb := c.neg(a), c.neg(b);
    assert Assoc(c, a, b, c.add(na, nb));
    assert Comm(c, na, nb);
    assert Assoc(c, b, nb, na) && Inverse(c, b) && Unit(c, na) && Inverse(c, a);
    NegUnique(c, c.add(a, b), c.add(na, nb));
  }

  lemma NegZero<P(!new)>(c: Group<P>, a: P)
    requires Lawful(c)
    ensures c.neg(a) == c.zero <==> a == c.zero
  {
    assert Inverse(c, a) && Unit(c, a) && Unit(c, c.neg(a));
  }

  lemma {:induction false} MulMul<P(!new)>(c: Group<P>, a: nat, b: nat, p: P)
    requires Lawful(c)
    ensures Mul(c, a, Mul(c, b, p)) == Mul(c, a * b, p)
  {
    if a > 0 {
      MulMul(c, a - 1, b, p);
      assert a * b == (a - 1) * b + b;
      MulAdd(c, (a - 1) * b, b, p);
    }
  }
}
