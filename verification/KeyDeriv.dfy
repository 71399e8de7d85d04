/**
 * ECDSA key re-randomisation: bccsp/sw/keyderiv.go for public and private keys, and the second
 * implementation in bccsp/pkcs11/impl.go, which recomputes the public point from the new scalar.
 */
module KeyDeriv {
  import opened Wrappers
  import opened BigEndian
  import opened Curve
  import opened ModArith

  datatype PrivateKey<P> = PrivateKey(d: nat, q: P)

  /** A private key whose scalar is in range and whose public point belongs to it. */
  ghost predicate Matched<P>(c: Group<P>, k: PrivateKey<P>) {
    1 <= k.d < c.n && k.q == Mul(c, k.d, c.g)
  }

  /** The blinding scalar k = (expansion mod (n - 1)) + 1. */
  function Blind<P(==)>(c: Group<P>, expansion: Bytes): (k: nat)
    requires c.n > 2
    ensures 1 <= k < c.n
  {
    SetBytes(expansion) % (c.n - 1) + 1
  }

  /** The blinding scalar is the one in 1..n-1 that is congruent to the expansion value plus one modulo n - 1. */
  lemma BlindIff<P>(c: Group<P>, expansion: Bytes, k: nat)
    requires c.n > 2
    ensures Blind(c, expansion) == k <==> 1 <= k < c.n && (SetBytes(expansion) + 1 - k) % (c.n - 1) == 0
  {
    var x, m, b := SetBytes(expansion), c.n - 1, Blind(c, expansion);
    assert x == x / m * m + (b - 1);
    var d := b - k;
    assert x + 1 - k == d + x / m * m;
    if 1 <= k < c.n {
      ModAddMultiple(d, x / m, m);
      if d < 0 { ModAddMultiple(d, 1, m); ModSmall(d + m, m); } else { ModSmall(d, m); }
    }
  }

  /** Two expansion values blind alike exactly when they are congruent modulo n - 1. */
  lemma BlindsAlike<P>(c: Group<P>, a: Bytes, b: Bytes)
    requires c.n > 2
    ensures Blind(c, a) == Blind(c, b) <==> SetBytes(a) % (c.n - 1) == SetBytes(b) % (c.n - 1)
  {}

  function ScalarBaseMult<P(==)>(c: Group<P>, k: Bytes): P {
    Mul(c, SetBytes(k), c.g)
  }

  // ------------------------------------------------------------ derivations

  /** The public key derived from q, unless it is the point at infinity. */
  function DerivedPublic<P(==)>(c: Group<P>, q: P, expansion: Bytes): Option<P>
    requires c.n > 2
  {
    var p := c.add(q, Mul(c, Blind(c, expansion), c.g));
    if OnCurve(c, p) then Some(p) else None
  }

  /** The private key with scalar d + k mod n, unless that is zero. */
  function DerivedPrivate<P(==)>(c: Group<P>, d: nat, expansion: Bytes): Option<PrivateKey<P>>
    requires c.n > 2
  {
    var e := (d + Blind(c, expansion)) % c.n;
    if e == 0 then None else Some(PrivateKey(e, Mul(c, e, c.g)))
  }

  method SwDerivePublic<P(==)>(c: Group<P>, q: P, expansion: Bytes) returns (r: Option<P>)
    requires c.n > 2
    ensures r == DerivedPublic(c, q, expansion)
  {
    var k := SetBytes(expansion);
    var n := c.n - 1;
    k := k % n;
    k := k + 1;
    ToBytesDecodes(k);
    var temp := ScalarBaseMult(c, ToBytes(k));
    var point := c.add(q, temp);
    if !OnCurve(c, point) { return None; }
    r := Some(point);
  }

  /** The software provider: new scalar by modular addition, new point by adding k times the base. */
  method SwDerivePrivate<P(==,!new)>(c: Group<P>, key: PrivateKey<P>, expansion: Bytes) returns (r: Option<PrivateKey<P>>)
    requires Lawful(c) && Matched(c, key)
    ensures r == DerivedPrivate(c, key.d, expansion)
  {
    var k := SetBytes(expansion);
    var n := c.n - 1;
    k := k % n;
    k := k + 1;
    assert k == Blind(c, expansion);
    var d := key.d + k;
    d := d % c.n;
    ToBytesDecodes(k);
    var temp := ScalarBaseMult(c, ToBytes(k));
    var point := c.add(key.q, temp);
    SumPoint(c, key.d, k);
    if !OnCurve(c, point) { return None; }
    r := Some(PrivateKey(d, point));
  }

  /**
   * The PKCS#11 provider: the scalar read back from the token, if it lets go of it, the point from
   * the new scalar.  The new key is imported into the token, which may refuse it.
   */
  method P11DerivePrivate<P(==,!new)>(c: Group<P>, secret: Option<Bytes>, expansion: Bytes,
                                      oidKnown: bool, imports: (Bytes, P) -> bool)
    returns (r: Option<PrivateKey<P>>)
    requires Lawful(c)
    ensures secret.None? || !oidKnown ==> r == None
    ensures secret.Some? && oidKnown ==>
              var key := DerivedPrivate(c, SetBytes(secret.value), expansion);
              r == if key.Some? && imports(ToBytes(key.value.d), key.value.q) then key else None
  {
    if secret.None? { return None; }
    var bigSecret := SetBytes(secret.value);
    var k := SetBytes(expansion);
    var n := c.n - 1;
    k := k % n;
    k := k + 1;
    assert k == Blind(c, expansion);
    var d := bigSecret + k;
    d := d % c.n;
    ToBytesDecodes(d);
    var point := ScalarBaseMult(c, ToBytes(d));
    MulBaseZeroIff(c, d);
    if !OnCurve(c, point) { return None; }
    if !oidKnown { return None; }
    if !imports(ToBytes(d), point) { return None; }
    r := Some(PrivateKey(d, point));
  }

  /** d times the base plus k times the base is the point of the scalar d + k mod n. */
  lemma SumPoint<P(!new)>(c: Group<P>, d: nat, k: nat)
    requires Lawful(c)
    ensures c.add(Mul(c, d, c.g), Mul(c, k, c.g)) == Mul(c, (d + k) % c.n, c.g)
    ensures Mul(c, (d + k) % c.n, c.g) == c.zero <==> (d + k) % c.n == 0
  {
    MulAdd(c, d, k, c.g);
    MulMod(c, d + k, c.g);
    MulBaseZeroIff(c, (d + k) % c.n);
  }

  // --------------------------------------------------------- one derivation

  /**
   * A matched pair stays matched; deriving the public key alone gives the public half of the
   * derived private key; both are refused exactly when d + k is 0 modulo n.
   */
  lemma DerivationKeepsPairs<P(!new)>(c: Group<P>, key: PrivateKey<P>, expansion: Bytes)
    requires Lawful(c) && Matched(c, key)
    ensures var priv, pub := DerivedPrivate(c, key.d, expansion), DerivedPublic(c, key.q, expansion);
            && (priv.None? <==> (key.d + Blind(c, expansion)) % c.n == 0)
            && (pub.None? <==> priv.None?)
            && (priv.Some? ==> Matched(c, priv.value) && pub.value == priv.value.q)
  {
    SumPoint(c, key.d, Blind(c, expansion));
  }

  // ------------------------------------------------------ chains of derivations

  function PrivateChain<P(==)>(c: Group<P>, key: PrivateKey<P>, expansions: seq<Bytes>): Option<PrivateKey<P>>
    requires c.n > 2
    decreases |expansions|
  {
    if expansions == [] then Some(key)
    else
      match DerivedPrivate(c, key.d, expansions[0])
      case None => None
      case Some(next) => PrivateChain(c, next, expansions[1..])
  }

  function PublicChain<P(==)>(c: Group<P>, q: P, expansions: seq<Bytes>): Option<P>
    requires c.n > 2
    decreases |expansions|
  {
    if expansions == [] then Some(q)
    else
      match DerivedPublic(c, q, expansions[0])
      case None => None
      case Some(next) => PublicChain(c, next, expansions[1..])
  }

  function TotalBlind<P(==)>(c: Group<P>, expansions: seq<Bytes>): nat
    requires c.n > 2
  {
    if expansions == [] then 0 else Blind(c, expansions[0]) + TotalBlind(c, expansions[1..])
  }

  /** The scalar after j derivations is 0 modulo n. */
  ghost predicate ZeroAt<P>(c: Group<P>, d: nat, expansions: seq<Bytes>, j: nat)
    requires c.n > 2 && j <= |expansions|
  {
    (d + TotalBlind(c, expansions[..j])) % c.n == 0
  }

  /** Some derivation along the chain hits the scalar 0. */
  ghost predicate HitsZero<P>(c: Group<P>, d: nat, expansions: seq<Bytes>)
    requires c.n > 2
  {
    exists j :: 0 < j <= |expansions| && ZeroAt(c, d, expansions, j)
  }

  lemma {:induction false} ChainMatched<P(!new)>(c: Group<P>, key: PrivateKey<P>, expansions: seq<Bytes>)
    requires Lawful(c) && Matched(c, key)
    ensures PublicChain(c, key.q, expansions).None? <==> PrivateChain(c, key, expansions).None?
    ensures PrivateChain(c, key, expansions).Some? ==>
              && Matched(c, PrivateChain(c, key, expansions).value)
              && PublicChain(c, key.q, expansions).value == PrivateChain(c, key, expansions).value.q
    decreases |expansions|
  {
    if expansions != [] {
      DerivationKeepsPairs(c, key, expansions[0]);
      match DerivedPrivate(c, key.d, expansions[0]) {
        case None =>
        case Some(next) => ChainMatched(c, next, expansions[1..]);
      }
    }
  }

  lemma {:induction false} ChainScalar<P>(c: Group<P>, key: PrivateKey<P>, expansions: seq<Bytes>)
    requires c.n > 2 && key.d < c.n && PrivateChain(c, key, expansions).Some?
    ensures PrivateChain(c, key, expansions).value.d == (key.d + TotalBlind(c, expansions)) % c.n
    decreases |expansions|
  {
    if expansions == [] {
      ModSmall(key.d, c.n);
    } else {
      var next := DerivedPrivate(c, key.d, expansions[0]).value;
      ChainScalar(c, next, expansions[1..]);
      ModShift(key.d + Blind(c, expansions[0]), TotalBlind(c, expansions[1..]), c.n);
    }
  }

  lemma {:induction false} ChainBreaksIff<P>(c: Group<P>, key: PrivateKey<P>, expansions: seq<Bytes>)
    requires c.n > 2
    ensures PrivateChain(c, key, expansions).None? <==> HitsZero(c, key.d, expansions)
    decreases |expansions|
  {
    if expansions != [] {
      HitsZeroStep(c, key.d, expansions);
      match DerivedPrivate(c, key.d, expansions[0]) {
        case None =>
        case Some(next) => ChainBreaksIff(c, next, expansions[1..]);
      }
    }
  }

  /**
   * Over any chain of derivations the public chain ends in the public half of the private chain;
   * the final scalar is d plus all blinding scalars modulo n; and the chains break off exactly
   * when some partial sum is 0 modulo n.
   */
  lemma ChainKeepsPairs<P(!new)>(c: Group<P>, key: PrivateKey<P>, expansions: seq<Bytes>)
    requires Lawful(c) && Matched(c, key)
    ensures var priv, pub := PrivateChain(c, key, expansions), PublicChain(c, key.q, expansions);
            && (priv.None? <==> HitsZero(c, key.d, expansions))
            && (pub.None? <==> priv.None?)
            && (priv.Some? ==>
                  && Matched(c, priv.value)
                  && pub.value == priv.value.q
                  && priv.value.d == (key.d + TotalBlind(c, expansions)) % c.n)
  {
    ChainMatched(c, key, expansions);
    ChainBreaksIff(c, key, expansions);
    if PrivateChain(c, key, expansions).Some? { ChainScalar(c, key, expansions); }
  }

  lemma HitsZeroStep<P>(c: Group<P>, d: nat, expansions: seq<Bytes>)
    requires c.n > 2 && expansions != []
    ensures var e := (d + Blind(c, expansions[0])) % c.n;
            HitsZero(c, d, expansions) <==> e == 0 || HitsZero(c, e, expansions[1..])
  {
    var rest := expansions[1..];
    var e := (d + Blind(c, expansions[0])) % c.n;
    ZeroAtFirst(c, d, expansions);
    forall j | 1 < j <= |expansions| ensures ZeroAt(c, d, expansions, j) <==> ZeroAt(c, e, rest, j - 1) {
      ZeroAtNext(c, d, expansions, j);
    }
    if HitsZero(c, e, rest) {
      var j :| 0 < j <= |rest| && ZeroAt(c, e, rest, j);
      assert ZeroAt(c, d, expansions, j + 1);
    }
    if HitsZero(c, d, expansions) && e != 0 {
      var j :| 0 < j <= |expansions| && ZeroAt(c, d, expansions, j);
      assert ZeroAt(c, e, rest, j - 1);
    }
  }

  lemma ZeroAtFirst<P>(c: Group<P>, d: nat, expansions: seq<Bytes>)
    requires c.n > 2 && expansions != []
    ensures ZeroAt(c, d, expansions, 1) <==> (d + Blind(c, expansions[0])) % c.n == 0
  {
    assert expansions[..1][1..] == [];
    assert TotalBlind(c, expansions[..1]) == Blind(c, expansions[0]);
  }

  lemma ZeroAtNext<P>(c: Group<P>, d: nat, expansions: seq<Bytes>, j: nat)
    requires c.n > 2 && 1 < j <= |expansions|
    ensures ZeroAt(c, d, expansions, j) <==>
            ZeroAt(c, (d + Blind(c, expansions[0])) % c.n, expansions[1..], j - 1)
  {
    assert expansions[..j][1..] == expansions[1..][..j - 1];
    ModShift(d + Blind(c, expansions[0]), TotalBlind(c, expansions[1..][..j - 1]), c.n);
  }
}
