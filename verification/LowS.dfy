/**
 * Low-S ECDSA signatures: bccsp/sw/ecdsa.go and the inlined copy in bccsp/pkcs11/ecdsa.go.
 */
module LowS {
  import opened Wrappers
  import opened BigEndian
  import opened Curve
  import opened ModArith

  /** What low-S needs of a public key: its curve's order, and whether the curve is in the table of half orders. */
  datatype EcKey = EcKey(order: nat, recognized: bool)

  /** A math/big integer, updated in place by its methods. */
  class BigInt {
    var v: int
    constructor (v: int)
      ensures this.v == v
    {
      this.v := v;
    }
  }

  datatype SigError =
    | BadEncoding
    | NotPositiveR
    | NotPositiveS
    | CurveNotRecognized
    | HighS

  // -------------------------------------------------------- normalisation

  function HalfOrder(n: nat): nat { n / 2 }

  function Normal(n: nat, s: int): int {
    if s > HalfOrder(n) then n - s else s
  }

  method IsLowS(k: EcKey, s: BigInt) returns (r: Result<bool, SigError>)
    ensures r == if k.recognized then Success(s.v <= HalfOrder(k.order)) else Failure(CurveNotRecognized)
  {
    if !k.recognized { return Failure(CurveNotRecognized); }
    r := Success(!(s.v > HalfOrder(k.order)));
  }

  /** ToLowS overwrites its argument and returns it; the flag says whether it changed. */
  method ToLowS(k: EcKey, s: BigInt) returns (r: Result<(BigInt, bool), SigError>)
    modifies s
    ensures r.Success? <==> k.recognized
    ensures r.Failure? ==> r.error == CurveNotRecognized && s.v == old(s.v)
    ensures r.Success? ==> r.value.0 == s && s.v == Normal(k.order, old(s.v))
    ensures r.Success? ==> (r.value.1 <==> old(s.v) > HalfOrder(k.order))
  {
    var low := IsLowS(k, s);
    if low.Failure? { return Failure(low.error); }
    if !low.value {
      s.v := k.order - s.v;
      return Success((s, true));
    }
    r := Success((s, false));
  }

  /** The result is in 1..n/2 exactly when s was in 1..n-1. */
  lemma NormalRangeIff(n: nat, s: int)
    requires n > 0
    ensures 1 <= Normal(n, s) <= HalfOrder(n) <==> 0 < s < n
  {}

  lemma NormalIdempotent(n: nat, s: int)
    ensures Normal(n, Normal(n, s)) == Normal(n, s)
  {}

  /** Two scalars in range have the same normal form exactly when they are equal or opposite. */
  lemma NormalIdentifiesOpposites(n: nat, s: int, t: int)
    requires 0 < s < n && 0 < t < n
    ensures Normal(n, s) == Normal(n, t) <==> s == t || s + t == n
  {}

  // -------------------------------------------------- the verification equation

  /** The point u1 G + u2 Q of the ECDSA verification, for an inverse w of s. */
  function VerificationPoint<P(==)>(c: Group<P>, q: P, e: nat, r: nat, w: nat): P
    requires c.n > 0
  {
    c.add(Mul(c, e * w % c.n, c.g), Mul(c, r * w % c.n, q))
  }

  ghost predicate InverseOf<P>(c: Group<P>, s: int, w: nat) {
    0 < w < c.n && c.n > 0 && s * w % c.n == 1
  }

  /** Section 4.1.4 of SEC 1: r and s in range and the verification point's x-coordinate is r modulo n. */
  ghost predicate Verifies<P>(c: Group<P>, q: P, e: nat, r: int, s: int) {
    && 0 < r < c.n && 0 < s < c.n
    && exists w :: InverseOf(c, s, w) &&
                   var point := VerificationPoint(c, q, e, r, w);
                   point != c.zero && c.x(point) % c.n == r
  }

  lemma OppositeInverse<P>(c: Group<P>, s: int, w: nat)
    requires 0 < s < c.n && InverseOf(c, s, w)
    ensures InverseOf(c, c.n - s, c.n - w)
  {
    ProductOfOpposites(c.n, s, w);
    ModAddMultiple(s * w, c.n - s - w, c.n);
  }

  lemma ProductOfOpposites(n: int, s: int, w: int)
    ensures (n - s) * (n - w) == s * w + (n - s - w) * n
  {}

  lemma OppositeMultiple<P(!new)>(c: Group<P>, a: nat, w: nat, p: P)
    requires Lawful(c) && w <= c.n
    ensures Mul(c, a * (c.n - w) % c.n, p) == c.neg(Mul(c, a * w % c.n, p))
  {
    var l, r := a * w, a * (c.n - w);
    assert l + r == a * c.n;
    MulMod(c, l, p);
    MulMod(c, r, p);
    MulAdd(c, l, r, p);
    MulMultiple(c, a, p);
    NegUnique(c, Mul(c, l, p), Mul(c, r, p));
  }

  lemma OppositePoint<P(!new)>(c: Group<P>, q: P, e: nat, r: nat, w: nat)
    requires Lawful(c) && w <= c.n
    ensures VerificationPoint(c, q, e, r, c.n - w) == c.neg(VerificationPoint(c, q, e, r, w))
  {
    OppositeMultiple(c, e, w, c.g);
    OppositeMultiple(c, r, w, q);
    NegAdd(c, Mul(c, e * w % c.n, c.g), Mul(c, r * w % c.n, q));
  }

  lemma OppositeVerifies<P(!new)>(c: Group<P>, q: P, e: nat, r: int, s: int)
    requires Lawful(c) && Verifies(c, q, e, r, s)
    ensures Verifies(c, q, e, r, c.n - s)
  {
    var w :| InverseOf(c, s, w) && VerificationPoint(c, q, e, r, w) != c.zero
             && c.x(VerificationPoint(c, q, e, r, w)) % c.n == r;
    OppositeInverse(c, s, w);
    OppositePoint(c, q, e, r, w);
    var point := VerificationPoint(c, q, e, r, w);
    NegZero(c, point);
    assert Inverse(c, point);
    assert InverseOf(c, c.n - s, c.n - w);
  }

  /**
   * Section 4.1.3 of SEC 1: the pair made with the private scalar d and the nonce k, where s k and
   * t = e + r d differ by the multiple m of n, satisfies the equation for d's point.
   */
  lemma SignatureVerifies<P(!new)>(c: Group<P>, d: nat, k: nat, e: nat, r: nat, s: nat, w: nat, t: nat, m: int)
    requires Lawful(c) && 0 < k < c.n && 0 < r < c.n && 0 < s < c.n && InverseOf(c, s, w)
    requires r == c.x(Mul(c, k, c.g)) % c.n && t == e + r * d && s * k == t + m * c.n
    ensures Verifies(c, Mul(c, d, c.g), e, r, s)
  {
    KnownPoint(c, d, e, r, w, t);
    SameMultiple(t, s, k, w, c.n, m);
    VerifiesAt(c, Mul(c, d, c.g), e, r, s, w, Times(t, w), k);
  }

  function Times(a: nat, b: nat): nat { a * b }

  lemma VerifiesAt<P(!new)>(c: Group<P>, q: P, e: nat, r: nat, s: nat, w: nat, u: nat, k: nat)
    requires Lawful(c) && 0 < k < c.n && 0 < r < c.n && 0 < s < c.n && InverseOf(c, s, w)
    requires VerificationPoint(c, q, e, r, w) == Mul(c, u, c.g) && u % c.n == k && c.x(Mul(c, k, c.g)) % c.n == r
    ensures Verifies(c, q, e, r, s)
  {
    MulMod(c, u, c.g);
  }

  /** For the point of a known scalar d, the verification point is a known multiple of the base point. */
  lemma KnownPoint<P(!new)>(c: Group<P>, d: nat, e: nat, r: nat, w: nat, t: nat)
    requires Lawful(c) && t == e + r * d
    ensures VerificationPoint(c, Mul(c, d, c.g), e, r, w) == Mul(c, Times(t, w), c.g)
  {
    var a, b := e * w, r * w;
    MulMod(c, a, c.g);
    MulMod(c, b, Mul(c, d, c.g));
    MulMul(c, b, d, c.g);
    MulAdd(c, a, b * d, c.g);
    Regroup(e, r, d, w);
  }

  lemma Regroup(e: nat, r: nat, d: nat, w: nat)
    ensures e * w + r * w * d == (e + r * d) * w
  {}

  /** If s k and t differ by a multiple of n and w inverts s, then t w is k modulo n. */
  lemma SameMultiple(t: nat, s: nat, k: nat, w: nat, n: nat, m: int)
    requires 0 < k < n && s * k == t + m * n && s * w % n == 1
    ensures Times(t, w) % n == k
  {
    var i := Quotient(s * w, n);
    Substitute(t, s, k, w, n, -m, i);
    Remainder(Times(t, w), k, i * k - m * w, n);
  }

  lemma Quotient(a: int, n: nat) returns (i: int)
    requires n > 0 && a % n == 1
    ensures a == i * n + 1
  {
    i := a / n;
  }

  lemma Remainder(a: int, k: nat, q: int, n: nat)
    requires k < n && a == k + q * n
    ensures a % n == k
  {
    ModAddMultiple(k, q, n);
    ModSmall(k, n);
  }

  lemma Substitute(t: int, s: int, k: int, w: int, n: int, d: int, i: int)
    requires t == s * k + d * n && s * w == i * n + 1
    ensures t * w == k + (i * k + d * w) * n
  {
    calc {
      t * w;
      { Distribute(s * k, d * n, w); }
      s * k * w + d * n * w;
      { assert s * k * w == s * w * k && d * n * w == d * w * n; }
      s * w * k + d * w * n;
      (i * n + 1) * k + d * w * n;
    }
  }

  /** Normalising S never changes whether the verification equation holds, for any S whatsoever. */
  lemma NormalKeepsVerification<P(!new)>(c: Group<P>, q: P, e: nat, r: int, s: int)
    requires Lawful(c)
    ensures Verifies(c, q, e, r, Normal(c.n, s)) <==> Verifies(c, q, e, r, s)
  {
    if s > HalfOrder(c.n) {
      if Verifies(c, q, e, r, s) { OppositeVerifies(c, q, e, r, s); }
      if Verifies(c, q, e, r, c.n - s) { OppositeVerifies(c, q, e, r, c.n - s); }
    }
  }

  // ------------------------------------------------------- encoded signatures

  /** ASN.1 encoding of a pair of integers. */
  datatype SigCodec = SigCodec(marshal: (int, int) -> Bytes, unmarshal: Bytes -> Option<(int, int)>)

  ghost predicate CodecLaw(der: SigCodec) {
    forall r, s :: der.unmarshal(der.marshal(r, s)) == Some((r, s))
  }

  function Unmarshal(der: SigCodec, sig: Bytes): (r: Result<(int, int), SigError>)
    ensures r.Success? ==> r.value.0 > 0 && r.value.1 > 0
  {
    match der.unmarshal(sig)
    case None => Failure(BadEncoding)
    case Some(rs) =>
      if rs.0 <= 0 then Failure(NotPositiveR)
      else if rs.1 <= 0 then Failure(NotPositiveS)
      else Success(rs)
  }

  /** SignatureToLowS: the same bytes when S is low already, a fresh encoding otherwise. */
  function LowSignature(k: EcKey, der: SigCodec, sig: Bytes): Result<Bytes, SigError> {
    match Unmarshal(der, sig)
    case Failure(e) => Failure(e)
    case Success(rs) =>
      if !k.recognized then Failure(CurveNotRecognized)
      else if rs.1 > HalfOrder(k.order) then Success(der.marshal(rs.0, k.order - rs.1))
      else Success(sig)
  }

  method SignatureToLowS(k: EcKey, der: SigCodec, sig: Bytes) returns (res: Result<Bytes, SigError>)
    ensures res == LowSignature(k, der, sig)
  {
    var rs := Unmarshal(der, sig);
    if rs.Failure? { return Failure(rs.error); }
    var s := new BigInt(rs.value.1);
    var low := ToLowS(k, s);
    if low.Failure? { return Failure(low.error); }
    if low.value.1 { return Success(der.marshal(rs.value.0, low.value.0.v)); }
    res := Success(sig);
  }

  lemma UnmarshalIff(der: SigCodec, r: int, s: int)
    requires CodecLaw(der)
    ensures Unmarshal(der, der.marshal(r, s)) == Success((r, s)) <==> r > 0 && s > 0
  {
    assert der.unmarshal(der.marshal(r, s)) == Some((r, s));
  }

  /** `out` encodes the R of `sig` and the lower of S and n - S; if S is not below n, it does not decode. */
  predicate LowFormOf(der: SigCodec, n: nat, sig: Bytes, out: Bytes) {
    && Unmarshal(der, sig).Success?
    && var rs, low := Unmarshal(der, sig).value, Unmarshal(der, out);
       if rs.1 >= n then low.Failure?
       else low.Success? && low.value.0 == rs.0 && low.value.1 <= n / 2 && (low.value.1 == rs.1 || low.value.1 == n - rs.1)
  }

  /** SignatureToLowS succeeds on every signature of a known curve, keeps R and lowers S. */
  lemma LowSignatureForm(k: EcKey, der: SigCodec, sig: Bytes)
    requires CodecLaw(der)
    ensures LowSignature(k, der, sig).Success? <==> k.recognized && Unmarshal(der, sig).Success?
    ensures LowSignature(k, der, sig).Success? ==> LowFormOf(der, k.order, sig, LowSignature(k, der, sig).value)
  {
    if Unmarshal(der, sig).Success? {
      var rs := Unmarshal(der, sig).value;
      assert der.unmarshal(der.marshal(rs.0, k.order - rs.1)) == Some((rs.0, k.order - rs.1));
    }
  }

  /** The converted signature verifies exactly when the original does; neither does if S is not below the order. */
  lemma LowFormVerifies<P(!new)>(c: Group<P>, q: P, der: SigCodec, sig: Bytes, out: Bytes, e: nat)
    requires Lawful(c) && LowFormOf(der, c.n, sig, out)
    ensures var rs, low := Unmarshal(der, sig).value, Unmarshal(der, out);
            if low.Success? then Verifies(c, q, e, low.value.0, low.value.1) <==> Verifies(c, q, e, rs.0, rs.1)
            else !Verifies(c, q, e, rs.0, rs.1)
  {
    var rs, low := Unmarshal(der, sig).value, Unmarshal(der, out);
    if low.Success? && low.value.1 == c.n - rs.1 {
      if Verifies(c, q, e, rs.0, rs.1) { OppositeVerifies(c, q, e, rs.0, rs.1); }
      if Verifies(c, q, e, rs.0, c.n - rs.1) { OppositeVerifies(c, q, e, rs.0, c.n - rs.1); }
    }
  }

  /** Normalising an encoded signature twice is the same as once, exactly when its S is below the order. */
  lemma LowSignatureIdempotentIff(k: EcKey, der: SigCodec, sig: Bytes)
    requires CodecLaw(der) && LowSignature(k, der, sig).Success?
    ensures var out := LowSignature(k, der, sig).value;
            LowSignature(k, der, out) == Success(out) <==> Unmarshal(der, sig).value.1 < k.order
  {
    var rs := Unmarshal(der, sig).value;
    if rs.1 > HalfOrder(k.order) {
      assert der.unmarshal(der.marshal(rs.0, k.order - rs.1)) == Some((rs.0, k.order - rs.1));
    }
  }

  // ------------------------------------------------------- signing and verifying

  /** verifyECDSA of the software provider. */
  ghost function SwVerify<P>(c: Group<P>, q: P, recognized: bool, der: SigCodec, sig: Bytes, e: nat): Result<bool, SigError> {
    match Unmarshal(der, sig)
    case Failure(err) => Failure(err)
    case Success(rs) =>
      if !recognized then Failure(CurveNotRecognized)
      else if rs.1 > HalfOrder(c.n) then Failure(HighS)
      else Success(Verifies(c, q, e, rs.0, rs.1))
  }

  /** The verifier accepts exactly the low-S encodings of pairs that satisfy the equation, on a known curve. */
  lemma SwVerifyIff<P>(c: Group<P>, q: P, recognized: bool, der: SigCodec, sig: Bytes, e: nat)
    ensures SwVerify(c, q, recognized, der, sig, e) == Success(true) <==>
            && recognized && der.unmarshal(sig).Some?
            && var rs := der.unmarshal(sig).value; 2 * rs.1 <= c.n && Verifies(c, q, e, rs.0, rs.1)
  {}

  /** signECDSA of either provider, from the raw pair the signing primitive returns. */
  method SignLowS(k: EcKey, der: SigCodec, r: int, rawS: BigInt) returns (res: Result<Bytes, SigError>)
    modifies rawS
    ensures res == if k.recognized then Success(der.marshal(r, Normal(k.order, old(rawS.v)))) else Failure(CurveNotRecognized)
  {
    var low := ToLowS(k, rawS);
    if low.Failure? { return Failure(low.error); }
    res := Success(der.marshal(r, low.value.0.v));
  }

  /** The PKCS#11 provider's inlined normalisation has the same effect. */
  method P11SignLowS(k: EcKey, der: SigCodec, r: int, rawS: BigInt) returns (res: Result<Bytes, SigError>)
    modifies rawS
    ensures res == if k.recognized then Success(der.marshal(r, Normal(k.order, old(rawS.v)))) else Failure(CurveNotRecognized)
  {
    if !k.recognized { return Failure(CurveNotRecognized); }
    if rawS.v > HalfOrder(k.order) {
      rawS.v := k.order - rawS.v;
    }
    res := Success(der.marshal(r, rawS.v));
  }

  /** Whatever valid pair the signing primitive returns, the published signature passes verification. */
  lemma SignedVerifies<P(!new)>(c: Group<P>, q: P, der: SigCodec, e: nat, r: int, s: int)
    requires Lawful(c) && CodecLaw(der) && Verifies(c, q, e, r, s)
    ensures SwVerify(c, q, true, der, der.marshal(r, Normal(c.n, s)), e) == Success(true)
  {
    NormalRangeIff(c.n, s);
    NormalKeepsVerification(c, q, e, r, s);
    assert der.unmarshal(der.marshal(r, Normal(c.n, s))) == Some((r, Normal(c.n, s)));
  }

  /** Of a valid pair and its opposite, verification accepts exactly one when the order is odd. */
  lemma OneFormAccepted<P(!new)>(c: Group<P>, q: P, der: SigCodec, e: nat, r: int, s: int)
    requires Lawful(c) && c.n % 2 == 1 && CodecLaw(der) && Verifies(c, q, e, r, s)
    ensures SwVerify(c, q, true, der, der.marshal(r, s), e) == Success(true) <==>
            SwVerify(c, q, true, der, der.marshal(r, c.n - s), e) == Failure(HighS)
    ensures SwVerify(c, q, true, der, der.marshal(r, s), e) == Failure(HighS) <==>
            SwVerify(c, q, true, der, der.marshal(r, c.n - s), e) == Success(true)
  {
    OppositeVerifies(c, q, e, r, s);
    assert der.unmarshal(der.marshal(r, s)) == Some((r, s));
    assert der.unmarshal(der.marshal(r, c.n - s)) == Some((r, c.n - s));
  }
}
