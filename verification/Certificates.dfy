/**
 * X.509 certificates as the membership service sees them, and the sanitisation of ECDSA-signed
 * certificates in msp/cert.go.  ASN.1 and certificate parsing are parameters.
 */
module Certificates {
  import opened Wrappers
  import opened BigEndian
  import opened LowS

  /** The outer ASN.1 structure: signed body, algorithm, signature. */
  datatype Encoded = Encoded(tbs: Bytes, algorithm: Bytes, signature: Bytes)

  /** What parsing reads out of the signed body. */
  datatype Body = Body(
    isCA: bool,
    ecdsaSigned: bool,
    ski: Option<Bytes>,
    serial: int,
    notBefore: int,
    units: seq<string>,
    key: Option<EcKey>)

  datatype Certificate = Certificate(raw: Bytes, encoded: Encoded, body: Body)

  datatype X509 = X509(
    unmarshal: Bytes -> Option<Encoded>,
    marshal: Encoded -> Option<Bytes>,
    body: (Bytes, Bytes) -> Option<Body>,
    sig: SigCodec)

  ghost predicate X509Law(x: X509) {
    && CodecLaw(x.sig)
    && forall d :: x.marshal(d).Some? ==> x.unmarshal(x.marshal(d).value) == Some(d)
  }

  function ParseCertificate(x: X509, raw: Bytes): Option<Certificate> {
    match x.unmarshal(raw)
    case None => None
    case Some(d) =>
      match x.body(d.tbs, d.algorithm)
      case None => None
      case Some(b) => Some(Certificate(raw, d, b))
  }

  /** A certificate that came out of the parser; it is determined by its raw bytes. */
  predicate Parsed(x: X509, cert: Certificate) {
    ParseCertificate(x, cert.raw) == Some(cert)
  }

  datatype CertError =
    | BadSignature(cause: SigError)
    | ParentKeyNotEcdsa      // the type assertion on the parent's key panics
    | BadCertificateEncoding
    | CannotReencode

  /** sanitizeECDSASignedCert. */
  function Sanitized(x: X509, cert: Certificate, parent: Certificate): Result<Certificate, CertError> {
    match parent.body.key
    case None => Failure(ParentKeyNotEcdsa)
    case Some(key) =>
      match LowSignature(key, x.sig, cert.encoded.signature)
      case Failure(e) => Failure(BadSignature(e))
      case Success(expected) =>
        if cert.encoded.signature == expected then Success(cert)
        else Reissued(x, cert, expected)
  }

  /** The certificate re-encoded with another signature value. */
  function Reissued(x: X509, cert: Certificate, signature: Bytes): Result<Certificate, CertError> {
    match x.unmarshal(cert.raw)
    case None => Failure(BadCertificateEncoding)
    case Some(d) =>
      match x.marshal(d.(signature := signature))
      case None => Failure(CannotReencode)
      case Some(raw) =>
        match ParseCertificate(x, raw)
        case None => Failure(BadCertificateEncoding)
        case Some(c) => Success(c)
  }

  /** Sanitisation changes nothing but the signature value, which becomes the low-S one. */
  lemma SanitizeKeepsSignedBody(x: X509, cert: Certificate, parent: Certificate)
    requires X509Law(x) && Parsed(x, cert) && Sanitized(x, cert, parent).Success?
    ensures var c := Sanitized(x, cert, parent).value;
            && Parsed(x, c)
            && c.encoded.tbs == cert.encoded.tbs && c.encoded.algorithm == cert.encoded.algorithm
            && c.body == cert.body
            && LowSignature(parent.body.key.value, x.sig, cert.encoded.signature) == Success(c.encoded.signature)
  {
    var expected := LowSignature(parent.body.key.value, x.sig, cert.encoded.signature).value;
    if cert.encoded.signature != expected {
      var d := cert.encoded.(signature := expected);
      assert x.unmarshal(x.marshal(d).value) == Some(d);
    }
  }

  /**
   * Sanitising again changes nothing, exactly when the S in the original signature is below the
   * parent's order; otherwise the second pass is refused.
   */
  lemma SanitizeIdempotentIff(x: X509, cert: Certificate, parent: Certificate)
    requires X509Law(x) && Parsed(x, cert) && Sanitized(x, cert, parent).Success?
    ensures var c := Sanitized(x, cert, parent).value;
            Sanitized(x, c, parent) == Success(c) <==>
            Unmarshal(x.sig, cert.encoded.signature).value.1 < parent.body.key.value.order
  {
    SanitizeKeepsSignedBody(x, cert, parent);
    var c, key := Sanitized(x, cert, parent).value, parent.body.key.value;
    LowSignatureIdempotentIff(key, x.sig, cert.encoded.signature);
    var again := LowSignature(key, x.sig, c.encoded.signature);
    if again.Success? && again.value != c.encoded.signature {
      LowAgainFixed(key, x.sig, cert.encoded.signature);
    }
  }

  /** A normalised signature is either left alone or refused by a second normalisation. */
  lemma LowAgainFixed(k: EcKey, der: SigCodec, sig: Bytes)
    requires CodecLaw(der) && LowSignature(k, der, sig).Success?
    ensures var again := LowSignature(k, der, LowSignature(k, der, sig).value);
            again.Success? ==> again == LowSignature(k, der, sig)
  {
    var rs := Unmarshal(der, sig).value;
    if rs.1 > HalfOrder(k.order) {
      assert der.unmarshal(der.marshal(rs.0, k.order - rs.1)) == Some((rs.0, k.order - rs.1));
    }
  }

  /** Sanitising succeeds exactly when the signature decodes for the parent's known curve and, if it changes, re-encodes. */
  lemma SanitizeSucceedsIff(x: X509, cert: Certificate, parent: Certificate)
    requires X509Law(x) && Parsed(x, cert)
    ensures Sanitized(x, cert, parent).Success? <==>
            && parent.body.key.Some? && parent.body.key.value.recognized
            && Unmarshal(x.sig, cert.encoded.signature).Success?
            && var low := LowSignature(parent.body.key.value, x.sig, cert.encoded.signature).value;
               low == cert.encoded.signature || x.marshal(cert.encoded.(signature := low)).Some?
  {
    if parent.body.key.Some? && LowSignature(parent.body.key.value, x.sig, cert.encoded.signature).Success? {
      var d := cert.encoded.(signature := LowSignature(parent.body.key.value, x.sig, cert.encoded.signature).value);
      if x.marshal(d).Some? { assert x.unmarshal(x.marshal(d).value) == Some(d); }
    }
  }

  /** The sanitised certificate carries the low form of the original signature, for the parent's order. */
  lemma SanitizedIsLow(x: X509, cert: Certificate, parent: Certificate)
    requires X509Law(x) && Parsed(x, cert) && Sanitized(x, cert, parent).Success?
    ensures LowFormOf(x.sig, parent.body.key.value.order, cert.encoded.signature, Sanitized(x, cert, parent).value.encoded.signature)
  {
    SanitizeKeepsSignedBody(x, cert, parent);
    LowSignatureForm(parent.body.key.value, x.sig, cert.encoded.signature);
  }

  /** A certificate and its twin with the opposite S are one and the same after sanitising, byte for byte. */
  lemma TwinsAgree(x: X509, low: Certificate, high: Certificate, parent: Certificate, r: int, s: int)
    requires X509Law(x) && Parsed(x, low) && Parsed(x, high)
    requires parent.body.key.Some? && parent.body.key.value.recognized && x.marshal(low.encoded) == Some(low.raw)
    requires r > 0 && s > 0 && 2 * s < parent.body.key.value.order
    requires low.encoded.signature == x.sig.marshal(r, s)
    requires high.encoded == low.encoded.(signature := x.sig.marshal(r, parent.body.key.value.order - s))
    ensures Sanitized(x, high, parent) == Success(low) && Sanitized(x, low, parent) == Success(low)
  {
    var n := parent.body.key.value.order;
    assert x.sig.unmarshal(x.sig.marshal(r, s)) == Some((r, s));
    assert x.sig.unmarshal(x.sig.marshal(r, n - s)) == Some((r, n - s));
    assert high.encoded.(signature := x.sig.marshal(r, s)) == low.encoded;
  }
}
