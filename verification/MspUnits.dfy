/**
 * Organisational units: what setupOUs records for a configured (CA certificate, unit) pair, and
 * how that agrees with the check validateIdentityOUs makes (msp/mspimpl.go).
 */
module MspUnits {
  import opened Wrappers
  import opened BigEndian
  import opened Certificates
  import opened MspState

  datatype OuConfig = OuConfig(certificate: Bytes, unit: string)

  predicate AmongRaw(cert: Certificate, certs: seq<Certificate>) {
    exists i :: 0 <= i < |certs| && certs[i].raw == cert.raw
  }

  /** The certification path of a configured CA: a root alone, an intermediate with its chain. */
  function CaChain(env: Env, s: State, cert: Certificate): Result<seq<Certificate>, MspError> {
    if AmongRaw(cert, s.roots) then Success([cert])
    else if AmongRaw(cert, s.intermediates) then ValidationChain(env, s, cert, true)
    else Failure(OuCertNotConfigured)
  }

  /** The CA certificate a pair names, sanitised for comparison with the configured CAs. */
  function OuCa(env: Env, s: State, conf: OuConfig): Result<Certificate, MspError> {
    match CertFromPem(env, conf.certificate)
    case Failure(e) => Failure(e)
    case Success(cert) => SanitizedCert(env, s.opts, cert)
  }

  /** The identifier recorded for a pair, or the error that makes Setup fail. */
  function OuEntry(env: Env, s: State, conf: OuConfig): Result<OuIdentifier, MspError> {
    match OuCa(env, s, conf)
    case Failure(e) => Failure(e)
    case Success(ca) =>
      match CaChain(env, s, ca)
      case Failure(e) => Failure(e)
      case Success(chain) =>
        match ChainIdentifier(env, s, chain)
        case None => Failure(UnknownHash)
        case Some(cid) => Success(OuIdentifier(conf.unit, cid))
  }

  /** Some pair's identifier is ou. */
  ghost predicate Configured(env: Env, s: State, confs: seq<OuConfig>, ou: OuIdentifier) {
    exists i :: 0 <= i < |confs| && OuEntry(env, s, confs[i]) == Success(ou)
  }

  /** The recorded identifiers are exactly those of the configured pairs, each recorded once. */
  ghost predicate UnitsExact(env: Env, s: State, confs: seq<OuConfig>) {
    && (forall i :: 0 <= i < |confs| ==> OuEntry(env, s, confs[i]).Success?)
    && (forall ou :: Recognized(s, ou) <==> Configured(env, s, confs, ou))
    && (forall unit :: unit in s.ouIdentifiers ==> s.ouIdentifiers[unit] != [] && Distinct(s.ouIdentifiers[unit]))
  }

  /** Recording identifiers does not change what a pair stands for. */
  lemma OuEntryFrame(env: Env, s: State, units: map<string, seq<Bytes>>, conf: OuConfig)
    ensures OuEntry(env, s.(ouIdentifiers := units), conf) == OuEntry(env, s, conf)
  {}

  lemma ConfiguredFrame(env: Env, s: State, units: map<string, seq<Bytes>>, confs: seq<OuConfig>, ou: OuIdentifier)
    ensures Configured(env, s.(ouIdentifiers := units), confs, ou) == Configured(env, s, confs, ou)
  {
    forall i | 0 <= i < |confs|
      ensures OuEntry(env, s.(ouIdentifiers := units), confs[i]) == OuEntry(env, s, confs[i])
    {
      OuEntryFrame(env, s, units, confs[i]);
    }
  }

  lemma ConfiguredStep(env: Env, s: State, confs: seq<OuConfig>, conf: OuConfig, ou: OuIdentifier)
    ensures Configured(env, s, confs + [conf], ou) <==> Configured(env, s, confs, ou) || OuEntry(env, s, conf) == Success(ou)
  {
    var all := confs + [conf];
    assert all[|confs|] == conf;
    if i :| 0 <= i < |confs| && OuEntry(env, s, confs[i]) == Success(ou) { assert all[i] == confs[i]; }
  }

  // ------------------------------------------- what the hash identifies

  /** Certificate encodings are non-empty and none is a proper prefix of another. */
  ghost predicate PrefixFree(env: Env) {
    && (forall a :: Parsed(env.x, a) ==> a.raw != [])
    && (forall a, b :: Parsed(env.x, a) && Parsed(env.x, b) && a.raw <= b.raw ==> a.raw == b.raw)
  }

  /** The hash tells the paths of the configured CAs from the path above the identity's certificate. */
  ghost predicate HashTellsApart(env: Env, s: State, confs: seq<OuConfig>, cert: Certificate) {
    forall i :: 0 <= i < |confs| && OuCa(env, s, confs[i]).Success? && CertificationChain(env, s, cert).Success? ==>
      PathsApart(env, s, CaChain(env, s, OuCa(env, s, confs[i]).value), CertificationChain(env, s, cert).value[1..])
  }

  ghost predicate PathsApart(env: Env, s: State, path: Result<seq<Certificate>, MspError>, other: seq<Certificate>) {
    path.Success? && env.hash(s.hashName, RawBytes(path.value)) == env.hash(s.hashName, RawBytes(other)) ==>
      RawBytes(path.value) == RawBytes(other)
  }

  ghost predicate AllParsed(env: Env, certs: seq<Certificate>) {
    forall i :: 0 <= i < |certs| ==> Parsed(env.x, certs[i])
  }

  lemma OnePrefixesOther(x: Bytes, ra: Bytes, y: Bytes, rb: Bytes)
    requires x + ra == y + rb
    ensures x <= y || y <= x
  {
    assert forall k :: 0 <= k < |x| && k < |y| ==> x[k] == (x + ra)[k] == (y + rb)[k] == y[k];
  }

  /** Concatenated certificates can be taken apart in one way only. */
  lemma {:induction false} RawBytesInjective(env: Env, a: seq<Certificate>, b: seq<Certificate>)
    requires PrefixFree(env) && AllParsed(env, a) && AllParsed(env, b)
    requires RawBytes(a) == RawBytes(b)
    ensures a == b
  {
    if a == [] || b == [] {
    } else {
      var x, y := a[0].raw, b[0].raw;
      var ra, rb := RawBytes(a[1..]), RawBytes(b[1..]);
      assert x + ra == y + rb;
      OnePrefixesOther(x, ra, y, rb);
      assert x == y;
      assert ra == (x + ra)[|x|..] == (y + rb)[|y|..] == rb;
      RawBytesInjective(env, a[1..], b[1..]);
      assert a == [a[0]] + a[1..] && b == [b[0]] + b[1..];
    }
  }

  ghost predicate PoolsParsed(env: Env, s: State) {
    s.opts.Some? ==> AllParsed(env, s.opts.value.roots) && AllParsed(env, s.opts.value.intermediates)
  }

  lemma ChainParsed(env: Env, s: State, cert: Certificate)
    requires ChainLaw(env) && PoolsParsed(env, s) && Parsed(env.x, cert)
    requires UniqueChain(env, s.opts, cert).Success?
    ensures AllParsed(env, UniqueChain(env, s.opts, cert).value)
    ensures UniqueChain(env, s.opts, cert).value != [] && UniqueChain(env, s.opts, cert).value[0] == cert
  {
    var chains := env.chains(cert, s.opts.value, cert.body.notBefore + 1).value;
    assert ChainsFrom(cert, s.opts.value, chains);
  }

  lemma CaChainParsed(env: Env, s: State, ca: Certificate)
    requires ChainLaw(env) && PoolsParsed(env, s) && Parsed(env.x, ca)
    requires CaChain(env, s, ca).Success?
    ensures AllParsed(env, CaChain(env, s, ca).value)
    ensures CaChain(env, s, ca).value != [] && CaChain(env, s, ca).value[0] == ca
  {
    if !AmongRaw(ca, s.roots) { ChainParsed(env, s, ca); }
  }

  // ------------------------------------------------------- entries of CAs

  /** A pair that names a configured root always has an entry: the hash of the root alone. */
  lemma EntryOfRoot(env: Env, s: State, conf: OuConfig, ca: Certificate)
    requires OuCa(env, s, conf) == Success(ca) && AmongRaw(ca, s.roots) && env.hashKnown(s.hashName)
    ensures OuEntry(env, s, conf) == Success(OuIdentifier(conf.unit, env.hash(s.hashName, ca.raw)))
  {
    assert RawBytes([ca]) == ca.raw + RawBytes([]) == ca.raw;
  }

  /** A pair that names a configured intermediate has an entry exactly when no intermediate lies beneath it. */
  lemma EntryOfIntermediateIff(env: Env, s: State, conf: OuConfig, ca: Certificate, path: seq<Certificate>)
    requires ChainLaw(env) && TreeExact(env, s) && env.hashKnown(s.hashName)
    requires OuCa(env, s, conf) == Success(ca) && AmongRaw(ca, s.intermediates) && !AmongRaw(ca, s.roots)
    requires PathOf(env, s, ca, path)
    ensures OuEntry(env, s, conf).Success? <==> !HasIntermediateBeneath(env, s, ca.raw)
    ensures OuEntry(env, s, conf).Success? ==>
              OuEntry(env, s, conf).value == OuIdentifier(conf.unit, env.hash(s.hashName, RawBytes(path)))
  {
    assert ChainsFrom(ca, s.opts.value, env.chains(ca, s.opts.value, ca.body.notBefore + 1).value);
    AboveIff(env, s, ca.raw);
  }

  // ----------------------------------------------------------- the theorems

  /** The identity carries the unit of pair i and was issued by the CA of pair i. */
  ghost predicate BelongsTo(env: Env, s: State, conf: OuConfig, cert: Certificate)
    requires CertificationChain(env, s, cert).Success?
  {
    && conf.unit in cert.body.units
    && OuCa(env, s, conf).Success?
    && OuCa(env, s, conf).value == CertificationChain(env, s, cert).value[1]
  }

  /** The issuer's own chain, where the issuer is configured, is the tail of the identity's chain. */
  ghost predicate IssuerChainIsTail(env: Env, s: State, cert: Certificate)
    requires CertificationChain(env, s, cert).Success?
  {
    var chain := CertificationChain(env, s, cert).value;
    CaChain(env, s, chain[1]).Success? ==> CaChain(env, s, chain[1]).value == chain[1..]
  }

  lemma UnitOfIdentity(env: Env, s: State, cert: Certificate, ou: OuIdentifier)
    requires CertificationChain(env, s, cert).Success? && env.hashKnown(s.hashName)
    ensures ou in OrganizationalUnits(env, s, cert) <==>
            ou.unit in cert.body.units
            && ou.certifiers == env.hash(s.hashName, RawBytes(CertificationChain(env, s, cert).value[1..]))
  {
    var ous := OrganizationalUnits(env, s, cert);
    if ou.unit in cert.body.units && ou.certifiers == env.hash(s.hashName, RawBytes(CertificationChain(env, s, cert).value[1..])) {
      var i :| 0 <= i < |cert.body.units| && cert.body.units[i] == ou.unit;
      assert ous[i] == ou;
    }
  }

  /** A configured pair admits the identities of its CA that carry its unit. */
  lemma PairAdmits(env: Env, s: State, confs: seq<OuConfig>, cert: Certificate, i: nat)
    requires UnitsExact(env, s, confs) && i < |confs|
    requires CertificationChain(env, s, cert).Success?
    requires IssuerChainIsTail(env, s, cert) && BelongsTo(env, s, confs[i], cert)
    ensures OusValid(env, s, cert)
  {
    var chain := CertificationChain(env, s, cert).value;
    assert OuEntry(env, s, confs[i]).Success?;
    var ou := OuEntry(env, s, confs[i]).value;
    assert CaChain(env, s, chain[1]).value == chain[1..];
    UnitOfIdentity(env, s, cert, ou);
    assert Recognized(s, ou);
  }

  /** Whoever a configured pair admits carries its unit and was issued by its CA. */
  lemma PairAdmitsOnly(env: Env, s: State, confs: seq<OuConfig>, cert: Certificate, ou: OuIdentifier) returns (i: nat)
    requires X509Law(env.x) && ChainLaw(env) && PrefixFree(env) && HashTellsApart(env, s, confs, cert)
    requires PoolsParsed(env, s) && UnitsExact(env, s, confs) && Parsed(env.x, cert)
    requires CertificationChain(env, s, cert).Success?
    requires ou in OrganizationalUnits(env, s, cert) && Recognized(s, ou)
    ensures i < |confs| && BelongsTo(env, s, confs[i], cert)
  {
    i :| 0 <= i < |confs| && OuEntry(env, s, confs[i]) == Success(ou);
    var ca := OuCa(env, s, confs[i]).value;
    FromPemParsed(env, confs[i].certificate);
    SanitizedParsed(env, s.opts, CertFromPem(env, confs[i].certificate).value);
    CaChainParsed(env, s, ca);
    ChainParsed(env, s, cert);
    var chain := CertificationChain(env, s, cert).value;
    assert env.hashKnown(s.hashName);
    UnitOfIdentity(env, s, cert, ou);
    assert PathsApart(env, s, CaChain(env, s, ca), chain[1..]);
    RawBytesInjective(env, CaChain(env, s, ca).value, chain[1..]);
  }

  /**
   * Setup and checking agree: when OUs are configured and the issuer's own chain is the tail of
   * the identity's chain, the OU check passes exactly for identities that some configured pair
   * names, by issuing CA and unit.
   */
  lemma UnitCheckIff(env: Env, s: State, confs: seq<OuConfig>, cert: Certificate)
    requires X509Law(env.x) && ChainLaw(env) && PrefixFree(env) && HashTellsApart(env, s, confs, cert)
    requires PoolsParsed(env, s) && UnitsExact(env, s, confs) && Parsed(env.x, cert)
    requires CertificationChain(env, s, cert).Success? && IssuerChainIsTail(env, s, cert)
    ensures OusValid(env, s, cert) <==>
            (confs == [] || exists i :: 0 <= i < |confs| && BelongsTo(env, s, confs[i], cert))
  {
    UnitsConfiguredIff(env, s, confs);
    if OusValid(env, s, cert) && confs != [] {
      var ou :| ou in OrganizationalUnits(env, s, cert) && Recognized(s, ou);
      var i := PairAdmitsOnly(env, s, confs, cert, ou);
    }
    if i :| 0 <= i < |confs| && BelongsTo(env, s, confs[i], cert) {
      PairAdmits(env, s, confs, cert, i);
    }
  }

  lemma UnitsConfiguredIff(env: Env, s: State, confs: seq<OuConfig>)
    requires UnitsExact(env, s, confs)
    ensures |s.ouIdentifiers| > 0 <==> confs != []
  {
    if confs != [] {
      assert OuEntry(env, s, confs[0]).Success?;
      assert Recognized(s, OuEntry(env, s, confs[0]).value);
    }
    if |s.ouIdentifiers| > 0 {
      var unit :| unit in s.ouIdentifiers;
      var ou := OuIdentifier(unit, s.ouIdentifiers[unit][0]);
      assert Recognized(s, ou);
    }
  }
}
