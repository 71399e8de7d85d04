/**
 * What a membership service provider decides, as a function of its state (msp/mspimpl.go,
 * msp/identities.go).  Chain building, PEM, hashing, key import and CRL signature checks are
 * parameters collected in Env.
 */
module MspState {
  import opened Wrappers
  import opened BigEndian
  import opened LowS
  import opened Certificates

  datatype Pools = Pools(roots: seq<Certificate>, intermediates: seq<Certificate>)

  /** A revocation list: its authority key identifier, the serials it lists, and its signed content. */
  datatype Crl = Crl(aki: Option<Bytes>, revoked: seq<int>, content: Bytes)

  datatype Env = Env(
    x: X509,
    pem: Bytes -> Option<Bytes>,
    chains: (Certificate, Pools, int) -> Option<seq<seq<Certificate>>>,
    hashKnown: string -> bool,
    hash: (string, Bytes) -> Bytes,
    importsKey: Certificate -> bool,
    storedKey: Certificate -> Option<nat>,
    importedKey: Bytes -> Option<nat>,
    signs: nat -> bool,
    signedCrl: (Certificate, Crl) -> bool,
    parseCrl: Bytes -> Option<Crl>)

  /** x509 Verify returns chains that start with the certificate and otherwise use the pools. */
  ghost predicate ChainLaw(env: Env) {
    forall cert, pools, time :: env.chains(cert, pools, time).Some? ==>
      ChainsFrom(cert, pools, env.chains(cert, pools, time).value)
  }

  ghost predicate ChainsFrom(cert: Certificate, pools: Pools, chains: seq<seq<Certificate>>) {
    forall i :: 0 <= i < |chains| ==>
      && chains[i] != [] && chains[i][0] == cert
      && forall k :: 0 < k < |chains[i]| ==> chains[i][k] in pools.roots || chains[i][k] in pools.intermediates
  }

  /** The fields of bccspmsp that validation reads. */
  datatype State = State(
    name: string,
    hashName: string,
    roots: seq<Certificate>,
    intermediates: seq<Certificate>,
    admins: seq<Certificate>,
    opts: Option<Pools>,
    crls: seq<Crl>,
    internalNodes: map<Bytes, bool>,
    ouIdentifiers: map<string, seq<Bytes>>)

  datatype MspError =
    | NoConfig | BadConfig | NoVerifyOptions | NotVerified | NotUniqueChain(count: nat) | ChainTooShort | ParentNotLeaf
    | CaAsIdentity | IndexPanic | BadPem | BadCertificate | UnknownHash | KeyNotImported
    | NotSanitized(cause: CertError) | NoRootCerts | BadCrl | NotCaCert | CaRevoked
    | NilKeyPanic | NoPrivateKey | BadSigner | OuCertNotConfigured | AdminInvalid(index: nat) | WrongMsp

  // ------------------------------------------------------------- chains

  /** getUniqueValidationChain, at the given time. */
  function UniqueChainAt(env: Env, opts: Option<Pools>, cert: Certificate, time: int): Result<seq<Certificate>, MspError> {
    match opts
    case None => Failure(NoVerifyOptions)
    case Some(pools) =>
      match env.chains(cert, pools, time)
      case None => Failure(NotVerified)
      case Some(chains) => if |chains| != 1 then Failure(NotUniqueChain(|chains|)) else Success(chains[0])
  }

  /** getUniqueValidationChain under getValidityOptsForCert: one second into the certificate's validity. */
  function UniqueChain(env: Env, opts: Option<Pools>, cert: Certificate): Result<seq<Certificate>, MspError> {
    UniqueChainAt(env, opts, cert, cert.body.notBefore + 1)
  }

  predicate Internal(s: State, cert: Certificate) {
    cert.raw in s.internalNodes && s.internalNodes[cert.raw]
  }

  /** getValidationChain: the parent must be a leaf of the certification tree. */
  function ValidationChain(env: Env, s: State, cert: Certificate, isIntermediateChain: bool): (r: Result<seq<Certificate>, MspError>)
    ensures r.Success? ==> |r.value| >= 2
  {
    match UniqueChain(env, s.opts, cert)
    case Failure(e) => Failure(e)
    case Success(chain) =>
      if |chain| < 2 then Failure(ChainTooShort)
      else if Internal(s, chain[if isIntermediateChain then 0 else 1]) then Failure(ParentNotLeaf)
      else Success(chain)
  }

  /** getCertificationChainForBCCSPIdentity. */
  function CertificationChain(env: Env, s: State, cert: Certificate): (r: Result<seq<Certificate>, MspError>)
    ensures r.Success? ==> |r.value| >= 2
  {
    if s.opts.None? then Failure(NoVerifyOptions)
    else if cert.body.isCA then Failure(CaAsIdentity)
    else ValidationChain(env, s, cert, false)
  }

  function RawBytes(chain: seq<Certificate>): Bytes {
    if chain == [] then [] else chain[0].raw + RawBytes(chain[1..])
  }

  /** getCertificationChainIdentifierFromChain: the hash of the concatenated certificates. */
  function ChainIdentifier(env: Env, s: State, chain: seq<Certificate>): Option<Bytes> {
    if env.hashKnown(s.hashName) then Some(env.hash(s.hashName, RawBytes(chain))) else None
  }

  // ------------------------------------------------------ sanitisation, parsing

  /** sanitizeCert; an index into a chain that is too short is the Go panic. */
  function SanitizedCert(env: Env, opts: Option<Pools>, cert: Certificate): Result<Certificate, MspError> {
    if !cert.body.ecdsaSigned then Success(cert)
    else
      match UniqueChain(env, opts, cert)
      case Failure(e) => Failure(e)
      case Success(chain) =>
        if cert.body.isCA && |chain| == 1 then SanitizedBy(env, cert, cert)
        else if |chain| < 2 then Failure(IndexPanic)
        else SanitizedBy(env, cert, chain[1])
  }

  function SanitizedBy(env: Env, cert: Certificate, parent: Certificate): Result<Certificate, MspError> {
    match Sanitized(env.x, cert, parent)
    case Failure(e) => Failure(NotSanitized(e))
    case Success(c) => Success(c)
  }

  /** getCertFromPem. */
  function CertFromPem(env: Env, bytes: Bytes): Result<Certificate, MspError> {
    match env.pem(bytes)
    case None => Failure(BadPem)
    case Some(der) =>
      match ParseCertificate(env.x, der)
      case None => Failure(BadCertificate)
      case Some(c) => Success(c)
  }

  /** getIdentityFromConf; its key-import error is overwritten before it is looked at. */
  function IdentityFromConf(env: Env, hashName: string, opts: Option<Pools>, bytes: Bytes): Result<Certificate, MspError> {
    match CertFromPem(env, bytes)
    case Failure(e) => Failure(e)
    case Success(cert) => if !env.hashKnown(hashName) then Failure(UnknownHash) else SanitizedCert(env, opts, cert)
  }

  /** deserializeIdentityInternal, which does check the key import. */
  function DeserializeInternal(env: Env, s: State, bytes: Bytes): Result<Certificate, MspError> {
    match CertFromPem(env, bytes)
    case Failure(e) => Failure(e)
    case Success(cert) =>
      if !env.hashKnown(s.hashName) then Failure(UnknownHash)
      else if !env.importsKey(cert) then Failure(KeyNotImported)
      else SanitizedCert(env, s.opts, cert)
  }

  datatype SerializedIdentity = SerializedIdentity(mspid: string, idBytes: Bytes)

  /** DeserializeIdentity: only identities of this MSP. */
  function Deserialize(env: Env, s: State, sid: SerializedIdentity): Result<Certificate, MspError> {
    if sid.mspid != s.name then Failure(WrongMsp) else DeserializeInternal(env, s, sid.idBytes)
  }

  lemma SanitizedParsed(env: Env, opts: Option<Pools>, cert: Certificate)
    requires X509Law(env.x) && Parsed(env.x, cert) && SanitizedCert(env, opts, cert).Success?
    ensures Parsed(env.x, SanitizedCert(env, opts, cert).value)
    ensures SanitizedCert(env, opts, cert).value.body == cert.body
  {
    if cert.body.ecdsaSigned {
      var chain := UniqueChain(env, opts, cert).value;
      SanitizeKeepsSignedBody(env.x, cert, if cert.body.isCA && |chain| == 1 then cert else chain[1]);
    }
  }

  /** The certificate whose key signed cert, as chain building has it: cert itself for a root, else the next one up. */
  ghost predicate SignerOf(env: Env, opts: Option<Pools>, cert: Certificate, signer: Certificate) {
    && opts.Some? && env.chains(cert, opts.value, cert.body.notBefore + 1).Some?
    && var chains := env.chains(cert, opts.value, cert.body.notBefore + 1).value;
       && |chains| == 1
       && (if cert.body.isCA && |chains[0]| == 1 then signer == cert else |chains[0]| >= 2 && signer == chains[0][1])
  }

  /**
   * `low` is cert with nothing but its signature changed: an ECDSA signature has its R kept and its
   * S brought down to half the order of the key that made it; other signatures stay.
   */
  ghost predicate LowCertificate(env: Env, opts: Option<Pools>, cert: Certificate, low: Certificate) {
    && Parsed(env.x, low) && low.body == cert.body
    && low.encoded.tbs == cert.encoded.tbs && low.encoded.algorithm == cert.encoded.algorithm
    && (!cert.body.ecdsaSigned ==> low == cert)
    && (cert.body.ecdsaSigned ==> exists signer :: SignerOf(env, opts, cert, signer) && LowFor(env, signer, cert, low))
  }

  ghost predicate LowFor(env: Env, signer: Certificate, cert: Certificate, low: Certificate) {
    && signer.body.key.Some? && signer.body.key.value.recognized
    && LowFormOf(env.x.sig, signer.body.key.value.order, cert.encoded.signature, low.encoded.signature)
  }

  /** Every certificate that sanitizeCert lets through has its low form. */
  lemma SanitizedLow(env: Env, opts: Option<Pools>, cert: Certificate)
    requires X509Law(env.x) && Parsed(env.x, cert) && SanitizedCert(env, opts, cert).Success?
    ensures LowCertificate(env, opts, cert, SanitizedCert(env, opts, cert).value)
  {
    if cert.body.ecdsaSigned {
      var chain := UniqueChain(env, opts, cert).value;
      var signer := if cert.body.isCA && |chain| == 1 then cert else chain[1];
      SanitizeKeepsSignedBody(env.x, cert, signer);
      SanitizedIsLow(env.x, cert, signer);
      assert SignerOf(env, opts, cert, signer) && LowFor(env, signer, cert, SanitizedCert(env, opts, cert).value);
    }
  }

  /** It lets through what is not ECDSA-signed, and of the rest what has a signer that sanitising succeeds with. */
  lemma SanitizedCertIff(env: Env, opts: Option<Pools>, cert: Certificate)
    ensures SanitizedCert(env, opts, cert).Success? <==>
            !cert.body.ecdsaSigned || exists signer :: SignerOf(env, opts, cert, signer) && Sanitized(env.x, cert, signer).Success?
  {
    if cert.body.ecdsaSigned && SanitizedCert(env, opts, cert).Success? {
      var chain := UniqueChain(env, opts, cert).value;
      assert SignerOf(env, opts, cert, if cert.body.isCA && |chain| == 1 then cert else chain[1]);
    }
  }

  /** A deserialized identity is a certificate of the message in its low form. */
  lemma DeserializedLow(env: Env, s: State, bytes: Bytes)
    requires X509Law(env.x) && DeserializeInternal(env, s, bytes).Success?
    ensures env.pem(bytes).Some? && ParseCertificate(env.x, env.pem(bytes).value).Some?
    ensures var cert := ParseCertificate(env.x, env.pem(bytes).value).value;
            env.importsKey(cert) && LowCertificate(env, s.opts, cert, DeserializeInternal(env, s, bytes).value)
  {
    FromPemParsed(env, bytes);
    SanitizedLow(env, s.opts, CertFromPem(env, bytes).value);
  }

  /** Likewise an identity of the configuration. */
  lemma ConfiguredLow(env: Env, hashName: string, opts: Option<Pools>, bytes: Bytes)
    requires X509Law(env.x) && IdentityFromConf(env, hashName, opts, bytes).Success?
    ensures env.pem(bytes).Some? && ParseCertificate(env.x, env.pem(bytes).value).Some?
    ensures LowCertificate(env, opts, ParseCertificate(env.x, env.pem(bytes).value).value,
                           IdentityFromConf(env, hashName, opts, bytes).value)
  {
    FromPemParsed(env, bytes);
    SanitizedLow(env, opts, CertFromPem(env, bytes).value);
  }

  /** Deserializing needs a known hash, an importable key and a certificate that sanitising lets through. */
  lemma DeserializesIff(env: Env, s: State, bytes: Bytes, low: Certificate)
    ensures DeserializeInternal(env, s, bytes) == Success(low) <==>
            && env.hashKnown(s.hashName) && env.pem(bytes).Some?
            && var cert := ParseCertificate(env.x, env.pem(bytes).value);
               cert.Some? && env.importsKey(cert.value) && SanitizedCert(env, s.opts, cert.value) == Success(low)
  {}

  /** Loading from the configuration does without the key. */
  lemma LoadsIff(env: Env, hashName: string, opts: Option<Pools>, bytes: Bytes, low: Certificate)
    ensures IdentityFromConf(env, hashName, opts, bytes) == Success(low) <==>
            && env.hashKnown(hashName) && env.pem(bytes).Some?
            && var cert := ParseCertificate(env.x, env.pem(bytes).value);
               cert.Some? && SanitizedCert(env, opts, cert.value) == Success(low)
  {}

  /** An identity's own serialization gives it back, provided it is in its low form already. */
  lemma DeserializesItself(env: Env, s: State, cert: Certificate, bytes: Bytes)
    requires Parsed(env.x, cert) && env.pem(bytes) == Some(cert.raw)
    requires env.hashKnown(s.hashName) && env.importsKey(cert) && SanitizedCert(env, s.opts, cert) == Success(cert)
    ensures Deserialize(env, s, SerializedIdentity(s.name, bytes)) == Success(cert)
  {}

  /** Low already: sanitizeCert leaves it alone exactly when S is at most half the signer's order. */
  lemma AlreadyLowIff(env: Env, opts: Option<Pools>, cert: Certificate, signer: Certificate)
    requires X509Law(env.x) && Parsed(env.x, cert) && cert.body.ecdsaSigned && SignerOf(env, opts, cert, signer)
    requires signer.body.key.Some? && signer.body.key.value.recognized && Unmarshal(env.x.sig, cert.encoded.signature).Success?
    ensures SanitizedCert(env, opts, cert) == Success(cert) <==>
            Unmarshal(env.x.sig, cert.encoded.signature).value.1 <= signer.body.key.value.order / 2
  {
    LowSignatureForm(signer.body.key.value, env.x.sig, cert.encoded.signature);
    if Sanitized(env.x, cert, signer).Success? { SanitizeKeepsSignedBody(env.x, cert, signer); }
  }

  lemma FromPemParsed(env: Env, bytes: Bytes)
    ensures CertFromPem(env, bytes).Success? ==> Parsed(env.x, CertFromPem(env, bytes).value)
  {
    if CertFromPem(env, bytes).Success? {
      assert CertFromPem(env, bytes).value.raw == env.pem(bytes).value;
    }
  }

  // ------------------------------------------------------------ validation

  /** The CRL lists the serial, names the issuer's key and carries the issuer's signature. */
  predicate RevokedBy(env: Env, crl: Crl, cert: Certificate, issuer: Certificate) {
    issuer.body.ski.Some? && crl.aki == issuer.body.ski && cert.body.serial in crl.revoked && env.signedCrl(issuer, crl)
  }

  /** The issuer has a key identifier, every CRL an authority key identifier, and none revokes the certificate. */
  ghost predicate NotRevoked(env: Env, crls: seq<Crl>, cert: Certificate, issuer: Certificate) {
    && issuer.body.ski.Some?
    && (forall crl :: crl in crls ==> crl.aki.Some?)
    && (forall crl :: crl in crls ==> !RevokedBy(env, crl, cert, issuer))
  }

  /**
   * The revocation check refuses exactly when the issuer has no key identifier, a CRL has no
   * authority, or a CRL of the issuer's key, signed by the issuer, lists the serial.
   */
  lemma RevokedIff(env: Env, crls: seq<Crl>, cert: Certificate, issuer: Certificate)
    ensures !NotRevoked(env, crls, cert, issuer) <==>
            || issuer.body.ski.None?
            || exists i :: 0 <= i < |crls| &&
                 (crls[i].aki.None? || (crls[i].aki == issuer.body.ski && cert.body.serial in crls[i].revoked && env.signedCrl(issuer, crls[i])))
  {
    if i :| 0 <= i < |crls| && (crls[i].aki.None? || RevokedBy(env, crls[i], cert, issuer)) { assert crls[i] in crls; }
  }

  /** The order of the CRLs does not matter. */
  lemma NotRevokedOrderIrrelevant(env: Env, crls: seq<Crl>, shuffled: seq<Crl>, cert: Certificate, issuer: Certificate)
    requires multiset(crls) == multiset(shuffled)
    ensures NotRevoked(env, crls, cert, issuer) <==> NotRevoked(env, shuffled, cert, issuer)
  {
    assert forall crl :: crl in crls <==> crl in multiset(crls);
    assert forall crl :: crl in shuffled <==> crl in multiset(shuffled);
  }

  datatype OuIdentifier = OuIdentifier(unit: string, certifiers: Bytes)

  /** GetOrganizationalUnits: every unit of the subject, tied to the issuing chain; none on error. */
  function OrganizationalUnits(env: Env, s: State, cert: Certificate): (r: seq<OuIdentifier>)
  {
    match CertificationChain(env, s, cert)
    case Failure(_) => []
    case Success(chain) =>
      match ChainIdentifier(env, s, chain[1..])
      case None => []
      case Some(cid) =>
        seq(|cert.body.units|, i requires 0 <= i < |cert.body.units| => OuIdentifier(cert.body.units[i], cid))
  }

  ghost predicate Recognized(s: State, ou: OuIdentifier) {
    ou.unit in s.ouIdentifiers && ou.certifiers in s.ouIdentifiers[ou.unit]
  }

  /** No OUs are configured, or one of the identity's OUs is. */
  ghost predicate OusValid(env: Env, s: State, cert: Certificate) {
    |s.ouIdentifiers| > 0 ==> exists ou :: ou in OrganizationalUnits(env, s, cert) && Recognized(s, ou)
  }

  /** validateIdentity. */
  ghost predicate Valid(env: Env, s: State, cert: Certificate) {
    && CertificationChain(env, s, cert).Success?
    && NotRevoked(env, s.crls, cert, CertificationChain(env, s, cert).value[1])
    && OusValid(env, s, cert)
  }

  // ------------------------------------------------------------ principals

  datatype Principal =
    | MemberOf(mspid: string)
    | AdminOf(mspid: string)
    | UnknownRole(mspid: string)
    | IdentityIs(sid: SerializedIdentity)
    | UnitOf(mspid: string, ou: OuIdentifier)
    | Malformed

  /** SatisfiesPrincipal for an identity with this certificate. */
  ghost predicate Satisfies(env: Env, s: State, cert: Certificate, p: Principal) {
    match p
    case MemberOf(id) => id == s.name && Valid(env, s, cert)
    case AdminOf(id) => id == s.name && exists a :: a in s.admins && a.raw == cert.raw
    case UnknownRole(_) => false
    case IdentityIs(sid) =>
      var other := Deserialize(env, s, sid);
      other.Success? && other.value.raw == cert.raw && Valid(env, s, other.value)
    case UnitOf(id, ou) => id == s.name && Valid(env, s, cert) && ou in OrganizationalUnits(env, s, cert)
    case Malformed => false
  }

  /** The admins the MSP holds are parsed certificates that validate in the current state. */
  ghost predicate AdminsValid(env: Env, s: State) {
    forall a :: a in s.admins ==> Parsed(env.x, a) && Valid(env, s, a)
  }

  lemma DeserializeParsed(env: Env, s: State, sid: SerializedIdentity)
    requires X509Law(env.x) && Deserialize(env, s, sid).Success?
    ensures Parsed(env.x, Deserialize(env, s, sid).value)
  {
    FromPemParsed(env, sid.idBytes);
    SanitizedParsed(env, s.opts, CertFromPem(env, sid.idBytes).value);
  }

  /**
   * With validated admins, an identity that satisfies any principal also validates, although the
   * admin and identity branches only compare certificates.
   */
  lemma SatisfiesImpliesValid(env: Env, s: State, cert: Certificate, p: Principal)
    requires X509Law(env.x) && Parsed(env.x, cert)
    requires AdminsValid(env, s) && Satisfies(env, s, cert, p)
    ensures Valid(env, s, cert)
  {
    match p {
      case AdminOf(id) =>
        var a :| a in s.admins && a.raw == cert.raw;
        assert Parsed(env.x, a);
      case IdentityIs(sid) => DeserializeParsed(env, s, sid);
      case MemberOf(_) =>
      case UnitOf(_, _) =>
    }
  }

  /** Among parsed certificates, the admins are those the MSP holds, under its own name. */
  lemma AdminIff(env: Env, s: State, cert: Certificate, id: string)
    requires Parsed(env.x, cert) && forall a :: a in s.admins ==> Parsed(env.x, a)
    ensures Satisfies(env, s, cert, AdminOf(id)) <==> id == s.name && cert in s.admins
  {
    if a :| a in s.admins && a.raw == cert.raw { assert Parsed(env.x, a); }
  }

  lemma {:induction false} RawBytesConcat(a: seq<Certificate>, b: seq<Certificate>)
    ensures RawBytes(a + b) == RawBytes(a) + RawBytes(b)
  {
    if a == [] {
      assert a + b == b;
    } else {
      assert (a + b)[1..] == a[1..] + b;
      RawBytesConcat(a[1..], b);
    }
  }

  /** The path that chain building finds for an identity, the identity itself first. */
  ghost predicate PathOf(env: Env, s: State, cert: Certificate, path: seq<Certificate>) {
    && s.opts.Some? && |path| >= 2
    && var chains := env.chains(cert, s.opts.value, cert.body.notBefore + 1);
       chains.Some? && |chains.value| == 1 && chains.value[0] == path
  }

  /**
   * A valid identity satisfies an OU principal exactly when the MSP is its own, the unit is one of
   * the certificate's, and the certifiers are the hash of the path above the certificate.
   */
  lemma UnitOfIff(env: Env, s: State, cert: Certificate, id: string, ou: OuIdentifier)
    requires Valid(env, s, cert)
    ensures exists path: seq<Certificate> :: PathOf(env, s, cert, path)
    ensures forall path: seq<Certificate> :: PathOf(env, s, cert, path) ==>
              (Satisfies(env, s, cert, UnitOf(id, ou)) <==>
               && id == s.name && env.hashKnown(s.hashName)
               && ou.unit in cert.body.units && ou.certifiers == env.hash(s.hashName, RawBytes(path[1..])))
  {
    var path := CertificationChain(env, s, cert).value;
    assert PathOf(env, s, cert, path);
    var ous := OrganizationalUnits(env, s, cert);
    if env.hashKnown(s.hashName) && ou.unit in cert.body.units && ou.certifiers == env.hash(s.hashName, RawBytes(path[1..])) {
      var i :| 0 <= i < |cert.body.units| && cert.body.units[i] == ou.unit;
      assert ous[i] == ou;
    }
  }

  /** An identity satisfies the principal made of its own serialization exactly when it is valid. */
  lemma OwnIdentityIff(env: Env, s: State, cert: Certificate, bytes: Bytes, id: string)
    requires Parsed(env.x, cert) && env.pem(bytes) == Some(cert.raw)
    requires env.hashKnown(s.hashName) && env.importsKey(cert) && SanitizedCert(env, s.opts, cert) == Success(cert)
    ensures Satisfies(env, s, cert, IdentityIs(SerializedIdentity(id, bytes))) <==> id == s.name && Valid(env, s, cert)
  {
    DeserializesItself(env, s, cert, bytes);
  }

  /** For parsed admins: every admin is a member exactly when all admins validate, the check at the end of Setup. */
  lemma AdminsAreMembersIff(env: Env, s: State)
    requires forall a :: a in s.admins ==> Parsed(env.x, a)
    ensures (forall cert :: Parsed(env.x, cert) && Satisfies(env, s, cert, AdminOf(s.name)) ==>
                            Satisfies(env, s, cert, MemberOf(s.name)))
            <==> AdminsValid(env, s)
  {
    forall a | a in s.admins ensures Satisfies(env, s, a, AdminOf(s.name)) {}
    forall cert | Parsed(env.x, cert) && Satisfies(env, s, cert, AdminOf(s.name)) ensures cert in s.admins {
      var a :| a in s.admins && a.raw == cert.raw;
      assert Parsed(env.x, a);
    }
  }

  // ---------------------------------------------------- the certification tree

  /** raw occurs above the start of the chain of some configured intermediate. */
  ghost predicate AboveIntermediate(env: Env, s: State, raw: Bytes) {
    exists i, k :: 0 <= i < |s.intermediates| && AboveAt(env, s, s.intermediates[i], raw, k)
  }

  ghost predicate AboveAt(env: Env, s: State, ca: Certificate, raw: Bytes, k: nat) {
    var chain := UniqueChain(env, s.opts, ca);
    chain.Success? && 1 <= k < |chain.value| && chain.value[k].raw == raw
  }

  /** The internal-node map marks exactly the certificates above some intermediate. */
  ghost predicate TreeExact(env: Env, s: State) {
    forall raw :: (raw in s.internalNodes && s.internalNodes[raw]) <==> AboveIntermediate(env, s, raw)
  }

  /** A valid identity was issued directly by a CA that has no configured intermediate beneath it. */
  lemma ValidIssuedByLeaf(env: Env, s: State, cert: Certificate)
    requires TreeExact(env, s) && Valid(env, s, cert)
    ensures var chain := CertificationChain(env, s, cert).value;
            && UniqueChain(env, s.opts, cert) == Success(chain)
            && !AboveIntermediate(env, s, chain[1].raw)
            && !cert.body.isCA
  {}

  /** Some configured intermediate has raw above it on the path chain building finds for it. */
  ghost predicate HasIntermediateBeneath(env: Env, s: State, raw: Bytes) {
    exists i, k, path: seq<Certificate> :: 0 <= i < |s.intermediates| && PathOf(env, s, s.intermediates[i], path) && 1 <= k < |path| && path[k].raw == raw
  }

  lemma AboveIff(env: Env, s: State, raw: Bytes)
    ensures AboveIntermediate(env, s, raw) <==> HasIntermediateBeneath(env, s, raw)
  {
    if i, k: nat :| 0 <= i < |s.intermediates| && AboveAt(env, s, s.intermediates[i], raw, k) {
      var path := UniqueChain(env, s.opts, s.intermediates[i]).value;
      assert PathOf(env, s, s.intermediates[i], path) && 1 <= k < |path| && path[k].raw == raw;
    }
    if i, k, path: seq<Certificate> :| 0 <= i < |s.intermediates| && PathOf(env, s, s.intermediates[i], path) && 1 <= k < |path| && path[k].raw == raw {
      assert AboveAt(env, s, s.intermediates[i], raw, k);
    }
  }

  /**
   * Validity in full: the identity is no CA, chain building finds one path with an issuer on it,
   * that issuer has no configured intermediate beneath it and does not revoke the identity, and a
   * unit is recognised if any are configured.
   */
  lemma ValidIff(env: Env, s: State, cert: Certificate)
    requires TreeExact(env, s)
    ensures Valid(env, s, cert) <==>
            && !cert.body.isCA
            && exists path: seq<Certificate> :: PathOf(env, s, cert, path)
                 && !HasIntermediateBeneath(env, s, path[1].raw)
                 && NotRevoked(env, s.crls, cert, path[1])
                 && (s.ouIdentifiers == map[] ||
                     (env.hashKnown(s.hashName) && exists unit ::
                        unit in cert.body.units && Recognized(s, OuIdentifier(unit, env.hash(s.hashName, RawBytes(path[1..]))))))
  {
    if Valid(env, s, cert) {
      var path := CertificationChain(env, s, cert).value;
      assert PathOf(env, s, cert, path);
      AboveIff(env, s, path[1].raw);
      UnitsIff(env, s, cert, path);
    }
    if path: seq<Certificate> :| PathOf(env, s, cert, path) && !HasIntermediateBeneath(env, s, path[1].raw) && !cert.body.isCA {
      AboveIff(env, s, path[1].raw);
      UnitsIff(env, s, cert, path);
    }
  }

  lemma UnitsIff(env: Env, s: State, cert: Certificate, path: seq<Certificate>)
    requires CertificationChain(env, s, cert) == Success(path)
    ensures OusValid(env, s, cert) <==>
            (s.ouIdentifiers == map[] ||
             (env.hashKnown(s.hashName) && exists unit ::
                unit in cert.body.units && Recognized(s, OuIdentifier(unit, env.hash(s.hashName, RawBytes(path[1..]))))))
  {
    var ous := OrganizationalUnits(env, s, cert);
    if ou :| ou in ous && Recognized(s, ou) {
      assert ou.unit in cert.body.units && ou == OuIdentifier(ou.unit, env.hash(s.hashName, RawBytes(path[1..])));
    }
    if unit :| env.hashKnown(s.hashName) && unit in cert.body.units && Recognized(s, OuIdentifier(unit, env.hash(s.hashName, RawBytes(path[1..])))) {
      var i :| 0 <= i < |cert.body.units| && cert.body.units[i] == unit;
      assert ous[i] in ous && Recognized(s, ous[i]);
    }
  }
}
