/**
 * The membership service provider object of msp/mspimpl.go: Setup fills its fields phase by
 * phase, validation and principal checks read them.
 */
module MspSetup {
  import opened Wrappers
  import opened BigEndian
  import opened Certificates
  import opened MspState
  import opened MspUnits

  datatype Config = Config(
    name: string,
    hashName: Option<string>,
    rootCerts: seq<Bytes>,
    intermediateCerts: seq<Bytes>,
    admins: seq<Bytes>,
    crls: seq<Bytes>,
    units: seq<OuConfig>,
    signer: Option<SigningInfo>,
    tlsRoots: seq<Bytes>,
    tlsIntermediates: seq<Bytes>)

  /** The certificate of the signing identity and, optionally, its private key. */
  datatype SigningInfo = SigningInfo(publicSigner: Bytes, keyMaterial: Option<Bytes>)

  /** When the clock is read for the k-th TLS CA. */
  type Clock = nat -> int

  /** nil or the error that made a phase stop. */
  type Status = Option<MspError>

  const SHA256 := "SHA256"

  predicate IsCaCert(cert: Certificate) {
    cert.body.ski.Some? && cert.body.isCA
  }

  /** A CA with the given unique chain, if any: well formed, and not revoked unless it is a root. */
  ghost predicate CaValid(env: Env, chain: Result<seq<Certificate>, MspError>, crls: seq<Crl>, cert: Certificate) {
    && IsCaCert(cert)
    && chain.Success?
    && (|chain.value| == 1 || (|chain.value| >= 2 && NotRevoked(env, crls, cert, chain.value[1])))
  }

  /** CAs of identities are checked at a time of their own. */
  ghost predicate CasValid(env: Env, opts: Option<Pools>, crls: seq<Crl>, cas: seq<Certificate>) {
    forall i :: 0 <= i < |cas| ==> CaValid(env, UniqueChain(env, opts, cas[i]), crls, cas[i])
  }

  /** TLS CAs are checked at the current time. */
  ghost predicate TlsCasValid(env: Env, pools: Pools, crls: seq<Crl>, cas: seq<Certificate>, clock: Clock) {
    forall i :: 0 <= i < |cas| ==> CaValid(env, UniqueChainAt(env, Some(pools), cas[i], clock(i)), crls, cas[i])
  }

  // --------------------------------------------- what a configuration stands for

  /** The certificates a list of PEM blocks holds, one for one. */
  ghost predicate Read(env: Env, pems: seq<Bytes>, certs: seq<Certificate>) {
    && |certs| == |pems|
    && forall i :: 0 <= i < |pems| ==> CertFromPem(env, pems[i]) == Success(certs[i])
  }

  /** The certificates a list of PEM blocks yields under the given options, one for one. */
  ghost predicate Loaded(env: Env, hashName: string, opts: Option<Pools>, pems: seq<Bytes>, certs: seq<Certificate>) {
    && |certs| == |pems|
    && forall i :: 0 <= i < |pems| ==> IdentityFromConf(env, hashName, opts, pems[i]) == Success(certs[i])
  }

  ghost predicate Loads(env: Env, hashName: string, opts: Option<Pools>, pems: seq<Bytes>) {
    forall i :: 0 <= i < |pems| ==> IdentityFromConf(env, hashName, opts, pems[i]).Success?
  }

  ghost predicate CrlsRead(env: Env, ders: seq<Bytes>, crls: seq<Crl>) {
    && |crls| == |ders|
    && forall i :: 0 <= i < |ders| ==> env.parseCrl(ders[i]) == Some(crls[i])
  }

  function HashOf(conf: Config): string {
    match conf.hashName
    case None => SHA256
    case Some(h) => if h == "" then SHA256 else h
  }

  /** The CAs, sanitised against the raw pools of the same CAs. */
  ghost predicate CasLoaded(env: Env, conf: Config, raw: Pools, roots: seq<Certificate>, intermediates: seq<Certificate>) {
    && Read(env, conf.rootCerts, raw.roots) && Read(env, conf.intermediateCerts, raw.intermediates)
    && Loaded(env, HashOf(conf), Some(raw), conf.rootCerts, roots)
    && Loaded(env, HashOf(conf), Some(raw), conf.intermediateCerts, intermediates)
  }

  ghost predicate CasFromConfig(env: Env, conf: Config, roots: seq<Certificate>, intermediates: seq<Certificate>) {
    conf.rootCerts != [] && exists raw :: CasLoaded(env, conf, raw, roots, intermediates)
  }

  /** The state holds what the configuration lists. */
  ghost predicate FromConfig(env: Env, s: State, conf: Config) {
    && s.name == conf.name && s.hashName == HashOf(conf)
    && CasFromConfig(env, conf, s.roots, s.intermediates)
    && s.opts == Some(Pools(s.roots, s.intermediates))
    && Loaded(env, s.hashName, s.opts, conf.admins, s.admins)
    && CrlsRead(env, conf.crls, s.crls)
  }

  /** The TLS CAs are valid for pools of their own, at the times they are checked. */
  ghost predicate TlsValid(env: Env, crls: seq<Crl>, conf: Config, clock: Clock) {
    exists roots, intermediates ::
      && Read(env, conf.tlsRoots, roots) && Read(env, conf.tlsIntermediates, intermediates)
      && TlsCasValid(env, Pools(roots, intermediates), crls, roots + intermediates, clock)
  }

  /** The private key of a signing identity: from the key store, else from the configuration. */
  function PrivateKeyOf(env: Env, cert: Certificate, info: SigningInfo): Option<nat> {
    match env.storedKey(cert)
    case Some(k) => Some(k)
    case None => if info.keyMaterial.None? then None else env.importedKey(info.keyMaterial.value)
  }

  /** getSigningIdentityFromConf; the certificate is sanitised twice, and a key that was not imported is a nil dereference. */
  function SignerFromConf(env: Env, hashName: string, opts: Option<Pools>, info: SigningInfo): Result<Certificate, MspError> {
    match IdentityFromConf(env, hashName, opts, info.publicSigner)
    case Failure(e) => Failure(e)
    case Success(cert) =>
      var parsed := CertFromPem(env, info.publicSigner).value;
      if !env.importsKey(parsed) then Failure(NilKeyPanic)
      else
        match PrivateKeyOf(env, parsed, info)
        case None => Failure(NoPrivateKey)
        case Some(key) => if env.signs(key) then SanitizedCert(env, opts, cert) else Failure(BadSigner)
  }

  predicate SignerUsable(env: Env, hashName: string, opts: Option<Pools>, conf: Config) {
    conf.signer.Some? ==> SignerFromConf(env, hashName, opts, conf.signer.value).Success?
  }

  /** The CAs in force are valid and the certification tree is theirs. */
  ghost predicate Anchored(env: Env, s: State, conf: Config) {
    && FromConfig(env, s, conf)
    && CasValid(env, s.opts, s.crls, s.roots + s.intermediates)
    && TreeExact(env, s)
  }

  /** A state in which the MSP may go into service under the configuration. */
  ghost predicate Ready(env: Env, s: State, conf: Config, clock: Clock) {
    && Anchored(env, s, conf)
    && SignerUsable(env, s.hashName, s.opts, conf)
    && UnitsExact(env, s, conf.units)
    && TlsValid(env, s.crls, conf, clock)
    && AdminsValidate(env, s)
  }

  ghost predicate AdminsValidate(env: Env, s: State) {
    forall i :: 0 <= i < |s.admins| ==> Valid(env, s, s.admins[i])
  }

  class BccspMsp {
    const env: Env
    const unmarshal: Bytes -> Option<Config>
    var name: string
    var hashName: string
    var roots: seq<Certificate>
    var intermediates: seq<Certificate>
    var admins: seq<Certificate>
    var opts: Option<Pools>
    var crls: seq<Crl>
    var internalNodes: map<Bytes, bool>
    var ouIdentifiers: map<string, seq<Bytes>>
    var signer: Option<Certificate>
    var tlsRoots: seq<Bytes>
    var tlsIntermediates: seq<Bytes>

    constructor (env: Env, unmarshal: Bytes -> Option<Config>)
      ensures this.env == env && this.unmarshal == unmarshal && opts == None && admins == [] && signer == None
    {
      this.env, this.unmarshal := env, unmarshal;
      name, hashName := "", "";
      roots, intermediates, admins := [], [], [];
      opts := None;
      crls := [];
      internalNodes, ouIdentifiers := map[], map[];
      signer := None;
      tlsRoots, tlsIntermediates := [], [];
    }

    function View(): State
      reads this
    {
      State(name, hashName, roots, intermediates, admins, opts, crls, internalNodes, ouIdentifiers)
    }

    // ---------------------------------------------------------- validation

    /** validateCertAgainstChain: looks for a CRL of the issuer that lists the certificate. */
    method ValidateCertAgainstChain(cert: Certificate, chain: seq<Certificate>) returns (ok: bool)
      requires |chain| >= 2
      ensures ok <==> NotRevoked(env, crls, cert, chain[1])
    {
      var issuer := chain[1];
      if issuer.body.ski.None? { return false; }
      var ski := issuer.body.ski.value;
      for i := 0 to |crls|
        invariant forall k :: 0 <= k < i ==> crls[k].aki.Some? && !RevokedBy(env, crls[k], cert, issuer)
      {
        var crl := crls[i];
        if crl.aki.None? { return false; }
        if crl.aki.value == ski {
          for j := 0 to |crl.revoked|
            invariant env.signedCrl(issuer, crl) ==> cert.body.serial !in crl.revoked[..j]
          {
            if crl.revoked[j] == cert.body.serial {
              if env.signedCrl(issuer, crl) {
                assert RevokedBy(env, crls[i], cert, issuer);
                return false;
              }
            }
          }
          assert crl.revoked[..|crl.revoked|] == crl.revoked;
        }
      }
      ok := true;
    }

    /** getCertificationChainIdentifierFromChain. */
    method CertificationChainIdentifier(chain: seq<Certificate>) returns (r: Option<Bytes>)
      ensures r == ChainIdentifier(env, View(), chain)
    {
      if !env.hashKnown(hashName) { return None; }
      var written: Bytes := [];
      assert chain[0..] == chain;
      for i := 0 to |chain|
        invariant RawBytes(chain) == written + RawBytes(chain[i..])
      {
        assert chain[i..][1..] == chain[i + 1..];
        written := written + chain[i].raw;
      }
      assert written + [] == written;
      r := Some(env.hash(hashName, written));
    }

    method GetOrganizationalUnits(cert: Certificate) returns (res: seq<OuIdentifier>)
      ensures res == OrganizationalUnits(env, View(), cert)
    {
      var chain := CertificationChain(env, View(), cert);
      if chain.Failure? { return []; }
      var cid := CertificationChainIdentifier(chain.value[1..]);
      if cid.None? { return []; }
      res := [];
      for i := 0 to |cert.body.units|
        invariant |res| == i
        invariant forall k :: 0 <= k < i ==> res[k] == OuIdentifier(cert.body.units[k], cid.value)
      {
        res := res + [OuIdentifier(cert.body.units[i], cid.value)];
      }
    }

    /** validateIdentityOUs: some OU of the identity must be among the configured ones. */
    method ValidateIdentityOUs(cert: Certificate) returns (ok: bool)
      ensures ok <==> OusValid(env, View(), cert)
    {
      if |ouIdentifiers| == 0 { return true; }
      var found := false;
      var ous := GetOrganizationalUnits(cert);
      for i := 0 to |ous|
        invariant found <==> exists k :: 0 <= k < i && Recognized(View(), ous[k])
      {
        ghost var before := found;
        if ous[i].unit in ouIdentifiers {
          var hit := Contains(ouIdentifiers[ous[i].unit], ous[i].certifiers);
          if hit { found := true; }
        }
        assert found <==> before || Recognized(View(), ous[i]);
      }
      ok := found;
      assert ok ==> exists ou :: ou in ous && Recognized(View(), ou);
    }

    /** validateIdentity. */
    method Validate(cert: Certificate) returns (ok: bool)
      ensures ok <==> Valid(env, View(), cert)
    {
      var chain := CertificationChain(env, View(), cert);
      if chain.Failure? { return false; }
      var live := ValidateCertAgainstChain(cert, chain.value);
      if !live { return false; }
      ok := ValidateIdentityOUs(cert);
    }

    method SatisfiesPrincipal(cert: Certificate, p: Principal) returns (ok: bool)
      ensures ok <==> Satisfies(env, View(), cert, p)
    {
      match p {
        case MemberOf(id) =>
          if id != name { return false; }
          ok := Validate(cert);
        case AdminOf(id) =>
          if id != name { return false; }
          for i := 0 to |admins|
            invariant forall k :: 0 <= k < i ==> admins[k].raw != cert.raw
          {
            if admins[i].raw == cert.raw { return true; }
          }
          ok := false;
        case UnknownRole(_) => ok := false;
        case IdentityIs(sid) =>
          var other := Deserialize(env, View(), sid);
          if other.Failure? { return false; }
          if other.value.raw != cert.raw { return false; }
          ok := Validate(other.value);
        case UnitOf(id, ou) =>
          if id != name { return false; }
          var valid := Validate(cert);
          if !valid { return false; }
          var ous := GetOrganizationalUnits(cert);
          for i := 0 to |ous|
            invariant ou !in ous[..i]
          {
            if ous[i] == ou { return true; }
          }
          assert ous[..|ous|] == ous;
          ok := false;
        case Malformed => ok := false;
      }
    }

    // --------------------------------------------------------------- Setup

    method LoadIdentities(pems: seq<Bytes>) returns (r: Result<seq<Certificate>, MspError>)
      ensures r.Success? ==> Loaded(env, hashName, opts, pems, r.value)
      ensures r.Failure? ==> !Loads(env, hashName, opts, pems)
    {
      var certs: seq<Certificate> := [];
      for i := 0 to |pems|
        invariant |certs| == i
        invariant forall k :: 0 <= k < i ==> IdentityFromConf(env, hashName, opts, pems[k]) == Success(certs[k])
      {
        var id := IdentityFromConf(env, hashName, opts, pems[i]);
        if id.Failure? { return Failure(id.error); }
        certs := certs + [id.value];
      }
      r := Success(certs);
    }

    method ReadCertificates(pems: seq<Bytes>) returns (r: Result<seq<Certificate>, MspError>)
      ensures r.Success? ==> Read(env, pems, r.value)
      ensures r.Failure? ==> forall certs :: !Read(env, pems, certs)
    {
      var certs: seq<Certificate> := [];
      for i := 0 to |pems|
        invariant |certs| == i
        invariant forall k :: 0 <= k < i ==> CertFromPem(env, pems[k]) == Success(certs[k])
      {
        var cert := CertFromPem(env, pems[i]);
        if cert.Failure? { return Failure(cert.error); }
        certs := certs + [cert.value];
      }
      r := Success(certs);
    }

    method SetupCrypto(conf: Config)
      modifies `hashName
      ensures hashName == HashOf(conf)
      ensures conf.hashName.None? || conf.hashName == Some("") ==> hashName == "SHA256"
      ensures conf.hashName.Some? && conf.hashName.value != "" ==> hashName == conf.hashName.value
    {
      hashName := match conf.hashName case None => SHA256 case Some(h) => h;
      if hashName == "" { hashName := SHA256; }
    }

    /** setupCAs: sanitise the CAs against the raw pools, then rebuild the pools from the sanitised CAs. */
    method SetupCAs(conf: Config) returns (status: Status)
      requires hashName == HashOf(conf)
      modifies `opts, `roots, `intermediates, `admins
      ensures status.None? ==> CasFromConfig(env, conf, roots, intermediates) && opts == Some(Pools(roots, intermediates))
      ensures status.Some? ==> forall s :: !FromConfig(env, s, conf)
    {
      status := LoadCAs(conf);
      if status.Some? { return; }
      ghost var rs, inter := roots, intermediates;
      status := SetupAdmins(conf);
      forall s | FromConfig(env, s, conf) ensures status.None? {
        CasUnique(env, conf, s.roots, s.intermediates, rs, inter);
        assert Loaded(env, hashName, opts, conf.admins, s.admins);
      }
    }

    method LoadCAs(conf: Config) returns (status: Status)
      requires hashName == HashOf(conf)
      modifies `opts, `roots, `intermediates
      ensures status.None? ==> CasFromConfig(env, conf, roots, intermediates) && opts == Some(Pools(roots, intermediates))
      ensures status.Some? ==> forall rs, inter :: !CasFromConfig(env, conf, rs, inter)
    {
      if |conf.rootCerts| == 0 { return Some(NoRootCerts); }
      var rawRoots := ReadCertificates(conf.rootCerts);
      if rawRoots.Failure? { return Some(rawRoots.error); }
      var rawIntermediates := ReadCertificates(conf.intermediateCerts);
      if rawIntermediates.Failure? { return Some(rawIntermediates.error); }
      var raw := Pools(rawRoots.value, rawIntermediates.value);
      opts := Some(raw);

      var rs := LoadIdentities(conf.rootCerts);
      if rs.Failure? { CasNotLoaded(env, conf, raw); return Some(rs.error); }
      roots := rs.value;
      var inter := LoadIdentities(conf.intermediateCerts);
      if inter.Failure? { CasNotLoaded(env, conf, raw); return Some(inter.error); }
      intermediates := inter.value;
      assert CasLoaded(env, conf, raw, roots, intermediates);
      opts := Some(Pools(roots, intermediates));
      status := None;
    }

    method SetupAdmins(conf: Config) returns (status: Status)
      modifies `admins
      ensures status.None? ==> Loaded(env, hashName, opts, conf.admins, admins)
      ensures status.Some? ==> !Loads(env, hashName, opts, conf.admins)
    {
      var ids := LoadIdentities(conf.admins);
      if ids.Failure? { return Some(ids.error); }
      admins := ids.value;
      status := None;
    }

    method SetupCRLs(conf: Config) returns (status: Status)
      modifies `crls
      ensures status.None? ==> CrlsRead(env, conf.crls, crls)
      ensures status.Some? ==> status.value == BadCrl && forall lists :: !CrlsRead(env, conf.crls, lists)
    {
      crls := [];
      for i := 0 to |conf.crls|
        invariant |crls| == i && forall k :: 0 <= k < i ==> env.parseCrl(conf.crls[k]) == Some(crls[k])
      {
        var crl := env.parseCrl(conf.crls[i]);
        if crl.None? { return Some(BadCrl); }
        crls := crls + [crl.value];
      }
      status := None;
    }

    /** What validateCAIdentity and validateTLSCAIdentity do with the chain they obtain. */
    method ValidateCAIdentity(cert: Certificate, chain: Result<seq<Certificate>, MspError>) returns (ok: bool)
      ensures ok && IsCaCert(cert) <==> CaValid(env, chain, crls, cert)
    {
      if !cert.body.isCA { return false; }
      if chain.Failure? { return false; }
      if |chain.value| == 1 { return true; }
      if |chain.value| == 0 { return false; }
      ok := ValidateCertAgainstChain(cert, chain.value);
    }

    /** The check of the CAs in finalizeSetupCAs, each at a time of its own. */
    method ValidateCAs(cas: seq<Certificate>) returns (status: Status)
      ensures status.None? <==> CasValid(env, opts, crls, cas)
    {
      for i := 0 to |cas|
        invariant forall k :: 0 <= k < i ==> CaValid(env, UniqueChain(env, opts, cas[k]), crls, cas[k])
      {
        if !IsCaCert(cas[i]) { return Some(NotCaCert); }
        var ok := ValidateCAIdentity(cas[i], UniqueChain(env, opts, cas[i]));
        if !ok { return Some(CaRevoked); }
      }
      status := None;
    }

    /** The check of the TLS CAs in setupTLSCAs, each when the clock is read. */
    method ValidateTLSCAs(cas: seq<Certificate>, pools: Pools, clock: Clock) returns (status: Status)
      requires opts.Some?
      ensures status.None? <==> TlsCasValid(env, pools, crls, cas, clock)
    {
      for i := 0 to |cas|
        invariant forall k :: 0 <= k < i ==>
                    CaValid(env, UniqueChainAt(env, Some(pools), cas[k], clock(k)), crls, cas[k])
      {
        if !IsCaCert(cas[i]) { return Some(NotCaCert); }
        var ok := ValidateCAIdentity(cas[i], UniqueChainAt(env, Some(pools), cas[i], clock(i)));
        if !ok { return Some(CaRevoked); }
      }
      status := None;
    }

    /** setupSigningIdentity: without a configured signer the previous one stays. */
    method SetupSigningIdentity(conf: Config) returns (status: Status)
      modifies `signer
      ensures status.None? <==> SignerUsable(env, hashName, opts, conf)
      ensures status.None? && conf.signer.Some? ==>
                signer.Some? && Success(signer.value) == SignerFromConf(env, hashName, opts, conf.signer.value)
      ensures status.Some? || conf.signer.None? ==> signer == old(signer)
    {
      if conf.signer.None? { return None; }
      var info := conf.signer.value;
      var id := IdentityFromConf(env, hashName, opts, info.publicSigner);
      if id.Failure? { return Some(id.error); }
      var parsed := CertFromPem(env, info.publicSigner).value;
      if !env.importsKey(parsed) { return Some(NilKeyPanic); }
      var key := env.storedKey(parsed);
      if key.None? {
        if info.keyMaterial.None? { return Some(NoPrivateKey); }
        key := env.importedKey(info.keyMaterial.value);
        if key.None? { return Some(NoPrivateKey); }
      }
      if !env.signs(key.value) { return Some(BadSigner); }
      var cert := SanitizedCert(env, opts, id.value);
      if cert.Failure? { return Some(cert.error); }
      signer := Some(cert.value);
      status := None;
    }

    /** finalizeSetupCAs: check every CA, then mark what lies above the intermediates. */
    method FinalizeSetupCAs() returns (status: Status)
      modifies `internalNodes
      ensures status.None? <==> CasValid(env, opts, crls, roots + intermediates)
      ensures status.None? ==> TreeExact(env, View())
    {
      status := ValidateCAs(roots + intermediates);
      if status.Some? { return; }
      ghost var s := View();
      internalNodes := map[];
      for i := 0 to |intermediates|
        invariant forall raw :: raw in internalNodes ==> internalNodes[raw]
        invariant forall raw :: raw in internalNodes <==> AboveFirst(env, s, i, raw)
      {
        assert (roots + intermediates)[|roots| + i] == intermediates[i];
        var chain := UniqueChain(env, opts, intermediates[i]);
        if chain.Failure? { return Some(chain.error); }
        ghost var before := internalNodes;
        var k := 1;
        while k < |chain.value|
          invariant 1 <= k
          invariant forall raw :: raw in internalNodes ==> internalNodes[raw]
          invariant |chain.value| >= 1 ==> k <= |chain.value|
          invariant forall raw :: raw in internalNodes <==> raw in before || OnPath(chain.value, k, raw)
        {
          internalNodes := internalNodes[chain.value[k].raw := true];
          k := k + 1;
        }
        AboveFirstStep(env, s, i);
      }
      AboveAll(env, s, View());
      status := None;
    }

    /** Steps 1 to 4 of setupOUs: the hash of the certification path of the CA a pair names. */
    method OuPathIdentifier(ou: OuConfig) returns (r: Result<Bytes, MspError>)
      ensures r.Success? ==> OuEntry(env, View(), ou) == Success(OuIdentifier(ou.unit, r.value))
      ensures r.Failure? ==> OuEntry(env, View(), ou) == Failure(r.error)
    {
      var parsed := CertFromPem(env, ou.certificate);
      if parsed.Failure? { return Failure(parsed.error); }
      var ca := SanitizedCert(env, opts, parsed.value);
      if ca.Failure? { return Failure(ca.error); }
      var chain := [ca.value];
      var root := SearchCert(ca.value, roots);
      if !root {
        var intermediate := SearchCert(ca.value, intermediates);
        if !intermediate { return Failure(OuCertNotConfigured); }
        var path := ValidationChain(env, View(), ca.value, true);
        if path.Failure? { return Failure(path.error); }
        chain := path.value;
      }
      var cid := CertificationChainIdentifier(chain);
      if cid.None? { return Failure(UnknownHash); }
      r := Success(cid.value);
    }

    /** setupOUs: one recorded identifier per configured (CA, unit) pair, without duplicates. */
    method SetupOUs(conf: Config) returns (status: Status)
      modifies `ouIdentifiers
      ensures status.None? ==> UnitsExact(env, View(), conf.units)
      ensures status.Some? ==> exists i :: 0 <= i < |conf.units| && OuEntry(env, View(), conf.units[i]) == Failure(status.value)
    {
      ouIdentifiers := map[];
      for n := 0 to |conf.units|
        invariant UnitsExact(env, View(), conf.units[..n])
      {
        var ou := conf.units[n];
        var cid := OuPathIdentifier(ou);
        if cid.Failure? { return Some(cid.error); }
        ghost var before := View();
        Record(ou.unit, cid.value);
        UnitsExactStep(env, before, View(), conf.units[..n], ou, OuIdentifier(ou.unit, cid.value));
        TakeNext(conf.units, n);
      }
      assert conf.units[..|conf.units|] == conf.units;
      status := None;
    }

    /** The end of setupOUs: adds the identifier to those of its unit, unless it is there. */
    method Record(unit: string, certifiers: Bytes)
      modifies `ouIdentifiers
      ensures RecordedOnce(old(View()), View(), OuIdentifier(unit, certifiers))
    {
      var known := if unit in ouIdentifiers then ouIdentifiers[unit] else [];
      var found := Contains(known, certifiers);
      if !found { ouIdentifiers := ouIdentifiers[unit := known + [certifiers]]; }
    }

    method Contains(ids: seq<Bytes>, id: Bytes) returns (found: bool)
      ensures found <==> id in ids
    {
      for j := 0 to |ids|
        invariant id !in ids[..j]
      {
        if ids[j] == id { return true; }
      }
      assert ids[..|ids|] == ids;
      found := false;
    }

    method SearchCert(cert: Certificate, certs: seq<Certificate>) returns (found: bool)
      ensures found <==> AmongRaw(cert, certs)
    {
      for i := 0 to |certs|
        invariant forall k :: 0 <= k < i ==> certs[k].raw != cert.raw
      {
        if certs[i].raw == cert.raw { return true; }
      }
      found := false;
    }

    /** setupTLSCAs keeps the TLS CAs apart from the pools that validate identities. */
    method SetupTLSCAs(conf: Config, clock: Clock) returns (status: Status)
      requires opts.Some?
      modifies `tlsRoots, `tlsIntermediates
      ensures status.None? <==> TlsValid(env, crls, conf, clock)
      ensures status.None? ==> tlsRoots == conf.tlsRoots && tlsIntermediates == conf.tlsIntermediates
    {
      var rs := ReadCertificates(conf.tlsRoots);
      if rs.Failure? { return Some(rs.error); }
      tlsRoots := conf.tlsRoots;
      var inter := ReadCertificates(conf.tlsIntermediates);
      if inter.Failure? { return Some(inter.error); }
      tlsIntermediates := conf.tlsIntermediates;
      ReadUnique(env, conf.tlsRoots, rs.value);
      ReadUnique(env, conf.tlsIntermediates, inter.value);
      status := ValidateTLSCAs(rs.value + inter.value, Pools(rs.value, inter.value), clock);
    }

    /** The last step of Setup: admins must be valid members. */
    method ValidateAdmins() returns (status: Status)
      ensures status.None? <==> AdminsValidate(env, View())
      ensures status.Some? ==> exists i: nat :: status.value == AdminInvalid(i) && i < |admins| && !Valid(env, View(), admins[i])
    {
      for i := 0 to |admins|
        invariant forall k :: 0 <= k < i ==> Valid(env, View(), admins[k])
      {
        var ok := Validate(admins[i]);
        if !ok { return Some(AdminInvalid(i)); }
      }
      status := None;
    }

    /** The phases of Setup that load the CAs, the admins and the CRLs. */
    method SetupAnchors(conf: Config) returns (status: Status)
      requires name == conf.name
      modifies `hashName, `opts, `roots, `intermediates, `admins, `crls, `internalNodes
      ensures status.None? ==> Anchored(env, View(), conf)
      ensures status.Some? ==> forall s :: !Anchored(env, s, conf)
    {
      SetupCrypto(conf);
      status := SetupCAs(conf);
      if status.Some? { return; }
      ghost var rs, inter := roots, intermediates;
      status := SetupAdmins(conf);
      forall s | FromConfig(env, s, conf) ensures status.None? {
        CasUnique(env, conf, s.roots, s.intermediates, rs, inter);
        assert Loaded(env, hashName, opts, conf.admins, s.admins);
      }
      if status.Some? { return; }
      status := SetupCRLs(conf);
      if status.Some? { return; }
      ghost var t := View();
      status := FinalizeSetupCAs();
      forall s | Anchored(env, s, conf) ensures status.None? { FromConfigUnique(env, conf, s, t); }
    }

    /** The phases of Setup after the signing identity: OUs, TLS CAs, and the check of the admins. */
    method SetupChecks(conf: Config, clock: Clock) returns (status: Status)
      requires Anchored(env, View(), conf) && SignerUsable(env, hashName, opts, conf)
      modifies `ouIdentifiers, `tlsRoots, `tlsIntermediates
      ensures status.None? ==> Ready(env, View(), conf, clock)
      ensures status.Some? ==> forall s :: !Ready(env, s, conf, clock)
    {
      ghost var anchored := View();
      status := SetupOUs(conf);
      SetupFrame(env, anchored, View(), conf);
      ghost var t := View();
      if status.Some? { UnitsRefused(env, conf, clock, t); return; }
      status := SetupTLSCAs(conf, clock);
      if status.Some? { TlsRefused(env, conf, clock, t); return; }
      status := ValidateAdmins();
      if status.Some? { AdminsRefused(env, conf, clock, t); }
    }

    /** Setup returns nil exactly when the configuration has a ready state, and then leaves one. */
    method Setup(conf1: Option<Bytes>, clock: Clock) returns (status: Status)
      modifies this
      ensures conf1.None? ==> status == Some(NoConfig) && View() == old(View())
      ensures conf1.Some? && unmarshal(conf1.value).None? ==> status == Some(BadConfig) && View() == old(View())
      ensures conf1.Some? && unmarshal(conf1.value).Some? ==>
                var conf := unmarshal(conf1.value).value;
                && (status.None? ==> Ready(env, View(), conf, clock))
                && (status.Some? ==> forall s :: !Ready(env, s, conf, clock))
    {
      if conf1.None? { return Some(NoConfig); }
      var parsed := unmarshal(conf1.value);
      if parsed.None? { return Some(BadConfig); }
      var conf := parsed.value;
      name := conf.name;
      status := SetupAnchors(conf);
      if status.Some? { return; }
      ghost var anchored := View();
      status := SetupSigningIdentity(conf);
      if status.Some? { SignerRefused(env, conf, clock, anchored); return; }
      assert View() == anchored;
      status := SetupChecks(conf, clock);
    }
  }

  // --------------------------------------------------------- supporting facts

  lemma TakeNext<T>(s: seq<T>, n: nat)
    requires n < |s|
    ensures s[..n] + [s[n]] == s[..n + 1]
  {}

  ghost predicate AboveFirst(env: Env, s: State, n: nat, raw: Bytes)
    requires n <= |s.intermediates|
  {
    exists i, k :: 0 <= i < n && AboveAt(env, s, s.intermediates[i], raw, k)
  }

  /** raw is one of chain[1], ..., chain[k - 1]. */
  ghost predicate OnPath(chain: seq<Certificate>, k: nat, raw: Bytes) {
    exists m :: 1 <= m < k && m < |chain| && chain[m].raw == raw
  }

  lemma AboveFirstStep(env: Env, s: State, n: nat)
    requires n < |s.intermediates| && UniqueChain(env, s.opts, s.intermediates[n]).Success?
    ensures var chain := UniqueChain(env, s.opts, s.intermediates[n]).value;
            forall raw :: AboveFirst(env, s, n + 1, raw) <==> AboveFirst(env, s, n, raw) || OnPath(chain, |chain|, raw)
  {
    var chain := UniqueChain(env, s.opts, s.intermediates[n]).value;
    forall raw ensures AboveFirst(env, s, n + 1, raw) <==> AboveFirst(env, s, n, raw) || OnPath(chain, |chain|, raw) {
      if OnPath(chain, |chain|, raw) {
        var m :| 1 <= m < |chain| && chain[m].raw == raw;
        assert AboveAt(env, s, s.intermediates[n], raw, m);
      }
    }
  }

  lemma AboveAll(env: Env, s: State, t: State)
    requires t == s.(internalNodes := t.internalNodes)
    ensures forall raw :: AboveFirst(env, s, |s.intermediates|, raw) <==> AboveIntermediate(env, t, raw)
  {
    forall raw, ca: Certificate, k: nat ensures AboveAt(env, s, ca, raw, k) <==> AboveAt(env, t, ca, raw, k) {}
  }

  /** Recording OU identifiers leaves the CAs and the certification tree alone. */
  lemma SetupFrame(env: Env, s: State, t: State, conf: Config)
    requires t == s.(ouIdentifiers := t.ouIdentifiers) && Anchored(env, s, conf)
    ensures Anchored(env, t, conf)
  {
    AboveFrame(env, s, t);
  }

  lemma AboveFrame(env: Env, s: State, t: State)
    requires t.opts == s.opts && t.intermediates == s.intermediates
    ensures forall raw :: AboveIntermediate(env, s, raw) <==> AboveIntermediate(env, t, raw)
  {
    forall raw, ca: Certificate, k: nat ensures AboveAt(env, s, ca, raw, k) <==> AboveAt(env, t, ca, raw, k) {}
  }

  /** One more identifier recorded, unless it was there already. */
  ghost predicate RecordedOnce(s: State, t: State, ou: OuIdentifier) {
    var known := if ou.unit in s.ouIdentifiers then s.ouIdentifiers[ou.unit] else [];
    && t == s.(ouIdentifiers := t.ouIdentifiers)
    && t.ouIdentifiers == if ou.certifiers in known then s.ouIdentifiers else s.ouIdentifiers[ou.unit := known + [ou.certifiers]]
  }

  lemma RecordedRecognized(s: State, t: State, ou: OuIdentifier)
    requires RecordedOnce(s, t, ou)
    ensures forall o :: Recognized(t, o) <==> Recognized(s, o) || o == ou
  {}

  lemma UnitsExactStep(env: Env, s: State, t: State, confs: seq<OuConfig>, conf: OuConfig, ou: OuIdentifier)
    requires UnitsExact(env, s, confs) && OuEntry(env, s, conf) == Success(ou)
    requires RecordedOnce(s, t, ou)
    ensures UnitsExact(env, t, confs + [conf])
  {
    forall c ensures OuEntry(env, t, c) == OuEntry(env, s, c) { OuEntryFrame(env, s, t.ouIdentifiers, c); }
    RecordedRecognized(s, t, ou);
    forall o ensures Recognized(t, o) <==> Configured(env, t, confs + [conf], o) {
      ConfiguredFrame(env, s, t.ouIdentifiers, confs + [conf], o);
      ConfiguredStep(env, s, confs, conf, o);
    }
  }

  // --------------------------------------- a configuration determines the verdicts

  lemma ReadUnique(env: Env, pems: seq<Bytes>, certs: seq<Certificate>)
    requires Read(env, pems, certs)
    ensures forall others :: Read(env, pems, others) ==> others == certs
  {}

  lemma LoadedUnique(env: Env, hashName: string, opts: Option<Pools>, pems: seq<Bytes>, a: seq<Certificate>, b: seq<Certificate>)
    requires Loaded(env, hashName, opts, pems, a) && Loaded(env, hashName, opts, pems, b)
    ensures a == b
  {
    forall i | 0 <= i < |a| ensures a[i] == b[i] {
      assert IdentityFromConf(env, hashName, opts, pems[i]) == Success(a[i]);
    }
  }

  lemma CasUnique(env: Env, conf: Config, rs: seq<Certificate>, inter: seq<Certificate>, rs': seq<Certificate>, inter': seq<Certificate>)
    requires CasFromConfig(env, conf, rs, inter) && CasFromConfig(env, conf, rs', inter')
    ensures rs == rs' && inter == inter'
  {
    var raw :| CasLoaded(env, conf, raw, rs, inter);
    var raw' :| CasLoaded(env, conf, raw', rs', inter');
    RawUnique(env, conf, raw);
    LoadedUnique(env, HashOf(conf), Some(raw), conf.rootCerts, rs, rs');
    LoadedUnique(env, HashOf(conf), Some(raw), conf.intermediateCerts, inter, inter');
  }

  lemma RawUnique(env: Env, conf: Config, raw: Pools)
    requires Read(env, conf.rootCerts, raw.roots) && Read(env, conf.intermediateCerts, raw.intermediates)
    ensures forall other, rs, inter :: CasLoaded(env, conf, other, rs, inter) ==> other == raw
  {
    ReadUnique(env, conf.rootCerts, raw.roots);
    ReadUnique(env, conf.intermediateCerts, raw.intermediates);
  }

  lemma CasNotLoaded(env: Env, conf: Config, raw: Pools)
    requires Read(env, conf.rootCerts, raw.roots) && Read(env, conf.intermediateCerts, raw.intermediates)
    requires !Loads(env, HashOf(conf), Some(raw), conf.rootCerts) || !Loads(env, HashOf(conf), Some(raw), conf.intermediateCerts)
    ensures forall rs, inter :: !CasFromConfig(env, conf, rs, inter)
  {
    forall rs, inter ensures !CasFromConfig(env, conf, rs, inter) {
      if other :| CasLoaded(env, conf, other, rs, inter) { RawUnique(env, conf, raw); }
    }
  }

  /** All but the certification tree and the OU identifiers is read off the configuration. */
  lemma FromConfigUnique(env: Env, conf: Config, s: State, t: State)
    requires FromConfig(env, s, conf) && FromConfig(env, t, conf)
    ensures t == s.(internalNodes := t.internalNodes, ouIdentifiers := t.ouIdentifiers)
  {
    CasUnique(env, conf, s.roots, s.intermediates, t.roots, t.intermediates);
    LoadedUnique(env, s.hashName, s.opts, conf.admins, s.admins, t.admins);
    assert s.crls == t.crls by {
      forall i | 0 <= i < |s.crls| ensures s.crls[i] == t.crls[i] {
        assert env.parseCrl(conf.crls[i]) == Some(s.crls[i]);
      }
    }
  }

  lemma ChainsAgree(env: Env, conf: Config, s: State, t: State, cert: Certificate, isIntermediateChain: bool)
    requires Anchored(env, s, conf) && Anchored(env, t, conf)
    ensures ValidationChain(env, s, cert, isIntermediateChain) == ValidationChain(env, t, cert, isIntermediateChain)
  {
    FromConfigUnique(env, conf, s, t);
    AboveFrame(env, s, t);
    forall c: Certificate ensures Internal(s, c) == Internal(t, c) {
      assert AboveIntermediate(env, s, c.raw) <==> AboveIntermediate(env, t, c.raw);
    }
  }

  lemma UnitsAgree(env: Env, conf: Config, s: State, t: State)
    requires Anchored(env, s, conf) && Anchored(env, t, conf)
    ensures forall ou :: OuEntry(env, s, ou) == OuEntry(env, t, ou)
  {
    FromConfigUnique(env, conf, s, t);
    forall ca ensures CaChain(env, s, ca) == CaChain(env, t, ca) { ChainsAgree(env, conf, s, t, ca, true); }
  }

  /** Two states the same configuration leaves accept the same identities. */
  lemma VerdictsAgree(env: Env, conf: Config, s: State, t: State)
    requires Anchored(env, s, conf) && UnitsExact(env, s, conf.units)
    requires Anchored(env, t, conf) && UnitsExact(env, t, conf.units)
    ensures forall cert :: Valid(env, s, cert) <==> Valid(env, t, cert)
    ensures s.admins == t.admins
  {
    FromConfigUnique(env, conf, s, t);
    RecognizedAgree(env, conf, s, t);
    forall cert ensures Valid(env, s, cert) <==> Valid(env, t, cert) {
      ChainsAgree(env, conf, s, t, cert, false);
      assert OrganizationalUnits(env, s, cert) == OrganizationalUnits(env, t, cert);
      assert OusValid(env, s, cert) <==> OusValid(env, t, cert);
    }
  }

  lemma RecognizedAgree(env: Env, conf: Config, s: State, t: State)
    requires Anchored(env, s, conf) && UnitsExact(env, s, conf.units)
    requires Anchored(env, t, conf) && UnitsExact(env, t, conf.units)
    ensures forall ou :: Recognized(s, ou) <==> Recognized(t, ou)
    ensures |s.ouIdentifiers| == 0 <==> |t.ouIdentifiers| == 0
  {
    UnitsAgree(env, conf, s, t);
    forall ou ensures Recognized(s, ou) <==> Recognized(t, ou) {
      assert Configured(env, s, conf.units, ou) <==> Configured(env, t, conf.units, ou);
    }
    SomeRecognized(env, s, conf.units);
    SomeRecognized(env, t, conf.units);
  }

  lemma SomeRecognized(env: Env, s: State, confs: seq<OuConfig>)
    requires UnitsExact(env, s, confs)
    ensures |s.ouIdentifiers| == 0 <==> forall ou :: !Recognized(s, ou)
  {
    if |s.ouIdentifiers| > 0 {
      var unit :| unit in s.ouIdentifiers;
      assert Recognized(s, OuIdentifier(unit, s.ouIdentifiers[unit][0]));
    }
  }

  // A phase that fails in the state reached fails in every state the configuration allows.

  lemma SignerRefused(env: Env, conf: Config, clock: Clock, t: State)
    requires FromConfig(env, t, conf) && !SignerUsable(env, t.hashName, t.opts, conf)
    ensures forall s :: !Ready(env, s, conf, clock)
  {
    forall s ensures !Ready(env, s, conf, clock) {
      if FromConfig(env, s, conf) { FromConfigUnique(env, conf, s, t); }
    }
  }

  lemma UnitsRefused(env: Env, conf: Config, clock: Clock, t: State)
    requires Anchored(env, t, conf) && exists i :: 0 <= i < |conf.units| && OuEntry(env, t, conf.units[i]).Failure?
    ensures forall s :: !Ready(env, s, conf, clock)
  {
    forall s ensures !Ready(env, s, conf, clock) {
      if Anchored(env, s, conf) { UnitsAgree(env, conf, s, t); }
    }
  }

  lemma TlsRefused(env: Env, conf: Config, clock: Clock, t: State)
    requires FromConfig(env, t, conf) && !TlsValid(env, t.crls, conf, clock)
    ensures forall s :: !Ready(env, s, conf, clock)
  {
    forall s ensures !Ready(env, s, conf, clock) {
      if FromConfig(env, s, conf) { FromConfigUnique(env, conf, s, t); }
    }
  }

  lemma AdminsRefused(env: Env, conf: Config, clock: Clock, t: State)
    requires Anchored(env, t, conf) && UnitsExact(env, t, conf.units) && !AdminsValidate(env, t)
    ensures forall s :: !Ready(env, s, conf, clock)
  {
    forall s ensures !Ready(env, s, conf, clock) {
      if Anchored(env, s, conf) && UnitsExact(env, s, conf.units) { VerdictsAgree(env, conf, s, t); }
    }
  }

  /** A remark on Ready: the current time enters only through the TLS CAs; without any, it makes no difference. */
  lemma ClockOnlyForTls(env: Env, s: State, conf: Config, clock: Clock, later: Clock)
    requires Ready(env, s, conf, clock)
    ensures Ready(env, s, conf, later) <==> TlsValid(env, s.crls, conf, later)
    ensures conf.tlsRoots == [] && conf.tlsIntermediates == [] ==> Ready(env, s, conf, later)
  {
    if conf.tlsRoots == [] && conf.tlsIntermediates == [] {
      assert Read(env, [], []) && TlsCasValid(env, Pools([], []), s.crls, [] + [], later);
    }
  }

  // ------------------------------------------------------------- the theorem

  /**
   * From a Setup that returned nil until the next one: an identity that satisfies any principal
   * validates, is no CA, was issued by a CA without a configured intermediate beneath it, and is
   * not revoked by that CA.  In particular every admin is a member.
   */
  lemma SatisfiedAfterSetup(env: Env, s: State, conf: Config, clock: Clock, cert: Certificate, p: Principal)
    requires X509Law(env.x) && Ready(env, s, conf, clock)
    requires Parsed(env.x, cert) && Satisfies(env, s, cert, p)
    ensures Valid(env, s, cert) && Satisfies(env, s, cert, MemberOf(s.name))
    ensures var chain := CertificationChain(env, s, cert).value;
            && !cert.body.isCA
            && !AboveIntermediate(env, s, chain[1].raw)
            && NotRevoked(env, s.crls, cert, chain[1])
  {
    LoadedParsed(env, s.hashName, s.opts, conf.admins, s.admins);
    SatisfiesImpliesValid(env, s, cert, p);
    ValidIssuedByLeaf(env, s, cert);
  }

  lemma LoadedParsed(env: Env, hashName: string, opts: Option<Pools>, pems: seq<Bytes>, certs: seq<Certificate>)
    requires X509Law(env.x) && Loaded(env, hashName, opts, pems, certs)
    ensures AllParsed(env, certs)
  {
    forall i | 0 <= i < |certs| ensures Parsed(env.x, certs[i]) {
      FromPemParsed(env, pems[i]);
      SanitizedParsed(env, opts, CertFromPem(env, pems[i]).value);
    }
  }

  /** The pools in force hold parsed certificates, and at least one root. */
  lemma PoolsParsedAfterSetup(env: Env, s: State, conf: Config, clock: Clock)
    requires X509Law(env.x) && Ready(env, s, conf, clock)
    ensures PoolsParsed(env, s) && s.roots != []
  {
    var raw :| CasLoaded(env, conf, raw, s.roots, s.intermediates);
    LoadedParsed(env, HashOf(conf), Some(raw), conf.rootCerts, s.roots);
    LoadedParsed(env, HashOf(conf), Some(raw), conf.intermediateCerts, s.intermediates);
  }

  /** After Setup every admin is a certificate of the configuration in its low form, for the CAs in force. */
  lemma AdminsLowAfterSetup(env: Env, s: State, conf: Config, clock: Clock, i: nat)
    requires X509Law(env.x) && Ready(env, s, conf, clock) && i < |conf.admins|
    ensures |s.admins| == |conf.admins|
    ensures env.pem(conf.admins[i]).Some? && ParseCertificate(env.x, env.pem(conf.admins[i]).value).Some?
    ensures LowCertificate(env, s.opts, ParseCertificate(env.x, env.pem(conf.admins[i]).value).value, s.admins[i])
  {
    ConfiguredLow(env, s.hashName, s.opts, conf.admins[i]);
  }

  /** And every CA in force, for the CAs as they were configured. */
  lemma CasLowAfterSetup(env: Env, s: State, conf: Config, clock: Clock) returns (raw: Pools)
    requires X509Law(env.x) && Ready(env, s, conf, clock)
    ensures |raw.roots| == |s.roots| == |conf.rootCerts|
    ensures |raw.intermediates| == |s.intermediates| == |conf.intermediateCerts|
    ensures forall i :: 0 <= i < |raw.roots| ==>
              ConfiguredAs(env, conf.rootCerts[i], raw.roots[i]) && LowCertificate(env, Some(raw), raw.roots[i], s.roots[i])
    ensures forall i :: 0 <= i < |raw.intermediates| ==>
              && ConfiguredAs(env, conf.intermediateCerts[i], raw.intermediates[i])
              && LowCertificate(env, Some(raw), raw.intermediates[i], s.intermediates[i])
  {
    raw :| CasLoaded(env, conf, raw, s.roots, s.intermediates);
    forall i | 0 <= i < |raw.roots|
      ensures ConfiguredAs(env, conf.rootCerts[i], raw.roots[i]) && LowCertificate(env, Some(raw), raw.roots[i], s.roots[i])
    {
      ConfiguredLow(env, s.hashName, Some(raw), conf.rootCerts[i]);
    }
    forall i | 0 <= i < |raw.intermediates|
      ensures && ConfiguredAs(env, conf.intermediateCerts[i], raw.intermediates[i])
              && LowCertificate(env, Some(raw), raw.intermediates[i], s.intermediates[i])
    {
      ConfiguredLow(env, s.hashName, Some(raw), conf.intermediateCerts[i]);
    }
  }

  ghost predicate ConfiguredAs(env: Env, bytes: Bytes, cert: Certificate) {
    env.pem(bytes).Some? && ParseCertificate(env.x, env.pem(bytes).value) == Some(cert)
  }

  /**
   * The CAs in force are CA certificates with a key identifier and a unique path; none that has an
   * issuer is listed in a CRL which that issuer signed.
   */
  lemma CasInForce(env: Env, s: State, conf: Config, clock: Clock, ca: Certificate)
    requires Ready(env, s, conf, clock) && (ca in s.roots || ca in s.intermediates)
    ensures ca.body.isCA && ca.body.ski.Some?
    ensures s.opts.Some? && env.chains(ca, s.opts.value, ca.body.notBefore + 1).Some?
    ensures var chains := env.chains(ca, s.opts.value, ca.body.notBefore + 1).value;
            && |chains| == 1 && |chains[0]| >= 1
            && forall crl :: |chains[0]| >= 2 && crl in s.crls && crl.aki == chains[0][1].body.ski && env.signedCrl(chains[0][1], crl) ==>
                 ca.body.serial !in crl.revoked
  {
    var cas := s.roots + s.intermediates;
    assert ca in cas;
    var i :| 0 <= i < |cas| && cas[i] == ca;
    var chain := UniqueChain(env, s.opts, ca).value;
    if |chain| >= 2 {
      forall crl | crl in s.crls && crl.aki == chain[1].body.ski && env.signedCrl(chain[1], crl) ensures ca.body.serial !in crl.revoked {
        assert !RevokedBy(env, crl, ca, chain[1]);
      }
    }
  }

  /** The TLS CAs are CA certificates with a key identifier and, for TLS pools and at the time checked, a unique path. */
  lemma TlsCasInForce(env: Env, crls: seq<Crl>, conf: Config, clock: Clock, i: nat)
    requires TlsValid(env, crls, conf, clock) && i < |conf.tlsRoots|
    ensures exists ca: Certificate, pools: Pools :: ConfiguredAs(env, conf.tlsRoots[i], ca) && ca.body.isCA && ca.body.ski.Some?
                             && i < |pools.roots| && pools.roots[i] == ca && UniqueChainAt(env, Some(pools), ca, clock(i)).Success?
  {
    var roots, intermediates :| Read(env, conf.tlsRoots, roots) && Read(env, conf.tlsIntermediates, intermediates)
                                && TlsCasValid(env, Pools(roots, intermediates), crls, roots + intermediates, clock);
    var pools := Pools(roots, intermediates);
    assert (roots + intermediates)[i] == roots[i] && CertFromPem(env, conf.tlsRoots[i]) == Success(roots[i]);
    assert ConfiguredAs(env, conf.tlsRoots[i], roots[i]) && pools.roots[i] == roots[i];
  }

  /** A signer is usable exactly when its certificate loads and survives a second sanitising, and a key to sign with is at hand. */
  lemma SignerUsableIff(env: Env, hashName: string, opts: Option<Pools>, info: SigningInfo)
    ensures SignerFromConf(env, hashName, opts, info).Success? <==>
            && IdentityFromConf(env, hashName, opts, info.publicSigner).Success?
            && SanitizedCert(env, opts, IdentityFromConf(env, hashName, opts, info.publicSigner).value).Success?
            && exists cert :: ConfiguredAs(env, info.publicSigner, cert) && env.importsKey(cert) && KeyAtHand(env, cert, info)
  {
    if IdentityFromConf(env, hashName, opts, info.publicSigner).Success? {
      var cert := CertFromPem(env, info.publicSigner).value;
      assert ConfiguredAs(env, info.publicSigner, cert);
      assert KeyAtHand(env, cert, info) <==> PrivateKeyOf(env, cert, info).Some? && env.signs(PrivateKeyOf(env, cert, info).value);
    }
  }

  /** The key store has a key that signs; if it has none at all, the configuration carries one. */
  ghost predicate KeyAtHand(env: Env, cert: Certificate, info: SigningInfo) {
    if env.storedKey(cert).Some? then env.signs(env.storedKey(cert).value)
    else info.keyMaterial.Some? && env.importedKey(info.keyMaterial.value).Some? && env.signs(env.importedKey(info.keyMaterial.value).value)
  }

  /** A configuration of roots alone is accepted when they are CAs that are their own only path and not ECDSA-signed. */
  lemma RootsAloneReady(env: Env, conf: Config, clock: Clock, roots: seq<Certificate>) returns (s: State)
    requires conf.rootCerts != [] && |roots| == |conf.rootCerts| && env.hashKnown(HashOf(conf))
    requires conf.intermediateCerts == [] && conf.admins == [] && conf.crls == [] && conf.units == []
    requires conf.signer.None? && conf.tlsRoots == [] && conf.tlsIntermediates == []
    requires forall i :: 0 <= i < |roots| ==> ConfiguredAs(env, conf.rootCerts[i], roots[i]) && PlainRoot(env, roots[i], roots)
    ensures Ready(env, s, conf, clock) && s.roots == roots
  {
    var pools := Pools(roots, []);
    s := State(conf.name, HashOf(conf), roots, [], [], Some(pools), [], map[], map[]);
    forall i | 0 <= i < |roots| ensures CertFromPem(env, conf.rootCerts[i]) == Success(roots[i]) {
      assert ConfiguredAs(env, conf.rootCerts[i], roots[i]);
    }
    assert CasLoaded(env, conf, pools, roots, []);
    forall i | 0 <= i < |roots| ensures CaValid(env, UniqueChain(env, s.opts, roots[i]), [], roots[i]) {
      assert PlainRoot(env, roots[i], roots);
    }
    assert roots + [] == roots;
    assert Read(env, [], []) && TlsCasValid(env, Pools([], []), [], [] + [], clock);
    assert forall ou :: !Configured(env, s, [], ou);
  }

  ghost predicate PlainRoot(env: Env, cert: Certificate, roots: seq<Certificate>) {
    && !cert.body.ecdsaSigned && cert.body.isCA && cert.body.ski.Some?
    && env.chains(cert, Pools(roots, []), cert.body.notBefore + 1) == Some([[cert]])
  }
}
