/**
 * Where policies meet the membership service: the identities a policy is evaluated on come from
 * MSPs that are looked up by name, and each answers only for its own name (msp/mspimpl.go,
 * msp/mspmgrimpl.go, common/cauthdsl/cauthdsl.go).
 */
module PolicyMembership {
  import opened Wrappers
  import opened Certificates
  import opened MspState
  import opened MspSetup
  import opened PolicyEvaluation
  import opened PolicyOrganisations
  import opened PolicyEngine
  import opened PolicyParser
  import opened PolicyMeaning

  datatype Msp = Msp(env: Env, state: State)

  /** The MSPs by name, protobuf decoding, and the verification of signatures by an identity. */
  datatype Msps = Msps(
    byName: map<string, Msp>,
    unmarshal: Bytes -> Option<SerializedIdentity>,
    verify: (Certificate, Bytes, Bytes) -> bool)

  /** An identity: its certificate, and the name of the MSP it belongs to. */
  datatype Identity = Identity(msp: string, cert: Certificate)

  /** Every MSP is filed under its own name. */
  ghost predicate OwnNames(m: Msps) {
    forall n :: n in m.byName ==> m.byName[n].state.name == n
  }

  /** DeserializeIdentity of the manager. */
  function Identify(m: Msps, bytes: Bytes): Option<Identity> {
    match m.unmarshal(bytes)
    case None => None
    case Some(sid) =>
      if sid.mspid !in m.byName then None
      else
        match DeserializeInternal(m.byName[sid.mspid].env, m.byName[sid.mspid].state, sid.idBytes)
        case Failure(_) => None
        case Success(cert) => Some(Identity(sid.mspid, cert))
  }

  function AsPrincipal(p: RolePrincipal): Principal {
    match p.role
    case Member => MemberOf(p.mspId)
    case Admin => AdminOf(p.mspId)
  }

  /** SatisfiesPrincipal of an identity asks the MSP it belongs to. */
  ghost predicate HasRole(m: Msps, id: Identity, p: RolePrincipal) {
    id.msp in m.byName && Satisfies(m.byName[id.msp].env, m.byName[id.msp].state, id.cert, AsPrincipal(p))
  }

  ghost function Members(m: Msps): Membership<Identity, RolePrincipal> {
    Membership(bytes => Identify(m, bytes), (id, p) => HasRole(m, id, p), (id: Identity, data, sig) => m.verify(id.cert, data, sig))
  }

  /** For each signed datum, the named principals that its identity satisfies. */
  ghost function Signers(m: Msps, ev: Evaluator<RolePrincipal>, signedData: seq<SignedData>): seq<set<RolePrincipal>> {
    Table(Members(m), Named(ev), signedData)
  }

  /**
   * A signed datum speaks for a role exactly when it names the organisation, the MSP of that name
   * deserializes it, the identity verifies the signature, and it is one of that MSP's admins or,
   * for the member role, valid.
   */
  lemma RoleIff(m: Msps, o: string, role: Role, sd: SignedData)
    requires OwnNames(m)
    ensures Satisfied(Members(m), RolePrincipal(o, role), sd) <==>
            && m.unmarshal(sd.identity).Some? && m.unmarshal(sd.identity).value.mspid == o && o in m.byName
            && var msp := m.byName[o];
               var cert := DeserializeInternal(msp.env, msp.state, m.unmarshal(sd.identity).value.idBytes);
               && cert.Success? && m.verify(cert.value, sd.data, sd.signature)
               && (role == Member ==> Valid(msp.env, msp.state, cert.value))
               && (role == Admin ==> exists a :: a in msp.state.admins && a.raw == cert.value.raw)
  {}

  // ------------------------------------------------ one organisation, and admins

  /** An identity satisfies principals of one organisation only. */
  lemma SignersOfOneOrg(m: Msps, ev: Evaluator<RolePrincipal>, signedData: seq<SignedData>)
    requires OwnNames(m)
    ensures OneOrg(Signers(m, ev, signedData), Org)
  {
    var t := Signers(m, ev, signedData);
    forall s, p, q | s in t && p in s && q in s ensures Org(p) == Org(q) {
      var i :| 0 <= i < |t| && t[i] == s;
      RoleOfOwnMsp(m, p, signedData[i]);
      RoleOfOwnMsp(m, q, signedData[i]);
    }
  }

  lemma RoleOfOwnMsp(m: Msps, p: RolePrincipal, sd: SignedData)
    requires OwnNames(m) && Satisfied(Members(m), p, sd)
    ensures Identify(m, sd.identity).Some? && p.mspId == Identify(m, sd.identity).value.msp
  {}

  /** Every MSP has been set up successfully under some configuration. */
  ghost predicate AllReady(m: Msps) {
    forall n :: n in m.byName ==> X509Law(m.byName[n].env.x) && SetUp(m.byName[n])
  }

  ghost predicate SetUp(msp: Msp) {
    exists conf, clock :: Ready(msp.env, msp.state, conf, clock)
  }

  /** Whoever signs as an admin signs as a member. */
  lemma AdminSignsAsMember(m: Msps, o: string, sd: SignedData)
    requires AllReady(m) && Satisfied(Members(m), RolePrincipal(o, Admin), sd)
    ensures Satisfied(Members(m), RolePrincipal(o, Member), sd)
  {
    var id := Identify(m, sd.identity).value;
    var msp, sid := m.byName[id.msp], m.unmarshal(sd.identity).value;
    assert HasRole(m, id, RolePrincipal(o, Admin)) && SetUp(msp);
    var conf, clock :| Ready(msp.env, msp.state, conf, clock);
    FromPemParsed(msp.env, sid.idBytes);
    SanitizedParsed(msp.env, msp.state.opts, CertFromPem(msp.env, sid.idBytes).value);
    SatisfiedAfterSetup(msp.env, msp.state, conf, clock, id.cert, AdminOf(o));
  }

  lemma SignersAdminsAreMembers(m: Msps, ev: Evaluator<RolePrincipal>, signedData: seq<SignedData>)
    requires AllReady(m)
    ensures AdminsAreMembers(Signers(m, ev, signedData), Leaves(ev))
  {
    var t := Signers(m, ev, signedData);
    forall s | s in t ensures AdminIsMember(s, Leaves(ev)) {
      var i :| 0 <= i < |t| && t[i] == s;
      forall o | RolePrincipal(o, Admin) in s && RolePrincipal(o, Member) in Leaves(ev) ensures RolePrincipal(o, Member) in s {
        AdminSignsAsMember(m, o, signedData[i]);
      }
    }
  }

  // ------------------------------------------------------------- the theorems

  /**
   * From the text to the MSPs: if no AND names an organisation in two of its arguments, the policy
   * FromString makes of it accepts signed data exactly when the expression is true of the roles
   * their identities have; more signed data, in any order, do not lose acceptance.
   */
  lemma TextExactForMembers(e: Expr, m: Msps, signedData: seq<SignedData>, more: seq<SignedData>)
    requires WellFormed(e) && AndsApart(e) && OwnNames(m)
    ensures ToEnvelope(e).Success? && NewPolicy(ToEnvelope(e).value) == Success(Direct(e))
    ensures Accepts(Direct(e), Signers(m, Direct(e), signedData)) <==> Means(e, Signers(m, Direct(e), signedData))
    ensures multiset(signedData) <= multiset(more) && Accepts(Direct(e), Signers(m, Direct(e), signedData)) ==>
              Accepts(Direct(e), Signers(m, Direct(e), more))
  {
    var ev := Direct(e);
    FromStringPreservesMeaning(e);
    SignersOfOneOrg(m, ev, signedData);
    SignersOfOneOrg(m, ev, more);
    ApartMeansExactly(e, Signers(m, ev, signedData));
    if multiset(signedData) <= multiset(more) {
      AndsApartIs(e);
      SeparatedIsExact(ev, Signers(m, ev, signedData), Org);
      SeparatedIsExact(ev, Signers(m, ev, more), Org);
      SignersGrow(m, ev, signedData, more);
      HoldsMonotone(ev, Signers(m, ev, signedData), Signers(m, ev, more));
    }
  }

  lemma SignersGrow(m: Msps, ev: Evaluator<RolePrincipal>, signedData: seq<SignedData>, more: seq<SignedData>)
    requires multiset(signedData) <= multiset(more)
    ensures forall s :: s in Signers(m, ev, signedData) ==> s in Signers(m, ev, more)
  {
    var t, u := Signers(m, ev, signedData), Signers(m, ev, more);
    forall s | s in t ensures s in u {
      var i :| 0 <= i < |t| && t[i] == s;
      assert signedData[i] in multiset(signedData) && signedData[i] in multiset(more);
      var j :| 0 <= j < |more| && more[j] == signedData[i];
      assert u[j] == t[i];
    }
  }

  /** What the any-admin policy of some organisations accepts, their any-member policy accepts. */
  lemma AnyAdminIsAnyMember(m: Msps, ids: seq<string>, signedData: seq<SignedData>)
    requires AllReady(m)
    ensures NewPolicy(AnyOfGivenRole(Admin, ids)).Success? && NewPolicy(AnyOfGivenRole(Member, ids)).Success?
    ensures var admins, members := NewPolicy(AnyOfGivenRole(Admin, ids)).value, NewPolicy(AnyOfGivenRole(Member, ids)).value;
            Accepts(admins, Signers(m, admins, signedData)) ==> Accepts(members, Signers(m, members, signedData))
  {
    AnyOfAcceptsIff(Admin, ids, Members(m), signedData);
    AnyOfAcceptsIff(Member, ids, Members(m), signedData);
    if i, k :| 0 <= i < |signedData| && 0 <= k < |ids| && Satisfied(Members(m), RolePrincipal(ids[k], Admin), signedData[i]) {
      AdminSignsAsMember(m, ids[k], signedData[i]);
    }
  }
}
