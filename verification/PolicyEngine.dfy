/**
 * The running evaluator of common/cauthdsl: the gate and leaf closures of cauthdsl.go that mark
 * positions in a shared `used` slice, the entry points of policy.go, and the policy builders of
 * cauthdsl_builder.go.
 */
module PolicyEngine {
  import opened Wrappers
  import opened PolicyEvaluation
  import opened PolicyExactness
  import opened Lex

  datatype SignedData = SignedData(identity: Bytes, data: Bytes, signature: Bytes)

  /** What the evaluator asks of the membership service. */
  datatype Membership<!Id, !P> = Membership(
    deserialize: Bytes -> Option<Id>,
    satisfies: (Id, P) -> bool,
    verify: (Id, Bytes, Bytes) -> bool)

  /** The signed data deserializes, satisfies p and carries a valid signature. */
  predicate Satisfied<Id, P>(m: Membership<Id, P>, p: P, sd: SignedData) {
    match m.deserialize(sd.identity)
    case None => false
    case Some(id) => m.satisfies(id, p) && m.verify(id, sd.data, sd.signature)
  }

  /** For each signed datum, which of the given principals it satisfies. */
  function Table<Id, P>(m: Membership<Id, P>, principals: set<P>, signedData: seq<SignedData>): (t: seq<set<P>>)
    ensures |t| == |signedData|
    ensures forall i, p :: 0 <= i < |t| && p in principals ==> (p in t[i] <==> Satisfied(m, p, signedData[i]))
  {
    seq(|signedData|, i requires 0 <= i < |signedData| =>
      set p | p in principals && Satisfied(m, p, signedData[i]))
  }

  /**
   * What the evaluator is told about a signed datum: it satisfies a principal exactly when its
   * identity deserializes, satisfies the principal, and verifies the signature over the data.
   */
  lemma TableIff<Id, P>(m: Membership<Id, P>, principals: set<P>, signedData: seq<SignedData>, i: nat, p: P)
    requires i < |signedData|
    ensures p in Table(m, principals, signedData)[i] <==>
            && p in principals
            && m.deserialize(signedData[i].identity).Some?
            && m.satisfies(m.deserialize(signedData[i].identity).value, p)
            && m.verify(m.deserialize(signedData[i].identity).value, signedData[i].data, signedData[i].signature)
  {}

  /** The principals a compiled policy names. */
  function Named<P>(ev: Evaluator<P>): set<P> {
    set p | p in Leaves(ev)
  }

  // ----------------------------------------------- the closures of cauthdsl.go

  method RunLeaf<Id, P(==)>(p: P, m: Membership<Id, P>, signedData: seq<SignedData>, used: array<bool>,
                           ghost principals: set<P>)
    returns (ok: bool)
    requires used.Length == |signedData| && p in principals
    modifies used
    ensures (ok, used[..]) == Run(Leaf(p), Table(m, principals, signedData), old(used[..]))
  {
    ghost var table := Table(m, principals, signedData);
    var i := 0;
    while i < |signedData|
      invariant 0 <= i <= |signedData|
      invariant used[..] == old(used[..])
      invariant FirstUnused(p, table, old(used[..]), 0) == FirstUnused(p, table, old(used[..]), i)
    {
      if !used[i] {
        match m.deserialize(signedData[i].identity) {
          case None =>
          case Some(id) =>
            if m.satisfies(id, p) && m.verify(id, signedData[i].data, signedData[i].signature) {
              used[i] := true;
              return true;
            }
        }
      }
      i := i + 1;
    }
    return false;
  }

  method RunEvaluator<Id, P(==)>(ev: Evaluator<P>, m: Membership<Id, P>, signedData: seq<SignedData>,
                                used: array<bool>, ghost principals: set<P>)
    returns (ok: bool)
    requires used.Length == |signedData|
    requires forall p :: p in Leaves(ev) ==> p in principals
    modifies used
    ensures (ok, used[..]) == Run(ev, Table(m, principals, signedData), old(used[..]))
    decreases ev
  {
    match ev {
      case Leaf(p) =>
        ok := RunLeaf(p, m, signedData, used, principals);
      case Gate(n, subs) =>
        ghost var table := Table(m, principals, signedData);
        var verified := 0;
        var scratch := new bool[used.Length];
        var k := 0;
        assert subs[0..] == subs;
        while k < |subs|
          invariant 0 <= k <= |subs|
          invariant RunAll(subs, table, old(used[..])).0 == verified + RunAll(subs[k..], table, used[..]).0
          invariant RunAll(subs, table, old(used[..])).1 == RunAll(subs[k..], table, used[..]).1
        {
          ghost var before := used[..];
          forall i | 0 <= i < used.Length { scratch[i] := used[i]; }
          assert scratch[..] == before;
          RunAllStep(subs, k, table, before);
          LeavesOfSub(subs, k);
          var accepted := RunEvaluator(subs[k], m, signedData, scratch, principals);
          if accepted {
            verified := verified + 1;
            forall i | 0 <= i < used.Length { used[i] := scratch[i]; }
            assert used[..] == scratch[..];
          }
          ghost var first := Run(subs[k], table, before);
          assert used[..] == if first.0 then first.1 else before;
          k := k + 1;
        }
        ok := verified >= n;
    }
  }

  lemma RunAllStep<P>(subs: seq<Evaluator<P>>, k: nat, sat: seq<set<P>>, used: seq<bool>)
    requires k < |subs| && |used| == |sat|
    ensures var first := Run(subs[k], sat, used);
            var rest := RunAll(subs[k + 1..], sat, if first.0 then first.1 else used);
            RunAll(subs[k..], sat, used) == (rest.0 + (if first.0 then 1 else 0), rest.1)
  {
    assert subs[k..][0] == subs[k] && subs[k..][1..] == subs[k + 1..];
  }

  lemma {:induction false} LeavesOfSub<P>(subs: seq<Evaluator<P>>, k: nat)
    requires k < |subs|
    ensures forall p :: p in Leaves(subs[k]) ==> p in LeavesAll(subs)
  {
    if k > 0 {
      LeavesOfSub(subs[1..], k - 1);
      assert subs[1..][k - 1] == subs[k];
    }
  }

  // --------------------------------------------------------------- policy.go

  datatype Envelope<P> = Envelope(version: int, rule: SignaturePolicy, identities: seq<P>)

  datatype PolicyError = UnsupportedVersion(version: int) | NotCompiled(cause: CompileError)

  function NewPolicy<P>(envelope: Envelope<P>): (r: Result<Evaluator<P>, PolicyError>) {
    if envelope.version != 0 then Failure(UnsupportedVersion(envelope.version))
    else
      match Compile(envelope.rule, envelope.identities)
      case Failure(e) => Failure(NotCompiled(e))
      case Success(ev) => Success(ev)
  }

  /** Version 0 only, and only policies that compile; the evaluator has the policy's shape. */
  lemma NewPolicyIff<P>(envelope: Envelope<P>, ev: Evaluator<P>)
    ensures NewPolicy(envelope) == Success(ev) <==> envelope.version == 0 && Mirrors(ev, envelope.rule, envelope.identities)
  {
    CompileMirrors(envelope.rule, envelope.identities, ev);
  }

  /** policy.Evaluate; a nil policy is None. */
  method Evaluate<Id, P(==)>(policy: Option<Evaluator<P>>, m: Membership<Id, P>, signatureSet: seq<SignedData>)
    returns (ok: bool)
    ensures policy.None? ==> !ok
    ensures policy.Some? ==>
              (ok <==> Accepts(policy.value, Table(m, Named(policy.value), signatureSet)))
  {
    match policy {
      case None => ok := false;
      case Some(ev) =>
        var used := new bool[|signatureSet|](_ => false);
        assert used[..] == AllUnused(|signatureSet|);
        ok := RunEvaluator(ev, m, signatureSet, used, Named(ev));
    }
  }

  // ---------------------------------------------------- cauthdsl_builder.go

  datatype Role = Member | Admin

  datatype RolePrincipal = RolePrincipal(mspId: string, role: Role)

  /** The rule "one of SignedBy(0), ..., SignedBy(count - 1)". */
  function OneOf(count: nat): SignaturePolicy {
    NOutOf(1, seq(count, i => SignedBy(i)))
  }

  function AnyOfGivenRole(role: Role, ids: seq<string>): Envelope<RolePrincipal> {
    Envelope(0, OneOf(|ids|), seq(|ids|, i requires 0 <= i < |ids| => RolePrincipal(ids[i], role)))
  }

  /** signedByAnyOfGivenRole: sorts the caller's ids in place, then builds one principal per id. */
  method SignedByAnyOfGivenRole(role: Role, ids: array<string>) returns (envelope: Envelope<RolePrincipal>)
    modifies ids
    ensures ids[..] == Sort(old(ids[..]))
    ensures envelope == AnyOfGivenRole(role, Sort(old(ids[..])))
  {
    var sorted := Sort(ids[..]);
    for i := 0 to ids.Length
      invariant ids[..i] == sorted[..i]
    {
      ids[i] := sorted[i];
    }
    assert ids[..] == ids[..ids.Length] && sorted[..|sorted|] == sorted;
    var principals: seq<RolePrincipal>, rules: seq<SignaturePolicy> := [], [];
    for i := 0 to ids.Length
      invariant principals == AnyOfGivenRole(role, sorted).identities[..i]
      invariant rules == OneOf(|sorted|).rules[..i]
    {
      principals := principals + [RolePrincipal(ids[i], role)];
      rules := rules + [SignedBy(i)];
    }
    assert principals == AnyOfGivenRole(role, sorted).identities && rules == OneOf(|sorted|).rules;
    envelope := Envelope(0, NOutOf(1, rules), principals);
  }

  /** Listing the organisations in another order yields the identical policy. */
  lemma AnyOfOrderIrrelevant(role: Role, ids: seq<string>, shuffled: seq<string>)
    requires multiset(ids) == multiset(shuffled)
    ensures AnyOfGivenRole(role, Sort(ids)) == AnyOfGivenRole(role, Sort(shuffled))
  {
    SortCanonical(ids, shuffled);
  }

  function LeavesFrom<P>(identities: seq<P>, from: nat, count: nat): (r: seq<Evaluator<P>>)
    requires from + count <= |identities|
    ensures |r| == count && forall i :: 0 <= i < count ==> r[i] == Leaf(identities[from + i])
    decreases count
  {
    if count == 0 then [] else [Leaf(identities[from])] + LeavesFrom(identities, from + 1, count - 1)
  }

  lemma {:induction false} CompileSignedBys<P>(identities: seq<P>, from: nat, count: nat)
    requires from + count <= |identities|
    ensures CompileAll(seq(count, i => SignedBy(from + i)), identities) == Success(LeavesFrom(identities, from, count))
    decreases count
  {
    var rules := seq(count, i => SignedBy(from + i));
    if count > 0 {
      assert rules[0] == SignedBy(from);
      assert rules[1..] == seq(count - 1, i => SignedBy(from + 1 + i));
      CompileSignedBys(identities, from + 1, count - 1);
    }
  }

  lemma {:induction false} HoldingLeaf<P>(subs: seq<Evaluator<P>>, sat: seq<set<P>>)
    requires forall i :: 0 <= i < |subs| ==> subs[i].Leaf?
    ensures CountHolding(subs, sat) >= 1 <==> exists i :: 0 <= i < |subs| && Present(subs[i].principal, sat)
    ensures SingleThresholdAll(subs)
  {
    if subs != [] {
      HoldingLeaf(subs[1..], sat);
      assert forall i :: 1 <= i < |subs| ==> subs[i] == subs[1..][i - 1];
    }
  }

  lemma {:induction false} LeavesOfLeaves<P>(subs: seq<Evaluator<P>>, k: nat)
    requires k < |subs| && subs[k].Leaf?
    ensures subs[k].principal in LeavesAll(subs)
  {
    LeavesOfSub(subs, k);
    assert subs[k].principal in Leaves(subs[k]);
  }

  /** "One of these principals" accepts exactly when some signed datum satisfies one of them. */
  lemma OneOfAcceptsIff<Id, P>(identities: seq<P>, m: Membership<Id, P>, signedData: seq<SignedData>)
    ensures var ev := Gate(1, LeavesFrom(identities, 0, |identities|));
            Accepts(ev, Table(m, Named(ev), signedData)) <==>
            exists i, k :: 0 <= i < |signedData| && 0 <= k < |identities| && Satisfied(m, identities[k], signedData[i])
  {
    var subs := LeavesFrom(identities, 0, |identities|);
    var ev := Gate(1, subs);
    var table := Table(m, Named(ev), signedData);
    HoldingLeaf(subs, table);
    SingleThresholdExact(ev, table);
    forall k | 0 <= k < |subs|
      ensures Present(subs[k].principal, table) <==>
              exists i :: 0 <= i < |signedData| && Satisfied(m, identities[k], signedData[i])
    {
      LeavesOfLeaves(subs, k);
      PresentIff(identities[k], m, Named(ev), signedData);
    }
  }

  lemma PresentIff<Id, P>(p: P, m: Membership<Id, P>, principals: set<P>, signedData: seq<SignedData>)
    requires p in principals
    ensures Present(p, Table(m, principals, signedData)) <==>
            exists i :: 0 <= i < |signedData| && Satisfied(m, p, signedData[i])
  {
    var table := Table(m, principals, signedData);
    forall i | 0 <= i < |table| && p in table[i] ensures Present(p, table) { assert table[i] in table; }
  }

  /**
   * The "any member" and "any admin" policies compile for every list of organisations, and
   * accept exactly when some signed datum satisfies that role in some listed organisation.
   */
  lemma AnyOfAcceptsIff<Id>(role: Role, ids: seq<string>, m: Membership<Id, RolePrincipal>, signedData: seq<SignedData>)
    ensures NewPolicy(AnyOfGivenRole(role, ids)).Success?
    ensures var ev := NewPolicy(AnyOfGivenRole(role, ids)).value;
            Accepts(ev, Table(m, Named(ev), signedData)) <==>
            exists i, k :: 0 <= i < |signedData| && 0 <= k < |ids|
                        && Satisfied(m, RolePrincipal(ids[k], role), signedData[i])
  {
    var env := AnyOfGivenRole(role, ids);
    assert env.rule.rules == seq(|ids|, i => SignedBy(0 + i));
    CompileSignedBys(env.identities, 0, |ids|);
    OneOfAcceptsIff(env.identities, m, signedData);
    assert forall k :: 0 <= k < |ids| ==> env.identities[k] == RolePrincipal(ids[k], role);
  }
}
