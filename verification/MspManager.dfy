/** Routing of serialized identities to MSPs by name (msp/mspmgrimpl.go). */
module MspManager {
  import opened Wrappers
  import opened BigEndian
  import opened Certificates
  import opened MspState
  import opened MspSetup

  /** The MSPs a manager may hold: this package's implementation, or another one. */
  datatype Provider =
    | Bccsp(msp: BccspMsp)
    | Other(name: Option<string>, deserialize: Bytes -> Result<Certificate, MspError>)

  datatype ManagerError = Unreadable | UnknownMsp(mspid: string) | FromMsp(cause: MspError)

  /** GetIdentifier. */
  function NameOf(p: Provider): Option<string>
    reads if p.Bccsp? then {p.msp} else {}
  {
    match p
    case Bccsp(m) => Some(m.name)
    case Other(n, _) => n
  }

  /** What the MSP itself answers, with its own check of the MSP identifier. */
  function Checked(p: Provider, sid: SerializedIdentity, bytes: Bytes): Result<Certificate, ManagerError>
    reads if p.Bccsp? then {p.msp} else {}
  {
    match p
    case Bccsp(m) => Lift(Deserialize(m.env, m.View(), sid))
    case Other(_, d) => Lift(d(bytes))
  }

  function Lift(r: Result<Certificate, MspError>): Result<Certificate, ManagerError> {
    match r
    case Failure(e) => Failure(FromMsp(e))
    case Success(c) => Success(c)
  }

  class Manager {
    const unmarshal: Bytes -> Option<SerializedIdentity>
    var msps: map<string, Provider>
    var up: bool

    constructor (unmarshal: Bytes -> Option<SerializedIdentity>)
      ensures this.unmarshal == unmarshal && !up && msps == map[]
    {
      this.unmarshal := unmarshal;
      msps, up := map[], false;
    }

    /** Registers the MSPs under their names; a later MSP of the same name wins. */
    method Setup(list: Option<seq<Provider>>) returns (ok: bool)
      modifies this
      ensures old(up) ==> ok && up && msps == old(msps)
      ensures !old(up) ==> (up <==> ok)
      ensures !old(up) ==> (ok <==> list.Some? && list.value != [] && None !in Names(list.value))
      ensures !old(up) && ok ==> Routes(msps, list.value, Names(list.value))
    {
      if up { return true; }
      if list.None? { return false; }
      if |list.value| == 0 { return false; }
      msps := map[];
      var all := list.value;
      ghost var names := Names(all);
      for i := 0 to |all|
        modifies `msps
        invariant names == Names(all)
        invariant None !in names[..i]
        invariant Routes(msps, all[..i], names[..i])
      {
        var id := NameOf(all[i]);
        assert names[i] == id;
        if id.None? { return false; }
        RoutesStep(msps, all, names, i, id.value);
        msps := msps[id.value := all[i]];
      }
      assert names[..|all|] == names && all[..|all|] == all;
      up := true;
      ok := true;
    }

    /** Routes by name and, for this package's MSPs, skips their own check of the identifier. */
    method DeserializeIdentity(bytes: Bytes) returns (r: Result<Certificate, ManagerError>)
      ensures unmarshal(bytes).None? ==> r == Failure(Unreadable)
      ensures unmarshal(bytes).Some? && unmarshal(bytes).value.mspid !in msps ==>
                r == Failure(UnknownMsp(unmarshal(bytes).value.mspid))
      ensures unmarshal(bytes).Some? && unmarshal(bytes).value.mspid in msps ==>
                var sid := unmarshal(bytes).value;
                NameOf(msps[sid.mspid]) == Some(sid.mspid) || msps[sid.mspid].Other? ==>
                  r == Checked(msps[sid.mspid], sid, bytes)
      ensures unmarshal(bytes).Some? && unmarshal(bytes).value.mspid in msps ==>
                var sid := unmarshal(bytes).value;
                msps[sid.mspid].Bccsp? ==>
                  var m := msps[sid.mspid].msp; r == Lift(DeserializeInternal(m.env, m.View(), sid.idBytes))
    {
      match unmarshal(bytes) {
        case None => r := Failure(Unreadable);
        case Some(sid) =>
          if sid.mspid !in msps { return Failure(UnknownMsp(sid.mspid)); }
          match msps[sid.mspid] {
            case Bccsp(m) => r := Lift(DeserializeInternal(m.env, m.View(), sid.idBytes));
            case Other(_, d) => r := Lift(d(bytes));
          }
      }
    }
  }

  /** The names of the listed MSPs. */
  function Names(list: seq<Provider>): (r: seq<Option<string>>)
    reads set p | p in list && p.Bccsp? :: p.msp
    ensures |r| == |list| && forall i :: 0 <= i < |list| ==> r[i] == NameOf(list[i])
  {
    if list == [] then [] else [NameOf(list[0])] + Names(list[1..])
  }

  /** The last index of the given name, or -1. */
  function LastIndex(names: seq<Option<string>>, name: string): (k: int)
    ensures -1 <= k < |names|
    ensures k >= 0 ==> names[k] == Some(name)
    ensures forall j :: k < j < |names| ==> names[j] != Some(name)
  {
    if names == [] then -1
    else if names[|names| - 1] == Some(name) then |names| - 1
    else LastIndex(names[..|names| - 1], name)
  }

  /** Every name in the list, and no other, leads to the last MSP that bears it. */
  ghost predicate Routes(msps: map<string, Provider>, list: seq<Provider>, names: seq<Option<string>>)
    requires |list| == |names|
  {
    forall n: string :: (n in msps <==> LastIndex(names, n) >= 0) &&
                        (n in msps ==> msps[n] == list[LastIndex(names, n)])
  }

  lemma RoutesStep(msps: map<string, Provider>, list: seq<Provider>, names: seq<Option<string>>, i: nat, id: string)
    requires i < |list| == |names| && names[i] == Some(id)
    requires Routes(msps, list[..i], names[..i])
    ensures Routes(msps[id := list[i]], list[..i + 1], names[..i + 1])
  {
    assert names[..i + 1][..i] == names[..i];
  }

  /**
   * After a successful Setup, and as long as the MSPs keep their names, a name leads to the last
   * listed MSP that bears it.
   */
  lemma RoutedToLast(msps: map<string, Provider>, list: seq<Provider>, id: string)
    requires Routes(msps, list, Names(list))
    ensures id in msps <==> Some(id) in Names(list)
    ensures id in msps ==>
              exists k :: IsLast(Names(list), id, k) && msps[id] == list[k] && NameOf(list[k]) == Some(id)
  {
    var names := Names(list);
    LastIndexIff(names, id);
    if id in msps {
      var k := LastIndex(names, id);
      assert IsLast(names, id, k) && msps[id] == list[k] && NameOf(list[k]) == Some(id);
    }
  }

  /**
   * Setup, then DeserializeIdentity: the answer is that of the last listed MSP of that name, with
   * its own check of the identifier.
   */
  method SetupAndDeserialize(mgr: Manager, list: seq<Provider>, bytes: Bytes)
    returns (ok: bool, r: Result<Certificate, ManagerError>)
    requires !mgr.up
    modifies mgr
    ensures ok <==> list != [] && None !in Names(list)
    ensures ok && mgr.unmarshal(bytes).Some? ==>
              var sid := mgr.unmarshal(bytes).value;
              if Some(sid.mspid) in Names(list)
              then exists k :: IsLast(Names(list), sid.mspid, k) && r == Checked(list[k], sid, bytes)
              else r == Failure(UnknownMsp(sid.mspid))
    ensures mgr.unmarshal(bytes).None? ==> r == Failure(Unreadable)
  {
    ok := mgr.Setup(Some(list));
    r := mgr.DeserializeIdentity(bytes);
    if ok && mgr.unmarshal(bytes).Some? {
      RoutedToLast(mgr.msps, list, mgr.unmarshal(bytes).value.mspid);
    }
  }

  predicate IsLast(names: seq<Option<string>>, name: string, k: int) {
    0 <= k < |names| && names[k] == Some(name) && Some(name) !in names[k + 1..]
  }

  lemma LastIndexIff(names: seq<Option<string>>, name: string)
    ensures Some(name) in names <==> LastIndex(names, name) >= 0
    ensures Some(name) in names ==> IsLast(names, name, LastIndex(names, name))
  {}

  /**
   * Skipping the identifier check makes no difference exactly when the MSP still bears the name
   * it is asked for: the manager's answer is then the checked one, otherwise it never is.
   */
  lemma SkippedCheckIff(env: Env, s: State, sid: SerializedIdentity)
    ensures DeserializeInternal(env, s, sid.idBytes) == Deserialize(env, s, sid) <==> sid.mspid == s.name
  {
    assert DeserializeInternal(env, s, sid.idBytes) != Failure(WrongMsp);
  }
}
