/**
 * FromString preserves meaning: the envelope it produces, compiled, is the direct translation of
 * the expression (AND asks for all arguments, OR for one), and its leaf indices number the
 * registered principals one to one.
 */
module PolicyMeaning {
  import opened Wrappers
  import opened PolicyEvaluation
  import opened PolicyExactness
  import opened PolicyBoolean
  import opened PolicyOrganisations
  import opened PolicyEngine
  import opened PolicyParser

  // ---------------------------------------------------- well-formed expressions

  predicate NoNumbers(e: Expr)
    decreases e, 1
  {
    match e
    case Num(_) => false
    case Text(_) => true
    case Call(_, args) => NoNumbersAll(args)
  }

  predicate NoNumbersAll(es: seq<Expr>)
    decreases es, 0
  {
    es == [] || (NoNumbers(es[0]) && NoNumbersAll(es[1..]))
  }

  predicate OnlyPrincipals(e: Expr)
    decreases e, 1
  {
    match e
    case Num(_) => true
    case Text(s) => MatchPrincipal(s).Some?
    case Call(_, args) => OnlyPrincipalsAll(args)
  }

  predicate OnlyPrincipalsAll(es: seq<Expr>)
    decreases es, 0
  {
    es == [] || (OnlyPrincipals(es[0]) && OnlyPrincipalsAll(es[1..]))
  }

  predicate GatesNonEmpty(e: Expr)
    decreases e, 1
  {
    match e
    case Num(_) => true
    case Text(_) => true
    case Call(_, args) => args != [] && GatesNonEmptyAll(args)
  }

  predicate GatesNonEmptyAll(es: seq<Expr>)
    decreases es, 0
  {
    es == [] || (GatesNonEmpty(es[0]) && GatesNonEmptyAll(es[1..]))
  }

  /** GATE(P[, P]) where every P is a principal ORG.ROLE or another gate. */
  predicate WellFormed(e: Expr) {
    e.Call? && NoNumbers(e) && OnlyPrincipals(e) && GatesNonEmpty(e)
  }

  // ------------------------------------------------------- direct translation

  function Direct(e: Expr): Evaluator<RolePrincipal>
    requires NoNumbers(e) && OnlyPrincipals(e)
    decreases e, 1
  {
    match e
    case Text(s) => Leaf(MatchPrincipal(s).value)
    case Call(op, args) => Gate(Threshold(op, |args|), DirectAll(args))
  }

  function DirectAll(es: seq<Expr>): (r: seq<Evaluator<RolePrincipal>>)
    requires NoNumbersAll(es) && OnlyPrincipalsAll(es)
    ensures |r| == |es|
    decreases es, 0
  {
    if es == [] then [] else [Direct(es[0])] + DirectAll(es[1..])
  }

  /** What an expression means: AND holds when all arguments do, OR when some argument does. */
  ghost predicate Means(e: Expr, sat: seq<set<RolePrincipal>>)
    requires NoNumbers(e) && OnlyPrincipals(e)
    decreases e, 1
  {
    match e
    case Text(s) => Present(MatchPrincipal(s).value, sat)
    case Call(op, args) => if op.And? then AllMean(args, sat) else SomeMeans(args, sat)
  }

  ghost predicate AllMean(es: seq<Expr>, sat: seq<set<RolePrincipal>>)
    requires NoNumbersAll(es) && OnlyPrincipalsAll(es)
    decreases es, 0
  {
    es == [] || (Means(es[0], sat) && AllMean(es[1..], sat))
  }

  ghost predicate SomeMeans(es: seq<Expr>, sat: seq<set<RolePrincipal>>)
    requires NoNumbersAll(es) && OnlyPrincipalsAll(es)
    decreases es, 0
  {
    es != [] && (Means(es[0], sat) || SomeMeans(es[1..], sat))
  }

  lemma {:induction false} DirectMeans(e: Expr, sat: seq<set<RolePrincipal>>)
    requires NoNumbers(e) && OnlyPrincipals(e)
    ensures Holds(Direct(e), sat) <==> Means(e, sat)
    decreases e, 1
  {
    match e {
      case Text(s) =>
      case Call(op, args) => DirectMeansAll(args, sat);
    }
  }

  lemma {:induction false} DirectMeansAll(es: seq<Expr>, sat: seq<set<RolePrincipal>>)
    requires NoNumbersAll(es) && OnlyPrincipalsAll(es)
    ensures CountHolding(DirectAll(es), sat) <= |es|
    ensures CountHolding(DirectAll(es), sat) >= |es| <==> AllMean(es, sat)
    ensures CountHolding(DirectAll(es), sat) >= 1 <==> SomeMeans(es, sat)
    decreases es, 0
  {
    if es != [] {
      DirectMeans(es[0], sat);
      DirectMeansAll(es[1..], sat);
      assert DirectAll(es)[1..] == DirectAll(es[1..]);
    }
  }

  lemma {:induction false} DirectLive(e: Expr)
    requires NoNumbers(e) && OnlyPrincipals(e) && GatesNonEmpty(e)
    ensures Live(Direct(e))
    decreases e, 1
  {
    match e {
      case Text(s) =>
      case Call(op, args) => DirectLiveAll(args);
    }
  }

  lemma {:induction false} DirectLiveAll(es: seq<Expr>)
    requires NoNumbersAll(es) && OnlyPrincipalsAll(es) && GatesNonEmptyAll(es)
    ensures LiveAll(DirectAll(es))
    decreases es, 0
  {
    if es != [] {
      DirectLive(es[0]);
      DirectLiveAll(es[1..]);
      assert DirectAll(es)[1..] == DirectAll(es[1..]);
    }
  }

  // ------------------------------------------------------- AND/OR to outof

  /** The outof code an expression becomes; texts that are no principal come out unquoted. */
  function Outofs(e: Expr): Code
    requires NoNumbers(e)
    decreases e, 1
  {
    match e
    case Text(s) => if MatchPrincipal(s).Some? then Quoted(s) else Word(s)
    case Call(op, args) => Outof([Digits(Threshold(op, |args|))] + OutofsAll(args))
  }

  function OutofsAll(es: seq<Expr>): (r: seq<Code>)
    requires NoNumbersAll(es)
    ensures |r| == |es|
    decreases es, 0
  {
    if es == [] then [] else [Outofs(es[0])] + OutofsAll(es[1..])
  }

  lemma {:induction false} ConnectIs(e: Expr)
    requires e.Call?
    ensures Connect(e).Success? <==> NoNumbers(e)
    ensures NoNumbers(e) ==> Connect(e) == Success(Spelled(Outofs(e)))
    decreases e, 1
  {
    ConnectAllIs(e.args);
  }

  lemma {:induction false} ConnectAllIs(es: seq<Expr>)
    ensures ConnectAll(es).Success? && SpellAll(ConnectAll(es).value, false).Success? <==> NoNumbersAll(es)
    ensures NoNumbersAll(es) ==> SpellAll(ConnectAll(es).value, false) == Success(OutofsAll(es))
    decreases es, 0
  {
    if es != [] {
      ConnectAllIs(es[1..]);
      if es[0].Call? { ConnectIs(es[0]); }
      if ConnectAll(es).Success? {
        assert ConnectAll(es).value[1..] == ConnectAll(es[1..]).value;
      }
    }
  }

  // --------------------------------------------------------- first pass

  function Marked(e: Expr): Code
    requires NoNumbers(e) && OnlyPrincipals(e)
    decreases e, 1
  {
    match e
    case Text(s) => Quoted(s)
    case Call(op, args) => Outof([ContextId, Digits(Threshold(op, |args|))] + MarkedAll(args))
  }

  function MarkedAll(es: seq<Expr>): (r: seq<Code>)
    requires NoNumbersAll(es) && OnlyPrincipalsAll(es)
    ensures |r| == |es|
    decreases es, 0
  {
    if es == [] then [] else [Marked(es[0])] + MarkedAll(es[1..])
  }

  lemma {:induction false} MarkIs(e: Expr)
    requires e.Call? && NoNumbers(e)
    ensures Mark(Outofs(e)).Success? <==> OnlyPrincipals(e)
    ensures OnlyPrincipals(e) ==> Mark(Outofs(e)) == Success(Spelled(Marked(e)))
    decreases e, 1
  {
    var k := Threshold(e.op, |e.args|);
    var args := [Digits(k)] + OutofsAll(e.args);
    assert args[1..] == OutofsAll(e.args);
    MarkAllIs(e.args);
    var vs := MarkAll(args[1..]);
    if vs.Success? {
      var all := [Float(k)] + vs.value;
      assert MarkAll(args) == Success(all) && all[1..] == vs.value;
      if OnlyPrincipals(e) {
        assert SpellAll(all, true) == Success([Digits(k)] + MarkedAll(e.args));
        assert [ContextId] + ([Digits(k)] + MarkedAll(e.args)) == [ContextId, Digits(k)] + MarkedAll(e.args);
      }
    }
  }

  lemma {:induction false} MarkAllIs(es: seq<Expr>)
    requires NoNumbersAll(es)
    ensures MarkAll(OutofsAll(es)).Success? <==> OnlyPrincipalsAll(es)
    ensures OnlyPrincipalsAll(es) ==> SpellAll(MarkAll(OutofsAll(es)).value, true) == Success(MarkedAll(es))
    decreases es, 0
  {
    if es != [] {
      var cs := OutofsAll(es);
      assert cs[1..] == OutofsAll(es[1..]);
      MarkAllIs(es[1..]);
      if es[0].Call? { MarkIs(es[0]); }
      if MarkAll(cs).Success? {
        assert MarkAll(cs).value[1..] == MarkAll(cs[1..]).value;
      }
    }
  }

  // --------------------------------------------------------- second pass

  function Range(lo: nat, hi: nat): (r: seq<int>)
    requires lo <= hi
    ensures |r| == hi - lo && forall k :: 0 <= k < |r| ==> r[k] == lo + k
  {
    seq(hi - lo, k => lo + k)
  }

  lemma RangeConcat(lo: nat, mid: nat, hi: nat)
    requires lo <= mid <= hi
    ensures Range(lo, hi) == Range(lo, mid) + Range(mid, hi)
  {}

  /** The policy's indices are exactly the numbers lo, ..., hi - 1, each used once. */
  ghost predicate Numbers(indices: seq<int>, lo: nat, hi: nat) {
    lo <= hi && multiset(indices) == multiset(Range(lo, hi))
  }

  lemma NumbersJoin(a: seq<int>, b: seq<int>, lo: nat, mid: nat, hi: nat)
    requires Numbers(a, lo, mid) && Numbers(b, mid, hi)
    ensures Numbers(a + b, lo, hi)
  {
    RangeConcat(lo, mid, hi);
  }

  /** More registered principals do not change what a policy compiles to. */
  lemma {:induction false} CompileExtends(p: SignaturePolicy, ps: Registry, more: Registry)
    requires ps <= more && Compile(p, ps).Success?
    ensures Compile(p, more) == Compile(p, ps)
    decreases p, 1
  {
    match p {
      case NOutOf(_, rules) => CompileAllExtends(rules, ps, more);
      case SignedBy(_) =>
    }
  }

  lemma {:induction false} CompileAllExtends(rules: seq<SignaturePolicy>, ps: Registry, more: Registry)
    requires ps <= more && CompileAll(rules, ps).Success?
    ensures CompileAll(rules, more) == CompileAll(rules, ps)
    decreases rules, 0
  {
    if rules != [] {
      CompileExtends(rules[0], ps, more);
      CompileAllExtends(rules[1..], ps, more);
    }
  }

  /** Each argument has been evaluated: a text to itself, a gate to a policy that means it. */
  ghost predicate Evaluated(vs: seq<Value>, es: seq<Expr>, ps: Registry)
    requires NoNumbersAll(es) && OnlyPrincipalsAll(es)
  {
    && |vs| == |es|
    && (es != [] ==>
          && Evaluated(vs[1..], es[1..], ps)
          && (if es[0].Text? then vs[0] == Str(es[0].text)
              else vs[0].Policy? && Compile(vs[0].policy, ps) == Success(Direct(es[0]))))
  }

  lemma {:induction false} EvaluatedExtends(vs: seq<Value>, es: seq<Expr>, ps: Registry, more: Registry)
    requires NoNumbersAll(es) && OnlyPrincipalsAll(es)
    requires ps <= more && Evaluated(vs, es, ps)
    ensures Evaluated(vs, es, more)
  {
    if es != [] {
      EvaluatedExtends(vs[1..], es[1..], ps, more);
      if es[0].Call? { CompileExtends(vs[0].policy, ps, more); }
    }
  }

  function PolicyIndices(vs: seq<Value>): seq<int> {
    if vs == [] then []
    else (if vs[0].Policy? then Indices(vs[0].policy) else []) + PolicyIndices(vs[1..])
  }

  /** Registering evaluated arguments yields policies that mean the arguments. */
  lemma {:induction false} RegisterMeans(vs: seq<Value>, es: seq<Expr>, ps: Registry)
    requires NoNumbersAll(es) && OnlyPrincipalsAll(es)
    requires Evaluated(vs, es, ps)
    ensures RegisterAll(vs, ps).Success?
    ensures ps <= RegisterAll(vs, ps).value.1
    ensures CompileAll(RegisterAll(vs, ps).value.0, RegisterAll(vs, ps).value.1) == Success(DirectAll(es))
  {
    if es != [] {
      var first := Register(vs[0], ps).value;
      assert Compile(first.0, first.1) == Success(Direct(es[0]));
      EvaluatedExtends(vs[1..], es[1..], ps, first.1);
      RegisterMeans(vs[1..], es[1..], first.1);
      var rest := RegisterAll(vs[1..], first.1).value;
      CompileExtends(first.0, first.1, rest.1);
      assert ([first.0] + rest.0)[1..] == rest.0;
    }
  }

  /** Registering gives the texts the next free indices and keeps those of the policies. */
  lemma {:induction false} RegisterNumbers(vs: seq<Value>, ps: Registry)
    requires RegisterAll(vs, ps).Success?
    ensures |ps| <= |RegisterAll(vs, ps).value.1|
    ensures multiset(IndicesAll(RegisterAll(vs, ps).value.0)) ==
            multiset(PolicyIndices(vs)) + multiset(Range(|ps|, |RegisterAll(vs, ps).value.1|))
  {
    if vs != [] {
      var first := Register(vs[0], ps).value;
      RegisterNumbers(vs[1..], first.1);
      var rest := RegisterAll(vs[1..], first.1).value;
      assert IndicesAll([first.0] + rest.0) == Indices(first.0) + IndicesAll(rest.0) by {
        assert ([first.0] + rest.0)[1..] == rest.0;
      }
      assert Range(|ps|, |rest.1|) == (if vs[0].Str? then Indices(first.0) else []) + Range(|first.1|, |rest.1|) by {
        assert Range(|ps|, |first.1|) == if vs[0].Str? then Indices(first.0) else [];
        RangeConcat(|ps|, |first.1|, |rest.1|);
      }
      Interleave(vs[0].Str?, Indices(first.0), IndicesAll(rest.0), PolicyIndices(vs[1..]), Range(|first.1|, |rest.1|),
                 IndicesAll([first.0] + rest.0), PolicyIndices(vs), Range(|ps|, |rest.1|));
    }
  }

  lemma Interleave(own: bool, first: seq<int>, rest: seq<int>, policies: seq<int>, numbered: seq<int>,
                   all: seq<int>, allPolicies: seq<int>, allNumbered: seq<int>)
    requires multiset(rest) == multiset(policies) + multiset(numbered)
    requires all == first + rest
    requires allPolicies == (if own then [] else first) + policies
    requires allNumbered == (if own then first else []) + numbered
    ensures multiset(all) == multiset(allPolicies) + multiset(allNumbered)
  {}

  /** The second pass numbers a marked gate: the policy it yields compiles to the direct translation. */
  lemma {:induction false} NumberMeans(e: Expr, ps: Registry)
    requires e.Call? && NoNumbers(e) && OnlyPrincipals(e)
    ensures Number(Marked(e), ps).Success? <==> GatesNonEmpty(e)
    ensures GatesNonEmpty(e) ==>
              var (v, end) := Number(Marked(e), ps).value;
              && v.Policy? && ps <= end
              && Compile(v.policy, end) == Success(Direct(e))
              && Numbers(Indices(v.policy), |ps|, |end|)
    decreases e, 1
  {
    var k := Threshold(e.op, |e.args|);
    NumberAllMeans(e.args, ps);
    NumberGateArgs(k, e.args, ps);
    if GatesNonEmpty(e) {
      var (vs, mid) := NumberAll(MarkedAll(e.args), ps).value;
      var all := [Context, Float(k)] + vs;
      assert all[2..] == vs;
      RegisterMeans(vs, e.args, mid);
      RegisterNumbers(vs, mid);
      var (rules, end) := RegisterAll(vs, mid).value;
      assert Number(Marked(e), ps) == Success((Policy(NOutOf(k, rules)), end));
      RangeConcat(|ps|, |mid|, |end|);
    }
  }

  lemma NumberGateArgs(k: int, es: seq<Expr>, ps: Registry)
    requires NoNumbersAll(es) && OnlyPrincipalsAll(es)
    ensures var r := NumberAll(MarkedAll(es), ps);
            NumberAll([ContextId, Digits(k)] + MarkedAll(es), ps) ==
            if r.Failure? then Failure(r.error) else Success(([Context, Float(k)] + r.value.0, r.value.1))
  {
    var cs := [ContextId, Digits(k)] + MarkedAll(es);
    assert cs[1..] == [Digits(k)] + MarkedAll(es) && cs[1..][1..] == MarkedAll(es);
    var r := NumberAll(MarkedAll(es), ps);
    assert cs[0] == ContextId && Number(cs[0], ps) == Success((Context, ps));
    assert cs[1..][0] == Digits(k) && Number(cs[1..][0], ps) == Success((Float(k), ps));
    if r.Success? {
      assert NumberAll(cs[1..], ps) == Success(([Float(k)] + r.value.0, r.value.1));
      assert [Context] + ([Float(k)] + r.value.0) == [Context, Float(k)] + r.value.0;
    } else {
      assert NumberAll(cs[1..], ps) == Failure(r.error);
    }
  }

  lemma {:induction false} NumberAllMeans(es: seq<Expr>, ps: Registry)
    requires NoNumbersAll(es) && OnlyPrincipalsAll(es)
    ensures NumberAll(MarkedAll(es), ps).Success? <==> GatesNonEmptyAll(es)
    ensures GatesNonEmptyAll(es) ==>
              var (vs, end) := NumberAll(MarkedAll(es), ps).value;
              && ps <= end
              && Evaluated(vs, es, end)
              && Numbers(PolicyIndices(vs), |ps|, |end|)
    decreases es, 0
  {
    if es != [] {
      var cs := MarkedAll(es);
      assert cs[1..] == MarkedAll(es[1..]);
      if es[0].Call? { NumberMeans(es[0], ps); }
      if GatesNonEmpty(es[0]) {
        var (v, mid) := Number(cs[0], ps).value;
        NumberAllMeans(es[1..], mid);
        if GatesNonEmptyAll(es) {
          var (rest, end) := NumberAll(cs[1..], mid).value;
          var vs := [v] + rest;
          assert vs[1..] == rest;
          if es[0].Call? {
            CompileExtends(v.policy, mid, end);
            NumbersJoin(Indices(v.policy), PolicyIndices(rest), |ps|, |mid|, |end|);
          } else {
            assert [] + PolicyIndices(rest) == PolicyIndices(rest);
          }
        }
      }
    }
  }

  // ------------------------------------------------------ order of registration

  /** The principals an expression registers: those of inner gates first, then its own texts. */
  function Registered(e: Expr): Registry
    requires NoNumbers(e) && OnlyPrincipals(e)
    decreases e, 1
  {
    match e
    case Text(_) => []
    case Call(_, args) => InnerRegistered(args) + OwnTexts(args)
  }

  function InnerRegistered(es: seq<Expr>): Registry
    requires NoNumbersAll(es) && OnlyPrincipalsAll(es)
    decreases es, 0
  {
    if es == [] then [] else Registered(es[0]) + InnerRegistered(es[1..])
  }

  function OwnText(e: Expr): Registry
    requires OnlyPrincipals(e)
  {
    if e.Text? then [MatchPrincipal(e.text).value] else []
  }

  function OwnTexts(es: seq<Expr>): Registry
    requires NoNumbersAll(es) && OnlyPrincipalsAll(es)
  {
    if es == [] then [] else OwnText(es[0]) + OwnTexts(es[1..])
  }

  lemma ConcatAssoc<T>(a: seq<T>, b: seq<T>, c: seq<T>)
    ensures (a + b) + c == a + (b + c)
  {}

  lemma {:induction false} RegisterOrder(vs: seq<Value>, es: seq<Expr>, ps: Registry)
    requires NoNumbersAll(es) && OnlyPrincipalsAll(es) && Evaluated(vs, es, ps)
    ensures RegisterAll(vs, ps).Success? && RegisterAll(vs, ps).value.1 == ps + OwnTexts(es)
  {
    if es == [] {
      assert ps + [] == ps;
    } else {
      var first := Register(vs[0], ps).value;
      EvaluatedExtends(vs[1..], es[1..], ps, first.1);
      RegisterOrder(vs[1..], es[1..], first.1);
      assert first.1 == ps + OwnText(es[0]);
      ConcatAssoc(ps, OwnText(es[0]), OwnTexts(es[1..]));
    }
  }

  lemma {:induction false} NumberOrder(e: Expr, ps: Registry)
    requires WellFormed(e)
    ensures Number(Marked(e), ps).Success? && Number(Marked(e), ps).value.1 == ps + Registered(e)
    decreases e, 1
  {
    var k := Threshold(e.op, |e.args|);
    NumberMeans(e, ps);
    NumberAllMeans(e.args, ps);
    NumberAllOrder(e.args, ps);
    NumberGateArgs(k, e.args, ps);
    var (vs, mid) := NumberAll(MarkedAll(e.args), ps).value;
    assert ([Context, Float(k)] + vs)[2..] == vs;
    RegisterOrder(vs, e.args, mid);
    ConcatAssoc(ps, InnerRegistered(e.args), OwnTexts(e.args));
  }

  lemma {:induction false} NumberFirst(e: Expr, ps: Registry)
    requires NoNumbers(e) && OnlyPrincipals(e) && GatesNonEmpty(e)
    ensures Number(Marked(e), ps).Success? && Number(Marked(e), ps).value.1 == ps + Registered(e)
    decreases e, 2
  {
    if e.Call? { NumberOrder(e, ps); } else { assert ps + [] == ps; }
  }

  lemma {:induction false} NumberAllOrder(es: seq<Expr>, ps: Registry)
    requires NoNumbersAll(es) && OnlyPrincipalsAll(es) && GatesNonEmptyAll(es)
    ensures NumberAll(MarkedAll(es), ps).Success?
    ensures NumberAll(MarkedAll(es), ps).value.1 == ps + InnerRegistered(es)
    decreases es, 0
  {
    if es == [] {
      assert ps + [] == ps;
    } else {
      var mid := ps + Registered(es[0]);
      NumberFirst(es[0], ps);
      NumberAllOrder(es[1..], mid);
      assert MarkedAll(es)[1..] == MarkedAll(es[1..]);
      ConcatAssoc(ps, Registered(es[0]), InnerRegistered(es[1..]));
    }
  }

  // ------------------------------------------------------------ the theorems

  /**
   * FromString succeeds exactly on well-formed expressions.  The envelope then compiles to the
   * direct translation, its identities are the principals in the order of registration, and the
   * leaf indices of its rule are 0, ..., count - 1, each used once.
   */
  lemma FromStringPreservesMeaning(e: Expr)
    ensures ToEnvelope(e).Success? <==> WellFormed(e)
    ensures WellFormed(e) ==>
              var env := ToEnvelope(e).value;
              && NewPolicy(env) == Success(Direct(e))
              && env.identities == Registered(e)
              && Numbers(Indices(env.rule), 0, |env.identities|)
  {
    if e.Call? {
      ConnectIs(e);
      if NoNumbers(e) {
        MarkIs(e);
        if OnlyPrincipals(e) { NumberMeans(e, []); }
      }
    }
    if WellFormed(e) {
      NumberOrder(e, []);
      assert [] + Registered(e) == Registered(e);
    }
  }

  /**
   * End to end: a policy text accepted by FromString only accepts signature sets that the AND/OR
   * expression means, and accepts all of them when no signature satisfies two of its leaves.
   */
  lemma AcceptedMeansExpression(e: Expr, sat: seq<set<RolePrincipal>>)
    requires WellFormed(e)
    ensures ToEnvelope(e).Success? && NewPolicy(ToEnvelope(e).value).Success?
    ensures var ev := NewPolicy(ToEnvelope(e).value).value;
            && (Accepts(ev, sat) ==> Means(e, sat))
            && (LeavesDisjoint(Leaves(ev), sat) ==> (Accepts(ev, sat) <==> Means(e, sat)))
  {
    FromStringPreservesMeaning(e);
    DirectMeans(e, sat);
    AcceptanceImpliesHolds(Direct(e), sat, AllUnused(|sat|));
    if LeavesDisjoint(Leaves(Direct(e)), sat) { ExactWhenDisjoint(Direct(e), sat); }
  }

  /** No AND with two or more arguments occurs in the expression. */
  predicate NoRealAnd(e: Expr)
    decreases e, 1
  {
    match e
    case Num(_) => true
    case Text(_) => true
    case Call(op, args) => (op.And? ==> |args| <= 1) && NoRealAndAll(args)
  }

  predicate NoRealAndAll(es: seq<Expr>)
    decreases es, 0
  {
    es == [] || (NoRealAnd(es[0]) && NoRealAndAll(es[1..]))
  }

  lemma {:induction false} NoRealAndIsSingle(e: Expr)
    requires NoNumbers(e) && OnlyPrincipals(e)
    ensures SingleThreshold(Direct(e)) <==> NoRealAnd(e)
    decreases e, 1
  {
    match e {
      case Text(s) =>
      case Call(op, args) => NoRealAndIsSingleAll(args);
    }
  }

  lemma {:induction false} NoRealAndIsSingleAll(es: seq<Expr>)
    requires NoNumbersAll(es) && OnlyPrincipalsAll(es)
    ensures SingleThresholdAll(DirectAll(es)) <==> NoRealAndAll(es)
    decreases es, 0
  {
    if es != [] {
      NoRealAndIsSingle(es[0]);
      NoRealAndIsSingleAll(es[1..]);
      assert DirectAll(es)[1..] == DirectAll(es[1..]);
    }
  }

  /** The principals that alone make the expression true: no AND of two or more above them. */
  function Sufficient(e: Expr): seq<RolePrincipal>
    requires NoNumbers(e) && OnlyPrincipals(e)
    decreases e, 1
  {
    match e
    case Text(s) => [MatchPrincipal(s).value]
    case Call(op, args) => if op.And? && |args| >= 2 then [] else SufficientAll(args)
  }

  function SufficientAll(es: seq<Expr>): seq<RolePrincipal>
    requires NoNumbersAll(es) && OnlyPrincipalsAll(es)
    decreases es, 0
  {
    if es == [] then [] else Sufficient(es[0]) + SufficientAll(es[1..])
  }

  lemma {:induction false} SufficientIsAlone(e: Expr)
    requires NoNumbers(e) && OnlyPrincipals(e)
    ensures Alone(Direct(e)) == Sufficient(e)
    decreases e, 1
  {
    match e {
      case Text(s) =>
      case Call(op, args) => SufficientIsAloneAll(args);
    }
  }

  lemma {:induction false} SufficientIsAloneAll(es: seq<Expr>)
    requires NoNumbersAll(es) && OnlyPrincipalsAll(es)
    ensures AloneAll(DirectAll(es)) == SufficientAll(es)
    decreases es, 0
  {
    if es != [] {
      SufficientIsAlone(es[0]);
      SufficientIsAloneAll(es[1..]);
      assert DirectAll(es)[1..] == DirectAll(es[1..]);
    }
  }

  /**
   * For every well-formed expression: acceptance coincides with its meaning on all lists of
   * signatures if and only if the expression is false when every principal is present but those
   * that alone make it true.
   */
  lemma AcceptsExactlyMeaningIff(e: Expr)
    requires WellFormed(e)
    ensures (forall sat :: Accepts(Direct(e), sat) <==> Means(e, sat)) <==>
            !Means(e, [set p | p in Leaves(Direct(e)) && p !in Sufficient(e)])
  {
    DirectLive(e);
    LiveDemands(Direct(e));
    SufficientIsAlone(e);
    ReadsAsBooleanIff(Direct(e));
    forall sat ensures Holds(Direct(e), sat) <==> Means(e, sat) { DirectMeans(e, sat); }
    assert NotAlone(Direct(e)) == set p | p in Leaves(Direct(e)) && p !in Sufficient(e);
  }

  /** If no principal is named twice, that is: if and only if there is no AND of two or more. */
  lemma DistinctAcceptsExactlyMeaningIff(e: Expr)
    requires WellFormed(e) && Distinct(Leaves(Direct(e)))
    ensures (forall sat :: Accepts(Direct(e), sat) <==> Means(e, sat)) <==> NoRealAnd(e)
  {
    DirectLive(e);
    NoRealAndIsSingle(e);
    ExactOnAllSignaturesIff(Direct(e));
    forall sat ensures Holds(Direct(e), sat) <==> Means(e, sat) { DirectMeans(e, sat); }
  }

  // --------------------------------------------- one organisation per signature

  function Org(p: RolePrincipal): string { p.mspId }

  /** The organisations an expression names. */
  function Orgs(e: Expr): set<string>
    requires NoNumbers(e) && OnlyPrincipals(e)
    decreases e, 1
  {
    match e
    case Text(s) => {MatchPrincipal(s).value.mspId}
    case Call(_, args) => OrgsAll(args)
  }

  function OrgsAll(es: seq<Expr>): set<string>
    requires NoNumbersAll(es) && OnlyPrincipalsAll(es)
    decreases es, 0
  {
    if es == [] then {} else Orgs(es[0]) + OrgsAll(es[1..])
  }

  /** No two of the arguments name the same organisation. */
  predicate ArgsApart(es: seq<Expr>)
    requires NoNumbersAll(es) && OnlyPrincipalsAll(es)
  {
    es == [] || (Orgs(es[0]) !! OrgsAll(es[1..]) && ArgsApart(es[1..]))
  }

  /** No AND names an organisation in two of its arguments. */
  predicate AndsApart(e: Expr)
    requires NoNumbers(e) && OnlyPrincipals(e)
    decreases e, 1
  {
    match e
    case Text(_) => true
    case Call(op, args) => (op.And? ==> ArgsApart(args)) && AndsApartAll(args)
  }

  predicate AndsApartAll(es: seq<Expr>)
    requires NoNumbersAll(es) && OnlyPrincipalsAll(es)
    decreases es, 0
  {
    es == [] || (AndsApart(es[0]) && AndsApartAll(es[1..]))
  }

  ghost predicate NamesOrg(leaves: seq<RolePrincipal>, o: string) {
    exists p :: p in leaves && Org(p) == o
  }

  lemma {:induction false} OrgsOfLeaves(e: Expr, o: string)
    requires NoNumbers(e) && OnlyPrincipals(e)
    ensures o in Orgs(e) <==> NamesOrg(Leaves(Direct(e)), o)
    decreases e, 1
  {
    match e {
      case Text(s) => assert MatchPrincipal(s).value in Leaves(Direct(e));
      case Call(_, args) => OrgsOfLeavesAll(args, o);
    }
  }

  lemma {:induction false} OrgsOfLeavesAll(es: seq<Expr>, o: string)
    requires NoNumbersAll(es) && OnlyPrincipalsAll(es)
    ensures o in OrgsAll(es) <==> NamesOrg(LeavesAll(DirectAll(es)), o)
    decreases es, 0
  {
    if es != [] {
      OrgsOfLeaves(es[0], o);
      OrgsOfLeavesAll(es[1..], o);
      assert DirectAll(es)[1..] == DirectAll(es[1..]);
      NamesOrgConcat(Leaves(Direct(es[0])), LeavesAll(DirectAll(es[1..])), o);
    }
  }

  lemma NamesOrgConcat(a: seq<RolePrincipal>, b: seq<RolePrincipal>, o: string)
    ensures NamesOrg(a + b, o) <==> NamesOrg(a, o) || NamesOrg(b, o)
  {
    if p :| p in a && Org(p) == o { assert p in a + b; }
    if p :| p in b && Org(p) == o { assert p in a + b; }
  }

  lemma {:induction false} ArgsApartIs(es: seq<Expr>)
    requires NoNumbersAll(es) && OnlyPrincipalsAll(es)
    ensures Apart(DirectAll(es), Org) <==> ArgsApart(es)
  {
    if es != [] {
      var a, b := Leaves(Direct(es[0])), LeavesAll(DirectAll(es[1..]));
      ArgsApartIs(es[1..]);
      assert DirectAll(es)[1..] == DirectAll(es[1..]);
      forall o ensures (o in Orgs(es[0]) <==> NamesOrg(a, o)) && (o in OrgsAll(es[1..]) <==> NamesOrg(b, o)) {
        OrgsOfLeaves(es[0], o);
        OrgsOfLeavesAll(es[1..], o);
      }
      NoSharedIs(a, b, Orgs(es[0]), OrgsAll(es[1..]));
    }
  }

  lemma NoSharedIs(a: seq<RolePrincipal>, b: seq<RolePrincipal>, x: set<string>, y: set<string>)
    requires forall o :: (o in x <==> NamesOrg(a, o)) && (o in y <==> NamesOrg(b, o))
    ensures NoShared(a, b, Org) <==> x !! y
  {
    if o :| o in x && o in y {
      var p :| p in a && Org(p) == o;
      var q :| q in b && Org(q) == o;
    }
    if p, q :| p in a && q in b && Org(p) == Org(q) {
      assert NamesOrg(a, Org(p)) && NamesOrg(b, Org(p));
    }
  }

  lemma {:induction false} AndsApartIs(e: Expr)
    requires NoNumbers(e) && OnlyPrincipals(e)
    ensures Separated(Direct(e), Org) <==> AndsApart(e)
    decreases e, 1
  {
    match e {
      case Text(_) =>
      case Call(op, args) =>
        AndsApartAllIs(args);
        ArgsApartIs(args);
        ShortApart(DirectAll(args), Org);
    }
  }

  lemma {:induction false} AndsApartAllIs(es: seq<Expr>)
    requires NoNumbersAll(es) && OnlyPrincipalsAll(es)
    ensures SeparatedAll(DirectAll(es), Org) <==> AndsApartAll(es)
    decreases es, 0
  {
    if es != [] {
      AndsApartIs(es[0]);
      AndsApartAllIs(es[1..]);
      assert DirectAll(es)[1..] == DirectAll(es[1..]);
    }
  }

  /** Repeated principals included: on signatures of one organisation each, acceptance is the meaning. */
  lemma ApartMeansExactly(e: Expr, sat: seq<set<RolePrincipal>>)
    requires WellFormed(e) && AndsApart(e) && OneOrg(sat, Org)
    ensures Accepts(Direct(e), sat) <==> Means(e, sat)
  {
    AndsApartIs(e);
    SeparatedIsExact(Direct(e), sat, Org);
    DirectMeans(e, sat);
  }

  /**
   * For expressions that name no principal twice, on signatures of one organisation each:
   * acceptance coincides with the meaning if and only if no AND names an organisation in two of
   * its arguments.
   */
  lemma MeaningPerOrgIff(e: Expr)
    requires WellFormed(e) && Distinct(Leaves(Direct(e)))
    ensures (forall sat :: OneOrg(sat, Org) ==> (Accepts(Direct(e), sat) <==> Means(e, sat))) <==> AndsApart(e)
  {
    AndsApartIs(e);
    DirectLive(e);
    if AndsApart(e) {
      forall sat | OneOrg(sat, Org) ensures Accepts(Direct(e), sat) <==> Means(e, sat) { ApartMeansExactly(e, sat); }
    } else {
      var sat, p, q := UnseparatedGoesWrong(Direct(e), Org);
      DirectMeans(e, sat);
    }
  }

  // ------------------------------------------------- admins who are members too

  /** Of the principals named, a signature that satisfies an admin role satisfies the member role. */
  ghost predicate AdminIsMember(s: set<RolePrincipal>, named: seq<RolePrincipal>) {
    forall o :: RolePrincipal(o, Admin) in s && RolePrincipal(o, Member) in named ==> RolePrincipal(o, Member) in s
  }

  ghost predicate AdminsAreMembers(sat: seq<set<RolePrincipal>>, named: seq<RolePrincipal>) {
    forall s :: s in sat ==> AdminIsMember(s, named)
  }

  predicate BothRoles(named: seq<RolePrincipal>, o: string) {
    RolePrincipal(o, Admin) in named && RolePrincipal(o, Member) in named
  }

  /**
   * The same on lists in which, moreover, every admin is a member: as long as no two organisations
   * are named in both roles, such lists still decide it.
   */
  lemma MeaningForMembersIff(e: Expr)
    requires WellFormed(e) && Distinct(Leaves(Direct(e)))
    requires forall o, p :: BothRoles(Leaves(Direct(e)), o) && BothRoles(Leaves(Direct(e)), p) ==> o == p
    ensures (forall sat :: OneOrg(sat, Org) && AdminsAreMembers(sat, Leaves(Direct(e))) ==>
               (Accepts(Direct(e), sat) <==> Means(e, sat))) <==> AndsApart(e)
  {
    AndsApartIs(e);
    DirectLive(e);
    if AndsApart(e) {
      forall sat | OneOrg(sat, Org) ensures Accepts(Direct(e), sat) <==> Means(e, sat) { ApartMeansExactly(e, sat); }
    } else {
      var sat, p, q := UnseparatedGoesWrong(Direct(e), Org);
      DirectMeans(e, sat);
      SharedAdminsAreMembers(sat, Leaves(Direct(e)), p, q);
    }
  }

  lemma SharedAdminsAreMembers(sat: seq<set<RolePrincipal>>, named: seq<RolePrincipal>, p: RolePrincipal, q: RolePrincipal)
    requires Clashing(named, p, q, Org) && forall s :: s in sat ==> SharedOrSingle(s, named, p, q)
    requires forall o, u :: BothRoles(named, o) && BothRoles(named, u) ==> o == u
    ensures AdminsAreMembers(sat, named)
  {
    BothRolesShared(named, p, q);
    forall s | s in sat ensures AdminIsMember(s, named) {
      assert SharedOrSingle(s, named, p, q);
      if s != {p, q} {
        var r :| r in named && r != p && r != q && s == {r};
        if r.role == Admin { OtherAdmin(named, p, q, r); }
      }
    }
  }

  /** Two different leaves of one organisation are its two roles. */
  lemma BothRolesShared(named: seq<RolePrincipal>, p: RolePrincipal, q: RolePrincipal)
    requires Clashing(named, p, q, Org)
    ensures {p, q} == {RolePrincipal(p.mspId, Admin), RolePrincipal(p.mspId, Member)} && BothRoles(named, p.mspId)
  {
    assert p == RolePrincipal(p.mspId, p.role) && q == RolePrincipal(p.mspId, q.role);
    assert p.role != q.role;
  }

  lemma OtherAdmin(named: seq<RolePrincipal>, p: RolePrincipal, q: RolePrincipal, r: RolePrincipal)
    requires Clashing(named, p, q, Org) && r in named && r != p && r != q && r.role == Admin
    requires forall o, u :: BothRoles(named, o) && BothRoles(named, u) ==> o == u
    ensures RolePrincipal(r.mspId, Member) !in named
  {
    BothRolesShared(named, p, q);
    assert r == RolePrincipal(r.mspId, Admin) && r !in {p, q};
    assert r.mspId != p.mspId;
    assert !BothRoles(named, r.mspId);
  }

  /**
   * With two organisations in both roles it can be otherwise: OR(AND(A.member, A.admin, B.admin),
   * B.member) has an AND that names A twice, and is still exact, because B.admin brings B.member.
   */
  lemma RolesCanRescue(sat: seq<set<RolePrincipal>>)
    ensures var am, aa := Leaf(RolePrincipal("A", Member)), Leaf(RolePrincipal("A", Admin));
            var bm, ba := Leaf(RolePrincipal("B", Member)), Leaf(RolePrincipal("B", Admin));
            var ev := Gate(1, [Gate(3, [am, aa, ba]), bm]);
            AdminsAreMembers(sat, Leaves(ev)) ==> (Accepts(ev, sat) <==> Holds(ev, sat))
  {
    var am, aa := Leaf(RolePrincipal("A", Member)), Leaf(RolePrincipal("A", Admin));
    var bm, ba := Leaf(RolePrincipal("B", Member)), Leaf(RolePrincipal("B", Admin));
    var all := Gate(3, [am, aa, ba]);
    var ev := Gate(1, [all, bm]);
    AcceptanceImpliesHolds(ev, sat, AllUnused(|sat|));
    HoldsOfPair(all, bm, sat);
    HoldsOfThree(am, aa, ba, sat);
    LeavesOfPair(all, bm);
    assert Leaves(ev)[|Leaves(all)|] == RolePrincipal("B", Member);
    assert AloneAll([all, bm]) == [RolePrincipal("B", Member)] by {
      assert [all, bm][1..] == [bm] && AloneAll([bm]) == Alone(bm) + AloneAll([]);
    }
    if AdminsAreMembers(sat, Leaves(ev)) && Holds(ev, sat) {
      if Holds(all, sat) {
        var s :| s in sat && RolePrincipal("B", Admin) in s;
        assert AdminIsMember(s, Leaves(ev)) && RolePrincipal("B", Member) in s;
      }
      AloneAccepted(ev, RolePrincipal("B", Member), sat);
    }
  }

  lemma HoldsOfThree<P>(x: Evaluator<P>, y: Evaluator<P>, z: Evaluator<P>, sat: seq<set<P>>)
    ensures CountHolding([x, y, z], sat) >= 3 ==> Holds(z, sat)
  {
    assert [x, y, z][1..] == [y, z];
    HoldsOfPair(y, z, sat);
  }
}
