/**
 * The policy language of common/cauthdsl/policyparser.go: FromString turns an AND/OR expression
 * over principals ORG.ROLE into a signature-policy envelope in three passes.
 *
 * Each pass is a run of the govaluate expression evaluator.  The model works on call trees
 * instead of text: arguments are evaluated left to right and inner calls before outer ones, and
 * the strings the passes hand to one another are represented by the code they spell.
 */
module PolicyParser {
  import opened Wrappers
  import opened PolicyEvaluation
  import opened PolicyExactness
  import opened PolicyEngine

  datatype Connective = And | Or

  /** A policy expression: a gate call, a quoted text or a number. */
  datatype Expr =
    | Call(op: Connective, args: seq<Expr>)
    | Text(text: string)
    | Num(value: int)

  /** The code spelled by the strings that pass from one evaluation to the next. */
  datatype Code =
    | Outof(args: seq<Code>)
    | Quoted(text: string)
    | Word(text: string)
    | Digits(value: int)
    | ContextId

  /** What a function called by the expression evaluator receives and returns. */
  datatype Value =
    | Str(text: string)
    | Spelled(code: Code)
    | Float(value: int)
    | Context
    | Policy(policy: SignaturePolicy)

  datatype ParseError =
    | UnexpectedType
    | UnrecognizedToken(text: string)
    | TooFewArguments(count: nat)
    | ContextExpected
    | NumberExpected
    | ThresholdTooLarge(t: int, n: int)
    | BadPrincipal(text: string)
    | PrincipalExpected
    | ResultNotText     // the type assertion on an intermediate result panics

  type Outcome<T> = Result<T, ParseError>

  // -------------------------------------------------------- principal syntax

  predicate Alnum(c: char) {
    'a' <= c <= 'z' || 'A' <= c <= 'Z' || '0' <= c <= '9'
  }

  /** The length of the longest alphanumeric prefix. */
  function AlnumPrefix(s: string): (n: nat)
    ensures n <= |s|
    ensures forall i :: 0 <= i < n ==> Alnum(s[i])
    ensures n < |s| ==> !Alnum(s[n])
  {
    if s == [] || !Alnum(s[0]) then 0 else 1 + AlnumPrefix(s[1..])
  }

  function RoleName(r: Role): string {
    match r
    case Member => "member"
    case Admin => "admin"
  }

  /** The regular expression ^([[:alnum:]]+)([.])(member|admin)$ and its groups. */
  function MatchPrincipal(s: string): (r: Option<RolePrincipal>)
  {
    var n := AlnumPrefix(s);
    if n == 0 then None
    else if s[n..] == ".member" then Some(RolePrincipal(s[..n], Member))
    else if s[n..] == ".admin" then Some(RolePrincipal(s[..n], Admin))
    else None
  }

  /** s spells p as ORG.ROLE with a non-empty alphanumeric ORG. */
  ghost predicate Spells(s: string, p: RolePrincipal) {
    && p.mspId != [] && (forall i :: 0 <= i < |p.mspId| ==> Alnum(p.mspId[i]))
    && s == p.mspId + ("." + RoleName(p.role))
  }

  /** The principals recognised are exactly the spellings ORG.ROLE with an alphanumeric ORG. */
  lemma MatchPrincipalIff(s: string, p: RolePrincipal)
    ensures MatchPrincipal(s) == Some(p) <==> Spells(s, p)
  {
    var n := AlnumPrefix(s);
    assert "." + RoleName(p.role) == if p.role.Member? then ".member" else ".admin";
    if MatchPrincipal(s) == Some(p) {
      assert s == s[..n] + s[n..];
    }
    if Spells(s, p) {
      SpelledMatches(s, p);
    }
  }

  lemma SpelledMatches(s: string, p: RolePrincipal)
    requires Spells(s, p)
    ensures MatchPrincipal(s) == Some(p)
  {
    var n, tail := AlnumPrefix(s), "." + RoleName(p.role);
    assert s[|p.mspId|] == tail[0] == '.';
    assert n == |p.mspId|;
    assert s[..n] == p.mspId && s[n..] == tail;
    assert tail[1] == if p.role.Member? then 'm' else 'a';
  }

  // -------------------------------------------- and, or, firstPass as functions

  function Prepend<T>(xs: seq<T>, r: Outcome<seq<T>>): Outcome<seq<T>> {
    match r
    case Failure(e) => Failure(e)
    case Success(ys) => Success(xs + ys)
  }

  lemma PrependNil<T>(r: Outcome<seq<T>>)
    ensures Prepend([], r) == r
  {
    if r.Success? { assert [] + r.value == r.value; }
  }

  lemma PrependPrepend<T>(xs: seq<T>, x: T, r: Outcome<seq<T>>)
    ensures Prepend(xs, Prepend([x], r)) == Prepend(xs + [x], r)
  {
    if r.Success? { assert xs + ([x] + r.value) == (xs + [x]) + r.value; }
  }

  /** How an argument is spelled in the string under construction. */
  function Spell(v: Value, numbers: bool): Outcome<Code> {
    match v
    case Str(s) => Success(if MatchPrincipal(s).Some? then Quoted(s) else Word(s))
    case Spelled(c) => Success(c)
    case Float(x) => if numbers then Success(Digits(x)) else Failure(UnexpectedType)
    case _ => Failure(UnexpectedType)
  }

  function SpellAll(vs: seq<Value>, numbers: bool): (r: Outcome<seq<Code>>)
    ensures r.Success? ==> |r.value| == |vs|
  {
    if vs == [] then Success([])
    else
      match Spell(vs[0], numbers)
      case Failure(e) => Failure(e)
      case Success(c) => Prepend([c], SpellAll(vs[1..], numbers))
  }

  function Threshold(op: Connective, count: nat): nat {
    if op.And? then count else 1
  }

  function ConnectiveCode(op: Connective, vs: seq<Value>): Outcome<Value> {
    match SpellAll(vs, false)
    case Failure(e) => Failure(e)
    case Success(cs) => Success(Spelled(Outof([Digits(Threshold(op, |vs|))] + cs)))
  }

  function FirstPassCode(vs: seq<Value>): Outcome<Value> {
    match SpellAll(vs, true)
    case Failure(e) => Failure(e)
    case Success(cs) => Success(Spelled(Outof([ContextId] + cs)))
  }

  method SpellLoop(head: Code, args: seq<Value>, numbers: bool) returns (r: Outcome<Value>)
    ensures r == match SpellAll(args, numbers)
                 case Failure(e) => Failure(e)
                 case Success(cs) => Success(Spelled(Outof([head] + cs)))
  {
    var toret := [head];
    ghost var cs: seq<Code> := [];
    assert args[0..] == args;
    PrependNil(SpellAll(args, numbers));
    for k := 0 to |args|
      invariant toret == [head] + cs
      invariant SpellAll(args, numbers) == Prepend(cs, SpellAll(args[k..], numbers))
    {
      assert args[k..][0] == args[k] && args[k..][1..] == args[k + 1..];
      match Spell(args[k], numbers) {
        case Failure(e) => return Failure(e);
        case Success(c) =>
          PrependPrepend(cs, c, SpellAll(args[k + 1..], numbers));
          toret, cs := toret + [c], cs + [c];
      }
    }
    assert cs + [] == cs;
    r := Success(Spelled(Outof(toret)));
  }

  method AndGate(args: seq<Value>) returns (r: Outcome<Value>)
    ensures r == ConnectiveCode(And, args)
  {
    r := SpellLoop(Digits(|args|), args, false);
  }

  method OrGate(args: seq<Value>) returns (r: Outcome<Value>)
    ensures r == ConnectiveCode(Or, args)
  {
    r := SpellLoop(Digits(1), args, false);
  }

  method FirstPass(args: seq<Value>) returns (r: Outcome<Value>)
    ensures r == FirstPassCode(args)
  {
    r := SpellLoop(ContextId, args, true);
  }

  // -------------------------------------------------------------- secondPass

  type Registry = seq<RolePrincipal>

  /** Registers one argument: a principal gets the next index, a policy is taken as it is. */
  function Register(v: Value, ps: Registry): Outcome<(SignaturePolicy, Registry)> {
    match v
    case Str(s) =>
      (match MatchPrincipal(s)
       case None => Failure(BadPrincipal(s))
       case Some(p) => Success((SignedBy(|ps|), ps + [p])))
    case Policy(p) => Success((p, ps))
    case _ => Failure(PrincipalExpected)
  }

  function RegisterAll(vs: seq<Value>, ps: Registry): Outcome<(seq<SignaturePolicy>, Registry)> {
    if vs == [] then Success(([], ps))
    else
      match Register(vs[0], ps)
      case Failure(e) => Failure(e)
      case Success((first, ps1)) =>
        match RegisterAll(vs[1..], ps1)
        case Failure(e) => Failure(e)
        case Success((rest, ps2)) => Success(([first] + rest, ps2))
  }

  function SecondPassPolicy(vs: seq<Value>, ps: Registry): Outcome<(Value, Registry)> {
    if |vs| < 3 then Failure(TooFewArguments(|vs|))
    else if !vs[0].Context? then Failure(ContextExpected)
    else if !vs[1].Float? then Failure(NumberExpected)
    else if vs[1].value > |vs| - 1 then Failure(ThresholdTooLarge(vs[1].value, |vs| - 1))
    else
      match RegisterAll(vs[2..], ps)
      case Failure(e) => Failure(e)
      case Success((rules, ps')) => Success((Policy(NOutOf(vs[1].value, rules)), ps'))
  }

  /** A returned value and the registry left behind are the expected ones, or the error is. */
  ghost predicate Agrees(r: Outcome<Value>, ps: Registry, expected: Outcome<(Value, Registry)>) {
    if expected.Failure? then r == Failure(expected.error)
    else r == Success(expected.value.0) && ps == expected.value.1
  }

  /** The mutable numbering context shared by all outof calls of one policy. */
  class NumberingContext {
    var idNum: int
    var principals: Registry

    ghost predicate Valid() reads this {
      idNum == |principals|
    }

    constructor ()
      ensures Valid() && principals == []
    {
      idNum := 0;
      principals := [];
    }

    method SecondPass(args: seq<Value>) returns (r: Outcome<Value>)
      requires Valid()
      modifies this
      ensures Valid()
      ensures Agrees(r, principals, SecondPassPolicy(args, old(principals)))
    {
      if |args| < 3 { return Failure(TooFewArguments(|args|)); }
      if !args[0].Context? { return Failure(ContextExpected); }
      if !args[1].Float? { return Failure(NumberExpected); }
      var t, n := args[1].value, |args| - 1;
      if t > n { return Failure(ThresholdTooLarge(t, n)); }
      var rest := args[2..];
      var policies: seq<SignaturePolicy> := [];
      assert rest[0..] == rest;
      ResumeStart(rest, principals);
      var k := 0;
      while k < |rest|
        invariant 0 <= k <= |rest|
        invariant Valid()
        invariant Resume(rest, old(principals), policies, rest[k..], principals)
      {
        assert rest[k..][0] == rest[k] && rest[k..][1..] == rest[k + 1..];
        ResumeStep(rest, old(principals), policies, rest[k..], principals);
        match rest[k] {
          case Str(s) =>
            match MatchPrincipal(s) {
              case None => return Failure(BadPrincipal(s));
              case Some(p) =>
                principals := principals + [p];
                policies := policies + [SignedBy(idNum)];
                idNum := idNum + 1;
            }
          case Policy(p) =>
            policies := policies + [p];
          case _ => return Failure(PrincipalExpected);
        }
        k := k + 1;
      }
      assert policies + [] == policies;
      r := Success(Policy(NOutOf(t, policies)));
    }
  }

  /** Registering `all` from ps0 amounts to having `done` and still registering `todo` from ps. */
  ghost predicate Resume(all: seq<Value>, ps0: Registry, done: seq<SignaturePolicy>, todo: seq<Value>, ps: Registry) {
    RegisterAll(all, ps0) ==
    match RegisterAll(todo, ps)
    case Failure(e) => Failure(e)
    case Success((rest, end)) => Success((done + rest, end))
  }

  lemma ResumeStart(all: seq<Value>, ps: Registry)
    ensures Resume(all, ps, [], all, ps)
  {
    var r := RegisterAll(all, ps);
    if r.Success? { assert [] + r.value.0 == r.value.0; }
  }

  lemma ResumeStep(all: seq<Value>, ps0: Registry, done: seq<SignaturePolicy>, todo: seq<Value>, ps: Registry)
    requires todo != [] && Resume(all, ps0, done, todo, ps)
    ensures var r := Register(todo[0], ps);
            if r.Failure? then RegisterAll(all, ps0) == Failure(r.error)
            else Resume(all, ps0, done + [r.value.0], todo[1..], r.value.1)
  {
    var r := Register(todo[0], ps);
    if r.Success? {
      var rest := RegisterAll(todo[1..], r.value.1);
      if rest.Success? { assert done + ([r.value.0] + rest.value.0) == (done + [r.value.0]) + rest.value.0; }
    }
  }

  // ------------------------------------------- the three evaluations, as functions

  function Connect(e: Expr): Outcome<Value>
    decreases e, 1
  {
    match e
    case Text(s) => Success(Str(s))
    case Num(x) => Success(Float(x))
    case Call(op, args) =>
      match ConnectAll(args)
      case Failure(err) => Failure(err)
      case Success(vs) => ConnectiveCode(op, vs)
  }

  function ConnectAll(es: seq<Expr>): (r: Outcome<seq<Value>>)
    ensures r.Success? ==> |r.value| == |es|
    decreases es, 0
  {
    if es == [] then Success([])
    else
      match Connect(es[0])
      case Failure(err) => Failure(err)
      case Success(v) => Prepend([v], ConnectAll(es[1..]))
  }

  /** Evaluating a piece of code in the first pass: nothing is bound, so bare words are unrecognised. */
  function Mark(c: Code): Outcome<Value>
    decreases c, 1
  {
    match c
    case Quoted(s) => Success(Str(s))
    case Digits(x) => Success(Float(x))
    case Word(w) => Failure(UnrecognizedToken(w))
    case ContextId => Failure(UnrecognizedToken("ID"))
    case Outof(args) =>
      match MarkAll(args)
      case Failure(err) => Failure(err)
      case Success(vs) => FirstPassCode(vs)
  }

  function MarkAll(cs: seq<Code>): (r: Outcome<seq<Value>>)
    ensures r.Success? ==> |r.value| == |cs|
    decreases cs, 0
  {
    if cs == [] then Success([])
    else
      match Mark(cs[0])
      case Failure(err) => Failure(err)
      case Success(v) => Prepend([v], MarkAll(cs[1..]))
  }

  /** Evaluating a piece of code in the second pass, where ID is bound to the context. */
  function Number(c: Code, ps: Registry): Outcome<(Value, Registry)>
    decreases c, 1
  {
    match c
    case Quoted(s) => Success((Str(s), ps))
    case Digits(x) => Success((Float(x), ps))
    case Word(w) => Failure(UnrecognizedToken(w))
    case ContextId => Success((Context, ps))
    case Outof(args) =>
      match NumberAll(args, ps)
      case Failure(err) => Failure(err)
      case Success((vs, ps')) => SecondPassPolicy(vs, ps')
  }

  function NumberAll(cs: seq<Code>, ps: Registry): Outcome<(seq<Value>, Registry)>
    decreases cs, 0
  {
    if cs == [] then Success(([], ps))
    else
      match Number(cs[0], ps)
      case Failure(err) => Failure(err)
      case Success((v, ps1)) =>
        match NumberAll(cs[1..], ps1)
        case Failure(err) => Failure(err)
        case Success((vs, ps2)) => Success(([v] + vs, ps2))
  }

  /** The code in the string a pass returns; a bare text is parsed as a word. */
  function Reparse(v: Value): Outcome<Code> {
    match v
    case Str(s) => Success(Word(s))
    case Spelled(c) => Success(c)
    case _ => Failure(ResultNotText)
  }

  function ToEnvelope(e: Expr): Outcome<Envelope<RolePrincipal>> {
    match Connect(e)
    case Failure(err) => Failure(err)
    case Success(v0) =>
      match Reparse(v0)
      case Failure(err) => Failure(err)
      case Success(c0) =>
        match Mark(c0)
        case Failure(err) => Failure(err)
        case Success(v1) =>
          match Reparse(v1)
          case Failure(err) => Failure(err)
          case Success(c1) =>
            match Number(c1, [])
            case Failure(err) => Failure(err)
            case Success((v2, ps)) =>
              if v2.Policy? then Success(Envelope(0, v2.policy, ps)) else Failure(ResultNotText)
  }

  // ---------------------------------------------- the three evaluations, running

  method EvaluateConnectives(e: Expr) returns (r: Outcome<Value>)
    ensures r == Connect(e)
    decreases e
  {
    match e {
      case Text(s) => r := Success(Str(s));
      case Num(x) => r := Success(Float(x));
      case Call(op, args) =>
        var vs: seq<Value> := [];
        assert args[0..] == args;
        PrependNil(ConnectAll(args));
        for k := 0 to |args|
          invariant ConnectAll(args) == Prepend(vs, ConnectAll(args[k..]))
        {
          assert args[k..][0] == args[k] && args[k..][1..] == args[k + 1..];
          var v := EvaluateConnectives(args[k]);
          if v.Failure? { return Failure(v.error); }
          PrependPrepend(vs, v.value, ConnectAll(args[k + 1..]));
          vs := vs + [v.value];
        }
        assert vs + [] == vs;
        match op {
          case And => r := AndGate(vs);
          case Or => r := OrGate(vs);
        }
    }
  }

  method EvaluateFirstPass(c: Code) returns (r: Outcome<Value>)
    ensures r == Mark(c)
    decreases c
  {
    match c {
      case Quoted(s) => r := Success(Str(s));
      case Digits(x) => r := Success(Float(x));
      case Word(w) => r := Failure(UnrecognizedToken(w));
      case ContextId => r := Failure(UnrecognizedToken("ID"));
      case Outof(args) =>
        var vs: seq<Value> := [];
        assert args[0..] == args;
        PrependNil(MarkAll(args));
        for k := 0 to |args|
          invariant MarkAll(args) == Prepend(vs, MarkAll(args[k..]))
        {
          assert args[k..][0] == args[k] && args[k..][1..] == args[k + 1..];
          var v := EvaluateFirstPass(args[k]);
          if v.Failure? { return Failure(v.error); }
          PrependPrepend(vs, v.value, MarkAll(args[k + 1..]));
          vs := vs + [v.value];
        }
        assert vs + [] == vs;
        r := FirstPass(vs);
    }
  }

  ghost function NumberRest(vs: seq<Value>, r: Outcome<(seq<Value>, Registry)>): Outcome<(seq<Value>, Registry)> {
    match r
    case Failure(e) => Failure(e)
    case Success((ws, ps)) => Success((vs + ws, ps))
  }

  lemma NumberRestNil(r: Outcome<(seq<Value>, Registry)>)
    ensures NumberRest([], r) == r
  {
    if r.Success? { assert [] + r.value.0 == r.value.0; }
  }

  lemma NumberRestStep(vs: seq<Value>, v: Value, r: Outcome<(seq<Value>, Registry)>)
    ensures NumberRest(vs, NumberRest([v], r)) == NumberRest(vs + [v], r)
  {
    if r.Success? { assert vs + ([v] + r.value.0) == (vs + [v]) + r.value.0; }
  }

  method EvaluateSecondPass(c: Code, ctx: NumberingContext) returns (r: Outcome<Value>)
    requires ctx.Valid()
    modifies ctx
    ensures ctx.Valid()
    ensures Agrees(r, ctx.principals, Number(c, old(ctx.principals)))
    decreases c
  {
    match c {
      case Quoted(s) => r := Success(Str(s));
      case Digits(x) => r := Success(Float(x));
      case Word(w) => r := Failure(UnrecognizedToken(w));
      case ContextId => r := Success(Context);
      case Outof(args) =>
        var vs: seq<Value> := [];
        assert args[0..] == args;
        NumberRestNil(NumberAll(args, ctx.principals));
        for k := 0 to |args|
          invariant ctx.Valid()
          invariant NumberAll(args, old(ctx.principals)) == NumberRest(vs, NumberAll(args[k..], ctx.principals))
        {
          assert args[k..][0] == args[k] && args[k..][1..] == args[k + 1..];
          var v := EvaluateSecondPass(args[k], ctx);
          if v.Failure? { return Failure(v.error); }
          NumberRestStep(vs, v.value, NumberAll(args[k + 1..], ctx.principals));
          vs := vs + [v.value];
        }
        assert vs + [] == vs;
        r := ctx.SecondPass(vs);
    }
  }

  method FromString(e: Expr) returns (r: Outcome<Envelope<RolePrincipal>>)
    ensures r == ToEnvelope(e)
  {
    var v0 := EvaluateConnectives(e);
    if v0.Failure? { return Failure(v0.error); }
    var c0 := Reparse(v0.value);
    if c0.Failure? { return Failure(c0.error); }
    var v1 := EvaluateFirstPass(c0.value);
    if v1.Failure? { return Failure(v1.error); }
    var c1 := Reparse(v1.value);
    if c1.Failure? { return Failure(c1.error); }
    var ctx := new NumberingContext();
    var v2 := EvaluateSecondPass(c1.value, ctx);
    if v2.Failure? { return Failure(v2.error); }
    if !v2.value.Policy? { return Failure(ResultNotText); }
    r := Success(Envelope(0, v2.value.policy, ctx.principals));
  }
}
