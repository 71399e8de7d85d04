/**
 * The PKCS#11 session cache (bccsp/pkcs11/pkcs11.go, seeded in bccsp/pkcs11/impl.go) as a state
 * machine over the steps of any number of concurrent callers.
 *
 * The channel operations are the atomic steps: a non-blocking receive that falls through to
 * opening a session, and a non-blocking send that falls through to closing one.  Opening and
 * closing at the token happen in separate later steps, so other callers may run in between.
 */
module SessionCache {
  import opened Wrappers

  type Handle = nat

  /** sessionCacheSize */
  const CAPACITY := 10

  /** OpenSession is tried this often before getSession panics. */
  const ATTEMPTS := 10

  datatype Op = Get | Put

  datatype Phase =
    | Idle
    | Opening(failures: nat)      // the cache was empty, OpenSession is being tried
    | Closing(session: Handle)    // the cache was full, CloseSession is under way

  /** A caller: the session operations still ahead of it and the sessions it has checked out, innermost last. */
  datatype Caller = Caller(prog: seq<Op>, held: seq<Handle>, phase: Phase)

  /** `leaked` are sessions whose CloseSession failed, which returnSession ignores. */
  datatype State = State(cache: seq<Handle>, callers: seq<Caller>, open: set<Handle>, leaked: seq<Handle>)

  datatype Action =
    | TryGet(c: nat)
    | OpenOk(c: nat, h: Handle)
    | OpenErr(c: nat)
    | TryPut(c: nat)
    | CloseDone(c: nat, ok: bool)
    | Unwind(c: nat)              // an error return or a panic: only the deferred returns remain

  // ------------------------------------------------------------- the callers

  datatype EntryPoint = GetKey | GenerateKey | Sign | Verify | GetSecret | ImportPublic | ImportPrivate

  /** The session operations of a call; importing a private key imports its public key first, nested. */
  function Program(e: EntryPoint): seq<Op> {
    if e == ImportPrivate then [Get] + [Get, Put] + [Put] else [Get, Put]
  }

  function Programs(es: seq<EntryPoint>): seq<Op> {
    if es == [] then [] else Program(es[0]) + Programs(es[1..])
  }

  function Returns(n: nat): (r: seq<Op>)
    ensures |r| == n
  {
    seq(n, _ => Put)
  }

  /** Every Put matches an earlier Get, starting with `depth` sessions checked out and ending with none. */
  predicate Balanced(prog: seq<Op>, depth: nat) {
    if prog == [] then depth == 0
    else if prog[0] == Get then Balanced(prog[1..], depth + 1)
    else depth > 0 && Balanced(prog[1..], depth - 1)
  }

  lemma {:induction false} ReturnsBalanced(n: nat)
    ensures Balanced(Returns(n), n)
  {
    if n > 0 {
      assert Returns(n)[1..] == Returns(n - 1);
      ReturnsBalanced(n - 1);
    }
  }

  lemma {:induction false} BalancedConcat(a: seq<Op>, b: seq<Op>, depth: nat)
    requires Balanced(a, depth) && Balanced(b, 0)
    ensures Balanced(a + b, depth)
    decreases a
  {
    if a == [] {
      assert a + b == b;
    } else {
      assert (a + b)[1..] == a[1..] + b;
      BalancedConcat(a[1..], b, if a[0] == Get then depth + 1 else depth - 1);
    }
  }

  lemma {:induction false} ProgramsBalanced(es: seq<EntryPoint>)
    ensures Balanced(Programs(es), 0)
  {
    if es != [] {
      assert [Get, Put][1..] == [Put] && [Put][1..] == [];
      var nested := [Get] + [Get, Put] + [Put];
      assert nested[1..] == [Get, Put, Put] && [Get, Put, Put][1..] == [Put, Put] && [Put, Put][1..] == [Put];
      assert Balanced([Put], 1) && Balanced([Put, Put], 2) && Balanced([Get, Put, Put], 1);
      assert Balanced(Program(es[0]), 0);
      ProgramsBalanced(es[1..]);
      BalancedConcat(Program(es[0]), Programs(es[1..]), 0);
    }
  }

  /** A balanced program is at least as long as the sessions it still has to return. */
  lemma {:induction false} BalancedLength(prog: seq<Op>, depth: nat)
    requires Balanced(prog, depth)
    ensures |prog| >= depth
  {
    if prog != [] {
      BalancedLength(prog[1..], if prog[0] == Get then depth + 1 else depth - 1);
    }
  }

  // --------------------------------------------------------------- the steps

  predicate Runnable(s: State, c: nat, op: Op) {
    c < |s.callers| && s.callers[c].phase == Idle && s.callers[c].prog != [] && s.callers[c].prog[0] == op
  }

  function Unwound(k: Caller): Caller {
    Caller(Returns(|k.held|), k.held, Idle)
  }

  function Next(s: State, a: Action): Option<State> {
    match a
    case TryGet(c) =>
      if !Runnable(s, c, Get) then None
      else
        var k := s.callers[c];
        if s.cache != [] then
          Some(s.(cache := s.cache[1..], callers := s.callers[c := Caller(k.prog[1..], k.held + [s.cache[0]], Idle)]))
        else Some(s.(callers := s.callers[c := k.(phase := Opening(0))]))
    case OpenOk(c, h) =>
      if c >= |s.callers| || !s.callers[c].phase.Opening? || s.callers[c].prog == [] || h in s.open then None
      else
        var k := s.callers[c];
        Some(s.(open := s.open + {h}, callers := s.callers[c := Caller(k.prog[1..], k.held + [h], Idle)]))
    case OpenErr(c) =>
      if c >= |s.callers| || !s.callers[c].phase.Opening? then None
      else
        var k := s.callers[c];
        var failures := k.phase.failures + 1;
        Some(s.(callers := s.callers[c := if failures < ATTEMPTS then k.(phase := Opening(failures)) else Unwound(k)]))
    case TryPut(c) =>
      if !Runnable(s, c, Put) || s.callers[c].held == [] then None
      else
        var k := s.callers[c];
        var last := |k.held| - 1;
        if |s.cache| < CAPACITY then
          Some(s.(cache := s.cache + [k.held[last]], callers := s.callers[c := Caller(k.prog[1..], k.held[..last], Idle)]))
        else Some(s.(callers := s.callers[c := Caller(k.prog, k.held[..last], Closing(k.held[last]))]))
    case CloseDone(c, ok) =>
      if c >= |s.callers| || !s.callers[c].phase.Closing? || s.callers[c].prog == [] then None
      else
        var k := s.callers[c];
        var h := k.phase.session;
        var t := s.(callers := s.callers[c := Caller(k.prog[1..], k.held, Idle)]);
        Some(if ok then t.(open := s.open - {h}) else t.(leaked := s.leaked + [h]))
    case Unwind(c) =>
      if c >= |s.callers| || s.callers[c].phase != Idle || |s.callers[c].prog| <= |s.callers[c].held| then None
      else Some(s.(callers := s.callers[c := Unwound(s.callers[c])]))
  }

  /** New: one session, opened by loadLib, is returned to the fresh cache. */
  function Initial(first: Handle, calls: seq<seq<EntryPoint>>): State {
    State([first], seq(|calls|, i requires 0 <= i < |calls| => Caller(Programs(calls[i]), [], Idle)), {first}, [])
  }

  /** The state after the given actions, if all of them are possible in turn. */
  function Run(s: State, actions: seq<Action>): Option<State>
    decreases |actions|
  {
    if actions == [] then Some(s)
    else
      match Next(s, actions[0])
      case None => None
      case Some(t) => Run(t, actions[1..])
  }

  // ------------------------------------------------------------ the invariant

  /** The sessions in a caller's hands, the one it is closing included. */
  function InHand(k: Caller): seq<Handle> {
    k.held + (if k.phase.Closing? then [k.phase.session] else [])
  }

  /** How often h occurs. */
  function Times(hs: seq<Handle>, h: Handle): nat {
    if hs == [] then 0 else (if hs[0] == h then 1 else 0) + Times(hs[1..], h)
  }

  lemma {:induction false} TimesConcat(a: seq<Handle>, b: seq<Handle>, h: Handle)
    ensures Times(a + b, h) == Times(a, h) + Times(b, h)
  {
    if a == [] {
      assert a + b == b;
    } else {
      assert (a + b)[1..] == a[1..] + b;
      TimesConcat(a[1..], b, h);
    }
  }

  lemma {:induction false} TimesPositive(hs: seq<Handle>, h: Handle)
    ensures Times(hs, h) > 0 <==> h in hs
  {
    if hs != [] { TimesPositive(hs[1..], h); }
  }

  function TimesInHand(callers: seq<Caller>, h: Handle): nat {
    if callers == [] then 0 else Times(InHand(callers[0]), h) + TimesInHand(callers[1..], h)
  }

  predicate CallerOk(k: Caller) {
    match k.phase
    case Idle => Balanced(k.prog, |k.held|)
    case Opening(f) => f < ATTEMPTS && k.prog != [] && k.prog[0] == Get && Balanced(k.prog, |k.held|)
    case Closing(_) => k.prog != [] && k.prog[0] == Put && Balanced(k.prog[1..], |k.held|)
  }

  predicate AllOk(callers: seq<Caller>) {
    forall i :: 0 <= i < |callers| ==> CallerOk(callers[i])
  }

  /** Conservation: the open sessions are the cached, the checked-out and the leaked ones, each counted once. */
  ghost predicate Inv(s: State) {
    && |s.cache| <= CAPACITY
    && AllOk(s.callers)
    && (forall h :: Owners(s, h) == if h in s.open then 1 else 0)
  }

  /** The number of places a session is in. */
  function Owners(s: State, h: Handle): nat {
    Times(s.cache, h) + TimesInHand(s.callers, h) + Times(s.leaked, h)
  }

  lemma {:induction false} InHandUpdate(callers: seq<Caller>, c: nat, k: Caller, h: Handle)
    requires c < |callers|
    ensures TimesInHand(callers[c := k], h) == TimesInHand(callers, h) - Times(InHand(callers[c]), h) + Times(InHand(k), h)
    ensures TimesInHand(callers, h) >= Times(InHand(callers[c]), h)
  {
    if c == 0 {
      assert callers[c := k][1..] == callers[1..];
    } else {
      InHandUpdate(callers[1..], c - 1, k, h);
      assert callers[c := k][1..] == callers[1..][c - 1 := k];
    }
  }

  lemma CallersOk(s: State, c: nat, k: Caller)
    requires Inv(s) && c < |s.callers| && CallerOk(k)
    ensures AllOk(s.callers[c := k])
  {}

  /** Replacing a caller by one with the same sessions changes no ownership. */
  lemma SameHands(s: State, c: nat, k: Caller)
    requires Inv(s) && c < |s.callers| && CallerOk(k)
    requires InHand(k) == InHand(s.callers[c])
    ensures Inv(s.(callers := s.callers[c := k]))
  {
    CallersOk(s, c, k);
    var t := s.(callers := s.callers[c := k]);
    forall h ensures Owners(t, h) == if h in t.open then 1 else 0 {
      InHandUpdate(s.callers, c, k, h);
    }
  }

  lemma UnwoundOk(k: Caller)
    requires !k.phase.Closing?
    ensures CallerOk(Unwound(k)) && InHand(Unwound(k)) == InHand(k)
  {
    ReturnsBalanced(|k.held|);
  }

  lemma TryGetKeepsInv(s: State, c: nat)
    requires Inv(s) && Next(s, TryGet(c)).Some?
    ensures Inv(Next(s, TryGet(c)).value)
  {
    var k := s.callers[c];
    if s.cache != [] {
      var k', t := Caller(k.prog[1..], k.held + [s.cache[0]], Idle), Next(s, TryGet(c)).value;
      CallersOk(s, c, k');
      assert InHand(k) == k.held && InHand(k') == k.held + [s.cache[0]];
      forall h ensures Owners(t, h) == if h in t.open then 1 else 0 {
        InHandUpdate(s.callers, c, k', h);
        TimesConcat(k.held, [s.cache[0]], h);
      }
    } else {
      SameHands(s, c, k.(phase := Opening(0)));
    }
  }

  lemma OpenOkKeepsInv(s: State, c: nat, added: Handle)
    requires Inv(s) && Next(s, OpenOk(c, added)).Some?
    ensures Inv(Next(s, OpenOk(c, added)).value)
  {
    var k := s.callers[c];
    var k', t := Caller(k.prog[1..], k.held + [added], Idle), Next(s, OpenOk(c, added)).value;
    assert CallerOk(k);
    CallersOk(s, c, k');
    assert InHand(k) == k.held && InHand(k') == k.held + [added];
    forall h ensures Owners(t, h) == if h in t.open then 1 else 0 {
      InHandUpdate(s.callers, c, k', h);
      TimesConcat(k.held, [added], h);
    }
  }

  lemma TryPutKeepsInv(s: State, c: nat)
    requires Inv(s) && Next(s, TryPut(c)).Some?
    ensures Inv(Next(s, TryPut(c)).value)
  {
    var k := s.callers[c];
    var last := |k.held| - 1;
    var top := k.held[last];
    assert CallerOk(k);
    assert k.held == k.held[..last] + [top] && InHand(k) == k.held;
    if |s.cache| < CAPACITY {
      var k', t := Caller(k.prog[1..], k.held[..last], Idle), Next(s, TryPut(c)).value;
      CallersOk(s, c, k');
      assert InHand(k') == k.held[..last];
      forall h ensures Owners(t, h) == if h in t.open then 1 else 0 {
        InHandUpdate(s.callers, c, k', h);
        TimesConcat(k.held[..last], [top], h);
        TimesConcat(s.cache, [top], h);
      }
    } else {
      SameHands(s, c, Caller(k.prog, k.held[..last], Closing(top)));
    }
  }

  lemma CloseDoneKeepsInv(s: State, c: nat, ok: bool)
    requires Inv(s) && Next(s, CloseDone(c, ok)).Some?
    ensures Inv(Next(s, CloseDone(c, ok)).value)
  {
    var k := s.callers[c];
    var gone := k.phase.session;
    var k', t := Caller(k.prog[1..], k.held, Idle), Next(s, CloseDone(c, ok)).value;
    assert CallerOk(k);
    CallersOk(s, c, k');
    assert InHand(k) == k.held + [gone] && InHand(k') == k.held;
    forall h ensures Owners(t, h) == if h in t.open then 1 else 0 {
      InHandUpdate(s.callers, c, k', h);
      TimesConcat(k.held, [gone], h);
      TimesConcat(s.leaked, [gone], h);
      assert Owners(s, h) == if h in s.open then 1 else 0;
    }
  }

  /** Every step keeps the invariant. */
  lemma NextKeepsInv(s: State, a: Action)
    requires Inv(s) && Next(s, a).Some?
    ensures Inv(Next(s, a).value)
  {
    match a {
      case TryGet(c) => TryGetKeepsInv(s, c);
      case OpenOk(c, h) => OpenOkKeepsInv(s, c, h);
      case OpenErr(c) =>
        UnwoundOk(s.callers[c]);
        var t := Next(s, a).value;
        SameHands(s, c, t.callers[c]);
      case TryPut(c) => TryPutKeepsInv(s, c);
      case CloseDone(c, ok) => CloseDoneKeepsInv(s, c, ok);
      case Unwind(c) =>
        UnwoundOk(s.callers[c]);
        SameHands(s, c, Unwound(s.callers[c]));
    }
  }

  lemma {:induction false} NothingInHand(callers: seq<Caller>, h: Handle)
    requires forall i :: 0 <= i < |callers| ==> InHand(callers[i]) == []
    ensures TimesInHand(callers, h) == 0
  {
    if callers != [] { NothingInHand(callers[1..], h); }
  }

  lemma InitialInv(first: Handle, calls: seq<seq<EntryPoint>>)
    ensures Inv(Initial(first, calls))
  {
    var s := Initial(first, calls);
    forall i | 0 <= i < |s.callers| ensures CallerOk(s.callers[i]) { ProgramsBalanced(calls[i]); }
    assert s.cache[1..] == [];
    forall h ensures Owners(s, h) == if h in s.open then 1 else 0 { NothingInHand(s.callers, h); }
  }

  lemma {:induction false} RunKeepsInv(s: State, actions: seq<Action>)
    requires Inv(s) && Run(s, actions).Some?
    ensures Inv(Run(s, actions).value)
    decreases |actions|
  {
    if actions != [] {
      NextKeepsInv(s, actions[0]);
      RunKeepsInv(Next(s, actions[0]).value, actions[1..]);
    }
  }

  // ------------------------------------------------------------- the theorems

  /** The session is in this caller's hands. */
  predicate Holds(s: State, c: nat, h: Handle) {
    c < |s.callers| && h in InHand(s.callers[c])
  }

  lemma {:induction false} InSomeHand(callers: seq<Caller>, h: Handle)
    requires TimesInHand(callers, h) > 0
    ensures exists c :: 0 <= c < |callers| && h in InHand(callers[c])
  {
    TimesPositive(InHand(callers[0]), h);
    if h !in InHand(callers[0]) {
      InSomeHand(callers[1..], h);
      var c :| 0 <= c < |callers[1..]| && h in InHand(callers[1..][c]);
      assert h in InHand(callers[c + 1]);
    }
  }

  lemma HeldCounted(callers: seq<Caller>, c: nat, h: Handle)
    requires c < |callers| && h in InHand(callers[c])
    ensures TimesInHand(callers, h) >= 1
  {
    InHandUpdate(callers, c, Caller([], [], Idle), h);
    TimesPositive(InHand(callers[c]), h);
  }

  lemma TwoHands(callers: seq<Caller>, c: nat, d: nat, h: Handle)
    requires c < |callers| && d < |callers| && c != d && h in InHand(callers[c]) && h in InHand(callers[d])
    ensures TimesInHand(callers, h) >= 2
  {
    var gone := Caller([], [], Idle);
    InHandUpdate(callers, c, gone, h);
    HeldCounted(callers[c := gone], d, h);
    TimesPositive(InHand(callers[c]), h);
  }

  /** In one place if open and in none otherwise, spelled out for one session. */
  ghost predicate OwnedOnce(s: State, h: Handle) {
    && (h in s.open <==> h in s.cache || h in s.leaked || exists c :: Holds(s, c, h))
    && (forall c :: Holds(s, c, h) ==> h !in s.cache && h !in s.leaked)
    && (h in s.cache ==> h !in s.leaked)
    && (forall c, d :: Holds(s, c, h) && Holds(s, d, h) ==> c == d)
    && Times(s.cache, h) <= 1
  }

  lemma InvOwnedOnce(s: State, h: Handle)
    requires Inv(s)
    ensures OwnedOnce(s, h)
  {
    assert Owners(s, h) == if h in s.open then 1 else 0;
    TimesPositive(s.cache, h);
    TimesPositive(s.leaked, h);
    if TimesInHand(s.callers, h) > 0 {
      InSomeHand(s.callers, h);
      var c :| 0 <= c < |s.callers| && h in InHand(s.callers[c]);
      assert Holds(s, c, h);
    }
    forall c | Holds(s, c, h) ensures TimesInHand(s.callers, h) >= 1 { HeldCounted(s.callers, c, h); }
    forall c, d | Holds(s, c, h) && Holds(s, d, h) ensures c == d {
      if c != d { TwoHands(s.callers, c, d, h); }
    }
  }

  /**
   * In every state of every run: no closed session is cached or handed out; an open session is
   * in the cache, in the hands of a caller, or leaked by a failed close, and never in two of
   * these places nor in the hands of two callers; the cache stays within its capacity.
   */
  lemma SessionsOwnedOnce(first: Handle, calls: seq<seq<EntryPoint>>, actions: seq<Action>)
    requires Run(Initial(first, calls), actions).Some?
    ensures var s := Run(Initial(first, calls), actions).value;
            |s.cache| <= CAPACITY && forall h :: OwnedOnce(s, h)
  {
    InitialInv(first, calls);
    RunKeepsInv(Initial(first, calls), actions);
    var s := Run(Initial(first, calls), actions).value;
    forall h ensures OwnedOnce(s, h) { InvOwnedOnce(s, h); }
  }

  predicate Finished(s: State) {
    forall i :: 0 <= i < |s.callers| ==> s.callers[i].prog == []
  }

  lemma {:induction false} CountedOnce(hs: seq<Handle>, open: set<Handle>)
    requires forall h :: Times(hs, h) == if h in open then 1 else 0
    ensures |hs| == |open|
  {
    if hs == [] {
      forall h ensures h !in open { assert Times(hs, h) == 0; }
      assert open == {};
    } else {
      var first, rest := hs[0], open - {hs[0]};
      assert Times(hs, first) == 1 + Times(hs[1..], first);
      forall h ensures Times(hs[1..], h) == if h in rest then 1 else 0 {
        assert Times(hs, h) == if h in open then 1 else 0;
      }
      CountedOnce(hs[1..], rest);
    }
  }

  /** Once all calls are over, nothing is checked out: every open session is cached or leaked. */
  lemma FinishedBalances(s: State)
    requires Inv(s) && Finished(s)
    ensures forall c, h :: !Holds(s, c, h)
    ensures |s.open| == |s.cache| + |s.leaked| <= CAPACITY + |s.leaked|
  {
    forall i | 0 <= i < |s.callers| ensures InHand(s.callers[i]) == [] { assert CallerOk(s.callers[i]); }
    forall h ensures Times(s.cache + s.leaked, h) == if h in s.open then 1 else 0 {
      NothingInHand(s.callers, h);
      TimesConcat(s.cache, s.leaked, h);
      assert Owners(s, h) == if h in s.open then 1 else 0;
    }
    CountedOnce(s.cache + s.leaked, s.open);
  }

  /** The cache never blocks: a caller with work left always has a step. */
  lemma NeverBlocks(s: State, c: nat) returns (a: Action)
    requires Inv(s) && c < |s.callers| && s.callers[c].prog != []
    ensures Next(s, a).Some?
    ensures a.c == c
  {
    var k := s.callers[c];
    assert CallerOk(k);
    match k.phase {
      case Idle => a := if k.prog[0] == Get then TryGet(c) else TryPut(c);
      case Opening(_) => a := OpenErr(c);
      case Closing(_) => a := CloseDone(c, true);
    }
  }

  /** Steps a caller may still take. */
  function Budget(k: Caller): int {
    12 * |k.prog| - match k.phase case Idle => 0 case Opening(f) => 1 + f case Closing(_) => 1
  }

  function TotalBudget(callers: seq<Caller>): int {
    if callers == [] then 0 else Budget(callers[0]) + TotalBudget(callers[1..])
  }

  lemma {:induction false} BudgetUpdate(callers: seq<Caller>, c: nat, k: Caller)
    requires c < |callers|
    ensures TotalBudget(callers[c := k]) == TotalBudget(callers) - Budget(callers[c]) + Budget(k)
  {
    if c == 0 {
      assert callers[c := k][1..] == callers[1..];
    } else {
      BudgetUpdate(callers[1..], c - 1, k);
      assert callers[c := k][1..] == callers[1..][c - 1 := k];
    }
  }

  lemma {:induction false} BudgetNonNegative(callers: seq<Caller>)
    requires AllOk(callers)
    ensures TotalBudget(callers) >= 0
  {
    if callers != [] { BudgetNonNegative(callers[1..]); }
  }

  /** Every step uses up some of the total budget, so no run goes on for ever. */
  lemma StepSpendsBudget(s: State, a: Action)
    requires Inv(s) && Next(s, a).Some?
    ensures TotalBudget(Next(s, a).value.callers) < TotalBudget(s.callers)
  {
    var t := Next(s, a).value;
    var k := s.callers[a.c];
    assert CallerOk(k);
    BudgetUpdate(s.callers, a.c, t.callers[a.c]);
    if a.OpenErr? { BalancedLength(k.prog[1..], |k.held| + 1); }
  }

  /**
   * Every run is at most as long as its initial budget, and a run that can go no further has
   * completed all calls.
   */
  lemma {:induction false} RunsComplete(s: State, actions: seq<Action>)
    requires Inv(s) && Run(s, actions).Some?
    ensures |actions| <= TotalBudget(s.callers)
    ensures var t := Run(s, actions).value;
            (forall a :: Next(t, a).None?) ==> Finished(t)
    decreases |actions|
  {
    BudgetNonNegative(s.callers);
    if actions == [] {
      forall i | 0 <= i < |s.callers| && s.callers[i].prog != [] ensures exists a :: Next(s, a).Some? {
        var a := NeverBlocks(s, i);
      }
    } else {
      NextKeepsInv(s, actions[0]);
      StepSpendsBudget(s, actions[0]);
      RunsComplete(Next(s, actions[0]).value, actions[1..]);
    }
  }

  // ------------------------------------------------------------- single steps

  /** A cached session is reused: the caller gets the oldest one and nothing is opened. */
  lemma CachedIsReused(s: State, c: nat)
    requires c < |s.callers| && s.callers[c].phase == Idle && s.callers[c].prog != [] && s.callers[c].prog[0] == Get
    requires s.cache != []
    ensures Next(s, TryGet(c)).Some?
    ensures var t := Next(s, TryGet(c)).value;
            && s.cache == [s.cache[0]] + t.cache && t.callers[c].held == s.callers[c].held + [s.cache[0]]
            && t.open == s.open && t.leaked == s.leaked && t.callers[c].prog == s.callers[c].prog[1..]
  {}

  /** A returned session is kept while there is room, and closed only when there is none. */
  lemma ReturnedIsKept(s: State, c: nat)
    requires c < |s.callers| && s.callers[c].phase == Idle && s.callers[c].prog != [] && s.callers[c].prog[0] == Put
    requires s.callers[c].held != []
    ensures Next(s, TryPut(c)).Some?
    ensures var t, k := Next(s, TryPut(c)).value, s.callers[c];
            var last := k.held[|k.held| - 1];
            && t.open == s.open && t.leaked == s.leaked && t.callers[c].held + [last] == k.held
            && (if |s.cache| < 10 then t.cache == s.cache + [last] && t.callers[c].phase == Idle
                else t.cache == s.cache && t.callers[c].phase == Closing(last))
  {}

  /** A session is opened only on an empty cache, and given up on after ten failures. */
  lemma OpenedWhenEmpty(s: State, c: nat)
    requires c < |s.callers|
    ensures Next(s, TryGet(c)).Some? && s.cache == [] ==> Next(s, TryGet(c)).value.callers[c].phase == Opening(0)
    ensures s.callers[c].phase.Opening? ==>
              var t, f := Next(s, OpenErr(c)), s.callers[c].phase.failures;
              && t.Some? && t.value.open == s.open && t.value.cache == s.cache && t.value.callers[c].held == s.callers[c].held
              && (if f < 9 then t.value.callers[c].phase == Opening(f + 1) && t.value.callers[c].prog == s.callers[c].prog
                  else t.value.callers[c].phase == Idle && t.value.callers[c].prog == Returns(|s.callers[c].held|))
  {}

  /** A session that closes is gone; one that fails to close stays open and is lost to everybody. */
  lemma ClosedIsGone(s: State, c: nat, ok: bool)
    requires c < |s.callers| && s.callers[c].phase.Closing? && s.callers[c].prog != []
    ensures Next(s, CloseDone(c, ok)).Some?
    ensures var t, h := Next(s, CloseDone(c, ok)).value, s.callers[c].phase.session;
            && t.cache == s.cache && t.callers[c].phase == Idle && t.callers[c].held == s.callers[c].held
            && t.open == (if ok then s.open - {h} else s.open) && t.leaked == (if ok then s.leaked else s.leaked + [h])
  {}

  /** Importing a private key holds two sessions at once. */
  lemma ImportHoldsTwo(first: Handle, h: Handle)
    requires h != first
    ensures var s := Run(Initial(first, [[ImportPrivate]]), [TryGet(0), TryGet(0), OpenOk(0, h)]);
            s.Some? && |s.value.callers| == 1 && s.value.callers[0].held == [first, h]
  {
    var s0 := Initial(first, [[ImportPrivate]]);
    assert Programs([ImportPrivate]) == [Get, Get, Put, Put] + Programs([]) == [Get, Get, Put, Put];
    var s1 := Next(s0, TryGet(0)).value;
    var s2 := Next(s1, TryGet(0)).value;
    var s3 := Next(s2, OpenOk(0, h)).value;
    var actions := [TryGet(0), TryGet(0), OpenOk(0, h)];
    assert actions[1..] == [TryGet(0), OpenOk(0, h)] && actions[1..][1..] == [OpenOk(0, h)] && [OpenOk(0, h)][1..] == [];
    assert Run(s2, [OpenOk(0, h)]) == Run(s3, []) == Some(s3);
    assert Run(s1, actions[1..]) == Some(s3);
  }
}
