/**
 * The signature-policy evaluator of common/cauthdsl/cauthdsl.go.
 *
 * A policy is a tree of N-out-of-M gates over leaves that name a principal.  The evaluator
 * walks the tree left to right and hands each leaf the first signature position that is not
 * used yet and satisfies the leaf's principal.
 *
 * What the membership service says about the signature at position i is summarised by the set
 * `sat[i]` of principals it satisfies: the identity deserializes, satisfies the principal and
 * verifies the signature.
 */
module PolicyEvaluation {
  import opened Wrappers

  /** cb.SignaturePolicy, with the nil pointer and the unknown oneof case made explicit. */
  datatype SignaturePolicy =
    | NilPolicy
    | UnknownType
    | NOutOf(n: int, rules: seq<SignaturePolicy>)
    | SignedBy(index: int)

  /** The closures `compile` builds: a gate over sub-evaluators, or a leaf holding its principal. */
  datatype Evaluator<P> =
    | Gate(n: int, subs: seq<Evaluator<P>>)
    | Leaf(principal: P)

  datatype CompileError = EmptyElement | IndexOutOfRange(index: int) | UnknownElement

  // ---------------------------------------------------------------- compile

  function Compile<P>(policy: SignaturePolicy, identities: seq<P>): (r: Result<Evaluator<P>, CompileError>)
    decreases policy, 1
  {
    match policy
    case NilPolicy => Failure(EmptyElement)
    case UnknownType => Failure(UnknownElement)
    case NOutOf(n, rules) =>
      (match CompileAll(rules, identities)
       case Failure(e) => Failure(e)
       case Success(subs) => Success(Gate(n, subs)))
    case SignedBy(i) =>
      if i < 0 || i >= |identities| then Failure(IndexOutOfRange(i)) else Success(Leaf(identities[i]))
  }

  function CompileAll<P>(rules: seq<SignaturePolicy>, identities: seq<P>): (r: Result<seq<Evaluator<P>>, CompileError>)
    decreases rules, 0
  {
    if rules == [] then Success([])
    else
      match Compile(rules[0], identities)
      case Failure(e) => Failure(e)
      case Success(first) =>
        match CompileAll(rules[1..], identities)
        case Failure(e) => Failure(e)
        case Success(rest) => Success([first] + rest)
  }

  /** The principals at the leaves, left to right. */
  function Leaves<P>(ev: Evaluator<P>): seq<P>
    decreases ev, 1
  {
    match ev
    case Leaf(p) => [p]
    case Gate(_, subs) => LeavesAll(subs)
  }

  function LeavesAll<P>(subs: seq<Evaluator<P>>): seq<P>
    decreases subs, 0
  {
    if subs == [] then [] else Leaves(subs[0]) + LeavesAll(subs[1..])
  }

  /** The identity indices at the leaves of a policy, left to right. */
  function Indices(policy: SignaturePolicy): seq<int>
    decreases policy, 1
  {
    match policy
    case SignedBy(i) => [i]
    case NOutOf(_, rules) => IndicesAll(rules)
    case _ => []
  }

  function IndicesAll(rules: seq<SignaturePolicy>): seq<int>
    decreases rules, 0
  {
    if rules == [] then [] else Indices(rules[0]) + IndicesAll(rules[1..])
  }

  /** No nil or unknown element anywhere in the policy. */
  predicate Understood(policy: SignaturePolicy)
    decreases policy, 1
  {
    match policy
    case NilPolicy => false
    case UnknownType => false
    case SignedBy(_) => true
    case NOutOf(_, rules) => UnderstoodAll(rules)
  }

  predicate UnderstoodAll(rules: seq<SignaturePolicy>)
    decreases rules, 0
  {
    rules == [] || (Understood(rules[0]) && UnderstoodAll(rules[1..]))
  }

  ghost predicate InRange(indices: seq<int>, count: nat) {
    forall k :: 0 <= k < |indices| ==> 0 <= indices[k] < count
  }

  lemma InRangeConcat(a: seq<int>, b: seq<int>, count: nat)
    ensures InRange(a + b, count) <==> InRange(a, count) && InRange(b, count)
  {
    assert forall k :: 0 <= k < |a| ==> (a + b)[k] == a[k];
    assert forall k :: 0 <= k < |b| ==> (a + b)[|a| + k] == b[k];
  }

  function Pick<P>(identities: seq<P>, indices: seq<int>): (r: seq<P>)
    requires InRange(indices, |identities|)
  {
    if indices == [] then [] else [identities[indices[0]]] + Pick(identities, indices[1..])
  }

  lemma {:induction false} PickConcat<P>(identities: seq<P>, a: seq<int>, b: seq<int>)
    requires InRange(a, |identities|) && InRange(b, |identities|)
    ensures Pick(identities, a + b) == Pick(identities, a) + Pick(identities, b)
  {
    if a == [] {
      assert a + b == b;
    } else {
      assert (a + b)[1..] == a[1..] + b;
      PickConcat(identities, a[1..], b);
    }
  }

  /**
   * compile accepts a policy exactly when every element is understood and every leaf index is
   * in range, and the evaluator's leaves are then the principals those indices name.
   */
  lemma {:induction false} CompileExact<P>(policy: SignaturePolicy, identities: seq<P>)
    ensures Compile(policy, identities).Success? <==> Understood(policy) && InRange(Indices(policy), |identities|)
    ensures Compile(policy, identities).Success? ==>
              Leaves(Compile(policy, identities).value) == Pick(identities, Indices(policy))
    decreases policy, 1
  {
    match policy {
      case NOutOf(n, rules) => CompileAllExact(rules, identities);
      case SignedBy(i) => assert Indices(policy)[0] == i;
      case NilPolicy =>
      case UnknownType =>
    }
  }

  lemma {:induction false} CompileAllExact<P>(rules: seq<SignaturePolicy>, identities: seq<P>)
    ensures CompileAll(rules, identities).Success? <==>
            UnderstoodAll(rules) && InRange(IndicesAll(rules), |identities|)
    ensures CompileAll(rules, identities).Success? ==>
              && |CompileAll(rules, identities).value| == |rules|
              && LeavesAll(CompileAll(rules, identities).value) == Pick(identities, IndicesAll(rules))
    decreases rules, 0
  {
    if rules != [] {
      CompileExact(rules[0], identities);
      CompileAllExact(rules[1..], identities);
      InRangeConcat(Indices(rules[0]), IndicesAll(rules[1..]), |identities|);
      if CompileAll(rules, identities).Success? {
        var subs := CompileAll(rules, identities).value;
        assert subs[1..] == CompileAll(rules[1..], identities).value;
        PickConcat(identities, Indices(rules[0]), IndicesAll(rules[1..]));
      }
    }
  }

  // ------------------------------------------------------------- evaluation

  /** The first position from `from` on that is unused and satisfies p; |sat| when there is none. */
  function FirstUnused<P>(p: P, sat: seq<set<P>>, used: seq<bool>, from: nat): (i: nat)
    requires |used| == |sat| && from <= |sat|
    ensures from <= i <= |sat|
    ensures i < |sat| ==> !used[i] && p in sat[i]
    ensures forall j :: from <= j < i ==> used[j] || p !in sat[j]
    decreases |sat| - from
  {
    if from == |sat| then from
    else if !used[from] && p in sat[from] then from
    else FirstUnused(p, sat, used, from + 1)
  }

  /** Verdict and marks after running an evaluator on the marks `used`. */
  function Run<P>(ev: Evaluator<P>, sat: seq<set<P>>, used: seq<bool>): (r: (bool, seq<bool>))
    requires |used| == |sat|
    ensures |r.1| == |used|
    decreases ev, 1
  {
    match ev
    case Leaf(p) =>
      var i := FirstUnused(p, sat, used, 0);
      if i < |sat| then (true, used[i := true]) else (false, used)
    case Gate(n, subs) =>
      var r := RunAll(subs, sat, used);
      (r.0 >= n, r.1)
  }

  /** How many of the sub-evaluators accept, and the marks that the accepting ones commit. */
  function RunAll<P>(subs: seq<Evaluator<P>>, sat: seq<set<P>>, used: seq<bool>): (r: (nat, seq<bool>))
    requires |used| == |sat|
    ensures |r.1| == |used|
    decreases subs, 0
  {
    if subs == [] then (0, used)
    else
      var first := Run(subs[0], sat, used);
      var rest := RunAll(subs[1..], sat, if first.0 then first.1 else used);
      (rest.0 + if first.0 then 1 else 0, rest.1)
  }

  function AllUnused(n: nat): (u: seq<bool>)
    ensures |u| == n && forall i :: 0 <= i < n ==> !u[i]
  {
    seq(n, _ => false)
  }

  /** policy.Evaluate: run the evaluator with no position used. */
  predicate Accepts<P>(ev: Evaluator<P>, sat: seq<set<P>>) {
    Run(ev, sat, AllUnused(|sat|)).0
  }

  /** The marks a sub-policy leaves behind: its own when it accepts, the old ones otherwise. */
  function Committed<P>(ev: Evaluator<P>, sat: seq<set<P>>, used: seq<bool>): seq<bool>
    requires |used| == |sat|
  {
    if Run(ev, sat, used).0 then Run(ev, sat, used).1 else used
  }

  lemma LeavesOfPair<P>(x: Evaluator<P>, y: Evaluator<P>)
    ensures LeavesAll([x, y]) == Leaves(x) + Leaves(y)
  {
    assert [x, y][1..] == [y];
    assert LeavesAll([y]) == Leaves(y) + LeavesAll([]);
  }

  lemma RunAllOfPair<P>(x: Evaluator<P>, y: Evaluator<P>, sat: seq<set<P>>, used: seq<bool>)
    requires |used| == |sat|
    ensures var after := Committed(x, sat, used);
            RunAll([x, y], sat, used) ==
            ((if Run(x, sat, used).0 then 1 else 0) + (if Run(y, sat, after).0 then 1 else 0), Committed(y, sat, after))
  {
    var after := Committed(x, sat, used);
    assert [x, y][1..] == [y];
    assert RunAll([y], sat, after) == (if Run(y, sat, after).0 then 1 else 0, Committed(y, sat, after)) by {
      assert RunAll([], sat, Committed(y, sat, after)) == (0, Committed(y, sat, after));
    }
  }

  lemma {:induction false} RunAllConcat<P>(a: seq<Evaluator<P>>, b: seq<Evaluator<P>>, sat: seq<set<P>>, used: seq<bool>)
    requires |used| == |sat|
    ensures var ra := RunAll(a, sat, used);
            var rb := RunAll(b, sat, ra.1);
            RunAll(a + b, sat, used) == (ra.0 + rb.0, rb.1)
    decreases a
  {
    if a == [] {
      assert a + b == b;
    } else {
      var first := Run(a[0], sat, used);
      assert (a + b)[1..] == a[1..] + b;
      RunAllConcat(a[1..], b, sat, if first.0 then first.1 else used);
    }
  }

  /** A sub-policy that is rejected where it stands leaves no trace: the gate behaves as if it were absent. */
  lemma {:induction false} RejectedChildLeavesNoTrace<P>(a: seq<Evaluator<P>>, c: Evaluator<P>, b: seq<Evaluator<P>>,
                                      sat: seq<set<P>>, used: seq<bool>)
    requires |used| == |sat|
    requires !Run(c, sat, RunAll(a, sat, used).1).0
    ensures RunAll(a + [c] + b, sat, used) == RunAll(a + b, sat, used)
  {
    var mid := RunAll(a, sat, used);
    assert a + [c] + b == a + ([c] + b);
    RunAllConcat(a, [c] + b, sat, used);
    RunAllConcat(a, b, sat, used);
    assert ([c] + b)[1..] == b;
  }

  // -------------------------------------------------------------- soundness

  /**
   * Evidence for an acceptance: a sub-tree that skips, at every gate, the sub-policies not
   * relied upon, and holds at every leaf the signature position assigned to it.
   */
  datatype Witness = Skipped | At(pos: nat) | Chosen(kids: seq<Witness>)

  /** Every gate of the evidence has at least n chosen children and every leaf a matching position. */
  ghost predicate Proves<P>(w: Witness, ev: Evaluator<P>, sat: seq<set<P>>)
    decreases ev, 1
  {
    match ev
    case Leaf(p) => w.At? && w.pos < |sat| && p in sat[w.pos]
    case Gate(n, subs) => w.Chosen? && ProvesAll(w.kids, subs, sat) && CountChosen(w.kids) >= n
  }

  ghost predicate ProvesAll<P>(kids: seq<Witness>, subs: seq<Evaluator<P>>, sat: seq<set<P>>)
    decreases subs, 0
  {
    && |kids| == |subs|
    && (subs != [] ==>
          && (kids[0].Skipped? || Proves(kids[0], subs[0], sat))
          && ProvesAll(kids[1..], subs[1..], sat))
  }

  function CountChosen(kids: seq<Witness>): nat {
    if kids == [] then 0 else (if kids[0].Skipped? then 0 else 1) + CountChosen(kids[1..])
  }

  /** The positions assigned to the leaves of the evidence, leaf by leaf. */
  function Positions(w: Witness): seq<nat>
    decreases w, 1
  {
    match w
    case Skipped => []
    case At(i) => [i]
    case Chosen(kids) => PositionsAll(kids)
  }

  function PositionsAll(kids: seq<Witness>): seq<nat>
    decreases kids, 0
  {
    if kids == [] then [] else Positions(kids[0]) + PositionsAll(kids[1..])
  }

  /** Distinct positions below n are at most n. */
  lemma {:induction false} DistinctBelow(positions: seq<nat>, n: nat)
    requires Distinct(positions) && forall i :: i in positions ==> i < n
    ensures |positions| <= n
    decreases n
  {
    if positions != [] {
      assert positions[0] in positions;
      if k :| 0 <= k < |positions| && positions[k] == n - 1 {
        var rest := positions[..k] + positions[k + 1..];
        forall i | i in rest ensures i < n - 1 {
          var j :| 0 <= j < |rest| && rest[j] == i;
          assert positions[if j < k then j else j + 1] == i && i in positions;
        }
        DistinctBelow(rest, n - 1);
      } else {
        DistinctBelow(positions, n - 1);
      }
    }
  }

  /** `after` is `before` with exactly the listed positions newly marked; none was marked before. */
  ghost predicate NewlyMarked(before: seq<bool>, after: seq<bool>, positions: seq<nat>) {
    && |after| == |before|
    && (forall p :: p in positions ==> p < |before| && !before[p])
    && (forall i :: 0 <= i < |before| ==> (after[i] <==> before[i] || i in positions))
  }

  lemma NewlyMarkedTrans(u0: seq<bool>, u1: seq<bool>, u2: seq<bool>, a: seq<nat>, b: seq<nat>)
    requires NewlyMarked(u0, u1, a) && NewlyMarked(u1, u2, b)
    requires Distinct(a) && Distinct(b)
    ensures NewlyMarked(u0, u2, a + b) && Distinct(a + b)
  {
    forall i, j | 0 <= i < j < |a + b| ensures (a + b)[i] != (a + b)[j] {
      if i < |a| && |a| <= j {
        assert a[i] in a && b[j - |a|] in b;
        assert u1[a[i]] && !u1[b[j - |a|]];
      }
    }
    forall p | p in a + b ensures p < |u0| && !u0[p] {
      if p !in a { assert p in b; }
    }
  }

  /**
   * Soundness.  An acceptance comes with evidence that assigns distinct, previously unused,
   * matching positions to its leaves, and the marks added are exactly those positions.
   */
  lemma {:induction false} Sound<P>(ev: Evaluator<P>, sat: seq<set<P>>, used: seq<bool>) returns (w: Witness)
    requires |used| == |sat|
    requires Run(ev, sat, used).0
    ensures Proves(w, ev, sat)
    ensures Distinct(Positions(w))
    ensures NewlyMarked(used, Run(ev, sat, used).1, Positions(w))
    decreases ev, 1
  {
    match ev {
      case Leaf(p) =>
        w := At(FirstUnused(p, sat, used, 0));
        assert Positions(w) == [w.pos];
      case Gate(n, subs) =>
        var kids := SoundAll(subs, sat, used);
        w := Chosen(kids);
    }
  }

  lemma {:induction false} SoundAll<P>(subs: seq<Evaluator<P>>, sat: seq<set<P>>, used: seq<bool>)
    returns (kids: seq<Witness>)
    requires |used| == |sat|
    ensures ProvesAll(kids, subs, sat)
    ensures CountChosen(kids) == RunAll(subs, sat, used).0
    ensures Distinct(PositionsAll(kids))
    ensures NewlyMarked(used, RunAll(subs, sat, used).1, PositionsAll(kids))
    decreases subs, 0
  {
    if subs == [] {
      kids := [];
    } else {
      var first := Run(subs[0], sat, used);
      var next := if first.0 then first.1 else used;
      var rest := SoundAll(subs[1..], sat, next);
      if first.0 {
        var w := Sound(subs[0], sat, used);
        kids := [w] + rest;
        NewlyMarkedTrans(used, next, RunAll(subs, sat, used).1, Positions(w), PositionsAll(rest));
      } else {
        kids := [Skipped] + rest;
        assert [] + PositionsAll(rest) == PositionsAll(rest);
      }
      assert kids[1..] == rest;
    }
  }

  // -------------------------------------------------- the threshold reading

  ghost predicate Present<P>(p: P, sat: seq<set<P>>) {
    exists s :: s in sat && p in s
  }

  /** The plain Boolean reading of a policy: a leaf holds when some signature satisfies it. */
  ghost predicate Holds<P>(ev: Evaluator<P>, sat: seq<set<P>>)
    decreases ev, 1
  {
    match ev
    case Leaf(p) => Present(p, sat)
    case Gate(n, subs) => CountHolding(subs, sat) >= n
  }

  ghost function CountHolding<P>(subs: seq<Evaluator<P>>, sat: seq<set<P>>): nat
    decreases subs, 0
  {
    if subs == [] then 0 else (if Holds(subs[0], sat) then 1 else 0) + CountHolding(subs[1..], sat)
  }

  lemma {:induction false} EvidenceHolds<P>(w: Witness, ev: Evaluator<P>, sat: seq<set<P>>)
    requires Proves(w, ev, sat)
    ensures Holds(ev, sat)
    decreases ev, 1
  {
    match ev {
      case Leaf(p) => assert sat[w.pos] in sat;
      case Gate(n, subs) => EvidenceHoldsAll(w.kids, subs, sat);
    }
  }

  lemma {:induction false} EvidenceHoldsAll<P>(kids: seq<Witness>, subs: seq<Evaluator<P>>, sat: seq<set<P>>)
    requires ProvesAll(kids, subs, sat)
    ensures CountHolding(subs, sat) >= CountChosen(kids)
    decreases subs, 0
  {
    if subs != [] {
      if !kids[0].Skipped? { EvidenceHolds(kids[0], subs[0], sat); }
      EvidenceHoldsAll(kids[1..], subs[1..], sat);
    }
  }

  /** Acceptance always implies the Boolean reading, from any marks and on any signatures. */
  lemma AcceptanceImpliesHolds<P>(ev: Evaluator<P>, sat: seq<set<P>>, used: seq<bool>)
    requires |used| == |sat|
    ensures Run(ev, sat, used).0 ==> Holds(ev, sat)
  {
    if Run(ev, sat, used).0 {
      var w := Sound(ev, sat, used);
      EvidenceHolds(w, ev, sat);
    }
  }

  /** No signature satisfies two different leaves. */
  ghost predicate LeavesDisjoint<P>(leaves: seq<P>, sat: seq<set<P>>) {
    forall s, i, j :: s in sat && 0 <= i < j < |leaves| ==> !(leaves[i] in s && leaves[j] in s)
  }

  ghost predicate Touches<P>(leaves: seq<P>, s: set<P>) {
    exists i :: 0 <= i < |leaves| && leaves[i] in s
  }

  /** No used position satisfies any of the leaves. */
  ghost predicate Untouched<P>(leaves: seq<P>, sat: seq<set<P>>, used: seq<bool>)
    requires |used| == |sat|
  {
    forall i :: 0 <= i < |sat| && used[i] ==> !Touches(leaves, sat[i])
  }

  /** Every position marked on the way from `before` to `after` satisfies some of the leaves. */
  ghost predicate MarksTouch<P>(leaves: seq<P>, sat: seq<set<P>>, before: seq<bool>, after: seq<bool>)
    requires |before| == |after| == |sat|
  {
    forall i :: 0 <= i < |sat| && after[i] && !before[i] ==> Touches(leaves, sat[i])
  }

  lemma {:induction false} ExactFrom<P>(ev: Evaluator<P>, sat: seq<set<P>>, used: seq<bool>)
    requires |used| == |sat|
    requires LeavesDisjoint(Leaves(ev), sat)
    requires Untouched(Leaves(ev), sat, used)
    ensures Run(ev, sat, used).0 <==> Holds(ev, sat)
    ensures MarksTouch(Leaves(ev), sat, used, Run(ev, sat, used).1)
    decreases ev, 1
  {
    match ev {
      case Leaf(p) =>
        assert Leaves(ev)[0] == p;
        var i := FirstUnused(p, sat, used, 0);
        if i < |sat| {
          assert sat[i] in sat;
        } else {
          forall k | 0 <= k < |sat| ensures p !in sat[k] { TouchedBy(Leaves(ev), 0, sat[k]); }
        }
      case Gate(n, subs) => ExactFromAll(subs, sat, used);
    }
  }

  lemma {:induction false} ExactFromAll<P>(subs: seq<Evaluator<P>>, sat: seq<set<P>>, used: seq<bool>)
    requires |used| == |sat|
    requires LeavesDisjoint(LeavesAll(subs), sat)
    requires Untouched(LeavesAll(subs), sat, used)
    ensures RunAll(subs, sat, used).0 == CountHolding(subs, sat)
    ensures MarksTouch(LeavesAll(subs), sat, used, RunAll(subs, sat, used).1)
    decreases subs, 0
  {
    if subs != [] {
      var a, b := Leaves(subs[0]), LeavesAll(subs[1..]);
      SplitHypotheses(a, b, sat, used);
      ExactFrom(subs[0], sat, used);
      var first := Run(subs[0], sat, used);
      var next := if first.0 then first.1 else used;
      MarkedStayApart(a, b, sat, used, next);
      ExactFromAll(subs[1..], sat, next);
      var last := RunAll(subs, sat, used).1;
      forall i | 0 <= i < |sat| && last[i] && !used[i] ensures Touches(a + b, sat[i]) {
        TouchesConcat(a, b, sat[i]);
      }
    }
  }

  lemma TouchedBy<P>(leaves: seq<P>, i: nat, s: set<P>)
    requires i < |leaves|
    ensures leaves[i] in s ==> Touches(leaves, s)
  {}

  lemma TouchesConcat<P>(a: seq<P>, b: seq<P>, s: set<P>)
    ensures Touches(a + b, s) <==> Touches(a, s) || Touches(b, s)
  {
    if Touches(a, s) {
      var i :| 0 <= i < |a| && a[i] in s;
      assert (a + b)[i] in s;
    }
    if Touches(b, s) {
      var i :| 0 <= i < |b| && b[i] in s;
      assert (a + b)[|a| + i] in s;
    }
  }

  lemma SplitHypotheses<P>(a: seq<P>, b: seq<P>, sat: seq<set<P>>, used: seq<bool>)
    requires |used| == |sat|
    requires LeavesDisjoint(a + b, sat) && Untouched(a + b, sat, used)
    ensures LeavesDisjoint(a, sat) && LeavesDisjoint(b, sat)
    ensures Untouched(a, sat, used) && Untouched(b, sat, used)
  {
    forall s, i, j | s in sat && 0 <= i < j < |a| ensures !(a[i] in s && a[j] in s) {
      assert (a + b)[i] == a[i] && (a + b)[j] == a[j];
    }
    forall s, i, j | s in sat && 0 <= i < j < |b| ensures !(b[i] in s && b[j] in s) {
      assert (a + b)[|a| + i] == b[i] && (a + b)[|a| + j] == b[j];
    }
    forall i | 0 <= i < |sat| && used[i] ensures !Touches(a, sat[i]) && !Touches(b, sat[i]) {
      TouchesConcat(a, b, sat[i]);
    }
  }

  lemma MarkedStayApart<P>(a: seq<P>, b: seq<P>, sat: seq<set<P>>, used: seq<bool>, next: seq<bool>)
    requires |used| == |next| == |sat|
    requires LeavesDisjoint(a + b, sat) && Untouched(b, sat, used)
    requires MarksTouch(a, sat, used, next)
    ensures Untouched(b, sat, next)
  {
    forall i | 0 <= i < |sat| && next[i] ensures !Touches(b, sat[i]) {
      if !used[i] {
        var x :| 0 <= x < |a| && a[x] in sat[i];
        assert sat[i] in sat && (a + b)[x] == a[x];
        forall y | 0 <= y < |b| ensures b[y] !in sat[i] { assert (a + b)[|a| + y] == b[y]; }
      }
    }
  }

  /** When no signature satisfies two leaves, acceptance is exactly the Boolean reading. */
  lemma ExactWhenDisjoint<P>(ev: Evaluator<P>, sat: seq<set<P>>)
    requires LeavesDisjoint(Leaves(ev), sat)
    ensures Accepts(ev, sat) <==> Holds(ev, sat)
  {
    ExactFrom(ev, sat, AllUnused(|sat|));
  }

  /** The reading depends only on which leaves are present. */
  lemma {:induction false} HoldsByPresence<P>(ev: Evaluator<P>, sat: seq<set<P>>, other: seq<set<P>>)
    requires forall p :: p in Leaves(ev) && Present(p, sat) ==> Present(p, other)
    ensures Holds(ev, sat) ==> Holds(ev, other)
    decreases ev, 1
  {
    match ev {
      case Leaf(_) =>
      case Gate(_, subs) => HoldsByPresenceAll(subs, sat, other);
    }
  }

  lemma {:induction false} HoldsByPresenceAll<P>(subs: seq<Evaluator<P>>, sat: seq<set<P>>, other: seq<set<P>>)
    requires forall p :: p in LeavesAll(subs) && Present(p, sat) ==> Present(p, other)
    ensures CountHolding(subs, sat) <= CountHolding(subs, other)
    decreases subs, 0
  {
    if subs != [] {
      HoldsByPresence(subs[0], sat, other);
      HoldsByPresenceAll(subs[1..], sat, other);
    }
  }

  /** The reading survives additional signatures. */
  lemma HoldsMonotone<P>(ev: Evaluator<P>, sat: seq<set<P>>, more: seq<set<P>>)
    requires forall s :: s in sat ==> s in more
    ensures Holds(ev, sat) ==> Holds(ev, more)
  {
    HoldsByPresence(ev, sat, more);
  }

  /** Adding signatures anywhere keeps an acceptance, provided no signature then satisfies two leaves. */
  lemma MonotoneWhenDisjoint<P>(ev: Evaluator<P>, sat: seq<set<P>>, more: seq<set<P>>)
    requires forall s :: s in sat ==> s in more
    requires LeavesDisjoint(Leaves(ev), more)
    ensures Accepts(ev, sat) ==> Accepts(ev, more)
  {
    ExactWhenDisjoint(ev, sat);
    ExactWhenDisjoint(ev, more);
    HoldsMonotone(ev, sat, more);
  }

  /** The order of the signatures does not matter when no signature satisfies two leaves. */
  lemma OrderIrrelevantWhenDisjoint<P>(ev: Evaluator<P>, sat: seq<set<P>>, shuffled: seq<set<P>>)
    requires multiset(sat) == multiset(shuffled)
    requires LeavesDisjoint(Leaves(ev), sat)
    ensures Accepts(ev, sat) <==> Accepts(ev, shuffled)
  {
    assert forall s :: s in sat <==> s in multiset(sat);
    assert forall s :: s in shuffled <==> s in multiset(shuffled);
    MonotoneWhenDisjoint(ev, sat, shuffled);
    MonotoneWhenDisjoint(ev, shuffled, sat);
  }

  // ------------------------------------------------ compiling keeps the reading

  /** The reading of a policy before it is compiled: a leaf by the principal it indexes, a gate by counting its rules. */
  ghost predicate PolicyHolds<P>(policy: SignaturePolicy, identities: seq<P>, sat: seq<set<P>>)
    decreases policy, 1
  {
    match policy
    case SignedBy(i) => 0 <= i < |identities| && Present(identities[i], sat)
    case NOutOf(n, rules) => CountRules(rules, identities, sat) >= n
    case _ => false
  }

  ghost function CountRules<P>(rules: seq<SignaturePolicy>, identities: seq<P>, sat: seq<set<P>>): nat
    decreases rules, 0
  {
    if rules == [] then 0
    else (if PolicyHolds(rules[0], identities, sat) then 1 else 0) + CountRules(rules[1..], identities, sat)
  }

  /** Whatever compiles reads as it did before. */
  lemma {:induction false} CompileHolds<P>(policy: SignaturePolicy, identities: seq<P>, sat: seq<set<P>>)
    requires Compile(policy, identities).Success?
    ensures Holds(Compile(policy, identities).value, sat) <==> PolicyHolds(policy, identities, sat)
    decreases policy, 1
  {
    match policy {
      case NOutOf(_, rules) => CompileHoldsAll(rules, identities, sat);
      case SignedBy(_) =>
    }
  }

  lemma {:induction false} CompileHoldsAll<P>(rules: seq<SignaturePolicy>, identities: seq<P>, sat: seq<set<P>>)
    requires CompileAll(rules, identities).Success?
    ensures CountHolding(CompileAll(rules, identities).value, sat) == CountRules(rules, identities, sat)
    decreases rules, 0
  {
    if rules != [] {
      CompileHolds(rules[0], identities, sat);
      CompileHoldsAll(rules[1..], identities, sat);
      assert CompileAll(rules, identities).value[1..] == CompileAll(rules[1..], identities).value;
    }
  }

  /** A compiled policy accepts only what the policy reads as, and all of it when no signature satisfies two leaves. */
  lemma CompiledAccepts<P>(policy: SignaturePolicy, identities: seq<P>, sat: seq<set<P>>)
    requires Compile(policy, identities).Success?
    ensures var ev := Compile(policy, identities).value;
            && (Accepts(ev, sat) ==> PolicyHolds(policy, identities, sat))
            && (LeavesDisjoint(Leaves(ev), sat) ==> (Accepts(ev, sat) <==> PolicyHolds(policy, identities, sat)))
  {
    var ev := Compile(policy, identities).value;
    CompileHolds(policy, identities, sat);
    AcceptanceImpliesHolds(ev, sat, AllUnused(|sat|));
    if LeavesDisjoint(Leaves(ev), sat) { ExactWhenDisjoint(ev, sat); }
  }

  /** The evaluator has the shape of the policy: same thresholds, same order, each leaf the principal its index names. */
  ghost predicate Mirrors<P>(ev: Evaluator<P>, policy: SignaturePolicy, identities: seq<P>)
    decreases policy, 1
  {
    match policy
    case SignedBy(i) => ev.Leaf? && 0 <= i < |identities| && ev.principal == identities[i]
    case NOutOf(n, rules) => ev.Gate? && ev.n == n && MirrorsAll(ev.subs, rules, identities)
    case _ => false
  }

  ghost predicate MirrorsAll<P>(subs: seq<Evaluator<P>>, rules: seq<SignaturePolicy>, identities: seq<P>)
    decreases rules, 0
  {
    |subs| == |rules| && (rules != [] ==> Mirrors(subs[0], rules[0], identities) && MirrorsAll(subs[1..], rules[1..], identities))
  }

  /** Compiling yields the one evaluator that mirrors the policy, whenever there is one. */
  lemma {:induction false} CompileMirrors<P>(policy: SignaturePolicy, identities: seq<P>, ev: Evaluator<P>)
    ensures Compile(policy, identities) == Success(ev) <==> Mirrors(ev, policy, identities)
    decreases policy, 1
  {
    match policy {
      case NOutOf(n, rules) => if ev.Gate? { CompileMirrorsAll(rules, identities, ev.subs); }
      case _ =>
    }
  }

  lemma {:induction false} CompileMirrorsAll<P>(rules: seq<SignaturePolicy>, identities: seq<P>, subs: seq<Evaluator<P>>)
    ensures CompileAll(rules, identities) == Success(subs) <==> MirrorsAll(subs, rules, identities)
    decreases rules, 0
  {
    if rules != [] && subs != [] {
      CompileMirrors(rules[0], identities, subs[0]);
      CompileMirrorsAll(rules[1..], identities, subs[1..]);
      assert subs == [subs[0]] + subs[1..];
      if CompileAll(rules, identities) == Success(subs) {
        var first, rest := Compile(rules[0], identities).value, CompileAll(rules[1..], identities).value;
        assert subs[0] == ([first] + rest)[0] && subs[1..] == ([first] + rest)[1..] == rest;
      }
    }
  }
}
