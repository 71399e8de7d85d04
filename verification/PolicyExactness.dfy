/**
 * When is the greedy evaluator exact?  For policies whose gates can be met (1 <= n <= M) and
 * whose leaves are pairwise different, exactly when no gate asks for more than one sub-policy.
 * One such gate is enough to make the verdict incomplete, order-dependent and non-monotone.
 */
module PolicyExactness {
  import opened Wrappers
  import opened PolicyEvaluation

  /** Every gate can be met and none is met for free: 1 <= n <= number of sub-policies. */
  predicate Live<P>(ev: Evaluator<P>)
    decreases ev, 1
  {
    match ev
    case Leaf(_) => true
    case Gate(n, subs) => 1 <= n <= |subs| && LiveAll(subs)
  }

  predicate LiveAll<P>(subs: seq<Evaluator<P>>)
    decreases subs, 0
  {
    subs == [] || (Live(subs[0]) && LiveAll(subs[1..]))
  }

  /** No gate asks for more than one of its sub-policies. */
  predicate SingleThreshold<P>(ev: Evaluator<P>)
    decreases ev, 1
  {
    match ev
    case Leaf(_) => true
    case Gate(n, subs) => n <= 1 && SingleThresholdAll(subs)
  }

  predicate SingleThresholdAll<P>(subs: seq<Evaluator<P>>)
    decreases subs, 0
  {
    subs == [] || (SingleThreshold(subs[0]) && SingleThresholdAll(subs[1..]))
  }

  /** Some assignment of distinct matching positions satisfies the policy. */
  ghost predicate Satisfiable<P>(ev: Evaluator<P>, sat: seq<set<P>>) {
    exists w :: Proves(w, ev, sat) && Distinct(Positions(w))
  }

  // ------------------------------------------------- single-threshold trees

  lemma {:induction false} SingleThresholdExact<P>(ev: Evaluator<P>, sat: seq<set<P>>)
    requires SingleThreshold(ev)
    ensures Accepts(ev, sat) <==> Holds(ev, sat)
    decreases ev, 1
  {
    match ev {
      case Leaf(p) =>
        var i := FirstUnused(p, sat, AllUnused(|sat|), 0);
        if i < |sat| { assert sat[i] in sat; }
      case Gate(n, subs) => SingleThresholdExactAll(subs, sat);
    }
  }

  lemma {:induction false} SingleThresholdExactAll<P>(subs: seq<Evaluator<P>>, sat: seq<set<P>>)
    requires SingleThresholdAll(subs)
    ensures RunAll(subs, sat, AllUnused(|sat|)).0 >= 1 <==> CountHolding(subs, sat) >= 1
    decreases subs, 0
  {
    if subs != [] {
      SingleThresholdExact(subs[0], sat);
      SingleThresholdExactAll(subs[1..], sat);
    }
  }

  // ------------------------------------------- the leaves a policy can lean on

  /** A smallest set of leaves that meets the policy: the first n sub-policies of every gate. */
  function Need<P>(ev: Evaluator<P>): seq<P>
    decreases ev, 1
  {
    match ev
    case Leaf(p) => [p]
    case Gate(n, subs) => NeedAll(subs, n)
  }

  function NeedAll<P>(subs: seq<Evaluator<P>>, n: int): seq<P>
    decreases subs, 0
  {
    if n <= 0 || subs == [] then [] else Need(subs[0]) + NeedAll(subs[1..], n - 1)
  }

  lemma {:induction false} NeedNonEmpty<P>(ev: Evaluator<P>)
    requires Live(ev)
    ensures Need(ev) != []
    decreases ev
  {
    match ev {
      case Leaf(_) =>
      case Gate(n, subs) => NeedNonEmpty(subs[0]);
    }
  }

  lemma {:induction false} NeedAmongLeaves<P>(ev: Evaluator<P>, p: P)
    requires p in Need(ev)
    ensures p in Leaves(ev)
    decreases ev, 1
  {
    match ev {
      case Leaf(_) =>
      case Gate(n, subs) => NeedAmongLeavesAll(subs, n, p);
    }
  }

  lemma {:induction false} NeedAmongLeavesAll<P>(subs: seq<Evaluator<P>>, n: int, p: P)
    requires p in NeedAll(subs, n)
    ensures p in LeavesAll(subs)
    decreases subs, 0
  {
    if p in Need(subs[0]) {
      NeedAmongLeaves(subs[0], p);
    } else {
      NeedAmongLeavesAll(subs[1..], n - 1, p);
    }
  }

  /** Of the given leaves, only the needed ones are satisfied by any signature. */
  ghost predicate OnlyNeeded<P>(leaves: seq<P>, needed: seq<P>, sat: seq<set<P>>) {
    forall p :: p in leaves && Present(p, sat) ==> p in needed
  }

  lemma DistinctSplit<P>(a: seq<P>, b: seq<P>)
    requires Distinct(a + b)
    ensures Distinct(a) && Distinct(b) && forall p :: p in a ==> p !in b
  {
    assert a == (a + b)[..|a|] && b == (a + b)[|a|..];
    forall p | p in a ensures p !in b {
      var i :| 0 <= i < |a| && a[i] == p;
      forall j | 0 <= j < |b| ensures b[j] != p { assert (a + b)[i] != (a + b)[|a| + j]; }
    }
  }

  lemma OnlyNeededSplit<P>(subs: seq<Evaluator<P>>, n: int, sat: seq<set<P>>)
    requires subs != [] && n > 0
    requires Distinct(LeavesAll(subs))
    requires OnlyNeeded(LeavesAll(subs), NeedAll(subs, n), sat)
    ensures Distinct(Leaves(subs[0])) && Distinct(LeavesAll(subs[1..]))
    ensures OnlyNeeded(Leaves(subs[0]), Need(subs[0]), sat)
    ensures OnlyNeeded(LeavesAll(subs[1..]), NeedAll(subs[1..], n - 1), sat)
  {
    var a, b := Leaves(subs[0]), LeavesAll(subs[1..]);
    DistinctSplit(a, b);
    forall p | p in a && Present(p, sat) ensures p in Need(subs[0]) {
      if p in NeedAll(subs[1..], n - 1) { NeedAmongLeavesAll(subs[1..], n - 1, p); }
    }
    forall p | p in b && Present(p, sat) ensures p in NeedAll(subs[1..], n - 1) {
      if p in Need(subs[0]) { NeedAmongLeaves(subs[0], p); }
    }
  }

  lemma {:induction false} AbsentLeavesReject<P>(ev: Evaluator<P>, sat: seq<set<P>>, used: seq<bool>)
    requires |used| == |sat|
    requires Live(ev) && OnlyNeeded(Leaves(ev), [], sat)
    ensures !Run(ev, sat, used).0
    decreases ev, 1
  {
    match ev {
      case Leaf(p) =>
        assert p in Leaves(ev);
        assert forall i :: 0 <= i < |sat| ==> sat[i] in sat;
      case Gate(n, subs) => AtMost(subs, 0, sat, used);
    }
  }

  /** At most n sub-policies accept when only the needs of the first n are present. */
  lemma {:induction false} AtMost<P>(subs: seq<Evaluator<P>>, n: nat, sat: seq<set<P>>, used: seq<bool>)
    requires |used| == |sat|
    requires LiveAll(subs)
    requires n > 0 ==> Distinct(LeavesAll(subs))
    requires OnlyNeeded(LeavesAll(subs), NeedAll(subs, n), sat)
    ensures RunAll(subs, sat, used).0 <= n
    decreases subs, 0
  {
    if subs != [] {
      var first := Run(subs[0], sat, used);
      var next := if first.0 then first.1 else used;
      if n == 0 {
        AbsentLeavesReject(subs[0], sat, used);
        AtMost(subs[1..], 0, sat, next);
      } else {
        OnlyNeededSplit(subs, n, sat);
        AtMost(subs[1..], n - 1, sat, next);
      }
    }
  }

  /** Without an unused match for its first needed leaf, the policy rejects. */
  lemma {:induction false} FirstNeedMissing<P>(ev: Evaluator<P>, sat: seq<set<P>>, used: seq<bool>)
    requires |used| == |sat|
    requires Live(ev) && Distinct(Leaves(ev)) && OnlyNeeded(Leaves(ev), Need(ev), sat)
    requires Need(ev) != [] && FirstUnused(Need(ev)[0], sat, used, 0) == |sat|
    ensures !Run(ev, sat, used).0
    decreases ev
  {
    match ev {
      case Leaf(p) =>
      case Gate(n, subs) =>
        OnlyNeededSplit(subs, n, sat);
        NeedNonEmpty(subs[0]);
        FirstNeedMissing(subs[0], sat, used);
        AtMost(subs[1..], n - 1, sat, used);
    }
  }

  /** An acceptance consumes the first match of the first needed leaf. */
  lemma {:induction false} FirstNeedTaken<P>(ev: Evaluator<P>, sat: seq<set<P>>, used: seq<bool>)
    requires |used| == |sat|
    requires Live(ev) && Distinct(Leaves(ev)) && OnlyNeeded(Leaves(ev), Need(ev), sat)
    requires Need(ev) != [] && FirstUnused(Need(ev)[0], sat, used, 0) < |sat|
    requires Run(ev, sat, used).0
    ensures Run(ev, sat, used).1[FirstUnused(Need(ev)[0], sat, used, 0)]
    decreases ev
  {
    match ev {
      case Leaf(p) =>
      case Gate(n, subs) =>
        OnlyNeededSplit(subs, n, sat);
        NeedNonEmpty(subs[0]);
        var first := Run(subs[0], sat, used);
        AtMost(subs[1..], n - 1, sat, if first.0 then first.1 else used);
        FirstNeedTaken(subs[0], sat, used);
        var kids := SoundAll(subs[1..], sat, first.1);
    }
  }

  // ------------------------------------------------ canonical assignments

  /** `at` assigns to every needed leaf a position that satisfies it. */
  ghost predicate Assigns<P>(needed: seq<P>, at: seq<nat>, sat: seq<set<P>>) {
    && |at| == |needed|
    && forall j :: 0 <= j < |at| ==> at[j] < |sat| && needed[j] in sat[at[j]]
  }

  lemma {:induction false} Canonical<P>(ev: Evaluator<P>, at: seq<nat>, sat: seq<set<P>>) returns (w: Witness)
    requires Live(ev) && Assigns(Need(ev), at, sat)
    ensures Proves(w, ev, sat) && Positions(w) == at
    decreases ev, 1
  {
    match ev {
      case Leaf(p) =>
        w := At(at[0]);
      case Gate(n, subs) =>
        var kids := CanonicalAll(subs, n, at, sat);
        w := Chosen(kids);
    }
  }

  lemma {:induction false} CanonicalAll<P>(subs: seq<Evaluator<P>>, n: nat, at: seq<nat>, sat: seq<set<P>>)
    returns (kids: seq<Witness>)
    requires n <= |subs| && LiveAll(subs) && Assigns(NeedAll(subs, n), at, sat)
    ensures ProvesAll(kids, subs, sat) && CountChosen(kids) == n && PositionsAll(kids) == at
    decreases subs, 0
  {
    if subs == [] {
      kids := [];
    } else if n == 0 {
      var rest := CanonicalAll(subs[1..], 0, at, sat);
      kids := [Skipped] + rest;
      assert kids[1..] == rest;
    } else {
      var m := |Need(subs[0])|;
      var w := Canonical(subs[0], at[..m], sat);
      var rest := CanonicalAll(subs[1..], n - 1, at[m..], sat);
      kids := [w] + rest;
      assert kids[1..] == rest && at == at[..m] + at[m..];
    }
  }

  /** The assigned positions are distinct, unused, and each is the first match of its leaf. */
  ghost predicate FirstMatches<P>(needed: seq<P>, at: seq<nat>, sat: seq<set<P>>, used: seq<bool>)
    requires |used| == |sat|
  {
    && Assigns(needed, at, sat)
    && Distinct(at)
    && (forall j :: 0 <= j < |at| ==> !used[at[j]])
    && (forall j, i :: 0 <= j < |at| && 0 <= i < at[j] ==> needed[j] !in sat[i])
  }

  lemma {:induction false} GreedyFollows<P>(ev: Evaluator<P>, at: seq<nat>, sat: seq<set<P>>, used: seq<bool>)
    requires |used| == |sat|
    requires Live(ev) && Distinct(Leaves(ev)) && OnlyNeeded(Leaves(ev), Need(ev), sat)
    requires FirstMatches(Need(ev), at, sat, used)
    ensures Run(ev, sat, used).0
    ensures NewlyMarked(used, Run(ev, sat, used).1, at)
    decreases ev, 1
  {
    match ev {
      case Leaf(p) => assert at == [at[0]] && Need(ev)[0] == p;
      case Gate(n, subs) => GreedyFollowsAll(subs, n, at, sat, used);
    }
  }

  lemma {:induction false} GreedyFollowsAll<P>(subs: seq<Evaluator<P>>, n: nat, at: seq<nat>, sat: seq<set<P>>, used: seq<bool>)
    requires |used| == |sat|
    requires n <= |subs| && LiveAll(subs) && Distinct(LeavesAll(subs))
    requires OnlyNeeded(LeavesAll(subs), NeedAll(subs, n), sat)
    requires FirstMatches(NeedAll(subs, n), at, sat, used)
    ensures RunAll(subs, sat, used).0 == n
    ensures NewlyMarked(used, RunAll(subs, sat, used).1, at)
    decreases subs, 0
  {
    if subs == [] {
    } else if n == 0 {
      AbsentLeavesReject(subs[0], sat, used);
      DistinctSplit(Leaves(subs[0]), LeavesAll(subs[1..]));
      GreedyFollowsAll(subs[1..], 0, at, sat, used);
    } else {
      OnlyNeededSplit(subs, n, sat);
      var a, b := Need(subs[0]), NeedAll(subs[1..], n - 1);
      var next := Run(subs[0], sat, used).1;
      var atA, atB := at[..|a|], at[|a|..];
      FirstMatchesSplit(a, b, at, sat, used);
      GreedyFollows(subs[0], atA, sat, used);
      assert at == atA + atB;
      assert FirstMatches(b, atB, sat, next) by { StillFirst(b, atA, atB, sat, used, next); }
      GreedyFollowsRest(subs, n, atA, atB, sat, used);
    }
  }

  lemma {:induction false} GreedyFollowsRest<P>(subs: seq<Evaluator<P>>, n: nat, atA: seq<nat>, atB: seq<nat>, sat: seq<set<P>>, used: seq<bool>)
    requires |used| == |sat|
    requires 0 < n <= |subs| && LiveAll(subs) && Distinct(LeavesAll(subs[1..]))
    requires OnlyNeeded(LeavesAll(subs[1..]), NeedAll(subs[1..], n - 1), sat)
    requires Run(subs[0], sat, used).0 && NewlyMarked(used, Run(subs[0], sat, used).1, atA) && Distinct(atA)
    requires FirstMatches(NeedAll(subs[1..], n - 1), atB, sat, Run(subs[0], sat, used).1)
    ensures RunAll(subs, sat, used).0 == n
    ensures NewlyMarked(used, RunAll(subs, sat, used).1, atA + atB)
    decreases subs[1..], 1
  {
    var next := Run(subs[0], sat, used).1;
    GreedyFollowsAll(subs[1..], n - 1, atB, sat, next);
    NewlyMarkedTrans(used, next, RunAll(subs, sat, used).1, atA, atB);
  }

  lemma StillFirst<P>(b: seq<P>, atA: seq<nat>, atB: seq<nat>, sat: seq<set<P>>, used: seq<bool>, next: seq<bool>)
    requires |used| == |next| == |sat|
    requires FirstMatches(b, atB, sat, used)
    requires Distinct(atA + atB) && NewlyMarked(used, next, atA)
    ensures FirstMatches(b, atB, sat, next)
  {
    DistinctSplit(atA, atB);
    forall j | 0 <= j < |atB| ensures !next[atB[j]] { assert atB[j] in atB; }
  }

  lemma FirstMatchesSplit<P>(a: seq<P>, b: seq<P>, at: seq<nat>, sat: seq<set<P>>, used: seq<bool>)
    requires |used| == |sat|
    requires FirstMatches(a + b, at, sat, used)
    ensures FirstMatches(a, at[..|a|], sat, used) && FirstMatches(b, at[|a|..], sat, used)
  {
    assert forall j :: 0 <= j < |a| ==> (a + b)[j] == a[j];
    assert forall j :: 0 <= j < |b| ==> (a + b)[|a| + j] == b[j] && at[|a|..][j] == at[|a| + j];
  }

  // ------------------------------------------------------- the counterexample

  /**
   * Two leaves x = needed[0] and y = needed[k] compete: signature `both` satisfies the two of
   * them, signature `one` only x.  Every other needed leaf has a signature of its own.
   */
  function Contended<P>(needed: seq<P>, k: nat, bothFirst: bool): (r: seq<set<P>>)
    requires 0 < k < |needed|
    ensures |r| == 2 + |needed|
    ensures r[0] == if bothFirst then {needed[0], needed[k]} else {needed[0]}
    ensures r[1] == if bothFirst then {needed[0]} else {needed[0], needed[k]}
    ensures forall i :: 2 <= i < |r| ==> r[i] == if i == 2 || i == 2 + k then {} else {needed[i - 2]}
  {
    var both, one := {needed[0], needed[k]}, {needed[0]};
    (if bothFirst then [both, one] else [one, both])
    + seq(|needed|, j requires 0 <= j < |needed| => if j == 0 || j == k then {} else {needed[j]})
  }

  function ContendedAt(size: nat, k: nat, bothFirst: bool): (at: seq<nat>)
    requires 0 < k < size
    ensures |at| == size
    ensures forall j :: 0 <= j < size ==>
              at[j] == if j == 0 then (if bothFirst then 1 else 0)
                       else if j == k then (if bothFirst then 0 else 1)
                       else 2 + j
    ensures Distinct(at)
  {
    seq(size, j requires 0 <= j < size =>
      if j == 0 then (if bothFirst then 1 else 0) else if j == k then (if bothFirst then 0 else 1) else 2 + j)
  }

  lemma ContendedOnlyNeeded<P>(leaves: seq<P>, needed: seq<P>, k: nat, bothFirst: bool)
    requires 0 < k < |needed|
    ensures OnlyNeeded(leaves, needed, Contended(needed, k, bothFirst))
  {
    var sat := Contended(needed, k, bothFirst);
    assert forall i, p :: 0 <= i < |sat| && p in sat[i] ==> p in needed;
  }

  lemma ContendedAssigns<P>(needed: seq<P>, k: nat, bothFirst: bool)
    requires 0 < k < |needed|
    ensures Assigns(needed, ContendedAt(|needed|, k, bothFirst), Contended(needed, k, bothFirst))
  {
    var at, sat := ContendedAt(|needed|, k, bothFirst), Contended(needed, k, bothFirst);
    forall j | 0 <= j < |at| ensures at[j] < |sat| && needed[j] in sat[at[j]] {
      if j != 0 && j != k { assert at[j] == 2 + j; }
    }
  }

  /** The needs of a gate that asks for two or more start with those of its first two sub-policies. */
  lemma {:induction false} NeedOfTwo<P>(n: int, subs: seq<Evaluator<P>>)
    requires n >= 2 && Live(Gate(n, subs))
    ensures Live(subs[0]) && Live(subs[1]) && LiveAll(subs[1..]) && LiveAll(subs[1..][1..])
    ensures Need(subs[0]) != [] && Need(subs[1]) != []
    ensures 0 < |Need(subs[0])| < |NeedAll(subs, n)|
    ensures NeedAll(subs, n)[0] == Need(subs[0])[0]
    ensures NeedAll(subs, n)[|Need(subs[0])|] == Need(subs[1])[0]
  {
    var tail := subs[1..];
    assert tail[0] == subs[1] && LiveAll(tail);
    NeedNonEmpty(subs[0]);
    NeedNonEmpty(subs[1]);
    assert NeedAll(tail, n - 1) == Need(tail[0]) + NeedAll(tail[1..], n - 2);
  }

  /** If the first match of x is also the only match of y, the gate falls short. */
  lemma {:induction false} Starved<P>(n: int, subs: seq<Evaluator<P>>, sat: seq<set<P>>)
    requires n >= 2 && Live(Gate(n, subs)) && Distinct(LeavesAll(subs))
    requires OnlyNeeded(LeavesAll(subs), NeedAll(subs, n), sat)
    requires Need(subs[0]) != [] && Need(subs[1]) != []
    requires sat != [] && Need(subs[0])[0] in sat[0]
    requires forall i :: 1 <= i < |sat| ==> Need(subs[1])[0] !in sat[i]
    ensures !Accepts(Gate(n, subs), sat)
  {
    var tail, unused := subs[1..], AllUnused(|sat|);
    NeedOfTwo(n, subs);
    OnlyNeededSplit(subs, n, sat);
    var first := Run(subs[0], sat, unused);
    if first.0 {
      FirstNeedTaken(subs[0], sat, unused);
      assert first.1[0];
      StarvedTail(n - 1, tail, sat, first.1);
    } else {
      AtMost(tail, n - 1, sat, unused);
    }
    assert RunAll(subs, sat, unused).0 < n;
  }

  lemma {:induction false} StarvedTail<P>(n: int, subs: seq<Evaluator<P>>, sat: seq<set<P>>, used: seq<bool>)
    requires |used| == |sat|
    requires n >= 1 && subs != [] && LiveAll(subs) && Distinct(LeavesAll(subs))
    requires OnlyNeeded(LeavesAll(subs), NeedAll(subs, n), sat)
    requires Need(subs[0]) != [] && forall i :: 0 <= i < |sat| && !used[i] ==> Need(subs[0])[0] !in sat[i]
    ensures RunAll(subs, sat, used).0 < n
  {
    OnlyNeededSplit(subs, n, sat);
    FirstNeedMissing(subs[0], sat, used);
    AtMost(subs[1..], n - 1, sat, used);
  }

  /** With the ambiguous signature first, it goes to x and y is left without one. */
  lemma GateStarves<P>(n: int, subs: seq<Evaluator<P>>)
    requires n >= 2 && Live(Gate(n, subs)) && Distinct(LeavesAll(subs))
    requires 0 < |Need(subs[0])| < |NeedAll(subs, n)|
    ensures !Accepts(Gate(n, subs), Contended(NeedAll(subs, n), |Need(subs[0])|, true))
  {
    var needed, k := NeedAll(subs, n), |Need(subs[0])|;
    var sat := Contended(needed, k, true);
    NeedOfTwo(n, subs);
    NeedDistinctAll(subs, n);
    assert needed[0] != needed[k];
    ContendedOnlyNeeded(LeavesAll(subs), needed, k, true);
    Starved(n, subs, sat);
  }

  lemma {:induction false} NeedDistinct<P>(ev: Evaluator<P>)
    requires Distinct(Leaves(ev))
    ensures Distinct(Need(ev))
    decreases ev, 1
  {
    match ev {
      case Leaf(_) =>
      case Gate(n, subs) => NeedDistinctAll(subs, n);
    }
  }

  lemma {:induction false} NeedDistinctAll<P>(subs: seq<Evaluator<P>>, n: int)
    requires Distinct(LeavesAll(subs))
    ensures Distinct(NeedAll(subs, n))
    decreases subs, 0
  {
    if n > 0 && subs != [] {
      DistinctSplit(Leaves(subs[0]), LeavesAll(subs[1..]));
      NeedDistinct(subs[0]);
      NeedDistinctAll(subs[1..], n - 1);
      var a, b := Need(subs[0]), NeedAll(subs[1..], n - 1);
      forall i, j | 0 <= i < |a| && 0 <= j < |b| ensures a[i] != b[j] {
        NeedAmongLeaves(subs[0], a[i]);
        NeedAmongLeavesAll(subs[1..], n - 1, b[j]);
      }
    }
  }

  /** With the ambiguous signature second, x takes the other one and the gate is met. */
  lemma GateFed<P>(n: int, subs: seq<Evaluator<P>>)
    requires n >= 2 && Live(Gate(n, subs)) && Distinct(LeavesAll(subs))
    requires 0 < |Need(subs[0])| < |NeedAll(subs, n)|
    ensures Accepts(Gate(n, subs), Contended(NeedAll(subs, n), |Need(subs[0])|, false))
  {
    var needed, k := NeedAll(subs, n), |Need(subs[0])|;
    var sat, at := Contended(needed, k, false), ContendedAt(|needed|, k, false);
    ContendedOnlyNeeded(LeavesAll(subs), needed, k, false);
    ContendedAssigns(needed, k, false);
    NeedDistinctAll(subs, n);
    forall j, i | 0 <= j < |at| && 0 <= i < at[j] ensures needed[j] !in sat[i] {
      if j != 0 && j != k {
        assert needed[j] != needed[0] && needed[j] != needed[k];
        if i >= 2 { assert needed[i - 2] != needed[j]; }
      } else {
        assert j == k && i == 0 && needed[0] != needed[k];
      }
    }
    GreedyFollowsAll(subs, n, at, sat, AllUnused(|sat|));
  }

  /** The signatures satisfy none but the given leaves. */
  ghost predicate Within<P>(sat: seq<set<P>>, leaves: seq<P>) {
    forall s, p :: s in sat && p in s ==> p in leaves
  }

  /** Signatures on which ev goes wrong, a reordering on which it does not, and evidence it overlooks. */
  ghost predicate GoesWrong<P>(ev: Evaluator<P>, sat: seq<set<P>>, shuffled: seq<set<P>>, w: Witness) {
    && multiset(sat) == multiset(shuffled)
    && Proves(w, ev, sat) && Distinct(Positions(w))
    && !Accepts(ev, sat) && Accepts(ev, shuffled)
    && Within(sat, Leaves(ev))
  }

  lemma GateGoesWrong<P>(n: int, subs: seq<Evaluator<P>>)
    returns (sat: seq<set<P>>, shuffled: seq<set<P>>, w: Witness)
    requires n >= 2 && Live(Gate(n, subs)) && Distinct(LeavesAll(subs))
    ensures GoesWrong(Gate(n, subs), sat, shuffled, w)
  {
    var ev := Gate(n, subs);
    var needed, k := Need(ev), |Need(subs[0])|;
    NeedOfTwo(n, subs);
    sat, shuffled := Contended(needed, k, true), Contended(needed, k, false);
    GateStarves(n, subs);
    GateFed(n, subs);
    ContendedAssigns(needed, k, true);
    w := Canonical(ev, ContendedAt(|needed|, k, true), sat);
    ContendedShuffled(needed, k);
    forall s, p | s in sat && p in s ensures p in Leaves(ev) {
      assert Present(p, sat);
      ContendedOnlyNeeded([p], needed, k, true);
      NeedAmongLeaves(ev, p);
    }
  }

  lemma ContendedShuffled<P>(needed: seq<P>, k: nat)
    requires 0 < k < |needed|
    ensures multiset(Contended(needed, k, true)) == multiset(Contended(needed, k, false))
  {
    var sat, shuffled := Contended(needed, k, true), Contended(needed, k, false);
    assert sat == [sat[0]] + [sat[1]] + sat[2..];
    assert shuffled == [sat[1]] + [sat[0]] + sat[2..];
  }

  lemma {:induction false} GreedyGoesWrong<P>(ev: Evaluator<P>)
    returns (sat: seq<set<P>>, shuffled: seq<set<P>>, w: Witness)
    requires Live(ev) && Distinct(Leaves(ev)) && !SingleThreshold(ev)
    ensures GoesWrong(ev, sat, shuffled, w)
    decreases ev, 1
  {
    match ev {
      case Gate(n, subs) =>
        if n >= 2 {
          sat, shuffled, w := GateGoesWrong(n, subs);
        } else {
          var kids;
          sat, shuffled, kids := GreedyGoesWrongAll(subs);
          w := Chosen(kids);
        }
    }
  }

  lemma {:induction false} GreedyGoesWrongAll<P>(subs: seq<Evaluator<P>>)
    returns (sat: seq<set<P>>, shuffled: seq<set<P>>, kids: seq<Witness>)
    requires LiveAll(subs) && Distinct(LeavesAll(subs)) && !SingleThresholdAll(subs)
    ensures multiset(sat) == multiset(shuffled)
    ensures ProvesAll(kids, subs, sat) && CountChosen(kids) == 1 && Distinct(PositionsAll(kids))
    ensures RunAll(subs, sat, AllUnused(|sat|)).0 == 0
    ensures |shuffled| == |sat| && RunAll(subs, shuffled, AllUnused(|sat|)).0 >= 1
    ensures Within(sat, LeavesAll(subs))
    decreases subs, 0
  {
    DistinctSplit(Leaves(subs[0]), LeavesAll(subs[1..]));
    if !SingleThreshold(subs[0]) {
      var w;
      sat, shuffled, w := GreedyGoesWrong(subs[0]);
      SameLength(sat, shuffled);
      kids := [w] + NoneChosen(|subs| - 1);
      NoneChosenProves(subs[1..], sat);
      assert kids[1..] == NoneChosen(|subs| - 1);
      assert Positions(w) + [] == Positions(w);
      AbsentReject(subs[1..], sat, AllUnused(|sat|));
    } else {
      var rest;
      sat, shuffled, rest := GreedyGoesWrongAll(subs[1..]);
      kids := [Skipped] + rest;
      assert kids[1..] == rest && [] + PositionsAll(rest) == PositionsAll(rest);
      AbsentLeavesReject(subs[0], sat, AllUnused(|sat|));
      SamePresence(sat, shuffled);
      AbsentLeavesReject(subs[0], shuffled, AllUnused(|sat|));
    }
  }

  lemma SameLength<T>(a: seq<T>, b: seq<T>)
    requires multiset(a) == multiset(b)
    ensures |a| == |b|
  {
    assert |multiset(a)| == |a| && |multiset(b)| == |b|;
  }

  lemma SamePresence<P>(a: seq<set<P>>, b: seq<set<P>>)
    requires multiset(a) == multiset(b)
    ensures forall s :: s in a <==> s in b
  {
    assert forall s :: s in a <==> s in multiset(a);
    assert forall s :: s in b <==> s in multiset(b);
  }

  function NoneChosen(n: nat): (kids: seq<Witness>)
    ensures |kids| == n && CountChosen(kids) == 0 && PositionsAll(kids) == []
  {
    if n == 0 then [] else
      var rest := NoneChosen(n - 1);
      assert ([Skipped] + rest)[1..] == rest;
      [Skipped] + rest
  }

  lemma {:induction false} NoneChosenProves<P>(subs: seq<Evaluator<P>>, sat: seq<set<P>>)
    ensures ProvesAll(NoneChosen(|subs|), subs, sat)
  {
    if subs != [] {
      NoneChosenProves(subs[1..], sat);
      assert NoneChosen(|subs|)[1..] == NoneChosen(|subs| - 1);
    }
  }

  lemma AbsentReject<P>(subs: seq<Evaluator<P>>, sat: seq<set<P>>, used: seq<bool>)
    requires |used| == |sat|
    requires LiveAll(subs) && OnlyNeeded(LeavesAll(subs), [], sat)
    ensures RunAll(subs, sat, used).0 == 0
  {
    AtMost(subs, 0, sat, used);
  }

  // ------------------------------------------------------------- the theorems

  ghost predicate Complete<P(!new)>(ev: Evaluator<P>) {
    forall sat :: Accepts(ev, sat) <==> Satisfiable(ev, sat)
  }

  ghost predicate ReadsAsBoolean<P(!new)>(ev: Evaluator<P>) {
    forall sat :: Accepts(ev, sat) <==> Holds(ev, sat)
  }

  ghost predicate OrderIndependent<P(!new)>(ev: Evaluator<P>) {
    forall sat, shuffled :: multiset(sat) == multiset(shuffled) ==> (Accepts(ev, sat) <==> Accepts(ev, shuffled))
  }

  /** More signatures, in whatever order, do not lose acceptance. */
  ghost predicate Monotone<P(!new)>(ev: Evaluator<P>) {
    forall sat, more :: multiset(sat) <= multiset(more) && Accepts(ev, sat) ==> Accepts(ev, more)
  }

  lemma SatisfiableHolds<P>(ev: Evaluator<P>, sat: seq<set<P>>)
    ensures Accepts(ev, sat) ==> Satisfiable(ev, sat)
    ensures Satisfiable(ev, sat) ==> Holds(ev, sat)
  {
    if Accepts(ev, sat) { var w := Sound(ev, sat, AllUnused(|sat|)); }
    if Satisfiable(ev, sat) {
      var w :| Proves(w, ev, sat) && Distinct(Positions(w));
      EvidenceHolds(w, ev, sat);
    }
  }

  lemma SingleThresholdMonotone<P>(ev: Evaluator<P>, sat: seq<set<P>>, more: seq<set<P>>)
    requires SingleThreshold(ev) && multiset(sat) <= multiset(more)
    ensures Accepts(ev, sat) ==> Accepts(ev, more)
  {
    SingleThresholdExact(ev, sat);
    SingleThresholdExact(ev, more);
    forall s | s in sat ensures s in more { assert s in multiset(sat) && s in multiset(more); }
    HoldsMonotone(ev, sat, more);
  }

  /** Single-threshold policies have every good property, on all signatures and with no condition on the leaves. */
  lemma SingleThresholdIsExact<P(!new)>(ev: Evaluator<P>)
    requires SingleThreshold(ev)
    ensures Complete(ev) && ReadsAsBoolean(ev) && OrderIndependent(ev) && Monotone(ev)
  {
    forall sat ensures Accepts(ev, sat) <==> Satisfiable(ev, sat)
               ensures Accepts(ev, sat) <==> Holds(ev, sat) {
      SatisfiableHolds(ev, sat);
      SingleThresholdExact(ev, sat);
    }
    forall sat, more | multiset(sat) <= multiset(more) && Accepts(ev, sat) ensures Accepts(ev, more) {
      SingleThresholdMonotone(ev, sat, more);
    }
    forall sat, shuffled | multiset(sat) == multiset(shuffled) ensures Accepts(ev, sat) <==> Accepts(ev, shuffled) {
      SingleThresholdMonotone(ev, sat, shuffled);
      SingleThresholdMonotone(ev, shuffled, sat);
    }
  }

  /**
   * For policies with meetable gates and different leaves, each of completeness, the Boolean
   * reading, order independence and monotonicity holds on all signature sets if and only if no
   * gate asks for more than one sub-policy.
   */
  lemma ExactOnAllSignaturesIff<P(!new)>(ev: Evaluator<P>)
    requires Live(ev) && Distinct(Leaves(ev))
    ensures Complete(ev) <==> SingleThreshold(ev)
    ensures ReadsAsBoolean(ev) <==> SingleThreshold(ev)
    ensures OrderIndependent(ev) <==> SingleThreshold(ev)
    ensures Monotone(ev) <==> SingleThreshold(ev)
  {
    if SingleThreshold(ev) {
      SingleThresholdIsExact(ev);
    } else {
      var sat, shuffled, w := GreedyGoesWrong(ev);
      assert Satisfiable(ev, sat);
      SatisfiableHolds(ev, sat);
    }
  }

  /**
   * Different leaves are not needed for monotonicity to fail: the policy "two of: (three of a, a,
   * b), a, a" accepts two signatures of a and rejects the same two with one of b appended.
   */
  lemma RepeatedLeavesNotMonotone()
    ensures var a, b := Leaf('a'), Leaf('b');
            var ev := Gate(2, [Gate(3, [a, a, b]), a, a]);
            && Accepts(ev, [{'a'}, {'a'}])
            && !Accepts(ev, [{'a'}, {'a'}, {'b'}])
  {
    var a, b := Leaf('a'), Leaf('b');
    var two: seq<set<char>> := [{'a'}, {'a'}];
    var inner, outer := [a, a, b], [Gate(3, [a, a, b]), a, a];
    assert inner[1..] == [a, b] && [a, b][1..] == [b] && [b][1..] == [];
    assert outer[1..] == [a, a] && [a, a][1..] == [a] && [a][1..] == [];
    assert [false, false][0 := true] == [true, false] && [true, false][1 := true] == [true, true];
    assert Run(a, two, [false, false]) == (true, [true, false]);
    assert Run(a, two, [true, false]) == (true, [true, true]);
    assert Run(b, two, [true, true]) == (false, [true, true]);
    assert RunAll([b], two, [true, true]) == (0, [true, true]);
    assert RunAll([a, b], two, [true, false]) == (1, [true, true]);
    assert RunAll(inner, two, [false, false]) == (2, [true, true]);
    assert RunAll([a], two, [true, false]) == (1, [true, true]);
    assert RunAll([a, a], two, [false, false]) == (2, [true, true]);
    assert Run(outer[0], two, [false, false]) == (false, [true, true]);
    assert RunAll(outer, two, [false, false]) == (2, [true, true]);
    assert AllUnused(2) == [false, false];
    var three: seq<set<char>> := [{'a'}, {'a'}, {'b'}];
    assert AllUnused(3) == [false, false, false];
    assert [false, false, false][0 := true] == [true, false, false];
    assert [true, false, false][1 := true] == [true, true, false];
    assert [true, true, false][2 := true] == [true, true, true];
    assert Run(a, three, [false, false, false]) == (true, [true, false, false]);
    assert Run(a, three, [true, false, false]) == (true, [true, true, false]);
    assert Run(b, three, [true, true, false]) == (true, [true, true, true]);
    assert RunAll([b], three, [true, true, false]) == (1, [true, true, true]);
    assert RunAll([a, b], three, [true, false, false]) == (2, [true, true, true]);
    assert RunAll(inner, three, [false, false, false]) == (3, [true, true, true]);
    assert Run(a, three, [true, true, true]) == (false, [true, true, true]);
    assert RunAll([a], three, [true, true, true]) == (0, [true, true, true]);
    assert RunAll([a, a], three, [true, true, true]) == (0, [true, true, true]);
    assert Run(outer[0], three, [false, false, false]) == (true, [true, true, true]);
    assert RunAll(outer, three, [false, false, false]) == (1, [true, true, true]);
  }
}
