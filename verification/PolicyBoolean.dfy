/**
 * When does the greedy evaluator read a policy as a plain Boolean formula?  Here leaves may be
 * repeated and gates may ask for more than they have; gates ask for at least one sub-policy.
 */
module PolicyBoolean {
  import opened Wrappers
  import opened PolicyEvaluation
  import opened PolicyExactness

  /** No gate is met for free. */
  predicate Demanding<P>(ev: Evaluator<P>)
    decreases ev, 1
  {
    match ev
    case Leaf(_) => true
    case Gate(n, subs) => n >= 1 && DemandingAll(subs)
  }

  predicate DemandingAll<P>(subs: seq<Evaluator<P>>)
    decreases subs, 0
  {
    subs == [] || (Demanding(subs[0]) && DemandingAll(subs[1..]))
  }

  lemma {:induction false} LiveDemands<P>(ev: Evaluator<P>)
    requires Live(ev)
    ensures Demanding(ev)
    decreases ev, 1
  {
    match ev {
      case Leaf(_) =>
      case Gate(_, subs) => LiveDemandsAll(subs);
    }
  }

  lemma {:induction false} LiveDemandsAll<P>(subs: seq<Evaluator<P>>)
    requires LiveAll(subs)
    ensures DemandingAll(subs)
    decreases subs, 0
  {
    if subs != [] {
      LiveDemands(subs[0]);
      LiveDemandsAll(subs[1..]);
    }
  }

  /** The leaves that alone meet the policy: all gates above them ask for one sub-policy. */
  function Alone<P>(ev: Evaluator<P>): seq<P>
    decreases ev, 1
  {
    match ev
    case Leaf(p) => [p]
    case Gate(n, subs) => if n <= 1 then AloneAll(subs) else []
  }

  function AloneAll<P>(subs: seq<Evaluator<P>>): seq<P>
    decreases subs, 0
  {
    if subs == [] then [] else Alone(subs[0]) + AloneAll(subs[1..])
  }

  // ---------------------------------------------- one such leaf is accepted

  lemma {:induction false} AloneAccepted<P>(ev: Evaluator<P>, p: P, sat: seq<set<P>>)
    requires p in Alone(ev) && Present(p, sat)
    ensures Accepts(ev, sat)
    decreases ev, 1
  {
    match ev {
      case Leaf(_) =>
      case Gate(n, subs) => AloneCounted(subs, p, sat);
    }
  }

  /** Until some sub-policy is accepted, no position is used. */
  lemma {:induction false} AloneCounted<P>(subs: seq<Evaluator<P>>, p: P, sat: seq<set<P>>)
    requires p in AloneAll(subs) && Present(p, sat)
    ensures RunAll(subs, sat, AllUnused(|sat|)).0 >= 1
    decreases subs, 0
  {
    if p in Alone(subs[0]) { AloneAccepted(subs[0], p, sat); }
    if !Run(subs[0], sat, AllUnused(|sat|)).0 { AloneCounted(subs[1..], p, sat); }
  }

  // --------------------------------------- one signature needs such a leaf

  lemma {:induction false} EvidenceTakesPosition<P>(w: Witness, ev: Evaluator<P>, sat: seq<set<P>>)
    requires Demanding(ev) && Proves(w, ev, sat)
    ensures |Positions(w)| >= 1
    decreases ev, 1
  {
    match ev {
      case Leaf(_) =>
      case Gate(n, subs) => EvidenceTakesPositions(w.kids, subs, sat);
    }
  }

  lemma {:induction false} EvidenceTakesPositions<P>(kids: seq<Witness>, subs: seq<Evaluator<P>>, sat: seq<set<P>>)
    requires DemandingAll(subs) && ProvesAll(kids, subs, sat)
    ensures |PositionsAll(kids)| >= CountChosen(kids)
    decreases subs, 0
  {
    if subs != [] {
      if !kids[0].Skipped? { EvidenceTakesPosition(kids[0], subs[0], sat); }
      EvidenceTakesPositions(kids[1..], subs[1..], sat);
    }
  }

  /** Evidence on a single position rests on a leaf that alone meets the policy. */
  lemma {:induction false} SinglePosition<P>(w: Witness, ev: Evaluator<P>, sat: seq<set<P>>) returns (p: P)
    requires Demanding(ev) && Proves(w, ev, sat) && |Positions(w)| <= 1
    ensures p in Alone(ev) && Present(p, sat)
    decreases ev, 1
  {
    match ev {
      case Leaf(q) =>
        p := q;
        assert sat[w.pos] in sat;
      case Gate(n, subs) =>
        EvidenceTakesPositions(w.kids, subs, sat);
        p := SinglePositionAmong(w.kids, subs, sat);
    }
  }

  lemma {:induction false} SinglePositionAmong<P>(kids: seq<Witness>, subs: seq<Evaluator<P>>, sat: seq<set<P>>) returns (p: P)
    requires DemandingAll(subs) && ProvesAll(kids, subs, sat)
    requires CountChosen(kids) >= 1 && |PositionsAll(kids)| <= 1
    ensures p in AloneAll(subs) && Present(p, sat)
    decreases subs, 0
  {
    if kids[0].Skipped? {
      p := SinglePositionAmong(kids[1..], subs[1..], sat);
    } else {
      p := SinglePosition(kids[0], subs[0], sat);
    }
  }

  // ------------------------------------------------------------ the theorems

  /** The principals of a policy that do not alone meet it. */
  ghost function NotAlone<P>(ev: Evaluator<P>): set<P> {
    set p | p in Leaves(ev) && p !in Alone(ev)
  }

  /** If the policy is false without its sufficient principals, acceptance is its Boolean reading. */
  lemma BooleanIfAlone<P(!new)>(ev: Evaluator<P>)
    requires !Holds(ev, [NotAlone(ev)])
    ensures ReadsAsBoolean(ev)
  {
    forall sat ensures Accepts(ev, sat) <==> Holds(ev, sat) {
      AcceptanceImpliesHolds(ev, sat, AllUnused(|sat|));
      if p :| p in Alone(ev) && Present(p, sat) {
        AloneAccepted(ev, p, sat);
      } else {
        forall p | p in Leaves(ev) && Present(p, sat) ensures Present(p, [NotAlone(ev)]) {
          assert NotAlone(ev) in [NotAlone(ev)];
        }
        HoldsByPresence(ev, sat, [NotAlone(ev)]);
      }
    }
  }

  /**
   * With no gate met for free, repeated principals or not: acceptance is the Boolean reading on
   * every list of signatures if and only if the policy is false when none of the principals that
   * alone meet it is present.
   */
  lemma ReadsAsBooleanIff<P(!new)>(ev: Evaluator<P>)
    requires Demanding(ev)
    ensures ReadsAsBoolean(ev) <==> !Holds(ev, [NotAlone(ev)])
  {
    if !Holds(ev, [NotAlone(ev)]) {
      BooleanIfAlone(ev);
    } else if Accepts(ev, [NotAlone(ev)]) {
      var sat := [NotAlone(ev)];
      var w := Sound(ev, sat, AllUnused(1));
      DistinctBelow(Positions(w), 1);
      var p := SinglePosition(w, ev, sat);
    }
  }

  /** A Boolean reading brings the rest with it, for every tree. */
  lemma BooleanBringsRest<P(!new)>(ev: Evaluator<P>)
    requires ReadsAsBoolean(ev)
    ensures Complete(ev) && OrderIndependent(ev) && Monotone(ev)
  {
    forall sat ensures Accepts(ev, sat) <==> Satisfiable(ev, sat) { SatisfiableHolds(ev, sat); }
    forall sat, more | multiset(sat) <= multiset(more) && Accepts(ev, sat) ensures Accepts(ev, more) {
      forall s | s in sat ensures s in more { assert s in multiset(sat) && s in multiset(more); }
      HoldsMonotone(ev, sat, more);
    }
  }

  /**
   * Two signatures of the same principal: complete although a gate asks for two, so that
   * repeated principals do escape the condition on distinct ones.
   */
  lemma TwoOfTheSame<P(!new)>(p: P)
    ensures var ev := Gate(2, [Leaf(p), Leaf(p)]);
            Live(ev) && Complete(ev) && !SingleThreshold(ev) && !ReadsAsBoolean(ev)
  {
    var leaf := Leaf(p);
    var ev := Gate(2, [leaf, leaf]);
    PairShape(leaf, leaf);
    forall sat ensures Accepts(ev, sat) <==> Satisfiable(ev, sat) {
      SatisfiableHolds(ev, sat);
      if w :| Proves(w, ev, sat) && Distinct(Positions(w)) { TwoPositions(p, sat, w); }
    }
    ReadsAsBooleanIff(ev);
    LeavesOfPair(leaf, leaf);
    assert p in Leaves(ev) && NotAlone(ev) in [NotAlone(ev)];
    HoldsOfPair(leaf, leaf, [NotAlone(ev)]);
  }

  lemma PairShape<P>(x: Evaluator<P>, y: Evaluator<P>)
    ensures LiveAll([x, y]) <==> Live(x) && Live(y)
    ensures DemandingAll([x, y]) <==> Demanding(x) && Demanding(y)
  {
    assert [x, y][1..] == [y];
    assert LiveAll<P>([]) && DemandingAll<P>([]) && [y][1..] == [];
    assert LiveAll([y]) <==> Live(y);
    assert DemandingAll([y]) <==> Demanding(y);
  }

  lemma HoldsOfPair<P>(x: Evaluator<P>, y: Evaluator<P>, sat: seq<set<P>>)
    ensures CountHolding([x, y], sat) == (if Holds(x, sat) then 1 else 0) + (if Holds(y, sat) then 1 else 0)
  {
    assert [x, y][1..] == [y];
    assert CountHolding([y], sat) == (if Holds(y, sat) then 1 else 0) + CountHolding([], sat);
  }

  lemma TwoPositions<P>(p: P, sat: seq<set<P>>, w: Witness)
    requires Proves(w, Gate(2, [Leaf(p), Leaf(p)]), sat) && Distinct(Positions(w))
    ensures Accepts(Gate(2, [Leaf(p), Leaf(p)]), sat)
  {
    var leaf, x, y := Leaf(p), w.kids[0], w.kids[1];
    assert w.kids == [x, y] && [x, y][1..] == [y] && [y][1..] == [] && [leaf, leaf][1..] == [leaf];
    assert ProvesAll([y], [leaf], sat);
    assert CountChosen([y]) == if y.Skipped? then 0 else 1;
    assert CountChosen([x, y]) == (if x.Skipped? then 0 else 1) + CountChosen([y]);
    assert Proves(x, leaf, sat) && Proves(y, leaf, sat);
    assert PositionsAll([y]) == Positions(y) + PositionsAll([]);
    assert PositionsAll([x, y]) == Positions(x) + PositionsAll([y]);
    assert Positions(w) == [x.pos, y.pos];
    assert [x.pos, y.pos][0] != [x.pos, y.pos][1];
    TakesTwo(p, sat, x.pos, y.pos);
  }

  lemma TakesTwo<P>(p: P, sat: seq<set<P>>, i: nat, j: nat)
    requires i < |sat| && j < |sat| && i != j && p in sat[i] && p in sat[j]
    ensures Accepts(Gate(2, [Leaf(p), Leaf(p)]), sat)
  {
    var leaf, used := Leaf(p), AllUnused(|sat|);
    var k := FirstUnused(p, sat, used, 0);
    assert k < |sat|;
    var other := if k == i then j else i;
    assert !used[k := true][other] && p in sat[other];
    RunAllOfPair(leaf, leaf, sat, used);
  }
}
