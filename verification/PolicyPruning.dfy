/**
 * Gates that can never be met, because they ask for more sub-policies than can be met beneath
 * them, may be cut out of a policy.  With that, the condition for exactness extends from
 * policies all of whose gates can be met to all policies with distinct leaves in which no gate
 * is met for free.
 */
module PolicyPruning {
  import opened Wrappers
  import opened PolicyEvaluation
  import opened PolicyExactness
  import opened PolicyBoolean

  /** No signatures ever meet the policy. */
  predicate Dead<P>(ev: Evaluator<P>)
    decreases ev, 1
  {
    match ev
    case Leaf(_) => false
    case Gate(n, subs) => n > CountLiving(subs)
  }

  function CountLiving<P>(subs: seq<Evaluator<P>>): nat
    decreases subs, 0
  {
    if subs == [] then 0 else (if Dead(subs[0]) then 0 else 1) + CountLiving(subs[1..])
  }

  /** The policy without its dead sub-policies. */
  function Prune<P>(ev: Evaluator<P>): Evaluator<P>
    decreases ev, 1
  {
    match ev
    case Leaf(p) => ev
    case Gate(n, subs) => Gate(n, PruneAll(subs))
  }

  function PruneAll<P>(subs: seq<Evaluator<P>>): (r: seq<Evaluator<P>>)
    ensures |r| == CountLiving(subs)
    decreases subs, 0
  {
    if subs == [] then []
    else if Dead(subs[0]) then PruneAll(subs[1..])
    else [Prune(subs[0])] + PruneAll(subs[1..])
  }

  // ------------------------------------------------- pruning changes nothing

  lemma {:induction false} PruneRun<P>(ev: Evaluator<P>, sat: seq<set<P>>, used: seq<bool>)
    requires |used| == |sat|
    ensures Dead(ev) ==> !Run(ev, sat, used).0
    ensures Run(Prune(ev), sat, used) == Run(ev, sat, used)
    decreases ev, 1
  {
    match ev {
      case Leaf(_) =>
      case Gate(_, subs) => PruneRunAll(subs, sat, used);
    }
  }

  lemma {:induction false} PruneRunAll<P>(subs: seq<Evaluator<P>>, sat: seq<set<P>>, used: seq<bool>)
    requires |used| == |sat|
    ensures RunAll(PruneAll(subs), sat, used) == RunAll(subs, sat, used)
    ensures RunAll(subs, sat, used).0 <= CountLiving(subs)
    decreases subs, 0
  {
    if subs != [] {
      PruneRun(subs[0], sat, used);
      PruneRunAll(subs[1..], sat, Committed(subs[0], sat, used));
      if !Dead(subs[0]) { assert PruneAll(subs)[1..] == PruneAll(subs[1..]); }
    }
  }

  lemma {:induction false} PruneHolds<P>(ev: Evaluator<P>, sat: seq<set<P>>)
    ensures Dead(ev) ==> !Holds(ev, sat)
    ensures Holds(Prune(ev), sat) <==> Holds(ev, sat)
    decreases ev, 1
  {
    match ev {
      case Leaf(_) =>
      case Gate(_, subs) => PruneHoldsAll(subs, sat);
    }
  }

  lemma {:induction false} PruneHoldsAll<P>(subs: seq<Evaluator<P>>, sat: seq<set<P>>)
    ensures CountHolding(PruneAll(subs), sat) == CountHolding(subs, sat) <= CountLiving(subs)
    decreases subs, 0
  {
    if subs != [] {
      PruneHolds(subs[0], sat);
      PruneHoldsAll(subs[1..], sat);
      if !Dead(subs[0]) { assert PruneAll(subs)[1..] == PruneAll(subs[1..]); }
    }
  }

  /** Evidence for the policy is, on the same positions, evidence for the pruned one. */
  lemma {:induction false} Down<P>(w: Witness, ev: Evaluator<P>, sat: seq<set<P>>) returns (v: Witness)
    requires Proves(w, ev, sat)
    ensures Proves(v, Prune(ev), sat) && Positions(v) == Positions(w)
    decreases ev, 1
  {
    match ev {
      case Leaf(_) => v := w;
      case Gate(_, subs) =>
        var kids := DownAll(w.kids, subs, sat);
        v := Chosen(kids);
    }
  }

  lemma {:induction false} DownAll<P>(kids: seq<Witness>, subs: seq<Evaluator<P>>, sat: seq<set<P>>) returns (r: seq<Witness>)
    requires ProvesAll(kids, subs, sat)
    ensures ProvesAll(r, PruneAll(subs), sat)
    ensures CountChosen(r) == CountChosen(kids) && PositionsAll(r) == PositionsAll(kids)
    decreases subs, 0
  {
    if subs == [] {
      r := [];
    } else {
      var rest := DownAll(kids[1..], subs[1..], sat);
      if Dead(subs[0]) {
        r := rest;
        if !kids[0].Skipped? {
          EvidenceHolds(kids[0], subs[0], sat);
          PruneHolds(subs[0], sat);
        }
      } else {
        var first := kids[0];
        if !first.Skipped? { first := Down(first, subs[0], sat); }
        r := [first] + rest;
        assert r[1..] == rest && PruneAll(subs)[1..] == PruneAll(subs[1..]);
        assert first.Skipped? <==> kids[0].Skipped?;
      }
    }
  }

  /** And conversely. */
  lemma {:induction false} Up<P>(v: Witness, ev: Evaluator<P>, sat: seq<set<P>>) returns (w: Witness)
    requires Proves(v, Prune(ev), sat)
    ensures Proves(w, ev, sat) && Positions(w) == Positions(v)
    decreases ev, 1
  {
    match ev {
      case Leaf(_) => w := v;
      case Gate(_, subs) =>
        var kids := UpAll(v.kids, subs, sat);
        w := Chosen(kids);
    }
  }

  lemma {:induction false} UpAll<P>(kids: seq<Witness>, subs: seq<Evaluator<P>>, sat: seq<set<P>>) returns (r: seq<Witness>)
    requires ProvesAll(kids, PruneAll(subs), sat)
    ensures ProvesAll(r, subs, sat)
    ensures CountChosen(r) == CountChosen(kids) && PositionsAll(r) == PositionsAll(kids)
    decreases subs, 0
  {
    if subs == [] {
      r := [];
    } else if Dead(subs[0]) {
      var rest := UpAll(kids, subs[1..], sat);
      r := [Skipped] + rest;
      assert r[1..] == rest;
    } else {
      assert PruneAll(subs)[1..] == PruneAll(subs[1..]);
      var rest := UpAll(kids[1..], subs[1..], sat);
      var first := kids[0];
      if !first.Skipped? { first := Up(first, subs[0], sat); }
      r := [first] + rest;
      assert r[1..] == rest;
      assert first.Skipped? <==> kids[0].Skipped?;
    }
  }

  lemma PruneSatisfiable<P>(ev: Evaluator<P>, sat: seq<set<P>>)
    ensures Satisfiable(Prune(ev), sat) <==> Satisfiable(ev, sat)
  {
    if w :| Proves(w, ev, sat) && Distinct(Positions(w)) { var v := Down(w, ev, sat); }
    if v :| Proves(v, Prune(ev), sat) && Distinct(Positions(v)) { var w := Up(v, ev, sat); }
  }

  // ---------------------------------------------- the pruned policy is live

  lemma {:induction false} PruneLive<P>(ev: Evaluator<P>)
    requires Demanding(ev) && !Dead(ev)
    ensures Live(Prune(ev))
    decreases ev, 1
  {
    match ev {
      case Leaf(_) =>
      case Gate(_, subs) => PruneLiveAll(subs);
    }
  }

  lemma {:induction false} PruneLiveAll<P>(subs: seq<Evaluator<P>>)
    requires DemandingAll(subs)
    ensures LiveAll(PruneAll(subs))
    decreases subs, 0
  {
    if subs != [] {
      PruneLiveAll(subs[1..]);
      if !Dead(subs[0]) {
        PruneLive(subs[0]);
        assert PruneAll(subs)[1..] == PruneAll(subs[1..]);
      }
    }
  }

  lemma {:induction false} PruneLeaves<P>(ev: Evaluator<P>)
    ensures forall p :: p in Leaves(Prune(ev)) ==> p in Leaves(ev)
    ensures Distinct(Leaves(ev)) ==> Distinct(Leaves(Prune(ev)))
    decreases ev, 1
  {
    match ev {
      case Leaf(_) =>
      case Gate(_, subs) => PruneLeavesAll(subs);
    }
  }

  lemma {:induction false} PruneLeavesAll<P>(subs: seq<Evaluator<P>>)
    ensures forall p :: p in LeavesAll(PruneAll(subs)) ==> p in LeavesAll(subs)
    ensures Distinct(LeavesAll(subs)) ==> Distinct(LeavesAll(PruneAll(subs)))
    decreases subs, 0
  {
    if subs != [] {
      var a, b := Leaves(subs[0]), LeavesAll(subs[1..]);
      PruneLeaves(subs[0]);
      PruneLeavesAll(subs[1..]);
      if Distinct(a + b) { DistinctSplit(a, b); }
      if !Dead(subs[0]) {
        assert PruneAll(subs)[1..] == PruneAll(subs[1..]);
        if Distinct(a + b) { DistinctJoin(a, b, Leaves(Prune(subs[0])), LeavesAll(PruneAll(subs[1..]))); }
      }
    }
  }

  lemma DistinctJoin<T>(a: seq<T>, b: seq<T>, c: seq<T>, d: seq<T>)
    requires Distinct(c) && Distinct(d) && forall x :: x in a ==> x !in b
    requires (forall x :: x in c ==> x in a) && (forall x :: x in d ==> x in b)
    ensures Distinct(c + d)
  {
    forall i, j | 0 <= i < j < |c + d| ensures (c + d)[i] != (c + d)[j] {
      if i < |c| <= j { assert c[i] in c && d[j - |c|] in d; }
    }
  }

  // ------------------------------------------------------------- the theorem

  /**
   * For policies with distinct leaves in which no gate is met for free: completeness, the Boolean
   * reading, order independence and monotonicity each hold if and only if the policy can never be
   * met or, its dead parts aside, no gate asks for more than one sub-policy.
   */
  lemma ExactIff<P(!new)>(ev: Evaluator<P>)
    requires Demanding(ev) && Distinct(Leaves(ev))
    ensures var exact := Dead(ev) || SingleThreshold(Prune(ev));
            && (Complete(ev) <==> exact) && (ReadsAsBoolean(ev) <==> exact)
            && (OrderIndependent(ev) <==> exact) && (Monotone(ev) <==> exact)
  {
    var pruned := Prune(ev);
    forall sat ensures Accepts(pruned, sat) <==> Accepts(ev, sat) { PruneRun(ev, sat, AllUnused(|sat|)); }
    forall sat ensures Holds(pruned, sat) <==> Holds(ev, sat) { PruneHolds(ev, sat); }
    forall sat ensures Satisfiable(pruned, sat) <==> Satisfiable(ev, sat) { PruneSatisfiable(ev, sat); }
    if Dead(ev) {
      forall sat ensures !Accepts(ev, sat) && !Holds(ev, sat) {
        PruneRun(ev, sat, AllUnused(|sat|));
        PruneHolds(ev, sat);
      }
      BooleanBringsRest(ev);
    } else {
      PruneLive(ev);
      PruneLeaves(ev);
      ExactOnAllSignaturesIff(pruned);
    }
  }
}
