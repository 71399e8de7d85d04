/**
 * Policies over signatures that each speak for one organisation, as a membership service hands
 * them out.  Acceptance is then the Boolean reading whenever no gate that asks for two or more
 * names an organisation in two of its sub-policies, and for policies with distinct leaves only
 * then.  Organisations are given by a function on principals.
 */
module PolicyOrganisations {
  import opened Wrappers
  import opened PolicyEvaluation
  import opened PolicyExactness
  import opened PolicyBoolean
  import opened PolicyPruning

  /** Every signature satisfies principals of one organisation only. */
  ghost predicate OneOrg<P(!new), K>(sat: seq<set<P>>, org: P -> K) {
    forall s, p, q :: s in sat && p in s && q in s ==> org(p) == org(q)
  }

  ghost predicate NoShared<P, K>(a: seq<P>, b: seq<P>, org: P -> K) {
    forall p, q :: p in a && q in b ==> org(p) != org(q)
  }

  /** No two of the sub-policies name the same organisation. */
  ghost predicate Apart<P, K>(subs: seq<Evaluator<P>>, org: P -> K) {
    subs == [] || (NoShared(Leaves(subs[0]), LeavesAll(subs[1..]), org) && Apart(subs[1..], org))
  }

  /** Gates that ask for two or more name no organisation in two of their sub-policies. */
  ghost predicate Separated<P, K>(ev: Evaluator<P>, org: P -> K)
    decreases ev, 1
  {
    match ev
    case Leaf(_) => true
    case Gate(n, subs) => (n <= 1 || Apart(subs, org)) && SeparatedAll(subs, org)
  }

  ghost predicate SeparatedAll<P, K>(subs: seq<Evaluator<P>>, org: P -> K)
    decreases subs, 0
  {
    subs == [] || (Separated(subs[0], org) && SeparatedAll(subs[1..], org))
  }

  // ------------------------------------------------------ separation suffices

  /** Marks are set only where a leaf of the policy matches. */
  lemma {:induction false} MarksMatch<P>(ev: Evaluator<P>, sat: seq<set<P>>, used: seq<bool>)
    requires |used| == |sat|
    ensures MarksTouch(Leaves(ev), sat, used, Run(ev, sat, used).1)
    decreases ev, 1
  {
    match ev {
      case Leaf(p) => assert [p][0] == p;
      case Gate(_, subs) => MarksMatchAll(subs, sat, used);
    }
  }

  lemma {:induction false} MarksMatchAll<P>(subs: seq<Evaluator<P>>, sat: seq<set<P>>, used: seq<bool>)
    requires |used| == |sat|
    ensures MarksTouch(LeavesAll(subs), sat, used, RunAll(subs, sat, used).1)
    decreases subs, 0
  {
    if subs != [] {
      MarksMatch(subs[0], sat, used);
      MarksMatchAll(subs[1..], sat, Committed(subs[0], sat, used));
      forall i | 0 <= i < |sat| { TouchesConcat(Leaves(subs[0]), LeavesAll(subs[1..]), sat[i]); }
    }
  }

  /** The signature belongs to other organisations than the leaves. */
  ghost predicate Foreign<P(!new), K>(leaves: seq<P>, s: set<P>, org: P -> K) {
    forall p, q :: p in s && q in leaves ==> org(p) != org(q)
  }

  /** No used position belongs to an organisation of the leaves. */
  ghost predicate Free<P(!new), K>(leaves: seq<P>, sat: seq<set<P>>, used: seq<bool>, org: P -> K)
    requires |used| == |sat|
  {
    forall i :: 0 <= i < |sat| && used[i] ==> Foreign(leaves, sat[i], org)
  }

  lemma MatchedNotForeign<P(!new), K>(leaves: seq<P>, s: set<P>, org: P -> K, p: P)
    requires p in s && p in leaves
    ensures !Foreign(leaves, s, org)
  {
    assert org(p) == org(p);
  }

  lemma StaysFree<P(!new), K>(a: seq<P>, b: seq<P>, sat: seq<set<P>>, used: seq<bool>, after: seq<bool>, org: P -> K)
    requires |used| == |after| == |sat| && OneOrg(sat, org) && NoShared(a, b, org)
    requires Free(b, sat, used, org) && MarksTouch(a, sat, used, after)
    ensures Free(b, sat, after, org)
  {
    forall i | 0 <= i < |sat| && after[i] ensures Foreign(b, sat[i], org) {
      if !used[i] {
        assert Touches(a, sat[i]);
        var k :| 0 <= k < |a| && a[k] in sat[i];
        assert sat[i] in sat && a[k] in a;
      }
    }
  }

  lemma {:induction false} SeparatedRun<P(!new), K>(ev: Evaluator<P>, sat: seq<set<P>>, used: seq<bool>, org: P -> K)
    requires |used| == |sat| && OneOrg(sat, org)
    requires Separated(ev, org) && Free(Leaves(ev), sat, used, org)
    ensures Run(ev, sat, used).0 <==> Holds(ev, sat)
    decreases ev, 1
  {
    AcceptanceImpliesHolds(ev, sat, used);
    match ev {
      case Leaf(p) =>
        if Holds(ev, sat) {
          var s :| s in sat && p in s;
          var i :| 0 <= i < |sat| && sat[i] == s;
          assert Leaves(ev)[0] == p;
          MatchedNotForeign(Leaves(ev), sat[i], org, p);
        }
      case Gate(n, subs) =>
        if n <= 1 {
          if CountHolding(subs, sat) >= 1 { SomeAccepted(subs, sat, used, org); }
        } else {
          SeparatedRunAll(subs, sat, used, org);
        }
    }
  }

  lemma {:induction false} SeparatedRunAll<P(!new), K>(subs: seq<Evaluator<P>>, sat: seq<set<P>>, used: seq<bool>, org: P -> K)
    requires |used| == |sat| && OneOrg(sat, org)
    requires Apart(subs, org) && SeparatedAll(subs, org) && Free(LeavesAll(subs), sat, used, org)
    ensures RunAll(subs, sat, used).0 == CountHolding(subs, sat)
    decreases subs, 0
  {
    if subs != [] {
      SeparatedRun(subs[0], sat, used, org);
      MarksMatch(subs[0], sat, used);
      StaysFree(Leaves(subs[0]), LeavesAll(subs[1..]), sat, used, Committed(subs[0], sat, used), org);
      SeparatedRunAll(subs[1..], sat, Committed(subs[0], sat, used), org);
    }
  }

  /** Until some sub-policy is accepted, the marks stay as they were. */
  lemma {:induction false} SomeAccepted<P(!new), K>(subs: seq<Evaluator<P>>, sat: seq<set<P>>, used: seq<bool>, org: P -> K)
    requires |used| == |sat| && OneOrg(sat, org)
    requires SeparatedAll(subs, org) && Free(LeavesAll(subs), sat, used, org) && CountHolding(subs, sat) >= 1
    ensures RunAll(subs, sat, used).0 >= 1
    decreases subs, 0
  {
    SeparatedRun(subs[0], sat, used, org);
    if !Run(subs[0], sat, used).0 { SomeAccepted(subs[1..], sat, used, org); }
  }

  /** For every tree, repeated leaves and any thresholds included. */
  lemma SeparatedIsExact<P(!new), K>(ev: Evaluator<P>, sat: seq<set<P>>, org: P -> K)
    requires Separated(ev, org) && OneOrg(sat, org)
    ensures Accepts(ev, sat) <==> Holds(ev, sat)
  {
    SeparatedRun(ev, sat, AllUnused(|sat|), org);
  }

  /** Hence more signatures, in whatever order, do not lose acceptance, and the order is irrelevant. */
  lemma SeparatedMonotone<P(!new), K>(ev: Evaluator<P>, sat: seq<set<P>>, more: seq<set<P>>, org: P -> K)
    requires Separated(ev, org) && OneOrg(more, org) && multiset(sat) <= multiset(more)
    ensures Accepts(ev, sat) ==> Accepts(ev, more)
    ensures multiset(sat) == multiset(more) ==> (Accepts(ev, sat) <==> Accepts(ev, more))
  {
    forall s | s in sat ensures s in more { assert s in multiset(sat) && s in multiset(more); }
    SeparatedIsExact(ev, sat, org);
    SeparatedIsExact(ev, more, org);
    HoldsMonotone(ev, sat, more);
    if multiset(sat) == multiset(more) {
      forall s | s in more ensures s in sat { assert s in multiset(more) && s in multiset(sat); }
      HoldsMonotone(ev, more, sat);
    }
  }

  // ---------------------------------------------- choosing what a policy needs

  /** A choice of exactly n sub-policies at every gate; the positions in it do not matter. */
  ghost predicate Exactly<P>(t: Witness, ev: Evaluator<P>)
    decreases ev, 1
  {
    match ev
    case Leaf(_) => t.At?
    case Gate(n, subs) => t.Chosen? && ExactlyAll(t.kids, subs) && CountChosen(t.kids) == n
  }

  ghost predicate ExactlyAll<P>(kids: seq<Witness>, subs: seq<Evaluator<P>>)
    decreases subs, 0
  {
    && |kids| == |subs|
    && (subs != [] ==> (kids[0].Skipped? || Exactly(kids[0], subs[0])) && ExactlyAll(kids[1..], subs[1..]))
  }

  /** The chosen leaves. */
  ghost function Chose<P>(t: Witness, ev: Evaluator<P>): (r: seq<P>)
    ensures forall p :: p in r ==> p in Leaves(ev)
    decreases ev, 1
  {
    match ev
    case Leaf(p) => if t.At? then [p] else []
    case Gate(_, subs) => if t.Chosen? then ChoseAll(t.kids, subs) else []
  }

  ghost function ChoseAll<P>(kids: seq<Witness>, subs: seq<Evaluator<P>>): (r: seq<P>)
    ensures forall p :: p in r ==> p in LeavesAll(subs)
    decreases subs, 0
  {
    if kids == [] || subs == [] then [] else Chose(kids[0], subs[0]) + ChoseAll(kids[1..], subs[1..])
  }

  lemma {:induction false} SomeChoice<P>(ev: Evaluator<P>) returns (t: Witness)
    requires Live(ev)
    ensures Exactly(t, ev)
    decreases ev, 1
  {
    match ev {
      case Leaf(_) => t := At(0);
      case Gate(n, subs) =>
        var kids := FirstKids(subs, n);
        t := Chosen(kids);
    }
  }

  lemma {:induction false} FirstKids<P>(subs: seq<Evaluator<P>>, n: nat) returns (kids: seq<Witness>)
    requires LiveAll(subs) && n <= |subs|
    ensures ExactlyAll(kids, subs) && CountChosen(kids) == n
    decreases subs, 0
  {
    if subs == [] {
      kids := [];
    } else if n == 0 {
      var rest := FirstKids(subs[1..], 0);
      kids := Prepend(Skipped, rest, subs);
    } else {
      var first := SomeChoice(subs[0]);
      var rest := FirstKids(subs[1..], n - 1);
      kids := Prepend(first, rest, subs);
    }
  }

  lemma Prepend<P>(first: Witness, rest: seq<Witness>, subs: seq<Evaluator<P>>) returns (kids: seq<Witness>)
    requires subs != [] && (first.Skipped? || Exactly(first, subs[0])) && ExactlyAll(rest, subs[1..])
    ensures ExactlyAll(kids, subs) && CountChosen(kids) == CountChosen(rest) + (if first.Skipped? then 0 else 1)
    ensures ChoseAll(kids, subs) == Chose(first, subs[0]) + ChoseAll(rest, subs[1..])
  {
    kids := [first] + rest;
    assert kids[1..] == rest;
  }

  /** Every leaf of a live policy is part of some choice. */
  lemma {:induction false} ChoiceWith<P>(ev: Evaluator<P>, p: P) returns (t: Witness)
    requires Live(ev) && p in Leaves(ev)
    ensures Exactly(t, ev) && p in Chose(t, ev)
    decreases ev, 1
  {
    match ev {
      case Leaf(_) => t := At(0);
      case Gate(n, subs) =>
        var kids := KidsWith(subs, n, p);
        t := Chosen(kids);
    }
  }

  lemma {:induction false} KidsWith<P>(subs: seq<Evaluator<P>>, n: nat, p: P) returns (kids: seq<Witness>)
    requires LiveAll(subs) && 1 <= n <= |subs| && p in LeavesAll(subs)
    ensures ExactlyAll(kids, subs) && CountChosen(kids) == n && p in ChoseAll(kids, subs)
    decreases subs, 0
  {
    if p in Leaves(subs[0]) {
      var first := ChoiceWith(subs[0], p);
      var rest := FirstKids(subs[1..], n - 1);
      kids := Prepend(first, rest, subs);
    } else if n == 1 {
      assert subs[1..] != [];
      var rest := KidsWith(subs[1..], 1, p);
      kids := Prepend(Skipped, rest, subs);
    } else {
      var first := SomeChoice(subs[0]);
      var rest := KidsWith(subs[1..], n - 1, p);
      kids := Prepend(first, rest, subs);
    }
  }

  /** A choice with two different leaves of one organisation. */
  ghost predicate Clashing<P, K>(chosen: seq<P>, p: P, q: P, org: P -> K) {
    p in chosen && q in chosen && p != q && org(p) == org(q)
  }

  lemma {:induction false} ClashingChoice<P, K>(ev: Evaluator<P>, org: P -> K) returns (t: Witness, p: P, q: P)
    requires Live(ev) && Distinct(Leaves(ev)) && !Separated(ev, org)
    ensures Exactly(t, ev) && Clashing(Chose(t, ev), p, q, org)
    decreases ev, 1
  {
    var kids: seq<Witness>;
    if ev.n >= 2 && !Apart(ev.subs, org) {
      kids, p, q := KidsOfOneOrg(ev.subs, ev.n, org);
    } else {
      kids, p, q := ClashingKids(ev.subs, ev.n, org);
    }
    t := Chosen(kids);
  }

  lemma {:induction false} KidsOfOneOrg<P, K>(subs: seq<Evaluator<P>>, n: nat, org: P -> K)
    returns (kids: seq<Witness>, p: P, q: P)
    requires LiveAll(subs) && 2 <= n <= |subs| && Distinct(LeavesAll(subs)) && !Apart(subs, org)
    ensures ExactlyAll(kids, subs) && CountChosen(kids) == n && Clashing(ChoseAll(kids, subs), p, q, org)
    decreases subs, 0
  {
    DistinctSplit(Leaves(subs[0]), LeavesAll(subs[1..]));
    if !NoShared(Leaves(subs[0]), LeavesAll(subs[1..]), org) {
      p, q :| p in Leaves(subs[0]) && q in LeavesAll(subs[1..]) && org(p) == org(q);
      var first := ChoiceWith(subs[0], p);
      var rest := KidsWith(subs[1..], n - 1, q);
      kids := Prepend(first, rest, subs);
    } else {
      ShortApart(subs[1..], org);
      if n < |subs| {
        var rest;
        rest, p, q := KidsOfOneOrg(subs[1..], n, org);
        kids := Prepend(Skipped, rest, subs);
      } else {
        var first := SomeChoice(subs[0]);
        var rest;
        rest, p, q := KidsOfOneOrg(subs[1..], n - 1, org);
        kids := Prepend(first, rest, subs);
      }
    }
  }

  lemma ShortApart<P, K>(subs: seq<Evaluator<P>>, org: P -> K)
    ensures |subs| <= 1 ==> Apart(subs, org)
  {
    if |subs| == 1 { assert subs[1..] == [] && LeavesAll(subs[1..]) == []; }
  }

  lemma {:induction false} ClashingKids<P, K>(subs: seq<Evaluator<P>>, n: nat, org: P -> K)
    returns (kids: seq<Witness>, p: P, q: P)
    requires LiveAll(subs) && 1 <= n <= |subs| && Distinct(LeavesAll(subs)) && !SeparatedAll(subs, org)
    ensures ExactlyAll(kids, subs) && CountChosen(kids) == n && Clashing(ChoseAll(kids, subs), p, q, org)
    decreases subs, 0
  {
    DistinctSplit(Leaves(subs[0]), LeavesAll(subs[1..]));
    if !Separated(subs[0], org) {
      var first;
      first, p, q := ClashingChoice(subs[0], org);
      var rest := FirstKids(subs[1..], n - 1);
      kids := Prepend(first, rest, subs);
    } else if n < |subs| {
      var rest;
      rest, p, q := ClashingKids(subs[1..], n, org);
      kids := Prepend(Skipped, rest, subs);
    } else {
      var first := SomeChoice(subs[0]);
      assert subs[1..] != [];
      var rest;
      rest, p, q := ClashingKids(subs[1..], n - 1, org);
      kids := Prepend(first, rest, subs);
    }
  }

  // ------------------------------------------------------------- counting

  /** When the chosen leaves are present, the policy holds. */
  lemma {:induction false} ChoiceHolds<P>(t: Witness, ev: Evaluator<P>, sat: seq<set<P>>)
    requires Exactly(t, ev) && forall p :: p in Chose(t, ev) ==> Present(p, sat)
    ensures Holds(ev, sat)
    decreases ev, 1
  {
    match ev {
      case Leaf(p) => assert p in Chose(t, ev);
      case Gate(_, subs) => ChoicesHold(t.kids, subs, sat);
    }
  }

  lemma {:induction false} ChoicesHold<P>(kids: seq<Witness>, subs: seq<Evaluator<P>>, sat: seq<set<P>>)
    requires ExactlyAll(kids, subs) && forall p :: p in ChoseAll(kids, subs) ==> Present(p, sat)
    ensures CountHolding(subs, sat) >= CountChosen(kids)
    decreases subs, 0
  {
    if subs != [] {
      if !kids[0].Skipped? { ChoiceHolds(kids[0], subs[0], sat); }
      ChoicesHold(kids[1..], subs[1..], sat);
    }
  }

  /** Evidence that may only use the chosen leaves takes a position for each of them. */
  lemma {:induction false} EvidencePaysChoice<P(!new)>(w: Witness, t: Witness, ev: Evaluator<P>, sat: seq<set<P>>)
    requires Live(ev) && Distinct(Leaves(ev)) && Exactly(t, ev) && Proves(w, ev, sat)
    requires forall p :: p in Leaves(ev) && Present(p, sat) ==> p in Chose(t, ev)
    ensures |Positions(w)| >= |Chose(t, ev)|
    decreases ev, 1
  {
    match ev {
      case Leaf(_) =>
      case Gate(_, subs) => EvidencePaysChoices(w.kids, t.kids, subs, sat);
    }
  }

  lemma {:induction false} EvidencePaysChoices<P(!new)>(ws: seq<Witness>, ts: seq<Witness>, subs: seq<Evaluator<P>>, sat: seq<set<P>>)
    requires LiveAll(subs) && Distinct(LeavesAll(subs)) && ExactlyAll(ts, subs) && ProvesAll(ws, subs, sat)
    requires forall p :: p in LeavesAll(subs) && Present(p, sat) ==> p in ChoseAll(ts, subs)
    ensures CountChosen(ws) <= CountChosen(ts)
    ensures CountChosen(ws) == CountChosen(ts) ==> |PositionsAll(ws)| >= |ChoseAll(ts, subs)|
    decreases subs, 0
  {
    if subs != [] {
      DistinctSplit(Leaves(subs[0]), LeavesAll(subs[1..]));
      EvidencePaysChoices(ws[1..], ts[1..], subs[1..], sat);
      if !ws[0].Skipped? {
        SomeLeafPresent(ws[0], subs[0], sat);
        if !ts[0].Skipped? { EvidencePaysChoice(ws[0], ts[0], subs[0], sat); }
      }
    }
  }

  lemma {:induction false} SomeLeafPresent<P>(w: Witness, ev: Evaluator<P>, sat: seq<set<P>>)
    requires Live(ev) && Proves(w, ev, sat)
    ensures exists p :: p in Leaves(ev) && Present(p, sat)
    decreases ev, 1
  {
    match ev {
      case Leaf(p) => assert sat[w.pos] in sat && p in Leaves(ev);
      case Gate(_, subs) => SomeLeafPresentAll(w.kids, subs, sat);
    }
  }

  lemma {:induction false} SomeLeafPresentAll<P>(kids: seq<Witness>, subs: seq<Evaluator<P>>, sat: seq<set<P>>)
    requires LiveAll(subs) && ProvesAll(kids, subs, sat) && CountChosen(kids) >= 1
    ensures exists p :: p in LeavesAll(subs) && Present(p, sat)
    decreases subs, 0
  {
    if kids[0].Skipped? {
      SomeLeafPresentAll(kids[1..], subs[1..], sat);
      var p :| p in LeavesAll(subs[1..]) && Present(p, sat);
      assert p in LeavesAll(subs);
    } else {
      SomeLeafPresent(kids[0], subs[0], sat);
      var p :| p in Leaves(subs[0]) && Present(p, sat);
      assert p in LeavesAll(subs);
    }
  }

  /** One signature for each chosen leaf, but a single one for p and q. */
  ghost function Shared<P>(chosen: seq<P>, p: P, q: P): seq<set<P>> {
    if chosen == [] then []
    else if chosen[0] == q then Shared(chosen[1..], p, q)
    else [if chosen[0] == p then {p, q} else {chosen[0]}] + Shared(chosen[1..], p, q)
  }

  /** The signature is the shared one, or that of a single other leaf. */
  ghost predicate SharedOrSingle<P(!new)>(s: set<P>, chosen: seq<P>, p: P, q: P) {
    s == {p, q} || exists r :: r in chosen && r != p && r != q && s == {r}
  }

  lemma {:induction false} SharedList<P(!new), K>(chosen: seq<P>, p: P, q: P, org: P -> K)
    requires p != q && org(p) == org(q)
    ensures |Shared(chosen, p, q)| <= |chosen| - (if q in chosen then 1 else 0)
    ensures OneOrg(Shared(chosen, p, q), org)
    ensures forall s :: s in Shared(chosen, p, q) ==> SharedOrSingle(s, chosen, p, q)
    ensures forall s, r :: s in Shared(chosen, p, q) && r in s ==> r in chosen || (r == q && p in chosen)
    ensures forall r :: r in chosen && r != q ==> Present(r, Shared(chosen, p, q))
    ensures p in chosen ==> Present(q, Shared(chosen, p, q))
  {
    if chosen != [] {
      var rest := Shared(chosen[1..], p, q);
      SharedList(chosen[1..], p, q, org);
      if chosen[0] != q {
        var first := if chosen[0] == p then {p, q} else {chosen[0]};
        assert first in [first] + rest && SharedOrSingle(first, chosen, p, q);
        forall s | s in rest ensures SharedOrSingle(s, chosen, p, q) {
          assert SharedOrSingle(s, chosen[1..], p, q);
        }
        forall r | Present(r, rest) ensures Present(r, [first] + rest) {
          var s :| s in rest && r in s;
          assert s in [first] + rest;
        }
      }
    }
  }

  // ------------------------------------------------------------- the theorems

  /** Signatures of one organisation each that meet the policy and are rejected, for want of positions. */
  lemma UnseparatedGoesWrong<P(!new), K>(ev: Evaluator<P>, org: P -> K) returns (sat: seq<set<P>>, p: P, q: P)
    requires Live(ev) && Distinct(Leaves(ev)) && !Separated(ev, org)
    ensures OneOrg(sat, org) && Holds(ev, sat) && !Satisfiable(ev, sat) && !Accepts(ev, sat)
    ensures Clashing(Leaves(ev), p, q, org) && forall s :: s in sat ==> SharedOrSingle(s, Leaves(ev), p, q)
  {
    var t;
    t, p, q := ClashingChoice(ev, org);
    var chosen := Chose(t, ev);
    sat := Shared(chosen, p, q);
    SharedList(chosen, p, q, org);
    ChoiceHolds(t, ev, sat);
    forall w | Proves(w, ev, sat) ensures !Distinct(Positions(w)) {
      EvidencePaysChoice(w, t, ev, sat);
      PositionsInRange(w, ev, sat);
      if Distinct(Positions(w)) { DistinctBelow(Positions(w), |sat|); }
    }
    SatisfiableHolds(ev, sat);
    forall s | s in sat ensures SharedOrSingle(s, Leaves(ev), p, q) { assert SharedOrSingle(s, chosen, p, q); }
  }

  lemma {:induction false} PositionsInRange<P>(w: Witness, ev: Evaluator<P>, sat: seq<set<P>>)
    requires Proves(w, ev, sat)
    ensures forall i :: i in Positions(w) ==> i < |sat|
    decreases ev, 1
  {
    match ev {
      case Leaf(_) =>
      case Gate(_, subs) => PositionsInRangeAll(w.kids, subs, sat);
    }
  }

  lemma {:induction false} PositionsInRangeAll<P>(kids: seq<Witness>, subs: seq<Evaluator<P>>, sat: seq<set<P>>)
    requires ProvesAll(kids, subs, sat)
    ensures forall i :: i in PositionsAll(kids) ==> i < |sat|
    decreases subs, 0
  {
    if subs != [] {
      if !kids[0].Skipped? { PositionsInRange(kids[0], subs[0], sat); }
      PositionsInRangeAll(kids[1..], subs[1..], sat);
    }
  }

  /** Acceptance is the Boolean reading on all lists whose signatures speak for one organisation each. */
  ghost predicate BooleanPerOrg<P(!new), K>(ev: Evaluator<P>, org: P -> K) {
    forall sat :: OneOrg(sat, org) ==> (Accepts(ev, sat) <==> Holds(ev, sat))
  }

  /**
   * For policies with distinct leaves and thresholds of at least one: acceptance is the Boolean
   * reading on all such lists if and only if the policy can never be met or, its dead parts aside,
   * no gate that asks for two or more names an organisation in two of its sub-policies.
   */
  lemma BooleanPerOrgIff<P(!new), K>(ev: Evaluator<P>, org: P -> K)
    requires Demanding(ev) && Distinct(Leaves(ev))
    ensures BooleanPerOrg(ev, org) <==> Dead(ev) || Separated(Prune(ev), org)
  {
    forall sat ensures Accepts(Prune(ev), sat) <==> Accepts(ev, sat) { PruneRun(ev, sat, AllUnused(|sat|)); }
    forall sat ensures Holds(Prune(ev), sat) <==> Holds(ev, sat) { PruneHolds(ev, sat); }
    if Dead(ev) {
      forall sat ensures Accepts(ev, sat) <==> Holds(ev, sat) {
        PruneRun(ev, sat, AllUnused(|sat|));
        PruneHolds(ev, sat);
      }
    } else if Separated(Prune(ev), org) {
      forall sat | OneOrg(sat, org) ensures Accepts(ev, sat) <==> Holds(ev, sat) {
        SeparatedIsExact(Prune(ev), sat, org);
      }
    } else {
      PruneLive(ev);
      PruneLeaves(ev);
      var sat, p, q := UnseparatedGoesWrong(Prune(ev), org);
    }
  }
}
