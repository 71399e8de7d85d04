/**
 * Signatures appended to a list that a policy accepts.  A leaf prefers earlier positions, so
 * appending does not disturb it; a gate that was not met before may be met now and take earlier
 * positions that other sub-policies used.  Where that cannot happen, acceptance stays.
 */
module PolicyAppending {
  import opened Wrappers
  import opened PolicyEvaluation
  import opened PolicyExactness

  /** A longer list of signatures and marks that agree on the old positions. */
  predicate Appended<P>(sat: seq<set<P>>, used: seq<bool>, more: seq<set<P>>, long: seq<bool>) {
    |used| == |sat| && |long| == |more| && sat <= more && used <= long
  }

  lemma LeafAppended<P>(p: P, sat: seq<set<P>>, used: seq<bool>, more: seq<set<P>>, long: seq<bool>)
    requires Appended(sat, used, more, long)
    ensures Run(Leaf(p), sat, used).0 ==> Run(Leaf(p), more, long).0
    ensures Run(Leaf(p), sat, used).1 <= Run(Leaf(p), more, long).1
  {
    var i, j := FirstUnused(p, sat, used, 0), FirstUnused(p, more, long, 0);
    assert forall k :: 0 <= k < |sat| ==> sat[k] == more[k] && used[k] == long[k];
    if i < |sat| { assert i == j; } else { assert j >= |sat|; }
  }

  lemma {:induction false} NoneAccepted<P>(subs: seq<Evaluator<P>>, sat: seq<set<P>>, used: seq<bool>)
    requires |used| == |sat|
    ensures RunAll(subs, sat, used).0 <= |subs|
    ensures RunAll(subs, sat, used).0 == 0 ==> RunAll(subs, sat, used).1 == used
  {
    if subs != [] { NoneAccepted(subs[1..], sat, Committed(subs[0], sat, used)); }
  }

  /** Gates of threshold one take no earlier position that they did not take before. */
  lemma {:induction false} Steady<P>(ev: Evaluator<P>, sat: seq<set<P>>, used: seq<bool>, more: seq<set<P>>, long: seq<bool>)
    requires SingleThreshold(ev) && Appended(sat, used, more, long)
    ensures Run(ev, sat, used).0 ==> Run(ev, more, long).0
    ensures Committed(ev, sat, used) <= Committed(ev, more, long)
    decreases ev, 1
  {
    match ev {
      case Leaf(p) => LeafAppended(p, sat, used, more, long);
      case Gate(n, subs) =>
        SteadyAll(subs, sat, used, more, long);
        NoneAccepted(subs, sat, used);
    }
  }

  lemma {:induction false} SteadyAll<P>(subs: seq<Evaluator<P>>, sat: seq<set<P>>, used: seq<bool>,
                                        more: seq<set<P>>, long: seq<bool>)
    requires SingleThresholdAll(subs) && Appended(sat, used, more, long)
    ensures RunAll(subs, sat, used).0 <= RunAll(subs, more, long).0
    ensures RunAll(subs, sat, used).1 <= RunAll(subs, more, long).1
    decreases subs, 0
  {
    if subs != [] {
      Steady(subs[0], sat, used, more, long);
      SteadyAll(subs[1..], sat, Committed(subs[0], sat, used), more, Committed(subs[0], more, long));
    }
  }

  /** A gate that may leave a sub-policy out has nothing but thresholds of one beneath it. */
  predicate Settled<P>(ev: Evaluator<P>)
    decreases ev, 1
  {
    match ev
    case Leaf(_) => true
    case Gate(n, subs) => SingleThresholdAll(subs) || (n >= |subs| && SettledAll(subs))
  }

  predicate SettledAll<P>(subs: seq<Evaluator<P>>)
    decreases subs, 0
  {
    subs == [] || (Settled(subs[0]) && SettledAll(subs[1..]))
  }

  lemma {:induction false} Keeps<P>(ev: Evaluator<P>, sat: seq<set<P>>, used: seq<bool>, more: seq<set<P>>, long: seq<bool>)
    requires Settled(ev) && Appended(sat, used, more, long) && Run(ev, sat, used).0
    ensures Run(ev, more, long).0
    ensures Run(ev, sat, used).1 <= Run(ev, more, long).1
    decreases ev, 1
  {
    match ev {
      case Leaf(p) => LeafAppended(p, sat, used, more, long);
      case Gate(n, subs) =>
        if SingleThresholdAll(subs) {
          SteadyAll(subs, sat, used, more, long);
        } else {
          NoneAccepted(subs, sat, used);
          KeepsAll(subs, sat, used, more, long);
        }
    }
  }

  lemma {:induction false} KeepsAll<P>(subs: seq<Evaluator<P>>, sat: seq<set<P>>, used: seq<bool>,
                                       more: seq<set<P>>, long: seq<bool>)
    requires SettledAll(subs) && Appended(sat, used, more, long) && RunAll(subs, sat, used).0 == |subs|
    ensures RunAll(subs, more, long).0 == |subs|
    ensures RunAll(subs, sat, used).1 <= RunAll(subs, more, long).1
    decreases subs, 0
  {
    if subs != [] {
      NoneAccepted(subs[1..], sat, Committed(subs[0], sat, used));
      Keeps(subs[0], sat, used, more, long);
      KeepsAll(subs[1..], sat, Committed(subs[0], sat, used), more, Committed(subs[0], more, long));
    }
  }

  /**
   * Acceptance lasts: the policy is settled, or one lasting sub-policy is enough, or all
   * sub-policies are needed and only the last may take positions it did not take before.
   */
  predicate Lasting<P>(ev: Evaluator<P>)
    decreases ev, 1
  {
    Settled(ev) ||
    match ev
    case Leaf(_) => true
    case Gate(n, subs) => (n <= 1 && LastingAll(subs)) || (n >= |subs| && LastingEnd(subs))
  }

  predicate LastingAll<P>(subs: seq<Evaluator<P>>)
    decreases subs, 0
  {
    subs == [] || (Lasting(subs[0]) && LastingAll(subs[1..]))
  }

  /** All but the last are settled, and the last is lasting. */
  predicate LastingEnd<P>(subs: seq<Evaluator<P>>)
    decreases subs, 0
  {
    subs == [] || if |subs| == 1 then Lasting(subs[0]) else Settled(subs[0]) && LastingEnd(subs[1..])
  }

  lemma {:induction false} Lasts<P>(ev: Evaluator<P>, sat: seq<set<P>>, used: seq<bool>, more: seq<set<P>>, long: seq<bool>)
    requires Lasting(ev) && Appended(sat, used, more, long) && Run(ev, sat, used).0
    ensures Run(ev, more, long).0
    decreases ev, 1
  {
    if Settled(ev) {
      Keeps(ev, sat, used, more, long);
    } else {
      NoneAccepted(ev.subs, sat, used);
      if ev.n <= 1 && LastingAll(ev.subs) {
        if ev.n == 1 { SomeLasts(ev.subs, sat, used, more, long); }
      } else {
        EndLasts(ev.subs, sat, used, more, long);
      }
    }
  }

  /** If some sub-policy was accepted, some still is: up to the first, the marks are as before. */
  lemma {:induction false} SomeLasts<P>(subs: seq<Evaluator<P>>, sat: seq<set<P>>, used: seq<bool>,
                                        more: seq<set<P>>, long: seq<bool>)
    requires LastingAll(subs) && Appended(sat, used, more, long) && RunAll(subs, sat, used).0 >= 1
    ensures RunAll(subs, more, long).0 >= 1
    decreases subs, 0
  {
    if Run(subs[0], sat, used).0 {
      Lasts(subs[0], sat, used, more, long);
    } else if !Run(subs[0], more, long).0 {
      SomeLasts(subs[1..], sat, used, more, long);
    }
  }

  lemma {:induction false} EndLasts<P>(subs: seq<Evaluator<P>>, sat: seq<set<P>>, used: seq<bool>,
                                       more: seq<set<P>>, long: seq<bool>)
    requires LastingEnd(subs) && Appended(sat, used, more, long) && RunAll(subs, sat, used).0 == |subs|
    ensures RunAll(subs, more, long).0 == |subs|
    decreases subs, 0
  {
    if subs != [] {
      NoneAccepted(subs[1..], sat, Committed(subs[0], sat, used));
      if |subs| == 1 {
        Lasts(subs[0], sat, used, more, long);
      } else {
        Keeps(subs[0], sat, used, more, long);
        EndLasts(subs[1..], sat, Committed(subs[0], sat, used), more, Committed(subs[0], more, long));
      }
    }
  }

  /** Appending any signatures to a list that a lasting policy accepts keeps it accepted. */
  lemma AppendingKeepsAcceptance<P>(ev: Evaluator<P>, sat: seq<set<P>>, extra: seq<set<P>>)
    requires Lasting(ev) && Accepts(ev, sat)
    ensures Accepts(ev, sat + extra)
  {
    Lasts(ev, sat, AllUnused(|sat|), sat + extra, AllUnused(|sat + extra|));
  }

  /** AND(OR(AND(a, b), c), d). */
  function Unsettled(): Evaluator<char> {
    Gate(2, [Gate(1, [Gate(2, [Leaf('a'), Leaf('b')]), Leaf('c')]), Leaf('d')])
  }

  /** Without that, appending can lose acceptance even when all leaves are different. */
  lemma AppendingCanReject()
    ensures Live(Unsettled()) && Distinct(Leaves(Unsettled())) && !Lasting(Unsettled())
    ensures Accepts(Unsettled(), [{'c'}, {'a', 'd'}])
    ensures !Accepts(Unsettled(), [{'c'}, {'a', 'd'}, {'b'}])
  {
    UnsettledShape();
    AcceptsTwo();
    RejectsThree();
  }

  lemma UnsettledShape()
    ensures Live(Unsettled()) && Distinct(Leaves(Unsettled())) && !Lasting(Unsettled())
  {
    var a, b, c, d := Leaf('a'), Leaf('b'), Leaf('c'), Leaf('d');
    var both, either := Gate(2, [a, b]), Gate(1, [Gate(2, [a, b]), c]);
    LeavesOfPair(a, b);
    LeavesOfPair(both, c);
    LeavesOfPair(either, d);
    assert Leaves(Unsettled()) == ['a', 'b', 'c', 'd'];
    assert [both, c][1..] == [c] && [either, d][1..] == [d];
  }

  lemma AcceptsTwo()
    ensures Accepts(Unsettled(), [{'c'}, {'a', 'd'}])
  {
    var a, b, c, d := Leaf('a'), Leaf('b'), Leaf('c'), Leaf('d');
    var both, either := Gate(2, [a, b]), Gate(1, [Gate(2, [a, b]), c]);
    var sat: seq<set<char>> := [{'c'}, {'a', 'd'}];
    var none := [false, false];
    assert none[0 := true] == [true, false] && none[1 := true] == [false, true];
    assert Run(a, sat, none) == (true, [false, true]) && !Run(b, sat, [false, true]).0;
    RunAllOfPair(a, b, sat, none);
    assert !Run(both, sat, none).0 && Run(c, sat, none) == (true, [true, false]);
    RunAllOfPair(both, c, sat, none);
    assert Run(either, sat, none) == (true, [true, false]) && Run(d, sat, [true, false]).0;
    RunAllOfPair(either, d, sat, none);
    assert AllUnused(2) == none;
  }

  lemma RejectsThree()
    ensures !Accepts(Unsettled(), [{'c'}, {'a', 'd'}, {'b'}])
  {
    var a, b, c, d := Leaf('a'), Leaf('b'), Leaf('c'), Leaf('d');
    var both, either := Gate(2, [a, b]), Gate(1, [Gate(2, [a, b]), c]);
    var sat: seq<set<char>> := [{'c'}, {'a', 'd'}, {'b'}];
    var none := [false, false, false];
    assert none[1 := true] == [false, true, false];
    assert [false, true, false][2 := true] == [false, true, true] && [false, true, true][0 := true] == [true, true, true];
    assert Run(a, sat, none) == (true, [false, true, false]) && Run(b, sat, [false, true, false]) == (true, [false, true, true]);
    RunAllOfPair(a, b, sat, none);
    assert Run(both, sat, none) == (true, [false, true, true]) && Run(c, sat, [false, true, true]) == (true, [true, true, true]);
    RunAllOfPair(both, c, sat, none);
    assert Run(either, sat, none) == (true, [true, true, true]) && !Run(d, sat, [true, true, true]).0;
    RunAllOfPair(either, d, sat, none);
    assert AllUnused(3) == none;
  }
}
