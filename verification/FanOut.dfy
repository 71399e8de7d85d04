/**
 * The proposal fan-out of bddtests/context_endorser.go as a state machine: one worker per
 * endorser sends exactly one reply over an unbuffered channel, a collector receives as many
 * replies as there are endorsers and then cancels the context, and the caller waits for the
 * context to be cancelled or to time out.
 */
module FanOut {
  import opened Wrappers

  /** A worker's reply: the endorser it called and the response, or None for an error. */
  datatype Reply = Reply(endorser: string, response: Option<nat>)

  datatype Worker =
    | Calling(endorser: string)
    | Sending(reply: Reply)     // blocked on the channel until the collector receives
    | Sent(reply: Reply)

  datatype Ctx = Active | Canceled | DeadlineExceeded

  datatype Caller = Waiting | Returned(nilError: bool)

  datatype State = State(
    workers: seq<Worker>,
    received: nat,
    responses: map<string, Reply>,
    collected: bool,            // the collector has called cancel and ended
    ctx: Ctx,
    caller: Caller)

  datatype Action =
    | Answer(i: nat, response: Option<nat>)   // worker i's call returns, normally or with an error
    | Receive(i: nat)                         // the collector takes worker i's reply
    | Cancel
    | Timeout
    | Wake

  function Initial(endorsers: seq<string>): State {
    State(seq(|endorsers|, i requires 0 <= i < |endorsers| => Calling(endorsers[i])), 0, map[], false, Active, Waiting)
  }

  function Next(s: State, a: Action): Option<State> {
    match a
    case Answer(i, response) =>
      if i < |s.workers| && s.workers[i].Calling? then
        Some(s.(workers := s.workers[i := Sending(Reply(s.workers[i].endorser, response))]))
      else None
    case Receive(i) =>
      if i < |s.workers| && s.workers[i].Sending? && s.received < |s.workers| then
        var reply := s.workers[i].reply;
        Some(s.(workers := s.workers[i := Sent(reply)], received := s.received + 1,
                responses := s.responses[reply.endorser := reply]))
      else None
    case Cancel =>
      if s.received == |s.workers| && !s.collected then
        Some(s.(collected := true, ctx := if s.ctx == Active then Canceled else s.ctx))
      else None
    case Timeout =>
      if s.ctx == Active then Some(s.(ctx := DeadlineExceeded)) else None
    case Wake =>
      if s.caller == Waiting && s.ctx != Active then Some(s.(caller := Returned(s.ctx == Canceled))) else None
  }

  function Run(s: State, actions: seq<Action>): Option<State>
    decreases |actions|
  {
    if actions == [] then Some(s)
    else
      match Next(s, actions[0])
      case None => None
      case Some(t) => Run(t, actions[1..])
  }

  // ------------------------------------------------------------ the invariant

  function NameOf(w: Worker): string {
    match w
    case Calling(e) => e
    case Sending(r) => r.endorser
    case Sent(r) => r.endorser
  }

  function CountSent(ws: seq<Worker>): (n: nat)
    ensures n <= |ws|
  {
    if ws == [] then 0 else (if ws[0].Sent? then 1 else 0) + CountSent(ws[1..])
  }

  lemma {:induction false} CountSentUpdate(ws: seq<Worker>, i: nat, w: Worker)
    requires i < |ws|
    ensures CountSent(ws[i := w]) == CountSent(ws) - (if ws[i].Sent? then 1 else 0) + (if w.Sent? then 1 else 0)
  {
    if i == 0 {
      assert ws[i := w][1..] == ws[1..];
    } else {
      CountSentUpdate(ws[1..], i - 1, w);
      assert ws[i := w][1..] == ws[1..][i - 1 := w];
    }
  }

  lemma {:induction false} CountSentAll(ws: seq<Worker>)
    ensures CountSent(ws) == |ws| <==> forall i :: 0 <= i < |ws| ==> ws[i].Sent?
  {
    if ws != [] {
      CountSentAll(ws[1..]);
      assert forall i :: 1 <= i < |ws| ==> ws[i] == ws[1..][i - 1];
    }
  }

  /** Worker i has sent r. */
  predicate SentReply(ws: seq<Worker>, i: int, r: Reply) {
    0 <= i < |ws| && ws[i] == Sent(r)
  }

  ghost predicate Inv(s: State, endorsers: seq<string>) {
    && |s.workers| == |endorsers|
    && (forall i :: 0 <= i < |endorsers| ==> NameOf(s.workers[i]) == endorsers[i])
    && s.received == CountSent(s.workers)
    && (forall i, r :: SentReply(s.workers, i, r) ==> r.endorser in s.responses)
    && (forall e :: e in s.responses ==>
          s.responses[e].endorser == e && exists i :: SentReply(s.workers, i, s.responses[e]))
    && (s.collected ==> s.received == |s.workers|)
    && (s.ctx == Canceled ==> s.collected)
    && (s.collected ==> s.ctx != Active)
    && (s.caller.Returned? ==> s.ctx == if s.caller.nilError then Canceled else DeadlineExceeded)
  }

  lemma InitialInv(endorsers: seq<string>)
    ensures Inv(Initial(endorsers), endorsers)
  {
    CountNoneSent(Initial(endorsers).workers);
  }

  lemma {:induction false} CountNoneSent(ws: seq<Worker>)
    requires forall i :: 0 <= i < |ws| ==> ws[i].Calling?
    ensures CountSent(ws) == 0
  {
    if ws != [] { CountNoneSent(ws[1..]); }
  }

  lemma ReceiveKeepsInv(s: State, endorsers: seq<string>, i: nat)
    requires Inv(s, endorsers) && Next(s, Receive(i)).Some?
    ensures Inv(Next(s, Receive(i)).value, endorsers)
  {
    var t, reply := Next(s, Receive(i)).value, s.workers[i].reply;
    CountSentUpdate(s.workers, i, Sent(reply));
    assert SentReply(t.workers, i, reply);
    forall k, r | SentReply(t.workers, k, r) ensures r.endorser in t.responses {
      if k != i { assert SentReply(s.workers, k, r); }
    }
    forall e | e in t.responses
      ensures t.responses[e].endorser == e && exists k :: SentReply(t.workers, k, t.responses[e])
    {
      if e != reply.endorser {
        var k :| SentReply(s.workers, k, s.responses[e]);
        assert SentReply(t.workers, k, t.responses[e]);
      }
    }
  }

  lemma AnswerKeepsInv(s: State, endorsers: seq<string>, i: nat, response: Option<nat>)
    requires Inv(s, endorsers) && Next(s, Answer(i, response)).Some?
    ensures Inv(Next(s, Answer(i, response)).value, endorsers)
  {
    var t := Next(s, Answer(i, response)).value;
    CountSentUpdate(s.workers, i, t.workers[i]);
    forall k, r ensures SentReply(t.workers, k, r) <==> SentReply(s.workers, k, r) {}
    CountSentAll(s.workers);
  }

  lemma NextKeepsInv(s: State, endorsers: seq<string>, a: Action)
    requires Inv(s, endorsers) && Next(s, a).Some?
    ensures Inv(Next(s, a).value, endorsers)
  {
    match a {
      case Answer(i, response) => AnswerKeepsInv(s, endorsers, i, response);
      case Receive(i) => ReceiveKeepsInv(s, endorsers, i);
      case Cancel =>
      case Timeout =>
      case Wake =>
    }
  }

  lemma {:induction false} RunKeepsInv(s: State, endorsers: seq<string>, actions: seq<Action>)
    requires Inv(s, endorsers) && Run(s, actions).Some?
    ensures Inv(Run(s, actions).value, endorsers)
    decreases |actions|
  {
    if actions != [] {
      NextKeepsInv(s, endorsers, actions[0]);
      RunKeepsInv(Next(s, actions[0]).value, endorsers, actions[1..]);
    }
  }

  // ------------------------------------------------------------- the theorems

  lemma CollectedEveryone(s: State, endorsers: seq<string>)
    requires Inv(s, endorsers) && s.received == |s.workers|
    ensures forall e :: e in s.responses <==> e in endorsers
  {
    CountSentAll(s.workers);
    forall i | 0 <= i < |endorsers| ensures endorsers[i] in s.responses {
      assert SentReply(s.workers, i, s.workers[i].reply);
      assert NameOf(s.workers[i]) == endorsers[i];
    }
    forall e | e in s.responses ensures e in endorsers {
      var i :| SentReply(s.workers, i, s.responses[e]);
      assert NameOf(s.workers[i]) == endorsers[i];
    }
  }

  lemma NothingLeft(s: State, endorsers: seq<string>)
    requires Inv(s, endorsers) && s.collected && s.caller.Returned?
    ensures forall a :: Next(s, a).None?
  {
    CountSentAll(s.workers);
  }

  /**
   * In every run, a nil return comes with one entry for every endorser and none else, each a
   * reply that a worker for that endorser sent; and no worker or collector step is left, so
   * nobody touches the map any more.
   */
  lemma NilReturnIsComplete(endorsers: seq<string>, actions: seq<Action>)
    requires Run(Initial(endorsers), actions).Some?
    requires Run(Initial(endorsers), actions).value.caller == Returned(true)
    ensures var s := Run(Initial(endorsers), actions).value;
            && (forall e :: e in s.responses <==> e in endorsers)
            && (forall e :: e in s.responses ==>
                  s.responses[e].endorser == e && exists i :: SentReply(s.workers, i, s.responses[e]))
            && (forall a :: Next(s, a).None?)
  {
    var s := Run(Initial(endorsers), actions).value;
    assert Inv(s, endorsers) by {
      InitialInv(endorsers);
      RunKeepsInv(Initial(endorsers), endorsers, actions);
    }
    CollectedEveryone(s, endorsers);
    NothingLeft(s, endorsers);
  }

  /** Receiving a reply stores it under its endorser, over any earlier one, and counts it. */
  lemma ReceiveStores(s: State, i: nat, reply: Reply)
    requires i < |s.workers| && s.workers[i] == Sending(reply) && s.received < |s.workers|
    ensures Next(s, Receive(i)).Some?
    ensures var t := Next(s, Receive(i)).value;
            && t.responses.Keys == s.responses.Keys + {reply.endorser} && t.responses[reply.endorser] == reply
            && (forall e :: e in s.responses && e != reply.endorser ==> t.responses[e] == s.responses[e])
            && t.received == s.received + 1 && t.workers[i] == Sent(reply)
  {}

  lemma {:induction false} RunAppend(s: State, actions: seq<Action>, a: Action)
    requires Run(s, actions + [a]).Some?
    ensures Run(s, actions).Some? && Next(Run(s, actions).value, a) == Run(s, actions + [a])
    decreases |actions|
  {
    if actions == [] {
      assert [a][1..] == [] && actions + [a] == [a];
    } else {
      assert (actions + [a])[1..] == actions[1..] + [a];
      RunAppend(Next(s, actions[0]).value, actions[1..], a);
    }
  }

  /** Some step of the run is worker i's call returning this response. */
  ghost predicate Answered(actions: seq<Action>, i: nat, response: Option<nat>) {
    exists k :: 0 <= k < |actions| && actions[k] == Answer(i, response)
  }

  /** What a worker sends is what its call returned. */
  lemma {:induction false} RepliesAreAnswers(endorsers: seq<string>, actions: seq<Action>)
    requires Run(Initial(endorsers), actions).Some?
    ensures var ws := Run(Initial(endorsers), actions).value.workers;
            forall i: nat :: i < |ws| && !ws[i].Calling? ==> Answered(actions, i, ws[i].reply.response)
    decreases |actions|
  {
    if actions != [] {
      var earlier, a := actions[..|actions| - 1], actions[|actions| - 1];
      assert earlier + [a] == actions;
      RunAppend(Initial(endorsers), earlier, a);
      RepliesAreAnswers(endorsers, earlier);
      var s, t := Run(Initial(endorsers), earlier).value, Run(Initial(endorsers), actions).value;
      forall i: nat | i < |t.workers| && !t.workers[i].Calling? ensures Answered(actions, i, t.workers[i].reply.response) {
        if s.workers[i].Calling? {
          assert actions[|earlier|] == Answer(i, t.workers[i].reply.response);
        } else {
          var k :| 0 <= k < |earlier| && earlier[k] == Answer(i, s.workers[i].reply.response);
          assert actions[k] == earlier[k];
        }
      }
    }
  }

  /** In every run, each entry of the map is what some worker's call to that endorser returned. */
  lemma ResponsesAreAnswers(endorsers: seq<string>, actions: seq<Action>)
    requires Run(Initial(endorsers), actions).Some?
    ensures var s := Run(Initial(endorsers), actions).value;
            forall e :: e in s.responses ==>
              exists i: nat :: i < |endorsers| && endorsers[i] == e && Answered(actions, i, s.responses[e].response)
  {
    var s := Run(Initial(endorsers), actions).value;
    InitialInv(endorsers);
    RunKeepsInv(Initial(endorsers), endorsers, actions);
    RepliesAreAnswers(endorsers, actions);
    forall e | e in s.responses
      ensures exists i: nat :: i < |endorsers| && endorsers[i] == e && Answered(actions, i, s.responses[e].response)
    {
      var i :| SentReply(s.workers, i, s.responses[e]);
      assert NameOf(s.workers[i]) == endorsers[i];
      assert Answered(actions, i, s.responses[e].response);
    }
  }

  lemma TimeoutStays(s: State, endorsers: seq<string>, a: Action)
    requires Inv(s, endorsers) && s.ctx == DeadlineExceeded && Next(s, a).Some?
    ensures Inv(Next(s, a).value, endorsers) && Next(s, a).value.ctx == DeadlineExceeded
  {
    NextKeepsInv(s, endorsers, a);
  }

  /** A timeout that fires first is final: no continuation returns nil. */
  lemma {:induction false} TimeoutIsFinal(s: State, endorsers: seq<string>, actions: seq<Action>)
    requires Inv(s, endorsers) && s.ctx == DeadlineExceeded && Run(s, actions).Some?
    ensures Run(s, actions).value.ctx == DeadlineExceeded
    ensures Run(s, actions).value.caller != Returned(true)
    decreases |actions|
  {
    if actions != [] {
      TimeoutStays(s, endorsers, actions[0]);
      TimeoutIsFinal(Next(s, actions[0]).value, endorsers, actions[1..]);
    }
  }

  /** Everything has come to an end: all replies received, the collector done, the caller returned. */
  predicate Final(s: State) {
    (forall i :: 0 <= i < |s.workers| ==> s.workers[i].Sent?) && s.collected && s.caller.Returned?
  }

  /** No reachable state short of the final ones is stuck. */
  lemma NotStuck(s: State, endorsers: seq<string>) returns (a: Action)
    requires Inv(s, endorsers) && !Final(s)
    ensures Next(s, a).Some?
  {
    CountSentAll(s.workers);
    if s.received < |s.workers| {
      var i :| 0 <= i < |s.workers| && !s.workers[i].Sent?;
      a := if s.workers[i].Calling? then Answer(i, None) else Receive(i);
    } else if !s.collected {
      a := Cancel;
    } else {
      a := Wake;
    }
  }

  lemma StuckIffFinal(s: State, endorsers: seq<string>)
    requires Inv(s, endorsers)
    ensures (forall a :: Next(s, a).None?) <==> Final(s)
  {
    if Final(s) { NothingLeft(s, endorsers); } else { var a := NotStuck(s, endorsers); }
  }

  function WorkLeft(ws: seq<Worker>): nat {
    if ws == [] then 0
    else (match ws[0] case Calling(_) => 2 case Sending(_) => 1 case Sent(_) => 0) + WorkLeft(ws[1..])
  }

  lemma {:induction false} WorkLeftUpdate(ws: seq<Worker>, i: nat, w: Worker)
    requires i < |ws| && ((ws[i].Calling? && w.Sending?) || (ws[i].Sending? && w.Sent?))
    ensures WorkLeft(ws[i := w]) == WorkLeft(ws) - 1
  {
    if i == 0 {
      assert ws[i := w][1..] == ws[1..];
    } else {
      WorkLeftUpdate(ws[1..], i - 1, w);
      assert ws[i := w][1..] == ws[1..][i - 1 := w];
    }
  }

  /** The number of steps that can still happen. */
  function StepsLeft(s: State): nat {
    WorkLeft(s.workers) + (if s.collected then 0 else 1) + (if s.ctx == Active then 1 else 0) + (if s.caller == Waiting then 1 else 0)
  }

  lemma StepsDecrease(s: State, a: Action)
    requires Next(s, a).Some?
    ensures StepsLeft(Next(s, a).value) < StepsLeft(s)
  {
    match a {
      case Answer(i, _) => WorkLeftUpdate(s.workers, i, Next(s, a).value.workers[i]);
      case Receive(i) => WorkLeftUpdate(s.workers, i, Next(s, a).value.workers[i]);
      case Cancel =>
      case Timeout =>
      case Wake =>
    }
  }

  lemma {:induction false} InitialWork(ws: seq<Worker>)
    requires forall i :: 0 <= i < |ws| ==> ws[i].Calling?
    ensures WorkLeft(ws) == 2 * |ws|
  {
    if ws != [] { InitialWork(ws[1..]); }
  }

  lemma {:induction false} RunBounded(s: State, actions: seq<Action>)
    requires Run(s, actions).Some?
    ensures |actions| + StepsLeft(Run(s, actions).value) <= StepsLeft(s)
    decreases |actions|
  {
    if actions != [] {
      StepsDecrease(s, actions[0]);
      RunBounded(Next(s, actions[0]).value, actions[1..]);
    }
  }

  /**
   * Every run of n endorsers has at most 2n + 3 steps, and one that can go no further has
   * matched every worker's send with a receive and returned to the caller.
   */
  lemma RunsComplete(endorsers: seq<string>, actions: seq<Action>)
    requires Run(Initial(endorsers), actions).Some?
    ensures |actions| <= 2 * |endorsers| + 3
    ensures var s := Run(Initial(endorsers), actions).value;
            (forall a :: Next(s, a).None?) <==> Final(s)
  {
    InitialInv(endorsers);
    RunKeepsInv(Initial(endorsers), endorsers, actions);
    InitialWork(Initial(endorsers).workers);
    RunBounded(Initial(endorsers), actions);
    StuckIffFinal(Run(Initial(endorsers), actions).value, endorsers);
  }
}
