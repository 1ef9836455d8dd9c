/**
  The WebSocket stream: callbacks push and close while one consumer shifts a queue or is
  parked on a promise. Every callback and every stretch of the consumer between two
  suspensions runs to completion, so a run is a sequence of these steps in any order.
 */
module WsStream {
  import opened Wrappers
  import opened StreamEvents

  datatype GateError = WsError | SendFailed

  /** What the promise of a parked consumer is resolved with. */
  datatype Resolution = Value(event: StreamEvent) | Finish(error: Option<GateError>)

  datatype Phase =
    | LoopTop
    | AtYield(event: StreamEvent)
    | Parked
    | Resolved(result: Resolution)
    | Returned
    | Threw(error: GateError)

  /** `pushed`, `yielded` and `beforeClosing` record the run; no step reads them. */
  datatype State = State(
    queue: seq<StreamEvent>,
    resolveNext: bool,
    closed: bool,
    closeError: Option<GateError>,
    phase: Phase,
    pushed: seq<StreamEvent>,
    yielded: seq<StreamEvent>,
    beforeClosing: nat)

  const START := State([], false, false, None, LoopTop, [], [], 0)

  function Resolve(s: State, r: Resolution): State {
    s.(resolveNext := false, phase := Resolved(r))
  }

  function Close(s: State): State {
    if s.closed then s
    else if s.resolveNext then Resolve(s.(closed := true), Finish(s.closeError))
    else s.(closed := true)
  }

  function Push(s: State, e: StreamEvent): State {
    var handed := if s.resolveNext then Resolve(s, Value(e)) else s.(queue := s.queue + [e]);
    var recorded := handed.(pushed := s.pushed + [e], beforeClosing := if s.closed then s.beforeClosing else |s.pushed| + 1);
    if Terminal(e) then Close(recorded) else recorded
  }

  /** `onerror`, and a subscription that cannot be sent. */
  function Fail(s: State, err: GateError): State {
    Close(s.(closeError := Some(err)))
  }

  function OnClose(s: State): State {
    var s' := s.(closed := true);
    if s.resolveNext then Resolve(s', Finish(s.closeError)) else s'
  }

  /** The consumer from one suspension to the next; parked and finished consumers do not move. */
  function Consume(s: State): State {
    match s.phase
    case LoopTop =>
      if s.queue != [] then s.(queue := s.queue[1..], phase := AtYield(s.queue[0]), yielded := s.yielded + [s.queue[0]])
      else if s.closed then s.(phase := if s.closeError.Some? then Threw(s.closeError.value) else Returned)
      else s.(resolveNext := true, phase := Parked)
    case AtYield(e) => s.(phase := if Terminal(e) then Returned else LoopTop)
    case Resolved(Value(e)) => s.(phase := AtYield(e), yielded := s.yielded + [e])
    case Resolved(Finish(err)) => s.(phase := if err.Some? then Threw(err.value) else Returned)
    case _ => s
  }

  datatype Step = PushStep(event: StreamEvent) | CloseStep | FailStep(error: GateError) | OnCloseStep | ConsumeStep

  function Next(s: State, step: Step): State {
    match step
    case PushStep(e) => Push(s, e)
    case CloseStep => Close(s)
    case FailStep(err) => Fail(s, err)
    case OnCloseStep => OnClose(s)
    case ConsumeStep => Consume(s)
  }

  function Run(steps: seq<Step>): State {
    if steps == [] then START else Next(Run(steps[..|steps| - 1]), steps[|steps| - 1])
  }

  // ---- the invariant ----------------------------------------------------------------------

  /** The event between the callback that handed it over and the consumer that will yield it. */
  function InFlight(s: State): seq<StreamEvent> {
    if s.phase.Resolved? && s.phase.result.Value? then [s.phase.result.event] else []
  }

  predicate Ended(s: State) {
    s.phase.Returned? || s.phase.Threw? || (s.phase.Resolved? && s.phase.result.Finish?)
  }

  predicate YieldedTerminal(s: State) {
    s.yielded != [] && Terminal(s.yielded[|s.yielded| - 1])
  }

  ghost predicate Inv(s: State) {
    && s.pushed == s.yielded + InFlight(s) + s.queue
    && (s.resolveNext <==> s.phase.Parked?)
    && (s.phase.Parked? ==> s.queue == [] && !s.closed)
    && s.beforeClosing <= |s.pushed| && (!s.closed ==> s.beforeClosing == |s.pushed|)
    && (forall i | 0 <= i < |s.yielded| - 1 :: !Terminal(s.yielded[i]))
    && (s.phase.AtYield? ==> s.yielded != [] && s.yielded[|s.yielded| - 1] == s.phase.event)
    && (YieldedTerminal(s) ==> s.phase.AtYield? || s.phase.Returned?)
    && (Ended(s) ==> s.closed && (YieldedTerminal(s) || |s.yielded| >= s.beforeClosing))
    && (s.closed || forall i | 0 <= i < |s.pushed| :: !Terminal(s.pushed[i]))
    && (s.phase.Threw? ==> s.closeError.Some?)
    && (s.phase.Resolved? && s.phase.result.Finish? && s.phase.result.error.Some? ==> s.closeError.Some?)
  }

  lemma PushKeepsInv(s: State, e: StreamEvent)
    requires Inv(s)
    ensures Inv(Push(s, e))
  {
    var s' := Push(s, e);
    assert s'.pushed == s.pushed + [e];
    if s.resolveNext {
      assert s.yielded + [] + [] == s.yielded;
      assert s'.yielded + [e] + [] == s.yielded + [e];
    } else {
      assert s.yielded + InFlight(s) + (s.queue + [e]) == (s.yielded + InFlight(s) + s.queue) + [e];
    }
  }

  lemma YieldKeepsInv(s: State, e: StreamEvent, rest: seq<StreamEvent>)
    requires Inv(s) && s.pushed == s.yielded + ([e] + rest) && !s.resolveNext
    requires s.phase.LoopTop? || s.phase.Resolved?
    ensures Inv(s.(queue := rest, phase := AtYield(e), yielded := s.yielded + [e]))
  {
    var s' := s.(queue := rest, phase := AtYield(e), yielded := s.yielded + [e]);
    assert s.pushed == s'.yielded + [] + rest;
  }

  lemma AfterYieldKeepsInv(s: State)
    requires Inv(s) && s.phase.AtYield?
    ensures Inv(Consume(s))
  {
    assert s.pushed == s.yielded + (InFlight(s) + s.queue);
    assert s.pushed[|s.yielded| - 1] == s.phase.event;
  }

  lemma ConsumeKeepsInv(s: State)
    requires Inv(s)
    ensures Inv(Consume(s))
  {
    if s.phase.LoopTop? && s.queue != [] {
      assert s.queue == [s.queue[0]] + s.queue[1..];
      assert s.pushed == s.yielded + ([s.queue[0]] + s.queue[1..]);
      YieldKeepsInv(s, s.queue[0], s.queue[1..]);
    } else if s.phase.Resolved? && s.phase.result.Value? {
      assert s.pushed == s.yielded + ([s.phase.result.event] + s.queue);
      YieldKeepsInv(s, s.phase.result.event, s.queue);
    } else if s.phase.AtYield? {
      AfterYieldKeepsInv(s);
    }
  }

  lemma NextKeepsInv(s: State, step: Step)
    requires Inv(s)
    ensures Inv(Next(s, step))
  {
    match step
    case PushStep(e) => PushKeepsInv(s, e);
    case ConsumeStep => ConsumeKeepsInv(s);
    case _ =>
  }

  lemma {:induction false} ReachableInv(steps: seq<Step>)
    ensures Inv(Run(steps))
  {
    if steps != [] {
      ReachableInv(steps[..|steps| - 1]);
      NextKeepsInv(Run(steps[..|steps| - 1]), steps[|steps| - 1]);
    }
  }

  // ---- theorems ---------------------------------------------------------------------------

  /** What is yielded is a prefix of what was pushed, and only its last event can be terminal. */
  lemma YieldsAFaithfulPrefix(steps: seq<Step>)
    ensures var s := Run(steps);
            s.yielded <= s.pushed && forall i | 0 <= i < |s.yielded| - 1 :: !Terminal(s.yielded[i])
  {
    ReachableInv(steps);
    var s := Run(steps);
    assert s.pushed == s.yielded + (InFlight(s) + s.queue);
  }

  /** No lost wake-up: a consumer is parked only on an empty queue and an open socket. */
  lemma ParkedMeansIdle(steps: seq<Step>)
    ensures var s := Run(steps); s.phase.Parked? ==> s.queue == [] && !s.closed && s.resolveNext
  {
    ReachableInv(steps);
  }

  /** Every error stored, on its way to the consumer or thrown was handed over by a callback. */
  ghost predicate ErrorsAreGiven(s: State, steps: seq<Step>) {
    && (s.closeError.Some? ==> FailStep(s.closeError.value) in steps)
    && (s.phase.Resolved? && s.phase.result.Finish? && s.phase.result.error.Some? ==> FailStep(s.phase.result.error.value) in steps)
    && (s.phase.Threw? ==> FailStep(s.phase.error) in steps)
  }

  lemma {:induction false} ErrorsStayGiven(steps: seq<Step>)
    ensures ErrorsAreGiven(Run(steps), steps)
  {
    if steps != [] {
      ErrorsStayGiven(steps[..|steps| - 1]);
      assert forall x | x in steps[..|steps| - 1] :: x in steps;
      assert steps[|steps| - 1] in steps;
    }
  }

  /** The consumer throws only an error that a callback handed over, and never after a terminal event. */
  lemma ThrowsOnlyCloseErrors(steps: seq<Step>)
    ensures var s := Run(steps);
            s.phase.Threw? ==>
              (FailStep(s.phase.error) in steps && s.closeError.Some? && s.closed && |s.yielded| >= s.beforeClosing
               && forall i | 0 <= i < |s.yielded| :: !Terminal(s.yielded[i]))
  {
    ReachableInv(steps);
    ErrorsStayGiven(steps);
  }

  /** The position of the first terminal event pushed, or the number of events. */
  function FirstTerminal(es: seq<StreamEvent>): (i: nat)
    ensures i <= |es| && (i < |es| ==> Terminal(es[i])) && forall j | 0 <= j < i :: !Terminal(es[j])
  {
    if es == [] || Terminal(es[0]) then 0 else 1 + FirstTerminal(es[1..])
  }

  predicate Settled(s: State) {
    s.phase.Parked? || s.phase.Returned? || s.phase.Threw?
  }

  function Moves(s: State): nat {
    3 * |s.queue| + match s.phase
                    case Resolved(_) => 3
                    case AtYield(_) => 2
                    case LoopTop => 1
                    case _ => 0
  }

  /** The consumer left alone until it is parked or has finished. */
  function Drain(s: State): (d: State)
    ensures Settled(d) && d.pushed == s.pushed && d.beforeClosing == s.beforeClosing
    decreases Moves(s)
  {
    if Settled(s) then s else Drain(Consume(s))
  }

  /** What a consumer that has not ended yields of `pushed`: all of it, or up to the first terminal event. */
  function Deliverable(pushed: seq<StreamEvent>): nat {
    var n := FirstTerminal(pushed);
    if n < |pushed| then n + 1 else n
  }

  lemma YieldedPrefix(s: State)
    requires Inv(s)
    ensures s.yielded <= s.pushed
    ensures YieldedTerminal(s) ==> |s.yielded| == Deliverable(s.pushed)
    ensures !YieldedTerminal(s) ==> |s.yielded| <= FirstTerminal(s.pushed)
  {
    assert s.pushed == s.yielded + (InFlight(s) + s.queue);
    assert forall i | 0 <= i < |s.yielded| :: s.pushed[i] == s.yielded[i];
  }

  /** Parked, or ended by this very step: everything pushed has been yielded, or a terminal event has. */
  lemma SettlingYields(s: State)
    requires Inv(s) && !Ended(s) && (s.phase.Parked? || Ended(Consume(s)))
    ensures Consume(s).yielded == s.yielded && |s.yielded| == Deliverable(s.pushed)
  {
    YieldedPrefix(s);
    if !s.phase.AtYield? {
      assert s.pushed == s.yielded + [] + [] == s.yielded;
    }
  }

  lemma EndedStaysEnded(s: State)
    requires Inv(s) && Ended(s)
    ensures Drain(s).yielded == s.yielded
  {
    assert Settled(Consume(s)) && Consume(s).yielded == s.yielded;
  }

  /** The consumer left alone yields exactly what is deliverable, or nothing more when it has ended. */
  lemma {:induction false} DrainYields(s: State)
    requires Inv(s)
    ensures Drain(s).yielded <= s.pushed
    ensures |Drain(s).yielded| == if Ended(s) then |s.yielded| else Deliverable(s.pushed)
    decreases Moves(s)
  {
    YieldedPrefix(s);
    if Ended(s) {
      EndedStaysEnded(s);
    } else {
      ConsumeKeepsInv(s);
      if s.phase.Parked? || Ended(Consume(s)) {
        SettlingYields(s);
      }
      if !s.phase.Parked? {
        DrainYields(Consume(s));
      }
    }
  }

  /**
    Nothing pushed before closing is lost: from every reachable state the consumer alone
    yields all of it in order, up to the first terminal event and no further.
   */
  lemma NothingBeforeClosingIsLost(steps: seq<Step>)
    ensures var s, d := Run(steps), Drain(Run(steps));
            var n := FirstTerminal(s.pushed);
            && d.yielded <= s.pushed && |d.yielded| <= n + 1
            && (|d.yielded| >= s.beforeClosing || |d.yielded| == n + 1)
  {
    ReachableInv(steps);
    DrainYields(Run(steps));
    YieldedPrefix(Run(steps));
  }

  /** How a consumer that is left alone ends: `None` while it waits for more, otherwise with this error or with none. */
  function Ending(s: State): Option<Option<GateError>> {
    match s.phase
    case Returned => Some(None)
    case Threw(err) => Some(Some(err))
    case Resolved(Finish(err)) => Some(err)
    case _ =>
      if FirstTerminal(s.pushed) < |s.pushed| then Some(None)
      else if s.closed then Some(s.closeError)
      else None
  }

  /** Before it ends by itself: after a terminal event it returns, on a closed socket with an error it throws that. */
  lemma {:induction false} DrainEnds(s: State)
    requires Inv(s)
    ensures match Ending(s)
            case None => Drain(s).phase == Parked
            case Some(None) => Drain(s).phase == Returned
            case Some(Some(err)) => Drain(s).phase == Threw(err)
    decreases Moves(s)
  {
    YieldedPrefix(s);
    if !Settled(s) {
      ConsumeKeepsInv(s);
      StepKeepsEnding(s);
      DrainEnds(Consume(s));
    }
  }

  lemma StepKeepsEnding(s: State)
    requires Inv(s) && !Settled(s)
    ensures Ending(Consume(s)) == Ending(s)
  {
    YieldedPrefix(s);
    if s.phase.LoopTop? && s.queue == [] {
      assert s.pushed == s.yielded + [] + [] == s.yielded;
    }
    if s.phase.AtYield? && Terminal(s.phase.event) {
      assert s.pushed[|s.yielded| - 1] == s.phase.event;
    }
  }

  /**
    A socket error that reaches a consumer which has not ended is thrown, once all that was
    pushed is yielded, exactly when no terminal event was pushed; one that comes after the end
    changes nothing.
   */
  lemma FailureIsThrownExactly(steps: seq<Step>, err: GateError)
    ensures var s := Run(steps);
            var d := Drain(Next(s, FailStep(err)));
            if Ended(s) then d.phase == Drain(s).phase
            else (d.phase == Threw(err) <==> FirstTerminal(s.pushed) == |s.pushed|)
                 && (d.phase == Returned <==> FirstTerminal(s.pushed) < |s.pushed|)
  {
    var s := Run(steps);
    ReachableInv(steps);
    NextKeepsInv(s, FailStep(err));
    DrainEnds(s);
    DrainEnds(Next(s, FailStep(err)));
  }

  /** Without an error a closed stream ends quietly, and an open one goes on waiting. */
  lemma QuietEndExactly(steps: seq<Step>)
    ensures var s := Run(steps);
            !Ended(s) && s.closeError.None? ==>
              (Drain(s).phase == Returned <==> s.closed) && (Drain(s).phase == Parked <==> !s.closed)
  {
    ReachableInv(steps);
    DrainEnds(Run(steps));
  }

  lemma FirstTerminalMore(es: seq<StreamEvent>, e: StreamEvent)
    ensures FirstTerminal(es) < |es| ==> FirstTerminal(es + [e]) == FirstTerminal(es)
    ensures FirstTerminal(es) == |es| ==> Deliverable(es + [e]) == |es| + 1
  {
    assert forall i | 0 <= i < |es| :: (es + [e])[i] == es[i];
  }

  /** Pushing neither ends a consumer nor revives one. */
  lemma PushKeepsEnded(s: State, e: StreamEvent)
    requires Inv(s)
    ensures Ended(Push(s, e)) <==> Ended(s)
    ensures Push(s, e).pushed == s.pushed + [e] && Push(s, e).yielded == s.yielded
  {
  }

  /**
    An event pushed at any time, before or after closing, is yielded by a consumer left
    alone exactly when the consumer has not ended and no terminal event came before it.
   */
  lemma PushedIsYieldedExactly(steps: seq<Step>, e: StreamEvent)
    ensures |Drain(Push(Run(steps), e)).yielded| > |Run(steps).pushed|
            <==> !Ended(Run(steps)) && forall i | 0 <= i < |Run(steps).pushed| :: !Terminal(Run(steps).pushed[i])
  {
    var s := Run(steps);
    ReachableInv(steps);
    PushKeepsInv(s, e);
    PushKeepsEnded(s, e);
    DrainYields(Push(s, e));
    YieldedPrefix(s);
    FirstTerminalMore(s.pushed, e);
    if FirstTerminal(s.pushed) < |s.pushed| {
      assert Terminal(s.pushed[FirstTerminal(s.pushed)]);
    }
  }

  lemma NextStaysEnded(s: State, step: Step)
    requires Inv(s) && Ended(s)
    ensures Ended(Next(s, step)) && Next(s, step).yielded == s.yielded
  {
  }

  lemma {:induction false} EndedForGood(steps: seq<Step>, later: seq<Step>)
    requires Ended(Run(steps))
    ensures Ended(Run(steps + later)) && Run(steps + later).yielded == Run(steps).yielded
    decreases |later|
  {
    if later == [] {
      assert steps + [] == steps;
    } else {
      var n := |later| - 1;
      assert (steps + later)[..|steps + later| - 1] == steps + later[..n] && (steps + later)[|steps + later| - 1] == later[n];
      EndedForGood(steps, later[..n]);
      ReachableInv(steps + later[..n]);
      NextStaysEnded(Run(steps + later[..n]), later[n]);
    }
  }

  lemma {:induction false} PushedGrows(steps: seq<Step>, later: seq<Step>)
    ensures Run(steps).pushed <= Run(steps + later).pushed
    decreases |later|
  {
    if later == [] {
      assert steps + [] == steps;
    } else {
      var n := |later| - 1;
      assert (steps + later)[..|steps + later| - 1] == steps + later[..n] && (steps + later)[|steps + later| - 1] == later[n];
      PushedGrows(steps, later[..n]);
    }
  }

  /** An event that is not yielded that way is lost for good: whatever follows, the consumer stops short of it. */
  lemma OtherwiseLostForGood(steps: seq<Step>, e: StreamEvent, later: seq<Step>)
    requires |Drain(Push(Run(steps), e)).yielded| <= |Run(steps).pushed|
    ensures |Run(steps + [PushStep(e)] + later).yielded| <= |Run(steps).pushed|
  {
    var s, end := Run(steps), Run(steps + [PushStep(e)] + later);
    ReachableInv(steps);
    PushedIsYieldedExactly(steps, e);
    assert steps + [PushStep(e)] + later == steps + ([PushStep(e)] + later);
    if Ended(s) {
      EndedForGood(steps, [PushStep(e)] + later);
      YieldedPrefix(s);
    } else {
      PushedGrows(steps, [PushStep(e)] + later);
      ReachableInv(steps + ([PushStep(e)] + later));
      YieldedPrefix(end);
      var i :| 0 <= i < |s.pushed| && Terminal(s.pushed[i]);
      assert end.pushed[i] == s.pushed[i];
    }
  }

  /** So an event that arrives between closing and the consumer's wake-up is dropped. */
  lemma LateEventIsDropped(e: StreamEvent)
    ensures var s := Run([ConsumeStep, CloseStep, PushStep(e), ConsumeStep]);
            s.pushed == [e] && s.yielded == [] && s.phase == Returned && s.beforeClosing == 0
  {
    var steps := [ConsumeStep, CloseStep, PushStep(e), ConsumeStep];
    assert steps[..3] == [ConsumeStep, CloseStep, PushStep(e)];
    assert steps[..3][..2] == [ConsumeStep, CloseStep] && steps[..3][..2][..1] == [ConsumeStep];
    assert steps[..3][..2][..1][..0] == [];
    var s1 := Run([ConsumeStep]);
    assert s1 == START.(resolveNext := true, phase := Parked);
    var s2 := Run([ConsumeStep, CloseStep]);
    assert s2 == s1.(closed := true, resolveNext := false, phase := Resolved(Finish(None)));
    var s3 := Run([ConsumeStep, CloseStep, PushStep(e)]);
    assert s3.pushed == [e] && s3.phase == Resolved(Finish(None));
  }
}
