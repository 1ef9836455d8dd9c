/** The stream's closures over shared variables, one method each, and the consumer's loop between suspensions. */
module WsClient {
  import opened Wrappers
  import opened StreamEvents
  import opened WsStream

  class StreamWS {
    var queue: seq<StreamEvent>
    var resolveNext: bool
    var closed: bool
    var closeError: Option<GateError>
    /** Where the generator is suspended, and what its promise was resolved with. */
    var phase: Phase
    ghost var pushed: seq<StreamEvent>
    ghost var yielded: seq<StreamEvent>
    ghost var beforeClosing: nat

    constructor ()
      ensures Value() == START
    {
      queue, resolveNext, closed, closeError, phase := [], false, false, None, LoopTop;
      pushed, yielded, beforeClosing := [], [], 0;
    }

    ghost function Value(): State
      reads this
    {
      State(queue, resolveNext, closed, closeError, phase, pushed, yielded, beforeClosing)
    }

    method Push(e: StreamEvent)
      modifies this
      ensures Value() == WsStream.Push(old(Value()), e)
    {
      if resolveNext {
        resolveNext := false;
        phase := Resolved(Resolution.Value(e));
      } else {
        queue := queue + [e];
      }
      beforeClosing := if closed then beforeClosing else |pushed| + 1;
      pushed := pushed + [e];
      if e.Done? || e.ErrorEvent? {
        Close();
      }
    }

    method Close()
      modifies this
      ensures Value() == WsStream.Close(old(Value()))
    {
      if closed {
        return;
      }
      closed := true;
      if resolveNext {
        resolveNext := false;
        phase := Resolved(Finish(closeError));
      }
    }

    method OnError(err: GateError)
      modifies this
      ensures Value() == Fail(old(Value()), err)
    {
      closeError := Some(err);
      Close();
    }

    method OnClose()
      modifies this
      ensures Value() == WsStream.OnClose(old(Value()))
    {
      closed := true;
      if resolveNext {
        resolveNext := false;
        phase := Resolved(Finish(closeError));
      }
    }

    /** The generator from one suspension to the next. */
    method Resume()
      modifies this
      ensures Value() == Consume(old(Value()))
    {
      match phase {
        case AtYield(e) => phase := if e.Done? || e.ErrorEvent? then Returned else LoopTop;
        case Resolved(result) =>
          match result {
            case Value(e) => yielded := yielded + [e]; phase := AtYield(e);
            case Finish(err) => phase := if err.Some? then Threw(err.value) else Returned;
          }
        case LoopTop =>
          if |queue| > 0 {
            var next := queue[0];
            queue := queue[1..];
            yielded := yielded + [next];
            phase := AtYield(next);
          } else if closed {
            phase := if closeError.Some? then Threw(closeError.value) else Returned;
          } else {
            resolveNext := true;
            phase := Parked;
          }
        case _ =>
      }
    }
  }
}
