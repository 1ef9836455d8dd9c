/** The Go client in its own form: scan loops, a tracking writer and the reconnect loop. */
module SseGoClient {
  import opened Wrappers
  import opened SseText
  import opened SseGo

  /** What goes into the channel: a parsed frame, or the synthetic error frame of a failure. */
  datatype Sent = Frame(event: GoEvent) | Failure(reason: ScanEnd) | GaveUp | Upstream(status: int)

  function Frames(events: seq<GoEvent>): seq<Sent> {
    if events == [] then [] else Frames(events[..|events| - 1]) + [Frame(events[|events| - 1])]
  }

  lemma {:induction false} FramesAppend(xs: seq<GoEvent>, ys: seq<GoEvent>)
    ensures Frames(xs + ys) == Frames(xs) + Frames(ys)
    decreases |ys|
  {
    if ys == [] {
      assert xs + ys == xs;
    } else {
      assert (xs + ys)[..|xs + ys| - 1] == xs + ys[..|ys| - 1];
      FramesAppend(xs, ys[..|ys| - 1]);
    }
  }

  lemma {:induction false} LastIdAppend(before: string, xs: seq<GoEvent>, ys: seq<GoEvent>)
    ensures LastId(before, xs + ys) == LastId(LastId(before, xs), ys)
    decreases |ys|
  {
    if ys == [] {
      assert xs + ys == xs;
    } else {
      assert (xs + ys)[..|xs + ys| - 1] == xs + ys[..|ys| - 1];
      LastIdAppend(before, xs, ys[..|ys| - 1]);
    }
  }

  /** The events parsed so far and those still to come are the events of the whole. */
  ghost predicate Completes(whole: Parsed, events: seq<GoEvent>, rest: Parsed) {
    whole.events == events + rest.events && whole.end == rest.end
  }

  lemma CompletesLine(whole: Parsed, events: seq<GoEvent>, cur: Cur, lines: seq<string>, i: nat, fails: bool, maxBytes: int)
    requires i < |lines| && Completes(whole, events, Parse(cur, lines[i..], fails, maxBytes))
    ensures var line, next := lines[i], After(cur, lines[i]);
            if next.dataBytes > maxBytes && next.dataLines != cur.dataLines then whole == Parsed(events, Overflow)
            else Completes(whole, events + (if line == "" then Dispatched(cur) else []),
                           Parse(next, lines[i + 1..], fails, maxBytes))
    ensures events + [] == events
  {
    var line := lines[i];
    assert lines[i..][0] == line && lines[i..][1..] == lines[i + 1..];
    Regroup(events, if line == "" then Dispatched(cur) else [], Parse(After(cur, line), lines[i + 1..], fails, maxBytes).events);
  }

  lemma CompletesEnd(whole: Parsed, events: seq<GoEvent>, cur: Cur, lines: seq<string>, fails: bool, maxBytes: int)
    requires Completes(whole, events, Parse(cur, lines[|lines|..], fails, maxBytes))
    ensures whole == if fails then Parsed(events, ScanFailed) else Parsed(events + Dispatched(cur), CleanEof)
  {
    assert lines[|lines|..] == [] && events + [] == events;
  }

  /** What a dispatch puts into the channel. */
  function Outgoing(cur: Cur): (out: seq<Sent>)
    ensures out == Frames(Dispatched(cur))
  {
    assert Dispatch(cur).Some? ==> Dispatched(cur)[..0] == [];
    if Dispatch(cur).Some? then [Frame(Dispatch(cur).value)] else []
  }

  predicate IsData(line: string) {
    line != "" && line[0] != ':' && Field(line).0 == "data"
  }

  lemma OnlyDataOverflows(cur: Cur, line: string)
    ensures After(cur, line).dataLines != cur.dataLines && After(cur, line).dataBytes > 0 ==> IsData(line)
    ensures IsData(line) ==> After(cur, line).dataLines != cur.dataLines && After(cur, line).dataBytes > 0
    ensures !IsData(line) ==> After(cur, line).dataLines == cur.dataLines || After(cur, line).dataBytes == 0
  {
    if IsData(line) {
      assert |After(cur, line).dataLines| == |cur.dataLines| + 1;
    }
  }

  /** The untracked parser; `room` says whether the channel takes a synthetic error. */
  method ParseSSE(lines: seq<string>, scanFails: bool, maxBytes: nat, room: bool) returns (ch: seq<Sent>)
    ensures var p := Parse(FRESH, lines, scanFails, maxBytes);
            ch == Frames(p.events) + if p.end.CleanEof? || !room then [] else [Failure(p.end)]
  {
    ghost var whole := Parse(FRESH, lines, scanFails, maxBytes);
    ghost var events := [];
    var cur := FRESH;
    assert lines[0..] == lines && [] + whole.events == whole.events;
    ch := [];
    for i := 0 to |lines|
      invariant Completes(whole, events, Parse(cur, lines[i..], scanFails, maxBytes)) && ch == Frames(events)
    {
      var line := lines[i];
      CompletesLine(whole, events, cur, lines, i, scanFails, maxBytes);
      OnlyDataOverflows(cur, line);
      if line == "" {
        FramesAppend(events, Dispatched(cur));
        events := events + Dispatched(cur);
        ch := ch + Outgoing(cur);
        cur := FRESH;
      } else if line[0] != ':' {
        cur := TakeField(cur, line);
        if Field(line).0 == "data" && cur.dataBytes > maxBytes {
          return if room then ch + [Failure(Overflow)] else ch + [];
        }
      }
    }
    CompletesEnd(whole, events, cur, lines, scanFails, maxBytes);
    if scanFails {
      return if room then ch + [Failure(ScanFailed)] else ch + [];
    }
    FramesAppend(events, Dispatched(cur));
    ch := ch + Outgoing(cur) + [];
  }

  /** The output channel and the last event id, updated as events are delivered. */
  class ReconnectTrackingWriter {
    var ch: seq<Sent>
    var lastEventId: string

    constructor ()
      ensures ch == [] && lastEventId == ""
    {
      ch, lastEventId := [], "";
    }

    method Emit(ev: GoEvent)
      modifies this
      ensures ch == old(ch) + Frames([ev]) && lastEventId == LastId(old(lastEventId), [ev])
    {
      assert [ev][..0] == [];
      if ev.id != "" {
        lastEventId := ev.id;
      }
      ch := ch + [Frame(ev)];
    }

    method DispatchCurrent(cur: Cur)
      modifies this
      ensures ch == old(ch) + Frames(Dispatched(cur)) && lastEventId == LastId(old(lastEventId), Dispatched(cur))
    {
      var ev := Dispatch(cur);
      if ev.Some? {
        Emit(ev.value);
      } else {
        assert ch + [] == ch;
      }
    }
  }

  /** What the tracker holds after `events` on top of what it held before. */
  ghost predicate Holds(ch0: seq<Sent>, id0: string, events: seq<GoEvent>, ch: seq<Sent>, id: string) {
    ch == ch0 + Frames(events) && id == LastId(id0, events)
  }

  lemma HoldsMore(ch0: seq<Sent>, id0: string, xs: seq<GoEvent>, ch: seq<Sent>, id: string, ys: seq<GoEvent>)
    requires Holds(ch0, id0, xs, ch, id)
    ensures Holds(ch0, id0, xs + ys, ch + Frames(ys), LastId(id, ys))
  {
    FramesAppend(xs, ys);
    LastIdAppend(id0, xs, ys);
    Regroup(ch0, Frames(xs), Frames(ys));
  }

  /** The tracked parser dispatches the same events and leaves the id of the last one that has any. */
  method ParseSSETracked(lines: seq<string>, scanFails: bool, maxBytes: nat, room: bool, tracker: ReconnectTrackingWriter)
    returns (cleanEof: bool)
    modifies tracker
    ensures var p := Parse(FRESH, lines, scanFails, maxBytes);
            && cleanEof == p.end.CleanEof?
            && tracker.lastEventId == LastId(old(tracker.lastEventId), p.events)
            && tracker.ch == old(tracker.ch) + Frames(p.events) + if p.end.Overflow? && room then [Failure(Overflow)] else []
  {
    ghost var whole := Parse(FRESH, lines, scanFails, maxBytes);
    ghost var events := [];
    var cur := FRESH;
    assert lines[0..] == lines && [] + whole.events == whole.events && tracker.ch + [] == tracker.ch;
    for i := 0 to |lines|
      invariant Completes(whole, events, Parse(cur, lines[i..], scanFails, maxBytes))
      invariant Holds(old(tracker.ch), old(tracker.lastEventId), events, tracker.ch, tracker.lastEventId)
    {
      var line := lines[i];
      CompletesLine(whole, events, cur, lines, i, scanFails, maxBytes);
      OnlyDataOverflows(cur, line);
      if line == "" {
        HoldsMore(old(tracker.ch), old(tracker.lastEventId), events, tracker.ch, tracker.lastEventId, Dispatched(cur));
        tracker.DispatchCurrent(cur);
        events := events + Dispatched(cur);
        cur := FRESH;
      } else if line[0] != ':' {
        cur := TakeField(cur, line);
        if Field(line).0 == "data" && cur.dataBytes > maxBytes {
          tracker.ch := tracker.ch + if room then [Failure(Overflow)] else [];
          return false;
        }
      }
    }
    CompletesEnd(whole, events, cur, lines, scanFails, maxBytes);
    if scanFails {
      assert tracker.ch + [] == tracker.ch;
      return false;
    }
    HoldsMore(old(tracker.ch), old(tracker.lastEventId), events, tracker.ch, tracker.lastEventId, Dispatched(cur));
    tracker.DispatchCurrent(cur);
    assert tracker.ch + [] == tracker.ch;
    cleanEof := true;
  }
}
