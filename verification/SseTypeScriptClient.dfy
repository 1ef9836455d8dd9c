/** The TypeScript client in its own form: buffers, counters and loops. */
module SseTypeScriptClient {
  import opened Wrappers
  import opened SseText
  import opened StreamEvents
  import opened SseTypeScript
  import opened SseReconnect

  function IndexOf(s: string, c: char, from: nat): (i: int)
    requires from <= |s| && forall j | 0 <= j < from :: s[j] != c
    ensures -1 <= i < |s| && (i >= 0 ==> s[i] == c && forall j | 0 <= j < i :: s[j] != c)
    ensures i == -1 <==> c !in s
    decreases |s| - from
  {
    if from == |s| then -1 else if s[from] == c then from else IndexOf(s, c, from + 1)
  }

  function IndexOfNewline(s: string): (i: int)
    ensures i == if HasLine(s) then FirstBreak(s) else -1
  {
    var lf, cr := IndexOf(s, '\n', 0), IndexOf(s, '\r', 0);
    if lf == -1 then cr else if cr == -1 then lf else if lf < cr then lf else cr
  }

  /** The line reader over a stream that arrives in `chunks` and may break off. */
  method ReadLines(chunks: seq<string>, broken: bool) returns (lines: seq<string>)
    ensures lines == if broken then EachLine(Flatten(chunks)) else AllLines(Flatten(chunks))
  {
    var buffer := "";
    lines := [];
    assert chunks[0..] == chunks && "" + Flatten(chunks) == Flatten(chunks);
    assert [] + EachLine(Flatten(chunks)) == EachLine(Flatten(chunks));
    for i := 0 to |chunks|
      invariant EachLine(Flatten(chunks)) == lines + EachLine(buffer + Flatten(chunks[i..]))
      invariant EachRest(Flatten(chunks)) == EachRest(buffer + Flatten(chunks[i..]))
      invariant LineFree(buffer)
    {
      ghost var later := Flatten(chunks[i + 1..]);
      assert chunks[i..][0] == chunks[i] && chunks[i..][1..] == chunks[i + 1..];
      Regroup(buffer, chunks[i], later);
      buffer := buffer + chunks[i];
      var nl := IndexOfNewline(buffer);
      while nl != -1
        invariant nl == if HasLine(buffer) then FirstBreak(buffer) else -1
        invariant EachLine(Flatten(chunks)) == lines + EachLine(buffer + later)
        invariant EachRest(Flatten(chunks)) == EachRest(buffer + later)
        decreases |buffer|
      {
        EachAppendHead(buffer, later);
        Regroup(lines, [buffer[..nl]], EachLine(EachTail(buffer) + later));
        lines := lines + [buffer[..nl]];
        buffer := buffer[nl + 1..];
        nl := IndexOfNewline(buffer);
      }
    }
    assert Flatten(chunks[|chunks|..]) == "" && buffer + "" == buffer && EachLine(buffer) == [];
    assert lines + [] == lines;
    if !broken && buffer != "" {
      lines := lines + [buffer];
    }
  }

  /** `total` is `events` and `ids` so far followed by `rest`. */
  ghost predicate Completes(total: Outcome, events: seq<StreamEvent>, ids: seq<string>, rest: Outcome) {
    total.events == events + rest.events && total.ids == ids + rest.ids && total.end == rest.end
  }

  lemma CompletesMore(total: Outcome, events: seq<StreamEvent>, ids: seq<string>, evs: seq<StreamEvent>, more: seq<string>, rest: Outcome)
    requires Completes(total, events, ids, Prepend(evs, more, rest))
    ensures Completes(total, events + evs, ids + more, rest)
    ensures events + [] == events && ids + [] == ids
  {
    Regroup(events, evs, rest.events);
    Regroup(ids, more, rest.ids);
  }

  lemma CompletesNow(total: Outcome, events: seq<StreamEvent>, ids: seq<string>, evs: seq<StreamEvent>, end: End)
    requires Completes(total, events, ids, Outcome(evs, [], end))
    ensures total == Outcome(events + evs, ids, end) && events + [] == events
  {
    assert ids + [] == ids;
  }

  method Normalize(c: Codec, data: string, event: string, nameGiven: string) returns (n: Normal)
    ensures n == Deliver(c, data, event, nameGiven)
  {
    var frame := DecodeFrame(c, data, event);
    if frame.None? {
      return Ignored;
    }
    n := c.normalize(frame.value, nameGiven);
  }

  /** The stream `total` is what has come so far, and what the lines from `i` on bring. */
  ghost predicate Reading(total: Outcome, c: Codec, lines: seq<string>, broken: bool,
                          events: seq<StreamEvent>, ids: seq<string>, i: nat, event: string, buffer: string) {
    i <= |lines| && Completes(total, events, ids, Interpret(c, event, buffer, lines[i..], broken))
  }

  lemma BlankLine(total: Outcome, c: Codec, lines: seq<string>, broken: bool,
                  events: seq<StreamEvent>, ids: seq<string>, i: nat, event: string, buffer: string)
    requires Reading(total, c, lines, broken, events, ids, i, event, buffer) && i < |lines| && lines[i] == ""
    ensures var normal := if buffer == "" then Ignored else Deliver(c, buffer, event, "message");
            match normal
            case Ignored => Reading(total, c, lines, broken, events, ids, i + 1, "message", "")
            case Event(e) =>
              if Terminal(e) then total == Outcome(events + [e], ids, Stopped)
              else Reading(total, c, lines, broken, events + [e], ids, i + 1, "message", "")
            case Throws(m) => total == Outcome(events, ids, Threw(m))
  {
    assert lines[i..][0] == lines[i] && lines[i..][1..] == lines[i + 1..];
    if buffer != "" {
      match Deliver(c, buffer, event, "message")
      case Ignored =>
      case Event(e) =>
        if Terminal(e) {
          CompletesNow(total, events, ids, [e], Stopped);
        } else {
          CompletesMore(total, events, ids, [e], [], Interpret(c, "message", "", lines[i + 1..], broken));
        }
      case Throws(m) => CompletesNow(total, events, ids, [], Threw(m));
    }
  }

  lemma FieldLine(total: Outcome, c: Codec, lines: seq<string>, broken: bool,
                  events: seq<StreamEvent>, ids: seq<string>, i: nat, event: string, buffer: string)
    requires Reading(total, c, lines, broken, events, ids, i, event, buffer) && i < |lines| && lines[i] != ""
    ensures var (field, value) := Field(lines[i]);
            var comment := lines[i][0] == ':';
            Reading(total, c, lines, broken, events, if !comment && field == "id" then ids + [value] else ids, i + 1,
                    if !comment && field == "event" then value else event,
                    if !comment && field == "data" then AppendData(buffer, value) else buffer)
  {
    assert lines[i..][0] == lines[i] && lines[i..][1..] == lines[i + 1..];
    var (field, value) := Field(lines[i]);
    if lines[i][0] != ':' && field == "id" {
      CompletesMore(total, events, ids, [], [value], Interpret(c, event, buffer, lines[i + 1..], broken));
    }
  }

  lemma EndOfLines(total: Outcome, c: Codec, lines: seq<string>, broken: bool,
                   events: seq<StreamEvent>, ids: seq<string>, event: string, buffer: string)
    requires Reading(total, c, lines, broken, events, ids, |lines|, event, buffer)
    ensures broken ==> total == Outcome(events, ids, Threw("read error"))
    ensures !broken ==>
              match if buffer == "" then Ignored else Deliver(c, buffer, event, event)
              case Ignored => total == Outcome(events, ids, AtEof)
              case Event(e) => total == Outcome(events + [e], ids, AtEof)
              case Throws(m) => total == Outcome(events, ids, Threw(m))
  {
    assert lines[|lines|..] == [];
    if broken {
      CompletesNow(total, events, ids, [], Threw("read error"));
    } else if buffer == "" {
      CompletesNow(total, events, ids, [], AtEof);
    } else {
      match Deliver(c, buffer, event, event)
      case Ignored => CompletesNow(total, events, ids, [], AtEof);
      case Event(e) => CompletesNow(total, events, ids, [e], AtEof);
      case Throws(m) => CompletesNow(total, events, ids, [], Threw(m));
    }
  }

  lemma StartReading(c: Codec, lines: seq<string>, broken: bool)
    ensures Reading(Interpret(c, "message", "", lines, broken), c, lines, broken, [], [], 0, "message", "")
  {
    assert lines[0..] == lines;
  }

  method StreamSSEInternal(c: Codec, chunks: seq<string>, broken: bool) returns (out: Outcome)
    ensures out == StreamOf(c, Flatten(chunks), broken)
  {
    var lines := ReadLines(chunks, broken);
    ghost var total := StreamOf(c, Flatten(chunks), broken);
    var event, dataBuffer := "message", "";
    var events, ids := [], [];
    StartReading(c, lines, broken);
    for i := 0 to |lines|
      invariant Reading(total, c, lines, broken, events, ids, i, event, dataBuffer)
    {
      var line := lines[i];
      if line == "" {
        BlankLine(total, c, lines, broken, events, ids, i, event, dataBuffer);
        if dataBuffer != "" {
          var normal := Normalize(c, dataBuffer, event, "message");
          match normal {
            case Ignored =>
            case Event(e) =>
              events := events + [e];
              if Terminal(e) {
                return Outcome(events, ids, Stopped);
              }
            case Throws(m) => return Outcome(events, ids, Threw(m));
          }
          dataBuffer := "";
        }
        event := "message";
      } else {
        FieldLine(total, c, lines, broken, events, ids, i, event, dataBuffer);
        if line[0] != ':' {
          var (field, value) := Field(line);
          if field == "event" {
            event := value;
          } else if field == "data" {
            dataBuffer := AppendData(dataBuffer, value);
          } else if field == "id" {
            ids := ids + [value];
          }
        }
      }
    }
    EndOfLines(total, c, lines, broken, events, ids, event, dataBuffer);
    if broken {
      return Outcome(events, ids, Threw("read error"));
    }
    if dataBuffer != "" {
      var normal := Normalize(c, dataBuffer, event, event);
      match normal {
        case Ignored =>
        case Event(e) => return Outcome(events + [e], ids, AtEof);
        case Throws(m) => return Outcome(events, ids, Threw(m));
      }
    }
    out := Outcome(events, ids, AtEof);
  }

  /** The first `k` answers were retried, after these waits. */
  ghost predicate Waited(c: Codec, maxReconnects: int, answers: seq<Answer>, k: nat, waits: seq<nat>) {
    && |waits| == k <= |answers|
    && forall i | 0 <= i < k :: IsRetried(c, maxReconnects, answers, i) && waits[i] == Backoff(AttemptOf(answers, i))
  }

  lemma NextWait(c: Codec, maxReconnects: int, answers: seq<Answer>, k: nat, waits: seq<nat>)
    requires Waited(c, maxReconnects, answers, k, waits) && k < |answers| && IsRetried(c, maxReconnects, answers, k)
    ensures Waited(c, maxReconnects, answers, k + 1, waits + [Backoff(AttemptOf(answers, k))])
  {
  }

  /** The loop after `k` answers that were all retried. */
  ghost predicate Retried(c: Codec, maxReconnects: int, answers: seq<Answer>, k: nat, t: Trace, attempt: nat, lastEventId: Option<string>) {
    && Told(c, answers, k, t.requests, t.events)
    && attempt == AttemptAfter(answers[..k]) && (maxReconnects >= 0 ==> attempt <= maxReconnects)
    && (maxReconnects < 0 ==> k == 0)
    && lastEventId == IdBefore(c, answers, k)
    && Waited(c, maxReconnects, answers, k, t.waits)
  }

  lemma OneMore(c: Codec, answers: seq<Answer>, k: nat)
    requires k < |answers|
    ensures AttemptAfter(answers[..k + 1]) == if Opens(answers[k]) then 1 else AttemptAfter(answers[..k]) + 1
    ensures var ids := Session(c, answers[k]).ids;
            LastId(c, answers[..k + 1]) == if ids != [] then Some(ids[|ids| - 1]) else LastId(c, answers[..k])
    ensures Delivered(c, answers[..k + 1]) == Delivered(c, answers[..k]) + Session(c, answers[k]).events
  {
    assert answers[..k + 1][..k] == answers[..k] && answers[..k + 1][k] == answers[k];
  }

  /** Requests and events after `k` answers. */
  ghost predicate Told(c: Codec, answers: seq<Answer>, k: nat, requests: seq<Option<string>>, events: seq<StreamEvent>) {
    && k <= |answers| && |requests| == k && events == Delivered(c, answers[..k])
    && forall i | 0 <= i < k :: requests[i] == IdBefore(c, answers, i)
  }

  lemma NextRequest(c: Codec, answers: seq<Answer>, k: nat, requests: seq<Option<string>>, events: seq<StreamEvent>)
    requires Told(c, answers, k, requests, events) && k < |answers|
    ensures Told(c, answers, k + 1, requests + [IdBefore(c, answers, k)], events + Session(c, answers[k]).events)
  {
    assert answers[..k + 1][..k] == answers[..k] && answers[..k + 1][k] == answers[k];
  }

  lemma NextRetried(c: Codec, maxReconnects: int, answers: seq<Answer>, k: nat, t: Trace, attempt: nat, last: Option<string>, t': Trace)
    requires Retried(c, maxReconnects, answers, k, t, attempt, last) && k < |answers| && attempt <= maxReconnects
    requires var base := if Opens(answers[k]) then 0 else attempt;
             && Judge(c, maxReconnects, base, answers[k]).Retry?
             && t'.requests == t.requests + [last] && t'.waits == t.waits + [Backoff(base)]
             && t'.events == t.events + Session(c, answers[k]).events
    ensures var base := if Opens(answers[k]) then 0 else attempt;
            var ids := Session(c, answers[k]).ids;
            Retried(c, maxReconnects, answers, k + 1, t', base + 1, if ids != [] then Some(ids[|ids| - 1]) else last)
  {
    NextRequest(c, answers, k, t.requests, t.events);
    OneMore(c, answers, k);
    assert AttemptOf(answers, k) == if Opens(answers[k]) then 0 else attempt;
    NextWait(c, maxReconnects, answers, k, t.waits);
  }

  lemma NextFinished(c: Codec, maxReconnects: int, answers: seq<Answer>, k: nat, t: Trace, attempt: nat, last: Option<string>, t': Trace)
    requires Retried(c, maxReconnects, answers, k, t, attempt, last) && k < |answers| && attempt <= maxReconnects
    requires var base := if Opens(answers[k]) then 0 else attempt;
             && Judge(c, maxReconnects, base, answers[k]) == Finish(t'.end)
             && t'.requests == t.requests + [last] && t'.waits == t.waits
             && t'.events == t.events + Session(c, answers[k]).events
    ensures IsRun(c, maxReconnects, answers, t')
  {
    OneMore(c, answers, k);
    NextRequest(c, answers, k, t.requests, t.events);
    assert AttemptOf(answers, k) == if Opens(answers[k]) then 0 else attempt;
  }

  /** The loop from answer `k` on, with what it has done so far in `t`. */
  function RunFrom(c: Codec, maxReconnects: int, answers: seq<Answer>, k: nat, attempt: nat, last: Option<string>, t: Trace): Trace
    requires k <= |answers|
    decreases |answers| - k
  {
    if attempt > maxReconnects then t.(end := if maxReconnects < 0 then Returned else t.end)
    else if k == |answers| then t
    else
      var base := if Opens(answers[k]) then 0 else attempt;
      var session := Session(c, answers[k]);
      var t' := t.(requests := t.requests + [last], events := t.events + session.events);
      match Judge(c, maxReconnects, base, answers[k])
      case Finish(end) => t'.(end := end)
      case Retry =>
        RunFrom(c, maxReconnects, answers, k + 1, base + 1,
                if session.ids != [] then Some(session.ids[|session.ids| - 1]) else last,
                t'.(waits := t.waits + [Backoff(base)]))
  }

  function RunOf(c: Codec, maxReconnects: int, answers: seq<Answer>): Trace {
    RunFrom(c, maxReconnects, answers, 0, 0, None, Trace([], [], [], Waiting))
  }

  lemma StopsIdle(c: Codec, maxReconnects: int, answers: seq<Answer>, k: nat, attempt: nat, last: Option<string>, t: Trace)
    requires Retried(c, maxReconnects, answers, k, t, attempt, last) && t.end == Waiting
    requires attempt > maxReconnects || k == |answers|
    ensures IsRun(c, maxReconnects, answers, t.(end := if maxReconnects < 0 then Returned else Waiting))
  {
  }

  lemma {:induction false} RunFromIsRun(
      c: Codec, maxReconnects: int, answers: seq<Answer>, k: nat, attempt: nat, last: Option<string>, t: Trace)
    requires Retried(c, maxReconnects, answers, k, t, attempt, last) && t.end == Waiting
    ensures IsRun(c, maxReconnects, answers, RunFrom(c, maxReconnects, answers, k, attempt, last, t))
    decreases |answers| - k
  {
    if attempt <= maxReconnects && k < |answers| {
      var base := if Opens(answers[k]) then 0 else attempt;
      var session := Session(c, answers[k]);
      var t' := t.(requests := t.requests + [last], events := t.events + session.events);
      match Judge(c, maxReconnects, base, answers[k])
      case Finish(end) => NextFinished(c, maxReconnects, answers, k, t, attempt, last, t'.(end := end));
      case Retry =>
        t' := t'.(waits := t.waits + [Backoff(base)]);
        NextRetried(c, maxReconnects, answers, k, t, attempt, last, t');
        RunFromIsRun(c, maxReconnects, answers, k + 1, base + 1,
                     if session.ids != [] then Some(session.ids[|session.ids| - 1]) else last, t');
    } else {
      StopsIdle(c, maxReconnects, answers, k, attempt, last, t);
    }
  }

  /** What the loop does against any answers is a run. */
  lemma RunOfIsRun(c: Codec, maxReconnects: int, answers: seq<Answer>)
    ensures IsRun(c, maxReconnects, answers, RunOf(c, maxReconnects, answers))
  {
    RunFromIsRun(c, maxReconnects, answers, 0, 0, None, Trace([], [], [], Waiting));
  }

  /** The loop before answer `k`: what is left to do completes the run. */
  ghost predicate Looping(c: Codec, maxReconnects: int, answers: seq<Answer>, k: nat, attempt: nat, last: Option<string>, t: Trace) {
    k <= |answers| && t.end == Waiting && RunFrom(c, maxReconnects, answers, k, attempt, last, t) == RunOf(c, maxReconnects, answers)
  }

  /** One answer handled: its request and events added, and then either the end or a wait. */
  lemma LoopStep(c: Codec, maxReconnects: int, answers: seq<Answer>, k: nat, attempt: nat, last: Option<string>, t: Trace,
                 base: nat, session: Outcome, last': Option<string>, t': Trace)
    requires Looping(c, maxReconnects, answers, k, attempt, last, t) && k < |answers| && attempt <= maxReconnects
    requires base == (if Opens(answers[k]) then 0 else attempt) && session == Session(c, answers[k])
    requires t'.requests == t.requests + [last] && t'.waits == t.waits && t'.events == t.events + session.events
    requires last' == if session.ids != [] then Some(session.ids[|session.ids| - 1]) else last
    requires Judge(c, maxReconnects, base, answers[k]) == if t'.end == Waiting then Retry else Finish(t'.end)
    ensures t'.end != Waiting ==> t' == RunOf(c, maxReconnects, answers)
    ensures t'.end == Waiting ==>
              Looping(c, maxReconnects, answers, k + 1, base + 1, last', t'.(waits := t'.waits + [Backoff(base)]))
  {
  }

  lemma LoopStops(c: Codec, maxReconnects: int, answers: seq<Answer>, k: nat, attempt: nat, last: Option<string>, t: Trace)
    requires Looping(c, maxReconnects, answers, k, attempt, last, t) && (attempt > maxReconnects || k == |answers|)
    ensures RunOf(c, maxReconnects, answers) == if maxReconnects < 0 then t.(end := Returned) else t
  {
  }

  /** The verdict on a stream that opened, from its session. */
  lemma OpenedVerdict(c: Codec, maxReconnects: int, a: Answer)
    requires Opens(a)
    ensures var session := StreamOf(c, a.body, a.broken);
            && Session(c, a) == session
            && Judge(c, maxReconnects, 0, a)
               == if exists i :: 0 <= i < |session.events| && session.events[i].Done? then Finish(Returned)
                  else if 0 < maxReconnects then Retry
                  else Finish(if session.end.Threw? then StreamFailed(session.end.message) else Returned)
    ensures Flatten([a.body]) == a.body
  {
    assert Flatten([a.body]) == a.body + Flatten([a.body][1..]) == a.body + "" == a.body;
  }

  /** The verdict on any other answer. */
  lemma UnopenedVerdict(c: Codec, maxReconnects: int, attempt: nat, a: Answer)
    requires !Opens(a)
    ensures Session(c, a) == Outcome([], [], AtEof)
    ensures Judge(c, maxReconnects, attempt, a)
            == if a.Responded? && 400 <= a.status < 500 then Finish(BadStatus(a.status))
               else if attempt < maxReconnects then Retry
               else Finish(if a.FetchFailed? then ConnectFailed else BadStatus(a.status))
  {
  }

  method StreamSSEWithReconnect(c: Codec, maxReconnects: int, answers: seq<Answer>) returns (t: Trace)
    ensures t == RunOf(c, maxReconnects, answers)
  {
    var lastEventId: Option<string> := None;
    var attempt, k := 0, 0;
    t := Trace([], [], [], Waiting);
    while attempt <= maxReconnects && k < |answers|
      invariant Looping(c, maxReconnects, answers, k, attempt, lastEventId, t)
      decreases |answers| - k
    {
      var res := answers[k];
      ghost var t0, attempt0, last0, session0 := t, attempt, lastEventId, Session(c, res);
      t := t.(requests := t.requests + [lastEventId]);
      if res.FetchFailed? {
        UnopenedVerdict(c, maxReconnects, attempt, res);
        if attempt >= maxReconnects {
          t := t.(end := ConnectFailed);
        }
      } else if 400 <= res.status < 500 {
        UnopenedVerdict(c, maxReconnects, attempt, res);
        t := t.(end := BadStatus(res.status));
      } else if !(200 <= res.status <= 299) {
        UnopenedVerdict(c, maxReconnects, attempt, res);
        if attempt >= maxReconnects {
          t := t.(end := BadStatus(res.status));
        }
      } else {
        OpenedVerdict(c, maxReconnects, res);
        attempt := 0;
        var session := StreamSSEInternal(c, [res.body], res.broken);
        if session.ids != [] {
          lastEventId := Some(session.ids[|session.ids| - 1]);
        }
        t := t.(events := t.events + session.events);
        var receivedDone := exists i :: 0 <= i < |session.events| && session.events[i].Done?;
        if receivedDone {
          t := t.(end := Returned);
        } else if attempt >= maxReconnects {
          t := t.(end := if session.end.Threw? then StreamFailed(session.end.message) else Returned);
        }
      }
      assert t0.events + [] == t0.events;
      LoopStep(c, maxReconnects, answers, k, attempt0, last0, t0, attempt, session0, lastEventId, t);
      if t.end != Waiting {
        return;
      }
      t := t.(waits := t.waits + [Backoff(attempt)]);
      attempt, k := attempt + 1, k + 1;
    }
    LoopStops(c, maxReconnects, answers, k, attempt, lastEventId, t);
    if maxReconnects < 0 {
      t := t.(end := Returned);
    }
  }
}
