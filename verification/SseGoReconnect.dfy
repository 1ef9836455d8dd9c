/** The Go reconnect loop: a fixed number of attempts, whatever the streams in between deliver. */
module SseGoReconnect {
  import opened Wrappers
  import opened Numbers
  import opened SseText
  import opened SseGo
  import opened SseGoClient

  const RECONNECT_MAX := 5
  const DELAY_INITIAL: nat := 250
  const DELAY_CAP: nat := 8000
  const DEFAULT_MAX_EVENT_BYTES: nat := 0x10_0000

  /** What one request comes to on the wire, ... */
  datatype Response = TransportFailure | Response(status: int, body: string, scanFails: bool)

  /** ... and with its body parsed. */
  datatype GoAnswer = TransportError | Responded(status: int, session: Parsed)

  function Answered(r: Response, maxBytes: nat): GoAnswer {
    match r
    case TransportFailure => TransportError
    case Response(status, body, scanFails) => Responded(status, Parse(FRESH, ScanLines(body), scanFails, maxBytes))
  }

  function AllAnswered(rs: seq<Response>, maxBytes: nat): (answers: seq<GoAnswer>)
    ensures |answers| == |rs| && forall k | 0 <= k < |rs| :: answers[k] == Answered(rs[k], maxBytes)
  {
    if rs == [] then [] else [Answered(rs[0], maxBytes)] + AllAnswered(rs[1..], maxBytes)
  }

  /** Requests with their `Last-Event-ID` (empty: no header), the waits between them, and the channel. */
  datatype GoTrace = GoTrace(requests: seq<string>, waits: seq<nat>, out: seq<Sent>, closed: bool)

  function MaxBytes(option: int): (m: nat)
    ensures m > 0 && (option > 0 ==> m == option) && (option <= 0 ==> m == 1_048_576)
  {
    if option <= 0 then DEFAULT_MAX_EVENT_BYTES else option
  }

  predicate Streams(a: GoAnswer) {
    a.Responded? && 200 <= a.status < 300
  }

  predicate Retriable(a: GoAnswer) {
    a.TransportError? || a.status >= 500 || (Streams(a) && !a.session.end.CleanEof?)
  }

  function Events(a: GoAnswer): seq<GoEvent> {
    if Streams(a) then a.session.events else []
  }

  /** What one answer puts into the channel; `room` says whether it takes synthetic errors. */
  function Output(a: GoAnswer, room: bool): seq<Sent> {
    if Streams(a) then Frames(a.session.events) + if a.session.end.Overflow? && room then [Failure(Overflow)] else []
    else if Retriable(a) || !room then []
    else [Upstream(a.status)]
  }

  function OutputsBefore(answers: seq<GoAnswer>, k: nat, room: bool): seq<Sent>
    requires k <= |answers|
  {
    if k == 0 then [] else OutputsBefore(answers, k - 1, room) + Output(answers[k - 1], room)
  }

  /** The last non-empty id of any event dispatched on the first `k` connections. */
  function IdBefore(answers: seq<GoAnswer>, k: nat): string
    requires k <= |answers|
  {
    if k == 0 then "" else LastId(IdBefore(answers, k - 1), Events(answers[k - 1]))
  }

  /** The wait before attempt `k`: doubled each time, back to the start after a stream. */
  function WaitBefore(answers: seq<GoAnswer>, k: nat): nat
    requires k <= |answers|
  {
    if k <= 1 || Streams(answers[k - 1]) then DELAY_INITIAL
    else
      var d := 2 * WaitBefore(answers, k - 1);
      if d > DELAY_CAP then DELAY_CAP else d
  }

  /** Every request carries the last id dispatched before it and every wait is the delay then in force. */
  ghost predicate Requested(answers: seq<GoAnswer>, requests: seq<string>, waits: seq<nat>) {
    && |requests| <= |answers|
    && |waits| == (if |requests| == 0 then 0 else |requests| - 1)
    && (forall k {:trigger requests[k]} | 0 <= k < |requests| :: requests[k] == IdBefore(answers, k))
    && (forall k {:trigger waits[k]} | 0 <= k < |waits| :: waits[k] == WaitBefore(answers, k + 1))
  }

  predicate AllRetriable(answers: seq<GoAnswer>, n: nat)
    requires n <= |answers|
  {
    forall k | 0 <= k < n :: Retriable(answers[k])
  }

  /**
    One run against `answers`: all but the last answer were retried, and it closes the
    channel when an answer ends it or the attempts are used up.
   */
  ghost predicate IsRun(answers: seq<GoAnswer>, room: bool, t: GoTrace) {
    var n := |t.requests|;
    && n <= RECONNECT_MAX + 1
    && Requested(answers, t.requests, t.waits)
    && (n > 0 ==> AllRetriable(answers, n - 1))
    && var exhausted := n == RECONNECT_MAX + 1 && Retriable(answers[n - 1]);
       && (t.closed <==> n > 0 && (exhausted || !Retriable(answers[n - 1])))
       && (!t.closed ==> n == |answers|)
       && t.out == OutputsBefore(answers, n, room) + if exhausted && room then [GaveUp] else []
  }

  /** The variables of the loop. */
  datatype Loop = Loop(requests: seq<string>, waits: seq<nat>, out: seq<Sent>, id: string, delay: nat)

  function NextDelay(k: nat, delay: nat, streamed: bool): nat {
    if k == 0 || streamed then DELAY_INITIAL else if 2 * delay > DELAY_CAP then DELAY_CAP else 2 * delay
  }

  /** Attempt `k`, after `l`, is answered by `a`. */
  function Attempted(l: Loop, k: nat, a: GoAnswer, room: bool): Loop {
    Loop(l.requests + [l.id], if k == 0 then l.waits else l.waits + [l.delay], l.out + Output(a, room),
         LastId(l.id, Events(a)), NextDelay(k, l.delay, Streams(a)))
  }

  function LoopAfter(answers: seq<GoAnswer>, room: bool, k: nat): Loop
    requires k <= |answers|
  {
    if k == 0 then Loop([], [], [], "", DELAY_INITIAL)
    else Attempted(LoopAfter(answers, room, k - 1), k - 1, answers[k - 1], room)
  }

  /** What the loop holds before attempt `k`, in terms of the answers so far. */
  ghost predicate Holds(answers: seq<GoAnswer>, room: bool, k: nat, l: Loop) {
    && k <= |answers| && |l.requests| == k && Requested(answers, l.requests, l.waits)
    && l.id == IdBefore(answers, k) && l.delay == WaitBefore(answers, k) && l.out == OutputsBefore(answers, k, room)
  }

  lemma RequestedMore(answers: seq<GoAnswer>, requests: seq<string>, waits: seq<nat>, id: string, wait: nat)
    requires Requested(answers, requests, waits) && |requests| < |answers|
    requires id == IdBefore(answers, |requests|) && wait == WaitBefore(answers, |requests|)
    ensures Requested(answers, requests + [id], if |requests| == 0 then waits else waits + [wait])
  {
    var r, w := requests + [id], if |requests| == 0 then waits else waits + [wait];
    forall k | 0 <= k < |r| ensures r[k] == IdBefore(answers, k) {
      if k < |requests| {
        assert r[k] == requests[k];
      }
    }
    forall k | 0 <= k < |w| ensures w[k] == WaitBefore(answers, k + 1) {
      if k < |waits| {
        assert w[k] == waits[k];
      }
    }
  }

  lemma HoldsMore(answers: seq<GoAnswer>, room: bool, k: nat, l: Loop)
    requires Holds(answers, room, k, l) && k < |answers|
    ensures Holds(answers, room, k + 1, Attempted(l, k, answers[k], room))
  {
    RequestedMore(answers, l.requests, l.waits, l.id, l.delay);
  }

  lemma {:induction false} LoopHolds(answers: seq<GoAnswer>, room: bool, k: nat)
    requires k <= |answers|
    ensures Holds(answers, room, k, LoopAfter(answers, room, k))
  {
    if k == 0 {
      StartHolds(answers, room);
    } else {
      var l := LoopAfter(answers, room, k - 1);
      LoopHolds(answers, room, k - 1);
      HoldsMore(answers, room, k - 1, l);
      assert LoopAfter(answers, room, k) == Attempted(l, k - 1, answers[k - 1], room);
    }
  }

  lemma StartHolds(answers: seq<GoAnswer>, room: bool)
    ensures Holds(answers, room, 0, LoopAfter(answers, room, 0))
  {
  }

  lemma LoopFinished(answers: seq<GoAnswer>, room: bool, k: nat)
    requires k < |answers| && k <= RECONNECT_MAX && AllRetriable(answers, k) && !Retriable(answers[k])
    ensures var l := LoopAfter(answers, room, k + 1);
            IsRun(answers, room, GoTrace(l.requests, l.waits, l.out, true))
  {
    LoopHolds(answers, room, k + 1);
    var l := LoopAfter(answers, room, k + 1);
    assert l.out == l.out + [];
  }

  lemma LoopExhausted(answers: seq<GoAnswer>, room: bool, k: nat)
    requires k <= |answers| && k <= RECONNECT_MAX + 1 && AllRetriable(answers, k)
    requires k == |answers| || k == RECONNECT_MAX + 1
    ensures var l := LoopAfter(answers, room, k);
            var exhausted := k == RECONNECT_MAX + 1;
            IsRun(answers, room, GoTrace(l.requests, l.waits, l.out + if exhausted && room then [GaveUp] else [], exhausted))
  {
    LoopHolds(answers, room, k);
  }

  /** How the loop ends once it has come to attempt `k`. */
  function RunFrom(answers: seq<GoAnswer>, room: bool, k: nat): GoTrace
    requires k <= |answers| && k <= RECONNECT_MAX + 1
    decreases |answers| - k
  {
    var l := LoopAfter(answers, room, k);
    if k == RECONNECT_MAX + 1 then GoTrace(l.requests, l.waits, l.out + if room then [GaveUp] else [], true)
    else if k == |answers| then GoTrace(l.requests, l.waits, l.out, false)
    else if Retriable(answers[k]) then RunFrom(answers, room, k + 1)
    else
      var last := LoopAfter(answers, room, k + 1);
      GoTrace(last.requests, last.waits, last.out, true)
  }

  function RunOf(answers: seq<GoAnswer>, room: bool): GoTrace {
    RunFrom(answers, room, 0)
  }

  lemma {:induction false} RunFromIsRun(answers: seq<GoAnswer>, room: bool, k: nat)
    requires k <= |answers| && k <= RECONNECT_MAX + 1 && AllRetriable(answers, k)
    ensures IsRun(answers, room, RunFrom(answers, room, k))
    decreases |answers| - k
  {
    if k == RECONNECT_MAX + 1 || k == |answers| {
      LoopExhausted(answers, room, k);
      assert LoopAfter(answers, room, k).out + [] == LoopAfter(answers, room, k).out;
    } else if Retriable(answers[k]) {
      RunFromIsRun(answers, room, k + 1);
    } else {
      LoopFinished(answers, room, k);
    }
  }

  /** What the loop does against any answers is a run. */
  lemma RunOfIsRun(answers: seq<GoAnswer>, room: bool)
    ensures IsRun(answers, room, RunOf(answers, room))
  {
    RunFromIsRun(answers, room, 0);
  }

  /** One response handled: what it delivers, and whether the loop goes on. */
  method Handle(resp: Response, maxBytes: nat, room: bool, tracker: ReconnectTrackingWriter, ghost a: GoAnswer) returns (retry: bool)
    requires a == Answered(resp, maxBytes)
    modifies tracker
    ensures retry == Retriable(a)
    ensures tracker.ch == old(tracker.ch) + Output(a, room)
    ensures tracker.lastEventId == LastId(old(tracker.lastEventId), Events(a))
    ensures resp.TransportFailure? <==> a.TransportError?
    ensures resp.Response? ==> resp.status == a.status
  {
    assert tracker.ch + [] == tracker.ch;
    if resp.TransportFailure? || resp.status >= 500 {
      return true;
    }
    if resp.status < 200 || resp.status >= 300 {
      tracker.ch := tracker.ch + if room then [Upstream(resp.status)] else [];
      return false;
    }
    OutputRegrouped(tracker.ch, a, room);
    var cleanEof := ParseSSETracked(ScanLines(resp.body), resp.scanFails, maxBytes, room, tracker);
    retry := !cleanEof;
  }

  lemma RunStep(answers: seq<GoAnswer>, room: bool, k: nat)
    requires k < |answers| && k <= RECONNECT_MAX
    ensures var next := LoopAfter(answers, room, k + 1);
            && next == Attempted(LoopAfter(answers, room, k), k, answers[k], room)
            && RunFrom(answers, room, k)
               == if Retriable(answers[k]) then RunFrom(answers, room, k + 1)
                  else GoTrace(next.requests, next.waits, next.out, true)
  {
  }

  method StreamSSE(responses: seq<Response>, maxEventBytes: int, room: bool) returns (t: GoTrace)
    ensures t == RunOf(AllAnswered(responses, MaxBytes(maxEventBytes)), room)
  {
    var maxBytes := MaxBytes(maxEventBytes);
    ghost var answers := AllAnswered(responses, maxBytes);
    var tracker := new ReconnectTrackingWriter();
    var delay: nat := DELAY_INITIAL;
    var requests: seq<string>, waits: seq<nat> := [], [];
    var attempt := 0;
    while attempt <= RECONNECT_MAX && attempt < |responses|
      invariant attempt <= |responses| && attempt <= RECONNECT_MAX + 1 && RunFrom(answers, room, attempt) == RunOf(answers, room)
      invariant Loop(requests, waits, tracker.ch, tracker.lastEventId, delay) == LoopAfter(answers, room, attempt)
      decreases |responses| - attempt
    {
      ghost var next := LoopAfter(answers, room, attempt + 1);
      RunStep(answers, room, attempt);
      if attempt > 0 {
        waits := waits + [delay];
        delay := if delay * 2 > DELAY_CAP then DELAY_CAP else delay * 2;
      }
      requests := requests + [tracker.lastEventId];
      var retry := Handle(responses[attempt], maxBytes, room, tracker, answers[attempt]);
      assert requests == next.requests && waits == next.waits && tracker.ch == next.out && tracker.lastEventId == next.id;
      if !retry {
        return GoTrace(requests, waits, tracker.ch, true);
      }
      if responses[attempt].Response? && responses[attempt].status < 500 {
        delay := DELAY_INITIAL;
      }
      assert delay == next.delay;
      attempt := attempt + 1;
    }
    var exhausted := attempt == RECONNECT_MAX + 1;
    t := GoTrace(requests, waits, tracker.ch + if exhausted && room then [GaveUp] else [], exhausted);
  }

  lemma OutputRegrouped(ch: seq<Sent>, a: GoAnswer, room: bool)
    requires Streams(a)
    ensures ch + Output(a, room)
            == ch + Frames(a.session.events) + if a.session.end.Overflow? && room then [Failure(Overflow)] else []
  {
    Regroup(ch, Frames(a.session.events), if a.session.end.Overflow? && room then [Failure(Overflow)] else []);
  }

  function Doubling(k: nat): nat {
    if k == 0 then DELAY_INITIAL else 2 * Doubling(k - 1)
  }

  lemma {:induction false} DelayAtMostDoubles(answers: seq<GoAnswer>, k: nat)
    requires k < |answers|
    ensures WaitBefore(answers, k + 1) <= Doubling(k) && Doubling(k) >= DELAY_INITIAL
  {
    if k > 0 {
      DelayAtMostDoubles(answers, k - 1);
    }
  }

  lemma {:induction false} SumOfDoublings(waits: seq<nat>)
    requires forall k | 0 <= k < |waits| :: waits[k] <= Doubling(k)
    ensures Sum(waits) <= Doubling(|waits|) - DELAY_INITIAL
  {
    if waits != [] {
      SumOfDoublings(waits[..|waits| - 1]);
    }
  }

  /**
    Six requests at most, however many of them opened a stream; the waits between them
    stay at half the documented cap or less and add up to at most 7.75 s.
   */
  lemma AttemptsAndWaitsAreBounded(answers: seq<GoAnswer>, room: bool, t: GoTrace)
    requires IsRun(answers, room, t)
    ensures |t.requests| <= 6
    ensures forall k | 0 <= k < |t.waits| :: t.waits[k] <= 4000
    ensures Sum(t.waits) <= 7750
  {
    forall k | 0 <= k < |t.waits| ensures t.waits[k] <= Doubling(k) <= 4000 {
      assert t.waits[k] == WaitBefore(answers, k + 1);
      DelayAtMostDoubles(answers, k);
      FirstDoublings(k);
    }
    SumOfDoublings(t.waits);
    FirstDoublings(|t.waits|);
  }

  lemma FirstDoublings(k: nat)
    requires k <= RECONNECT_MAX
    ensures Doubling(k) <= 8000 && (k < RECONNECT_MAX ==> Doubling(k) <= 4000)
  {
    assert Doubling(0) == 250 && Doubling(1) == 500 && Doubling(2) == 1000;
    assert Doubling(3) == 2000 && Doubling(4) == 4000;
    assert Doubling(5) == 8000;
  }
}
