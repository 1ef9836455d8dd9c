/** How the Go reconnect loop ends, what it sends and what it delivers, answer by answer. */
module SseGoEndings {
  import opened Wrappers
  import opened SseText
  import opened SseGo
  import opened SseGoClient
  import opened SseGoReconnect

  /** Nothing is asked after this answer: a stream that was read to its end, or a status outside 200 to 299 and below 500. */
  predicate Final(a: GoAnswer) {
    a.Responded? && if 200 <= a.status <= 299 then a.session.end.CleanEof? else a.status < 500
  }

  /** What an answer puts into the channel, an error frame only while it has room. */
  function Brings(a: GoAnswer, room: bool): seq<Sent> {
    match a
    case TransportError => []
    case Responded(status, session) =>
      if 200 <= status <= 299 then Frames(session.events) + if session.end.Overflow? && room then [Failure(Overflow)] else []
      else if status < 500 && room then [Upstream(status)]
      else []
  }

  /**
    The loop asks until a final answer, six times at most, or until no answer comes; the channel
    is closed in the first two cases, and only after six answers without a final one does it
    report that it gave up.
   */
  lemma RequestsExactly(answers: seq<GoAnswer>, room: bool, t: GoTrace)
    requires IsRun(answers, room, t)
    ensures var n := |t.requests|;
            && n <= |answers| && n <= 6
            && (forall k | 0 <= k < n - 1 :: !Final(answers[k]))
            && (n < 6 && n < |answers| ==> n > 0 && Final(answers[n - 1]))
            && (t.closed <==> n == 6 || (n > 0 && Final(answers[n - 1])))
  {
    assert forall a: GoAnswer :: Final(a) <==> !Retriable(a);
  }

  /** Each answer brings its own, after what the answers before it brought. */
  lemma AnswerBrings(answers: seq<GoAnswer>, k: nat, room: bool)
    requires k < |answers|
    ensures OutputsBefore(answers, k + 1, room) == OutputsBefore(answers, k, room) + Brings(answers[k], room)
    ensures OutputsBefore(answers, 0, room) == []
  {
    assert Output(answers[k], room) == Brings(answers[k], room);
  }

  lemma AnswerAdds(answers: seq<GoAnswer>, k: nat, room: bool)
    requires k < |answers|
    ensures OutputsBefore(answers, k, room) <= OutputsBefore(answers, k + 1, room)
  {
  }

  lemma PrefixOfPrefix<T>(a: seq<T>, b: seq<T>, c: seq<T>)
    requires a <= b <= c
    ensures a <= c
  {
  }

  /** What `k` answers brought stays in front of what `more` after them bring. */
  lemma {:induction false} BringsInOrder(answers: seq<GoAnswer>, k: nat, more: nat, room: bool)
    requires k + more <= |answers|
    ensures OutputsBefore(answers, k, room) <= OutputsBefore(answers, k + more, room)
    decreases more
  {
    if more > 0 {
      BringsInOrder(answers, k, more - 1, room);
      AnswerAdds(answers, k + more - 1, room);
      PrefixOfPrefix(OutputsBefore(answers, k, room), OutputsBefore(answers, k + more - 1, room), OutputsBefore(answers, k + more, room));
    }
  }

  /** The channel holds what the answers brought, and at the end of six failures the report of that. */
  lemma RunDelivers(answers: seq<GoAnswer>, room: bool, t: GoTrace)
    requires IsRun(answers, room, t) && t.requests != []
    ensures var n := |t.requests|;
            t.out == OutputsBefore(answers, n, room) + if n == 6 && !Final(answers[n - 1]) && room then [GaveUp] else []
  {
    assert Retriable(answers[|t.requests| - 1]) <==> !Final(answers[|t.requests| - 1]);
  }

  lemma AllOfItDelivered(answers: seq<GoAnswer>, room: bool, t: GoTrace)
    requires IsRun(answers, room, t)
    ensures OutputsBefore(answers, |t.requests|, room) <= t.out
  {
  }

  /** What the first answers brought is delivered first. */
  lemma DeliveredInOrder(answers: seq<GoAnswer>, room: bool, t: GoTrace, k: nat)
    requires IsRun(answers, room, t) && k <= |t.requests|
    ensures OutputsBefore(answers, k, room) <= t.out
  {
    var n := |t.requests|;
    AllOfItDelivered(answers, room, t);
    BringsInOrder(answers, k, n - k, room);
    PrefixOfPrefix(OutputsBefore(answers, k, room), OutputsBefore(answers, n, room), t.out);
  }

  /** The count of waits began at `i`: at the first answer, or at the last stream. */
  ghost predicate DoubledSince(answers: seq<GoAnswer>, i: nat, k: nat) {
    && i <= k < |answers| && (i == 0 || Streams(answers[i])) && forall j | i < j <= k :: !Streams(answers[j])
  }

  lemma {:induction false} WaitsDouble(answers: seq<GoAnswer>, i: nat, k: nat)
    requires DoubledSince(answers, i, k) && k - i <= 5
    ensures WaitBefore(answers, k + 1) == Doubling(k - i)
    decreases k
  {
    if i < k {
      WaitsDouble(answers, i, k - 1);
      FirstDoublings(k - i);
    }
  }

  /** The wait after answer `k` is 250 ms, doubled for each failure since the last stream. */
  lemma WaitsExactly(answers: seq<GoAnswer>, room: bool, t: GoTrace, i: nat, k: nat)
    requires IsRun(answers, room, t) && k < |t.waits| && DoubledSince(answers, i, k)
    ensures |t.waits| == |t.requests| - 1 && t.waits[k] == [250, 500, 1000, 2000, 4000][k - i]
  {
    AttemptsAndWaitsAreBounded(answers, room, t);
    WaitsDouble(answers, i, k);
    assert Doubling(0) == 250 && Doubling(1) == 500 && Doubling(2) == 1000;
    assert Doubling(3) == 2000 && Doubling(4) == 4000;
  }

  /** Without ids the earlier one stays. */
  lemma {:induction false} LastIdStays(before: string, events: seq<GoEvent>)
    requires forall e | e in events :: e.id == ""
    ensures LastId(before, events) == before
  {
    if events != [] {
      assert events[|events| - 1] in events;
      LastIdStays(before, events[..|events| - 1]);
    }
  }

  /** The id of the last event that has one. */
  lemma {:induction false} LastIdExactly(before: string, events: seq<GoEvent>, i: nat)
    requires i < |events| && events[i].id != "" && forall j | i < j < |events| :: events[j].id == ""
    ensures LastId(before, events) == events[i].id
  {
    if i < |events| - 1 {
      LastIdExactly(before, events[..|events| - 1], i);
    }
  }

  /** Answer `j` is the last before `k` with an event that has an id. */
  ghost predicate LastWithId(answers: seq<GoAnswer>, j: nat, k: nat) {
    && j < k <= |answers| && (exists e :: e in Events(answers[j]) && e.id != "")
    && forall i | j < i < k :: forall e | e in Events(answers[i]) :: e.id == ""
  }

  /** A request carries the last id of the last connection that dispatched one. */
  lemma {:induction false} IdIsCarriedExactly(answers: seq<GoAnswer>, j: nat, k: nat)
    requires LastWithId(answers, j, k)
    ensures IdBefore(answers, k) == LastId("", Events(answers[j])) != ""
    decreases k
  {
    if j < k - 1 {
      IdIsCarriedExactly(answers, j, k - 1);
      LastIdStays(IdBefore(answers, k - 1), Events(answers[k - 1]));
    } else {
      StartDoesNotMatter(IdBefore(answers, j), Events(answers[j]));
    }
  }

  lemma {:induction false} StartDoesNotMatter(before: string, events: seq<GoEvent>)
    requires exists e :: e in events && e.id != ""
    ensures LastId(before, events) == LastId("", events) != ""
  {
    var n := |events| - 1;
    if events[n].id == "" {
      var e :| e in events && e.id != "";
      assert events == events[..n] + [events[n]];
      assert e in events[..n];
      StartDoesNotMatter(before, events[..n]);
    }
  }

  /** And none before any connection did. */
  lemma {:induction false} NoIdBeforeAny(answers: seq<GoAnswer>, k: nat)
    requires k <= |answers| && forall i | 0 <= i < k :: forall e | e in Events(answers[i]) :: e.id == ""
    ensures IdBefore(answers, k) == ""
  {
    if k > 0 {
      NoIdBeforeAny(answers, k - 1);
      LastIdStays("", Events(answers[k - 1]));
    }
  }

  /** So request `k` carries the last id that the last connection with one dispatched, and no id before any had. */
  lemma RequestsCarryTheLastId(answers: seq<GoAnswer>, room: bool, t: GoTrace, k: nat)
    requires IsRun(answers, room, t) && k < |t.requests|
    ensures forall j: nat | LastWithId(answers, j, k) :: t.requests[k] == LastId("", Events(answers[j])) != ""
    ensures (forall i | 0 <= i < k :: forall e | e in Events(answers[i]) :: e.id == "") ==> t.requests[k] == ""
  {
    assert t.requests[k] == IdBefore(answers, k);
    forall j: nat | LastWithId(answers, j, k) ensures t.requests[k] == LastId("", Events(answers[j])) != "" {
      IdIsCarriedExactly(answers, j, k);
    }
    if forall i | 0 <= i < k :: forall e | e in Events(answers[i]) :: e.id == "" {
      NoIdBeforeAny(answers, k);
    }
  }
}
