/** How and when the TypeScript reconnect loop ends, what it sends and what it delivers, answer by answer. */
module SseReconnectEndings {
  import opened Wrappers
  import opened SseText
  import opened StreamEvents
  import opened SseTypeScript
  import opened SseTypeScriptFrames
  import opened SseReconnect

  lemma RetriedSoFar(c: Codec, maxReconnects: int, answers: seq<Answer>, t: Trace)
    requires IsRun(c, maxReconnects, answers, t)
    ensures forall k | 0 <= k < |t.waits| :: IsRetried(c, maxReconnects, answers, k) && t.waits[k] == Backoff(AttemptOf(answers, k))
  {
  }

  /** An answer that is not retried is the last one, and decides the ending. */
  lemma FinalAnswer(c: Codec, maxReconnects: int, answers: seq<Answer>, t: Trace, k: nat)
    requires IsRun(c, maxReconnects, answers, t) && k < |t.requests| && !IsRetried(c, maxReconnects, answers, k)
    ensures |t.requests| == k + 1 && Judge(c, maxReconnects, AttemptOf(answers, k), answers[k]) == Finish(t.end)
  {
  }

  /** A 4xx answer is final: nothing is asked after it, and the status is thrown. */
  lemma ClientErrorsAreFinal(c: Codec, maxReconnects: int, answers: seq<Answer>, t: Trace, k: nat)
    requires IsRun(c, maxReconnects, answers, t) && k < |t.requests|
    requires answers[k].Responded? && 400 <= answers[k].status < 500
    ensures |t.requests| == k + 1 && t.end == BadStatus(answers[k].status)
  {
    FinalAnswer(c, maxReconnects, answers, t, k);
  }

  /** A stream that delivers `done` ends the run, quietly. */
  lemma DoneEndsTheRun(c: Codec, maxReconnects: int, answers: seq<Answer>, t: Trace, k: nat)
    requires IsRun(c, maxReconnects, answers, t) && k < |t.requests|
    requires answers[k].Responded? && 200 <= answers[k].status <= 299
    requires exists e :: e in StreamOf(c, answers[k].body, answers[k].broken).events && e.Done?
    ensures |t.requests| == k + 1 && t.end == Returned
  {
    DoneInEvents(StreamOf(c, answers[k].body, answers[k].broken).events);
    assert Session(c, answers[k]) == StreamOf(c, answers[k].body, answers[k].broken);
    FinalAnswer(c, maxReconnects, answers, t, k);
  }

  lemma FreeOfBreaks(front: seq<string>, rest: seq<string>)
    requires (forall i | 0 <= i < |front| :: LineFree(front[i])) && forall i | 0 <= i < |rest| :: LineFree(rest[i])
    ensures var lines := front + (["data: [DONE]", ""] + rest); forall i | 0 <= i < |lines| :: LineFree(lines[i])
  {
  }

  lemma DoneFrameIsDelivered(c: Codec, front: seq<string>, p: string, rest: seq<string>, broken: bool)
    requires front == [] || Whole(c, "message", "", front)
    requires c.trim("[DONE]") == "[DONE]" && c.normalize(DoneFrame, "message") == Event(Done(p))
    requires (forall i | 0 <= i < |front| :: LineFree(front[i])) && forall i | 0 <= i < |rest| :: LineFree(rest[i])
    ensures Done(p) in StreamOf(c, TextWith(front + (["data: [DONE]", ""] + rest), LF), broken).events
  {
    FreeOfBreaks(front, rest);
    LinesAreRead(c, front + (["data: [DONE]", ""] + rest), broken);
    DoneFrameStopsTheStream(c, front, p, rest, broken);
    var first := Interpret(c, "message", "", front, false).events;
    assert (first + [Done(p)])[|first|] == Done(p);
  }

  /** In particular one whose text holds whole events and then `[DONE]`, whatever comes behind and however it breaks off. */
  lemma DoneFrameEndsTheRun(c: Codec, maxReconnects: int, answers: seq<Answer>, t: Trace, k: nat, front: seq<string>, p: string, rest: seq<string>)
    requires IsRun(c, maxReconnects, answers, t) && k < |t.requests|
    requires front == [] || Whole(c, "message", "", front)
    requires c.trim("[DONE]") == "[DONE]" && c.normalize(DoneFrame, "message") == Event(Done(p))
    requires (forall i | 0 <= i < |front| :: LineFree(front[i])) && forall i | 0 <= i < |rest| :: LineFree(rest[i])
    requires answers[k].Responded? && 200 <= answers[k].status <= 299
    requires answers[k].body == TextWith(front + (["data: [DONE]", ""] + rest), LF)
    ensures |t.requests| == k + 1 && t.end == Returned
  {
    DoneFrameIsDelivered(c, front, p, rest, answers[k].broken);
    DoneEndsTheRun(c, maxReconnects, answers, t, k);
  }

  /** A run that has ended tells by its ending what the last answer was. */
  lemma EndingsTell(c: Codec, maxReconnects: nat, answers: seq<Answer>, t: Trace)
    requires IsRun(c, maxReconnects, answers, t) && t.end != Waiting
    ensures t.requests != [] && |t.waits| == |t.requests| - 1
    ensures var a := answers[|t.requests| - 1];
            if a.FetchFailed? then t.end == ConnectFailed
            else if !(200 <= a.status <= 299) then t.end == BadStatus(a.status)
            else
              var session := StreamOf(c, a.body, a.broken);
              if (exists e :: e in session.events && e.Done?) then t.end == Returned
              else maxReconnects == 0 && t.end == if session.end.Threw? then StreamFailed(session.end.message) else Returned
  {
    var a := answers[|t.requests| - 1];
    if a.Responded? && 200 <= a.status <= 299 {
      DoneInEvents(StreamOf(c, a.body, a.broken).events);
    }
  }

  lemma DoneInEvents(events: seq<StreamEvent>)
    ensures (exists i :: 0 <= i < |events| && events[i].Done?) <==> exists e :: e in events && e.Done?
  {
    if i :| 0 <= i < |events| && events[i].Done? {
      assert events[i] in events;
    }
  }

  /** A run that waits for an answer has used up all there are. */
  lemma WaitingMeansNoMoreAnswers(c: Codec, maxReconnects: int, answers: seq<Answer>, t: Trace)
    requires IsRun(c, maxReconnects, answers, t) && t.end == Waiting
    ensures |t.requests| == |answers| == |t.waits|
  {
  }

  // ---- failures in a row ------------------------------------------------------------------

  /** The answers from `i` to `k` all failed, and `i` is where the count began: the first fetch, or the last stream that opened. */
  ghost predicate FailedSince(answers: seq<Answer>, i: nat, k: nat) {
    && i <= k < |answers| && (i == 0 || Opens(answers[i])) && forall j | i < j <= k :: !Opens(answers[j])
  }

  /**
    An answer that is no stream and not a 4xx is followed by another fetch exactly while fewer
    than `maxReconnects` failures, or the stream that dropped and failures, lie before it; the
    wait is 250 ms doubled for each, and 8 s at most.
   */
  lemma FailuresAreRetriedExactly(c: Codec, maxReconnects: nat, answers: seq<Answer>, t: Trace, i: nat, k: nat)
    requires IsRun(c, maxReconnects, answers, t) && k < |t.requests| && FailedSince(answers, i, k)
    requires !Opens(answers[k]) && (answers[k].Responded? ==> !(400 <= answers[k].status < 500))
    ensures k < |t.waits| <==> k - i < maxReconnects
    ensures k < |t.waits| ==> t.waits[k] == if k - i < 5 then 250 * Pow2(k - i) else 8000
  {
    BurstAttempt(answers, i, k);
    RetriedSoFar(c, maxReconnects, answers, t);
    BackoffAt(k - i);
  }

  lemma BackoffAt(n: nat)
    ensures Backoff(n) == if n < 5 then 250 * Pow2(n) else 8000
  {
    Pow2Grows(n);
    assert Pow2(0) == 1 && Pow2(1) == 2 && Pow2(2) == 4 && Pow2(3) == 8;
  }

  /** A stream that opens and drops without `done` is followed by another fetch exactly if reconnects are allowed at all, after 250 ms. */
  lemma DroppedStreamsAreRetriedExactly(c: Codec, maxReconnects: nat, answers: seq<Answer>, t: Trace, k: nat)
    requires IsRun(c, maxReconnects, answers, t) && k < |t.requests| && Opens(answers[k])
    requires !exists e :: e in StreamOf(c, answers[k].body, answers[k].broken).events && e.Done?
    ensures k < |t.waits| <==> 0 < maxReconnects
    ensures k < |t.waits| ==> t.waits[k] == 250
  {
    DoneInEvents(StreamOf(c, answers[k].body, answers[k].broken).events);
    BurstAttempt(answers, k, k);
    RetriedSoFar(c, maxReconnects, answers, t);
  }

  // ---- ids and events ---------------------------------------------------------------------

  /** The ids each answer handed on. */
  function IdsOf(c: Codec, answers: seq<Answer>): (ids: seq<seq<string>>)
    ensures |ids| == |answers| && forall j | 0 <= j < |answers| :: ids[j] == Session(c, answers[j]).ids
  {
    if answers == [] then [] else IdsOf(c, answers[..|answers| - 1]) + [Session(c, answers[|answers| - 1]).ids]
  }

  /** `id` is the last of list `j`, and the lists between `j` and `k` are empty. */
  ghost predicate LastBefore(ids: seq<seq<string>>, j: nat, k: nat, id: string) {
    && j < k <= |ids| && ids[j] != [] && id == ids[j][|ids[j]| - 1]
    && forall i | j < i < k :: ids[i] == []
  }

  /** `carried` is the last id of the last of the first `k` lists that has one, and none if none has. */
  ghost predicate Carried(ids: seq<seq<string>>, k: nat, carried: Option<string>) {
    && k <= |ids|
    && match carried
       case None => forall j | 0 <= j < k :: ids[j] == []
       case Some(id) => exists j: nat :: LastBefore(ids, j, k, id)
  }

  lemma CarriedMore(ids: seq<seq<string>>, k: nat, carried: Option<string>)
    requires Carried(ids, k, carried) && k < |ids|
    ensures Carried(ids, k + 1, if ids[k] != [] then Some(ids[k][|ids[k]| - 1]) else carried)
  {
    if ids[k] != [] {
      assert LastBefore(ids, k, k + 1, ids[k][|ids[k]| - 1]);
    } else if carried.Some? {
      var j: nat :| LastBefore(ids, j, k, carried.value);
      assert LastBefore(ids, j, k + 1, carried.value);
    }
  }

  lemma IdBeforeMore(c: Codec, answers: seq<Answer>, k: nat)
    requires k < |answers|
    ensures var ids := IdsOf(c, answers)[k];
            IdBefore(c, answers, k + 1) == if ids != [] then Some(ids[|ids| - 1]) else IdBefore(c, answers, k)
  {
    assert answers[..k + 1][..k] == answers[..k] && answers[..k + 1][k] == answers[k];
  }

  lemma IdIsCarriedOn(c: Codec, answers: seq<Answer>, k: nat)
    requires k < |answers| && Carried(IdsOf(c, answers), k, IdBefore(c, answers, k))
    ensures Carried(IdsOf(c, answers), k + 1, IdBefore(c, answers, k + 1))
  {
    CarriedMore(IdsOf(c, answers), k, IdBefore(c, answers, k));
    IdBeforeMore(c, answers, k);
  }

  lemma {:induction false} IdIsCarried(c: Codec, answers: seq<Answer>, k: nat)
    requires k <= |answers|
    ensures Carried(IdsOf(c, answers), k, IdBefore(c, answers, k))
  {
    if k > 0 {
      IdIsCarried(c, answers, k - 1);
      IdIsCarriedOn(c, answers, k - 1);
    }
  }

  /** What is delivered is what the first answers deliver and then what the others do; an answer that opens no stream delivers nothing. */
  lemma {:induction false} DeliveredInOrder(c: Codec, first: seq<Answer>, others: seq<Answer>)
    ensures Delivered(c, first + others) == Delivered(c, first) + Delivered(c, others)
    decreases |others|
  {
    if others == [] {
      assert first + others == first;
      assert Delivered(c, first) + [] == Delivered(c, first);
    } else {
      var n := |others| - 1;
      assert first + others == first + others[..n] + [others[n]];
      assert (first + others)[..|first + others| - 1] == first + others[..n];
      DeliveredInOrder(c, first, others[..n]);
      Regroup(Delivered(c, first), Delivered(c, others[..n]), Session(c, others[n]).events);
    }
  }

  lemma OneAnswerDelivers(c: Codec, a: Answer)
    ensures Delivered(c, [a]) == if a.Responded? && 200 <= a.status <= 299 then StreamOf(c, a.body, a.broken).events else []
    ensures Session(c, a).ids == if a.Responded? && 200 <= a.status <= 299 then StreamOf(c, a.body, a.broken).ids else []
  {
    assert [a][..0] == [];
    assert [] + Session(c, a).events == Session(c, a).events;
  }

  /** Request `k` carries the last id of the last stream before it that had one, and no id before any had. */
  lemma RequestsCarryTheLastId(c: Codec, maxReconnects: int, answers: seq<Answer>, t: Trace, k: nat)
    requires IsRun(c, maxReconnects, answers, t) && k < |t.requests|
    ensures Carried(IdsOf(c, answers), k, t.requests[k])
  {
    IdIsCarried(c, answers, k);
  }

  /** The events of stream `k` arrive whole, after those of the answers before it and before those of the answers after it. */
  lemma EventsArriveInOrder(c: Codec, maxReconnects: int, answers: seq<Answer>, t: Trace, k: nat)
    requires IsRun(c, maxReconnects, answers, t) && k < |t.requests|
    ensures t.events == Delivered(c, answers[..k]) + Delivered(c, [answers[k]]) + Delivered(c, answers[k + 1..|t.requests|])
  {
    var n := |t.requests|;
    assert answers[..n] == (answers[..k] + [answers[k]]) + answers[k + 1..n];
    DeliveredInOrder(c, answers[..k] + [answers[k]], answers[k + 1..n]);
    DeliveredInOrder(c, answers[..k], [answers[k]]);
  }
}
