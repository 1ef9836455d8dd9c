/** The TypeScript reconnect loop: which answers are retried, after which wait, with which last id. */
module SseReconnect {
  import opened Wrappers
  import opened Numbers
  import opened StreamEvents
  import opened SseTypeScript

  /** What one fetch comes to: an exception, or a response whose body may break off. */
  datatype Answer = FetchFailed | Responded(status: int, body: string, broken: bool)

  datatype Ending = Waiting | Returned | ConnectFailed | BadStatus(status: int) | StreamFailed(message: string)

  /** One run of the generator, as its consumer and the network see it; waits are in milliseconds. */
  datatype Trace = Trace(requests: seq<Option<string>>, waits: seq<nat>, events: seq<StreamEvent>, end: Ending)

  function Pow2(n: nat): (p: nat)
    ensures p >= 1
  {
    if n == 0 then 1 else 2 * Pow2(n - 1)
  }

  function Backoff(attempt: nat): nat {
    if 250 * Pow2(attempt) < 8000 then 250 * Pow2(attempt) else 8000
  }

  predicate Opens(a: Answer) {
    a.Responded? && 200 <= a.status <= 299
  }

  function Session(c: Codec, a: Answer): Outcome {
    if Opens(a) then StreamOf(c, a.body, a.broken) else Outcome([], [], AtEof)
  }

  predicate GetsDone(c: Codec, a: Answer) {
    exists i :: 0 <= i < |Session(c, a).events| && Session(c, a).events[i].Done?
  }

  datatype Verdict = Retry | Finish(end: Ending)

  /** What follows `a` when `attempt` earlier answers have failed since the last opened stream. */
  function Judge(c: Codec, maxReconnects: int, attempt: nat, a: Answer): Verdict {
    if a.FetchFailed? then if attempt >= maxReconnects then Finish(ConnectFailed) else Retry
    else if 400 <= a.status < 500 then Finish(BadStatus(a.status))
    else if !Opens(a) then if attempt >= maxReconnects then Finish(BadStatus(a.status)) else Retry
    else if GetsDone(c, a) then Finish(Returned)
    else if 0 >= maxReconnects then
      match Session(c, a).end
      case Threw(m) => Finish(StreamFailed(m))
      case _ => Finish(Returned)
    else Retry
  }

  /** Failures since the last opened stream, which itself counts as one when it drops. */
  function AttemptAfter(answers: seq<Answer>): nat {
    if answers == [] then 0
    else if Opens(answers[|answers| - 1]) then 1
    else AttemptAfter(answers[..|answers| - 1]) + 1
  }

  /** The attempt number in force while answer `k` is judged: an opened stream starts over. */
  function AttemptOf(answers: seq<Answer>, k: nat): nat
    requires k < |answers|
  {
    AttemptAfter(answers[..k + 1]) - 1
  }

  /** The last id read on any of these connections. */
  function LastId(c: Codec, answers: seq<Answer>): Option<string> {
    if answers == [] then None
    else
      var ids := Session(c, answers[|answers| - 1]).ids;
      if ids != [] then Some(ids[|ids| - 1]) else LastId(c, answers[..|answers| - 1])
  }

  function IdBefore(c: Codec, answers: seq<Answer>, k: nat): Option<string>
    requires k <= |answers|
  {
    LastId(c, answers[..k])
  }

  /** Answer `k` is retried. */
  predicate IsRetried(c: Codec, maxReconnects: int, answers: seq<Answer>, k: nat)
    requires k < |answers|
  {
    Judge(c, maxReconnects, AttemptOf(answers, k), answers[k]).Retry?
  }

  function Delivered(c: Codec, answers: seq<Answer>): seq<StreamEvent> {
    if answers == [] then [] else Delivered(c, answers[..|answers| - 1]) + Session(c, answers[|answers| - 1]).events
  }

  /** A run against `answers`: every request, wait and event is accounted for, and it ends when it must. */
  ghost predicate IsRun(c: Codec, maxReconnects: int, answers: seq<Answer>, t: Trace) {
    var n := |t.requests|;
    && |t.waits| <= n <= |answers|
    && (forall k | 0 <= k < n :: t.requests[k] == IdBefore(c, answers, k))
    && (forall k | 0 <= k < |t.waits| :: IsRetried(c, maxReconnects, answers, k) && t.waits[k] == Backoff(AttemptOf(answers, k)))
    && t.events == Delivered(c, answers[..n])
    && (if maxReconnects < 0 then n == 0 && t.end == Returned
        else if |t.waits| == n then n == |answers| && t.end == Waiting
        else |t.waits| == n - 1
             && Judge(c, maxReconnects, AttemptOf(answers, n - 1), answers[n - 1]) == Finish(t.end))
  }

  // ---- bursts of failures -------------------------------------------------------------------

  /** No answer in `answers[i..j]` opened a stream. */
  predicate Failing(answers: seq<Answer>, i: nat, j: nat) {
    j <= |answers| && forall k | i <= k < j :: !Opens(answers[k])
  }

  lemma {:induction false} FailuresCount(answers: seq<Answer>, i: nat, j: nat)
    requires i <= j && Failing(answers, i, j)
    ensures AttemptAfter(answers[..j]) == AttemptAfter(answers[..i]) + (j - i)
    decreases j
  {
    if i < j {
      FailuresCount(answers, i, j - 1);
      assert answers[..j][..j - 1] == answers[..j - 1] && answers[..j][j - 1] == answers[j - 1];
    }
  }

  lemma RetriesAreWithinBounds(c: Codec, maxReconnects: int, answers: seq<Answer>, t: Trace, k: nat)
    requires IsRun(c, maxReconnects, answers, t) && k < |t.waits|
    ensures AttemptAfter(answers[..k + 1]) <= maxReconnects
  {
    assert IsRetried(c, maxReconnects, answers, k);
    assert answers[..k + 1][k] == answers[k];
  }

  /**
    At most `maxReconnects + 1` consecutive fetches fail; a burst of that length was there
    from the start, and its last failure ends the generator with an exception.
   */
  lemma BurstIsBounded(c: Codec, maxReconnects: int, answers: seq<Answer>, t: Trace, i: nat, j: nat)
    requires IsRun(c, maxReconnects, answers, t)
    requires i <= j <= |t.requests| && Failing(answers, i, j) && i < j
    ensures j - i <= maxReconnects + 1
    ensures j - i == maxReconnects + 1 ==> i == 0 && j == |t.requests| && (t.end.ConnectFailed? || t.end.BadStatus?)
  {
    assert maxReconnects >= 0;
    FailuresCount(answers, i, j);
    var before := AttemptAfter(answers[..i]);
    assert i > 0 ==> before >= 1 by {
      if i > 0 { assert answers[..i] != []; }
    }
    if j <= |t.waits| {
      RetriesAreWithinBounds(c, maxReconnects, answers, t, j - 1);
    } else {
      if j >= 2 {
        RetriesAreWithinBounds(c, maxReconnects, answers, t, j - 2);
        FailuresCount(answers, i, j - 1);
      }
      assert answers[..j][j - 1] == answers[j - 1];
    }
  }

  function BackoffSum(n: nat): nat {
    if n == 0 then 0 else BackoffSum(n - 1) + Backoff(n - 1)
  }

  lemma {:induction false} BackoffSumMonotone(m: nat, n: nat)
    requires m <= n
    ensures BackoffSum(m) <= BackoffSum(n)
    decreases n
  {
    if m < n {
      BackoffSumMonotone(m, n - 1);
    }
  }

  /** In closed form: 250 ms doubling until it reaches the 8 s cap at the sixth wait. */
  lemma {:induction false} BackoffSumClosedForm(n: nat)
    ensures BackoffSum(n) == if n <= 5 then 250 * (Pow2(n) - 1) else 7750 + 8000 * (n - 5)
  {
    if n > 0 {
      BackoffSumClosedForm(n - 1);
      Pow2Grows(n - 1);
    }
  }

  lemma {:induction false} Pow2Grows(n: nat)
    ensures n <= 4 ==> Pow2(n) <= 16
    ensures n >= 5 ==> Pow2(n) >= 32
    ensures Pow2(5) == 32
  {
    assert Pow2(0) == 1 && Pow2(1) == 2 && Pow2(2) == 4 && Pow2(3) == 8;
    assert Pow2(4) == 16 && Pow2(5) == 32;
    if n > 5 {
      Pow2Grows(n - 1);
    }
  }

  /** A burst starts at the first fetch or at a stream that opened and dropped. */
  predicate BurstStart(answers: seq<Answer>, i: nat) {
    i < |answers| && (i == 0 || Opens(answers[i]))
  }

  /** Within a burst the attempt number counts from its start. */
  lemma BurstAttempt(answers: seq<Answer>, i: nat, k: nat)
    requires i <= k < |answers| && BurstStart(answers, i) && Failing(answers, i + 1, k + 1)
    ensures AttemptOf(answers, k) == k - i
  {
    FailuresCount(answers, i + 1, k + 1);
    assert answers[..i + 1][i] == answers[i] && answers[..i + 1][..i] == answers[..i];
    if i == 0 {
      assert answers[..0] == [];
    }
  }

  lemma {:induction false} SumOfBackoffs(waits: seq<nat>)
    requires forall k | 0 <= k < |waits| :: waits[k] == Backoff(k)
    ensures Sum(waits) == BackoffSum(|waits|)
  {
    if waits != [] {
      SumOfBackoffs(waits[..|waits| - 1]);
    }
  }

  lemma WaitOf(c: Codec, maxReconnects: int, answers: seq<Answer>, t: Trace, k: nat)
    requires IsRun(c, maxReconnects, answers, t) && k < |t.waits|
    ensures t.waits[k] == Backoff(AttemptOf(answers, k))
  {
  }

  lemma BurstWait(c: Codec, maxReconnects: int, answers: seq<Answer>, t: Trace, i: nat, k: nat)
    requires IsRun(c, maxReconnects, answers, t)
    requires i <= k < |t.waits| && BurstStart(answers, i) && Failing(answers, i + 1, k + 1)
    ensures t.waits[k] == Backoff(k - i)
  {
    WaitOf(c, maxReconnects, answers, t, k);
    BurstAttempt(answers, i, k);
  }

  lemma SumOfShifted(waits: seq<nat>, i: nat, j: nat)
    requires i <= j <= |waits| && forall k | i <= k < j :: waits[k] == Backoff(k - i)
    ensures Sum(waits[i..j]) == BackoffSum(j - i)
  {
    SumOfBackoffs(waits[i..j]);
  }

  lemma BurstSum(c: Codec, maxReconnects: int, answers: seq<Answer>, t: Trace, i: nat, j: nat)
    requires IsRun(c, maxReconnects, answers, t)
    requires i < j <= |t.waits| && BurstStart(answers, i) && Failing(answers, i + 1, j)
    ensures Sum(t.waits[i..j]) == BackoffSum(j - i)
  {
    forall k | i <= k < j ensures t.waits[k] == Backoff(k - i) {
      BurstWait(c, maxReconnects, answers, t, i, k);
    }
    SumOfShifted(t.waits, i, j);
  }

  /** The waits of one burst are the first steps of the backoff: at most `maxReconnects` of them, with that total. */
  lemma BurstWaitsAreBounded(c: Codec, maxReconnects: int, answers: seq<Answer>, t: Trace, i: nat, j: nat)
    requires IsRun(c, maxReconnects, answers, t)
    requires i < j <= |t.waits| && BurstStart(answers, i) && Failing(answers, i + 1, j)
    ensures j - i <= maxReconnects && Sum(t.waits[i..j]) == BackoffSum(j - i) <= BackoffSum(maxReconnects)
  {
    BurstSum(c, maxReconnects, answers, t, i, j);
    BurstAttempt(answers, i, j - 1);
    RetriesAreWithinBounds(c, maxReconnects, answers, t, j - 1);
    BackoffSumMonotone(j - i, maxReconnects);
  }

  // ---- reconnects in all --------------------------------------------------------------------

  /** Neither refused for good nor complete: what the client reconnects after, while the count allows it. */
  predicate Reconnects(c: Codec, a: Answer) {
    a.FetchFailed? || !(400 <= a.status < 500 || GetsDone(c, a))
  }

  /** The attempts counted after `j` answers never reach past the last stream that opened, nor past `j`. */
  lemma {:induction false} AttemptsSinceOpen(answers: seq<Answer>, k: nat, j: nat)
    requires k < j <= |answers|
    ensures AttemptAfter(answers[..j]) <= j
    ensures Opens(answers[k]) ==> AttemptAfter(answers[..j]) <= j - k
    decreases j
  {
    assert answers[..j][..j - 1] == answers[..j - 1] && answers[..j][j - 1] == answers[j - 1];
    if k < j - 1 {
      AttemptsSinceOpen(answers, k, j - 1);
    } else if j > 1 {
      AttemptsSinceOpen(answers, j - 2, j - 1);
    }
  }

  /** With no stream opened after the first answer, `j` answers count as `j` attempts. */
  lemma AttemptsWithoutOpen(answers: seq<Answer>, j: nat)
    requires 1 <= j <= |answers| && Failing(answers, 1, j)
    ensures AttemptAfter(answers[..j]) == j
  {
    FailuresCount(answers, 1, j);
    assert answers[..1][..0] == [] && answers[..1][0] == answers[0];
  }

  lemma RetriedReconnects(c: Codec, maxReconnects: int, answers: seq<Answer>, t: Trace, k: nat)
    requires IsRun(c, maxReconnects, answers, t) && k < |t.waits|
    ensures Reconnects(c, answers[k])
  {
    assert IsRetried(c, maxReconnects, answers, k);
  }

  lemma TooManyRequests(c: Codec, maxReconnects: nat, answers: seq<Answer>, t: Trace)
    requires IsRun(c, maxReconnects, answers, t) && |t.requests| > maxReconnects + 1
    ensures exists k :: 1 <= k <= maxReconnects && Opens(answers[k])
  {
    if Failing(answers, 1, maxReconnects + 1) {
      AttemptsWithoutOpen(answers, maxReconnects + 1);
      RetriesAreWithinBounds(c, maxReconnects, answers, t, maxReconnects);
    }
  }

  lemma EndsEarly(c: Codec, maxReconnects: nat, answers: seq<Answer>, t: Trace, k: nat)
    requires IsRun(c, maxReconnects, answers, t) && 1 <= k <= maxReconnects < |answers| - 1 && Opens(answers[k])
    requires |t.requests| <= maxReconnects + 1
    ensures exists i :: 0 <= i <= maxReconnects && !Reconnects(c, answers[i])
  {
    var n := |t.requests|;
    if Reconnects(c, answers[n - 1]) {
      AttemptsSinceOpen(answers, if k < n then k else n - 1, n);
    }
  }

  /**
    The documented limit is exceeded exactly when, among the answers to the first attempt and
    the documented reconnects, none is final and one after the first opened a stream: that
    stream starts the count again.
   */
  lemma ReconnectLimitExceededExactly(c: Codec, maxReconnects: nat, answers: seq<Answer>, t: Trace)
    requires IsRun(c, maxReconnects, answers, t)
    ensures |t.requests| > maxReconnects + 1
            <==> |answers| >= maxReconnects + 2 && (forall k | 0 <= k <= maxReconnects :: Reconnects(c, answers[k]))
                 && exists k :: 1 <= k <= maxReconnects && Opens(answers[k])
  {
    if |t.requests| > maxReconnects + 1 {
      TooManyRequests(c, maxReconnects, answers, t);
      forall k | 0 <= k <= maxReconnects ensures Reconnects(c, answers[k]) {
        RetriedReconnects(c, maxReconnects, answers, t, k);
      }
    } else if |answers| >= maxReconnects + 2 && exists k :: 1 <= k <= maxReconnects && Opens(answers[k]) {
      var k :| 1 <= k <= maxReconnects && Opens(answers[k]);
      EndsEarly(c, maxReconnects, answers, t, k);
    }
  }

  /** At its extreme: streams that all open and drop keep the client reconnecting as long as there are answers. */
  lemma DroppingStreamsReconnectForever(c: Codec, maxReconnects: int, answers: seq<Answer>, t: Trace)
    requires IsRun(c, maxReconnects, answers, t)
    requires forall k | 0 <= k < |answers| :: Opens(answers[k]) && !GetsDone(c, answers[k])
    ensures |t.requests| == |answers| && t.end == Waiting
            <==> maxReconnects >= 1 || (maxReconnects == 0 && answers == [])
  {
    if |t.waits| > 0 {
      assert IsRetried(c, maxReconnects, answers, 0);
    }
  }
}
