/**
  The JWKS cache under any number of tasks. Every lock acquisition, cache access, clock
  reading and network round trip is a step of its own, and a task may be dropped at any of them.
 */
module JwksRaces {
  import opened Wrappers
  import opened JwksKeys

  type Tid = nat

  /** A set a task works with: when it was fetched and when read, and whether by the reader itself just then. */
  datatype Origin = Origin(jwks: JwkSet, fetchedAt: Instant, readAt: Instant, justFetched: bool)

  /** `forced` marks the second visit, for a kid the first set did not have. */
  datatype Pc =
    | ReadFast(kid: Option<string>)
    | WaitLock(kid: Option<string>, forced: bool)
    | Recheck(kid: Option<string>, forced: bool)
    | Gate(kid: Option<string>)
    | StampForced(kid: Option<string>)
    | Fetching(kid: Option<string>, forced: bool)
    | Storing(kid: Option<string>, forced: bool, jwks: JwkSet, stamp: Instant)
    | Resolved(kid: Option<string>, origin: Origin, key: Result<DecodingKey, AuthError>)
    | Failed(error: AuthError)
    | Dropped

  /** `commits`, `fetchers` (who fetched which set) and `forcedStarts` record the run; no step reads them. */
  datatype State = State(
    clock: Instant,
    cache: Option<CachedJwks>,
    lock: Option<Tid>,
    lastForced: Option<Instant>,
    tasks: map<Tid, Pc>,
    commits: seq<CachedJwks>,
    fetchers: set<(Tid, CachedJwks)>,
    forcedStarts: seq<Instant>)

  const START := State(0, None, None, None, map[], [], {}, [])

  predicate Holding(pc: Pc) {
    pc.Recheck? || pc.Gate? || pc.StampForced? || pc.Fetching? || pc.Storing?
  }

  /** With a set in hand: select from it, or come back once for a kid it does not have. */
  function Got(kid: Option<string>, forced: bool, o: Origin): Pc {
    if kid.Some? && !forced && Find(o.jwks, kid.value).None? then WaitLock(kid, true)
    else Resolved(kid, o, SelectAsymmetricKey(o.jwks, kid))
  }

  function At(s: State, t: Tid, pc: Pc): State {
    s.(tasks := s.tasks[t := pc])
  }

  function Release(s: State, t: Tid, pc: Pc): State {
    At(s, t, pc).(lock := None)
  }

  function CacheOrigin(s: State): Origin
    requires s.cache.Some?
  {
    Origin(s.cache.value.jwks, s.cache.value.fetchedAt, s.clock, false)
  }

  /** One step of a task; `response` is what the endpoint answers if this step ends a fetch. */
  function Advance(s: State, t: Tid, response: Option<JwkSet>): State
    requires t in s.tasks
  {
    match s.tasks[t]
    case ReadFast(kid) =>
      At(s, t, if FreshAt(s.cache, s.clock) then Got(kid, false, CacheOrigin(s)) else WaitLock(kid, false))
    case WaitLock(kid, forced) => if s.lock.Some? then s else At(s, t, Recheck(kid, forced)).(lock := Some(t))
    case Recheck(kid, forced) =>
      if FreshAt(s.cache, s.clock) then Release(s, t, Got(kid, forced, CacheOrigin(s)))
      else At(s, t, if forced then Gate(kid) else Fetching(kid, false))
    case Gate(kid) => if GateOpen(s.lastForced, s.clock) then At(s, t, StampForced(kid)) else Release(s, t, Failed(Unauthorized))
    case StampForced(kid) =>
      At(s, t, Fetching(kid, true)).(lastForced := Some(s.clock), forcedStarts := s.forcedStarts + [s.clock])
    case Fetching(kid, forced) => (
      match response
      case None => Release(s, t, Failed(ProviderError))
      case Some(jwks) => At(s, t, Storing(kid, forced, jwks, s.clock)))
    case Storing(kid, forced, jwks, stamp) =>
      var c := CachedJwks(jwks, stamp);
      Release(s, t, Got(kid, forced, Origin(jwks, stamp, s.clock, true))).(cache := Some(c), commits := s.commits + [c], fetchers := s.fetchers + {(t, c)})
    case _ => s
  }

  datatype Step = Tick(elapsed: nat) | Call(t: Tid, kid: Option<string>) | Run(t: Tid, response: Option<JwkSet>) | Drop(t: Tid)

  function Next(s: State, step: Step): State {
    match step
    case Tick(n) => s.(clock := s.clock + n)
    case Call(t, kid) => if t in s.tasks then s else At(s, t, ReadFast(kid))
    case Run(t, response) => if t in s.tasks then Advance(s, t, response) else s
    case Drop(t) =>
      if t !in s.tasks then s else if Holding(s.tasks[t]) then Release(s, t, Dropped) else At(s, t, Dropped)
  }

  function After(steps: seq<Step>): State {
    if steps == [] then START else Next(After(steps[..|steps| - 1]), steps[|steps| - 1])
  }

  // ---- the invariant ----------------------------------------------------------------------

  ghost predicate LockHeld(s: State) {
    && (s.lock.Some? ==> s.lock.value in s.tasks && Holding(s.tasks[s.lock.value]))
    && (forall t | t in s.tasks && Holding(s.tasks[t]) :: s.lock == Some(t))
  }

  ghost predicate Spaced(times: seq<Instant>, gap: int) {
    forall i, j | 0 <= i < j < |times| && j == i + 1 :: times[j] - times[i] >= gap
  }

  function Stamps(commits: seq<CachedJwks>): (times: seq<Instant>)
    ensures |times| == |commits| && forall i | 0 <= i < |commits| :: times[i] == commits[i].fetchedAt
  {
    seq(|commits|, i requires 0 <= i < |commits| => commits[i].fetchedAt)
  }

  ghost predicate Recorded(s: State) {
    && s.cache == (if s.commits == [] then None else Some(s.commits[|s.commits| - 1]))
    && (s.cache.Some? ==> s.cache.value.fetchedAt <= s.clock)
    && s.lastForced == (if s.forcedStarts == [] then None else Some(s.forcedStarts[|s.forcedStarts| - 1]))
    && Spaced(Stamps(s.commits), JWKS_TTL) && Spaced(s.forcedStarts, MIN_REFRESH_INTERVAL)
  }

  /** The set was served once, and was young enough when task `t` read it, or fetched by `t` itself. */
  ghost predicate GoodOrigin(s: State, t: Tid, o: Origin) {
    var c := CachedJwks(o.jwks, o.fetchedAt);
    c in s.commits && if o.justFetched then (t, c) in s.fetchers else o.readAt - o.fetchedAt < JWKS_TTL
  }

  /** What a task has established on its way. */
  ghost predicate TaskOk(s: State, t: Tid, pc: Pc) {
    match pc
    case Gate(_) => !FreshAt(s.cache, s.clock)
    case StampForced(_) => !FreshAt(s.cache, s.clock) && GateOpen(s.lastForced, s.clock)
    case Fetching(_, _) => !FreshAt(s.cache, s.clock)
    case Storing(_, _, _, stamp) => !FreshAt(s.cache, stamp) && stamp <= s.clock
    case Resolved(kid, o, key) => GoodOrigin(s, t, o) && key == SelectAsymmetricKey(o.jwks, kid)
    case _ => true
  }

  ghost predicate TasksOk(s: State) {
    forall t | t in s.tasks :: TaskOk(s, t, s.tasks[t])
  }

  ghost predicate Inv(s: State) {
    LockHeld(s) && Recorded(s) && TasksOk(s)
  }

  lemma SpacedMore(times: seq<Instant>, t: Instant, gap: int)
    requires Spaced(times, gap) && (times != [] ==> t - times[|times| - 1] >= gap)
    ensures Spaced(times + [t], gap)
  {
  }

  lemma StampsMore(commits: seq<CachedJwks>, c: CachedJwks)
    ensures Stamps(commits + [c]) == Stamps(commits) + [c.fetchedAt]
  {
  }

  lemma StoreIsSpaced(s: State, stamp: Instant)
    requires Recorded(s) && !FreshAt(s.cache, stamp)
    ensures Spaced(Stamps(s.commits) + [stamp], JWKS_TTL)
  {
    SpacedMore(Stamps(s.commits), stamp, JWKS_TTL);
  }

  lemma StoreKeepsRecord(s: State, t: Tid)
    requires Inv(s) && t in s.tasks && s.tasks[t].Storing?
    ensures Recorded(Advance(s, t, None))
  {
    var s', c := Advance(s, t, None), CachedJwks(s.tasks[t].jwks, s.tasks[t].stamp);
    assert TaskOk(s, t, s.tasks[t]);
    assert s'.commits == s.commits + [c] && s'.commits[|s.commits|] == c;
    StoreIsSpaced(s, c.fetchedAt);
    StampsMore(s.commits, c);
  }

  lemma StampKeepsRecord(s: State, t: Tid)
    requires Inv(s) && t in s.tasks && s.tasks[t].StampForced?
    ensures Recorded(Advance(s, t, None))
  {
    var s' := Advance(s, t, None);
    assert TaskOk(s, t, s.tasks[t]);
    SpacedMore(s.forcedStarts, s.clock, MIN_REFRESH_INTERVAL);
    assert s'.forcedStarts == s.forcedStarts + [s.clock] && s'.forcedStarts[|s.forcedStarts|] == s.clock;
  }

  lemma AdvanceKeepsRecord(s: State, t: Tid, response: Option<JwkSet>)
    requires Inv(s) && t in s.tasks
    ensures Recorded(Advance(s, t, response))
  {
    match s.tasks[t]
    case Storing(_, _, _, _) => StoreKeepsRecord(s, t);
    case StampForced(_) => StampKeepsRecord(s, t);
    case _ => SameRecord(s, Advance(s, t, response));
  }

  lemma SameRecord(s: State, s': State)
    requires Recorded(s) && s'.cache == s.cache && s'.lastForced == s.lastForced
    requires s'.commits == s.commits && s'.forcedStarts == s.forcedStarts && s.clock <= s'.clock
    ensures Recorded(s')
  {
  }

  /** The tasks that do not move keep what they had: the lock kept everyone else out of the cache. */
  lemma OthersKeep(s: State, t: Tid, response: Option<JwkSet>, u: Tid)
    requires Inv(s) && t in s.tasks && u in s.tasks && u != t
    ensures u in Advance(s, t, response).tasks && TaskOk(Advance(s, t, response), u, s.tasks[u])
  {
    assert TaskOk(s, u, s.tasks[u]);
    assert Holding(s.tasks[u]) ==> !Holding(s.tasks[t]);
  }

  lemma MoverKeeps(s: State, t: Tid, response: Option<JwkSet>)
    requires Inv(s) && t in s.tasks
    ensures TaskOk(Advance(s, t, response), t, Advance(s, t, response).tasks[t])
  {
    assert TaskOk(s, t, s.tasks[t]);
  }

  /** Steps that leave the cache and the record alone, and move no task into a claim. */
  lemma IdleKeepsTasks(s: State, s': State)
    requires Inv(s) && s'.cache == s.cache && s'.lastForced == s.lastForced && s'.commits == s.commits && s'.fetchers == s.fetchers
    requires s.clock <= s'.clock
    requires forall t | t in s'.tasks :: s'.tasks[t].ReadFast? || s'.tasks[t].Dropped? || (t in s.tasks && s'.tasks[t] == s.tasks[t])
    ensures TasksOk(s')
  {
    forall t | t in s'.tasks ensures TaskOk(s', t, s'.tasks[t]) {
      assert t in s.tasks ==> TaskOk(s, t, s.tasks[t]);
    }
  }

  lemma AdvanceKeepsLock(s: State, t: Tid, response: Option<JwkSet>)
    requires LockHeld(s) && t in s.tasks
    ensures LockHeld(Advance(s, t, response))
  {
  }

  lemma AdvanceKeepsTasks(s: State, t: Tid, response: Option<JwkSet>)
    requires Inv(s) && t in s.tasks
    ensures TasksOk(Advance(s, t, response))
  {
    var s' := Advance(s, t, response);
    forall u | u in s'.tasks ensures TaskOk(s', u, s'.tasks[u]) {
      if u == t {
        MoverKeeps(s, t, response);
      } else {
        OthersKeep(s, t, response, u);
      }
    }
  }

  lemma AdvanceKeepsInv(s: State, t: Tid, response: Option<JwkSet>)
    requires Inv(s) && t in s.tasks
    ensures Inv(Advance(s, t, response))
  {
    AdvanceKeepsRecord(s, t, response);
    AdvanceKeepsLock(s, t, response);
    AdvanceKeepsTasks(s, t, response);
  }

  lemma IdleKeepsLock(s: State, step: Step)
    requires LockHeld(s) && !step.Run?
    ensures LockHeld(Next(s, step))
  {
  }

  lemma IdleKeepsInv(s: State, step: Step)
    requires Inv(s) && !step.Run?
    ensures Inv(Next(s, step))
  {
    IdleKeepsLock(s, step);
    IdleKeepsTasks(s, Next(s, step));
    SameRecord(s, Next(s, step));
  }

  lemma NextKeepsInv(s: State, step: Step)
    requires Inv(s)
    ensures Inv(Next(s, step))
  {
    if !step.Run? {
      IdleKeepsInv(s, step);
    } else if step.t in s.tasks {
      AdvanceKeepsInv(s, step.t, step.response);
    }
  }

  lemma {:induction false} ReachableInv(steps: seq<Step>)
    ensures Inv(After(steps))
  {
    if steps != [] {
      ReachableInv(steps[..|steps| - 1]);
      NextKeepsInv(After(steps[..|steps| - 1]), steps[|steps| - 1]);
    }
  }

  // ---- theorems ---------------------------------------------------------------------------

  predicate FetchInProgress(s: State, t: Tid) {
    t in s.tasks && (s.tasks[t].Fetching? || s.tasks[t].Storing?)
  }

  /** Single flight: no two tasks ever fetch at once. */
  lemma AtMostOneFetchInProgress(steps: seq<Step>, a: Tid, b: Tid)
    requires FetchInProgress(After(steps), a) && FetchInProgress(After(steps), b)
    ensures a == b && After(steps).lock == Some(a)
  {
    ReachableInv(steps);
  }

  /** No request is under way while the cached set is fresh: an unknown kid refreshes nothing before the TTL is over. */
  lemma NoFetchWhileFresh(steps: seq<Step>, t: Tid)
    requires t in After(steps).tasks && After(steps).tasks[t].Fetching?
    ensures !FreshAt(After(steps).cache, After(steps).clock)
  {
    ReachableInv(steps);
    assert TaskOk(After(steps), t, After(steps).tasks[t]);
  }

  lemma {:induction false} SpacedSpan(times: seq<Instant>, gap: int, i: nat, j: nat)
    requires Spaced(times, gap) && gap >= 0 && i <= j < |times|
    ensures times[j] - times[i] >= (j - i) * gap
    decreases j
  {
    if i < j {
      SpacedSpan(times, gap, i, j - 1);
      assert times[j] - times[j - 1] >= gap;
      assert (j - i) * gap == (j - 1 - i) * gap + gap;
    }
  }

  /** Successful fetches complete at least the TTL apart, so a span `T` holds at most `T / TTL + 1` of them. */
  lemma FetchesAreRateBounded(steps: seq<Step>, i: nat, j: nat)
    requires i <= j < |After(steps).commits|
    ensures var c := After(steps).commits;
            var span := c[j].fetchedAt - c[i].fetchedAt;
            span >= (j - i) * 300_000_000_000 && j - i + 1 <= span / 300_000_000_000 + 1
  {
    ReachableInv(steps);
    SpacedSpan(Stamps(After(steps).commits), JWKS_TTL, i, j);
  }

  /** Forced fetches start at least the minimum interval apart, whether or not they succeed. */
  lemma ForcedFetchesAreSpaced(steps: seq<Step>, i: nat, j: nat)
    requires i <= j < |After(steps).forcedStarts|
    ensures After(steps).forcedStarts[j] - After(steps).forcedStarts[i] >= (j - i) * 5_000_000_000
  {
    ReachableInv(steps);
    SpacedSpan(After(steps).forcedStarts, MIN_REFRESH_INTERVAL, i, j);
  }

  /**
    Every key a call returns is the one its token names, asymmetric and well formed, in a
    set that the endpoint once served and that was under its TTL when read, or just fetched.
   */
  lemma ServedKeysAreFresh(steps: seq<Step>, t: Tid)
    requires t in After(steps).tasks && After(steps).tasks[t].Resolved? && After(steps).tasks[t].key.Ok?
    ensures var s := After(steps);
            var o, kid, key := s.tasks[t].origin, s.tasks[t].kid, s.tasks[t].key.value;
            && CachedJwks(o.jwks, o.fetchedAt) in s.commits
            && (if o.justFetched then (t, CachedJwks(o.jwks, o.fetchedAt)) in s.fetchers
                else o.readAt - o.fetchedAt < 300_000_000_000)
            && exists i: nat :: Names(o.jwks, kid, i) && Asymmetric(o.jwks[i].algorithm) && o.jwks[i].wellFormed
                                && key == DecodingKey(o.jwks[i].algorithm, o.jwks[i].material)
  {
    ReachableInv(steps);
    var s := After(steps);
    assert TaskOk(s, t, s.tasks[t]);
    SelectionExactly(s.tasks[t].origin.jwks, s.tasks[t].kid, s.tasks[t].key.value);
  }
}
