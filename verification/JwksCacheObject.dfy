/** The cache object one caller at a time sees; a ghost record shows it runs as the machine of `JwksRaces` does. */
module JwksCacheObject {
  import opened Wrappers
  import opened JwksKeys
  import opened JwksRaces

  /** The time that passes before each clock reading of a refresh. */
  datatype Delays = Delays(recheck: nat, gate: nat, stamp: nat, network: nat)

  class JwksCache {
    var cache: Option<CachedJwks>
    /** Guarded by the refresh lock. */
    var lastForced: Option<Instant>
    var clock: Instant
    /** The run of the machine so far, and where it has come. */
    ghost var steps: seq<Step>
    ghost var state: State

    ghost predicate Valid()
      reads this
    {
      state == After(steps) && state.cache == cache && state.lastForced == lastForced && state.clock == clock
    }

    ghost predicate TaskAt(t: Tid, pc: Pc)
      reads this
    {
      t in state.tasks && state.tasks[t] == pc
    }

    ghost predicate Unlocked()
      reads this
    {
      state.lock.None?
    }

    constructor ()
      ensures Valid() && Unlocked() && cache.None? && lastForced.None?
      ensures steps == []
    {
      cache, lastForced, clock, steps, state := None, None, 0, [], START;
    }

    ghost method Take(step: Step)
      requires state == After(steps)
      modifies this`steps, this`state
      ensures steps == old(steps) + [step] && state == After(steps) == Next(old(state), step)
    {
      steps, state := steps + [step], Next(state, step);
      assert steps[..|steps| - 1] == old(steps);
    }

    method Now(elapsed: nat) returns (now: Instant)
      requires Valid()
      modifies this`clock, this`steps, this`state
      ensures Valid() && now == clock == old(clock) + elapsed
      ensures state == old(state).(clock := now)
    {
      clock := clock + elapsed;
      Take(Tick(elapsed));
      now := clock;
    }

    ghost method Acquire(t: Tid, kid: Option<string>, forced: bool)
      requires Valid() && Unlocked() && TaskAt(t, WaitLock(kid, forced))
      modifies this`steps, this`state
      ensures Valid() && TaskAt(t, Recheck(kid, forced))
    {
      Take(Run(t, None));
    }

    ghost method Rechecked(t: Tid, kid: Option<string>, forced: bool)
      requires Valid() && TaskAt(t, Recheck(kid, forced))
      modifies this`steps, this`state
      ensures Valid()
      ensures if FreshAt(cache, clock) then
                Unlocked() && TaskAt(t, Got(kid, forced, Origin(cache.value.jwks, cache.value.fetchedAt, clock, false)))
              else TaskAt(t, if forced then Gate(kid) else Fetching(kid, false))
    {
      Take(Run(t, None));
    }

    ghost method Gated(t: Tid, kid: Option<string>)
      requires Valid() && TaskAt(t, Gate(kid))
      modifies this`steps, this`state
      ensures Valid()
      ensures if GateOpen(lastForced, clock) then TaskAt(t, StampForced(kid)) else Unlocked() && TaskAt(t, Failed(Unauthorized))
    {
      Take(Run(t, None));
    }

    /** The interval gate of a forced refresh: a stamp if it is open, and nothing otherwise. */
    method PassGate(ghost t: Tid, ghost kid: Option<string>, d: Delays) returns (open: bool)
      requires Valid() && TaskAt(t, Gate(kid))
      modifies this`clock, this`lastForced, this`steps, this`state
      ensures Valid() && clock >= old(clock) && open == GateOpen(old(lastForced), old(clock) + d.gate)
      ensures open ==> TaskAt(t, Fetching(kid, true)) && lastForced == Some(old(clock) + d.gate + d.stamp) == Some(clock)
      ensures !open ==> Unlocked() && TaskAt(t, Failed(Unauthorized)) && lastForced == old(lastForced)
    {
      var now := Now(d.gate);
      Gated(t, kid);
      if lastForced.Some? && now - lastForced.value < MIN_REFRESH_INTERVAL {
        return false;
      }
      now := Now(d.stamp);
      Take(Run(t, None));
      lastForced := Some(now);
      return true;
    }

    method Fetch(ghost t: Tid, ghost kid: Option<string>, ghost forced: bool, network: nat, response: Option<JwkSet>)
      returns (r: Result<JwkSet, AuthError>)
      requires Valid() && TaskAt(t, Fetching(kid, forced))
      modifies this`cache, this`clock, this`steps, this`state
      ensures Valid() && Unlocked() && clock == old(clock) + network
      ensures response.None? ==> cache == old(cache) && r == Err(ProviderError) && TaskAt(t, Failed(ProviderError))
      ensures response.Some? ==> (
                && r == Ok(response.value) && cache == Some(CachedJwks(response.value, clock))
                && TaskAt(t, Got(kid, forced, Origin(response.value, clock, clock, true))))
    {
      var now := Now(network);
      Take(Run(t, response));
      match response
      case None => r := Err(ProviderError);
      case Some(jwks) =>
        cache := Some(CachedJwks(jwks, now));
        Take(Run(t, None));
        r := Ok(jwks);
    }

    /** With a stale set under the lock: a fetch, unless it is forced and too early. */
    method FetchUnlessTooEarly(ghost t: Tid, ghost kid: Option<string>, allowStaleTtl: bool, d: Delays, response: Option<JwkSet>)
      returns (r: Result<JwkSet, AuthError>)
      requires Valid() && TaskAt(t, if allowStaleTtl then Fetching(kid, false) else Gate(kid))
      modifies this
      ensures Valid() && Unlocked() && clock >= old(clock)
      ensures r.Err? ==> TaskAt(t, Failed(r.error))
      ensures r.Ok? ==> TaskAt(t, Got(kid, !allowStaleTtl, Origin(r.value, clock, clock, true)))
      ensures if !allowStaleTtl && !GateOpen(old(lastForced), old(clock) + d.gate) then
                r == Err(Unauthorized) && cache == old(cache) && lastForced == old(lastForced)
              else
                && lastForced == (if allowStaleTtl then old(lastForced) else Some(old(clock) + d.gate + d.stamp))
                && clock == old(clock) + (if allowStaleTtl then 0 else d.gate + d.stamp) + d.network
                && match response
                   case None => r == Err(ProviderError) && cache == old(cache)
                   case Some(jwks) => r == Ok(jwks) && cache == Some(CachedJwks(jwks, clock))
    {
      if !allowStaleTtl {
        var open := PassGate(t, kid, d);
        if !open {
          return Err(Unauthorized);
        }
      }
      r := Fetch(t, kid, !allowStaleTtl, d.network, response);
    }

    /** Fresh: the cached set. Stale: a fetch, unless it is forced and too early; a forced one leaves its stamp even if it fails. */
    method RefreshSingleFlight(ghost t: Tid, ghost kid: Option<string>, allowStaleTtl: bool, d: Delays, response: Option<JwkSet>)
      returns (r: Result<JwkSet, AuthError>, ghost o: Origin)
      requires Valid() && Unlocked() && TaskAt(t, WaitLock(kid, !allowStaleTtl))
      modifies this
      ensures Valid() && Unlocked() && clock >= old(clock)
      ensures r.Err? ==> TaskAt(t, Failed(r.error))
      ensures r.Ok? ==> TaskAt(t, Got(kid, !allowStaleTtl, o)) && o.jwks == r.value
      ensures var recheck := old(clock) + d.recheck;
              var gate := recheck + d.gate;
              if old(cache).Some? && recheck - old(cache).value.fetchedAt < 300_000_000_000 then
                r == Ok(old(cache).value.jwks) && cache == old(cache) && lastForced == old(lastForced)
              else if !allowStaleTtl && old(lastForced).Some? && gate - old(lastForced).value < 5_000_000_000 then
                r == Err(Unauthorized) && cache == old(cache) && lastForced == old(lastForced)
              else
                && lastForced == (if allowStaleTtl then old(lastForced) else Some(gate + d.stamp))
                && clock == recheck + (if allowStaleTtl then 0 else d.gate + d.stamp) + d.network
                && match response
                   case None => r == Err(ProviderError) && cache == old(cache)
                   case Some(jwks) => r == Ok(jwks) && cache == Some(CachedJwks(jwks, clock))
    {
      Acquire(t, kid, !allowStaleTtl);
      var now := Now(d.recheck);
      Rechecked(t, kid, !allowStaleTtl);
      if cache.Some? && now - cache.value.fetchedAt < JWKS_TTL {
        o := Origin(cache.value.jwks, cache.value.fetchedAt, now, false);
        r := Ok(cache.value.jwks);
      } else {
        r := FetchUnlessTooEarly(t, kid, allowStaleTtl, d, response);
        o := Origin(if r.Ok? then r.value else [], clock, clock, true);
      }
    }

    /** The cached set while it is fresh, and otherwise what a refresh brings. */
    method Jwks(ghost t: Tid, ghost kid: Option<string>, wait: nat, d: Delays, response: Option<JwkSet>)
      returns (r: Result<JwkSet, AuthError>, ghost o: Origin)
      requires Valid() && Unlocked() && TaskAt(t, ReadFast(kid))
      modifies this
      ensures Valid() && Unlocked() && clock >= old(clock) && lastForced == old(lastForced)
      ensures r.Err? ==> TaskAt(t, Failed(r.error))
      ensures r.Ok? ==> TaskAt(t, Got(kid, false, o)) && o.jwks == r.value
      ensures if old(cache).Some? && old(clock) + wait - old(cache).value.fetchedAt < 300_000_000_000 then
                r == Ok(old(cache).value.jwks) && cache == old(cache) && clock == old(clock) + wait
              else
                && clock == old(clock) + wait + d.recheck + d.network
                && match response
                   case None => r == Err(ProviderError) && cache == old(cache)
                   case Some(jwks) => r == Ok(jwks) && cache == Some(CachedJwks(jwks, clock))
    {
      var now := Now(wait);
      Take(Run(t, None));
      if cache.Some? && now - cache.value.fetchedAt < JWKS_TTL {
        o := Origin(cache.value.jwks, cache.value.fetchedAt, now, false);
        return Ok(cache.value.jwks), o;
      }
      r, o := RefreshSingleFlight(t, kid, true, d, response);
    }

    /**
      A whole call, alone: it ends as task `t` of the machine ends, and an `Ok` is the key the
      token names. An unknown kid on a set that is still fresh at the second look gets no fetch.
     */
    method DecodingKeyFor(ghost t: Tid, kid: Option<string>, wait: nat, first: Delays, firstResponse: Option<JwkSet>,
                          second: Delays, secondResponse: Option<JwkSet>)
      returns (r: Result<DecodingKey, AuthError>, ghost o: Origin)
      requires Valid() && Unlocked() && t !in state.tasks
      modifies this
      ensures Valid() && Unlocked()
      ensures TaskAt(t, Resolved(kid, o, r)) || (r.Err? && TaskAt(t, Failed(r.error)))
      ensures var look := old(clock) + wait;
              var young := old(cache).Some? && look - old(cache).value.fetchedAt < 300_000_000_000;
              if !young && firstResponse.None? then r == Err(ProviderError) && cache == old(cache) && lastForced == old(lastForced)
              else
                var set1 := if young then old(cache).value else CachedJwks(firstResponse.value, look + first.recheck + first.network);
                var recheck := second.recheck + if young then look else set1.fetchedAt;
                if kid.None? || exists i: nat :: Names(set1.jwks, kid, i) then
                  Chosen(set1.jwks, kid, r) && cache == Some(set1) && lastForced == old(lastForced)
                else if recheck - set1.fetchedAt < 300_000_000_000
                        || (old(lastForced).Some? && recheck + second.gate - old(lastForced).value < 5_000_000_000) then
                  r == Err(Unauthorized) && cache == Some(set1) && lastForced == old(lastForced)
                else
                  && lastForced == Some(recheck + second.gate + second.stamp)
                  && match secondResponse
                     case None => r == Err(ProviderError) && cache == Some(set1)
                     case Some(jwks) => Chosen(jwks, kid, r) && cache == Some(CachedJwks(jwks, clock))
      ensures r.Ok? ==> (
                && (if o.justFetched then (t, CachedJwks(o.jwks, o.fetchedAt)) in state.fetchers else o.readAt - o.fetchedAt < JWKS_TTL)
                && exists i: nat :: Names(o.jwks, kid, i) && Asymmetric(o.jwks[i].algorithm) && o.jwks[i].wellFormed
                                    && r.value == DecodingKey(o.jwks[i].algorithm, o.jwks[i].material))
    {
      Take(Call(t, kid));
      var found: Result<JwkSet, AuthError>;
      found, o := Jwks(t, kid, wait, first, firstResponse);
      if found.Err? {
        return Err(found.error), o;
      }
      if kid.Some? {
        FindFirst(found.value, kid.value);
        if Find(found.value, kid.value).None? {
          found, o := RefreshSingleFlight(t, kid, false, second, secondResponse);
          if found.Err? {
            return Err(found.error), o;
          }
        }
      }
      r := SelectAsymmetricKey(found.value, kid);
      SelectionOutcome(found.value, kid);
      if r.Ok? {
        ServedKeysAreFresh(steps, t);
      }
    }
  }
}
