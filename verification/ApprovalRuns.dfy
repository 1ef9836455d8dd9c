/** Whole histories of calls that run one at a time, and what the janitor changes about them. */
module ApprovalRuns {
  import opened Wrappers
  import opened ApprovalTable

  datatype Call =
    | RegisterCall(id: Id, entry: Entry, now: Instant)
    | DecideCall(id: Id, decision: Decision, now: Instant)
    | StatusCall(id: Id, now: Instant)
    | ListCall(now: Instant)
    | EarliestCall(ids: seq<Id>, now: Instant)
    | PurgeCall(now: Instant)

  datatype Answer =
    | Registered(result: Result<(), ApprovalError>)
    | Decided(outcome: Result<(), ApprovalError>, sent: Option<Message>)
    | Reported(status: Option<Status>)
    | Listing(pending: map<Id, Status>)
    | Deadline(at: Option<Instant>)
    | Removed(count: int)

  function Apply(cap: Option<nat>, t: Table, c: Call): (Table, Answer) {
    match c
    case RegisterCall(id, e, _) => var (t', r) := Register(t, cap, id, e); (t', Registered(r))
    case DecideCall(id, d, now) => var (t', r, sent) := Decide(t, id, d, now); (t', Decided(r, sent))
    case StatusCall(id, now) => (t, Reported(StatusAt(t, id, now)))
    case ListCall(now) => (t, Listing(Listed(t, now)))
    case EarliestCall(ids, _) => (t, Deadline(EarliestExpiry(t, ids)))
    case PurgeCall(now) => (Purge(t, now), Removed(|t| - |Purge(t, now)|))
  }

  /** The calls of a history paired with their answers. */
  function Run(cap: Option<nat>, t: Table, calls: seq<Call>): (log: seq<(Call, Answer)>)
    ensures |log| == |calls|
    ensures forall i | 0 <= i < |log| :: log[i].0 == calls[i]
    decreases |calls|
  {
    if calls == [] then []
    else var (t', a) := Apply(cap, t, calls[0]); [(calls[0], a)] + Run(cap, t', calls[1..])
  }

  function After(cap: Option<nat>, t: Table, calls: seq<Call>): Table
    decreases |calls|
  {
    if calls == [] then t else After(cap, Apply(cap, t, calls[0]).0, calls[1..])
  }

  function WithoutPurges(calls: seq<Call>): seq<Call> {
    if calls == [] then []
    else (if calls[0].PurgeCall? then [] else [calls[0]]) + WithoutPurges(calls[1..])
  }

  function WithoutPurgeAnswers(log: seq<(Call, Answer)>): seq<(Call, Answer)> {
    if log == [] then []
    else (if log[0].0.PurgeCall? then [] else [log[0]]) + WithoutPurgeAnswers(log[1..])
  }

  /** The clock never runs backwards, starting from `clock`. */
  ghost predicate Monotone(clock: Instant, calls: seq<Call>)
    decreases |calls|
  {
    calls != [] ==> clock <= calls[0].now && Monotone(calls[0].now, calls[1..])
  }

  /** No id is registered twice, nor any of `used`. */
  ghost predicate NeverReused(used: set<Id>, calls: seq<Call>)
    decreases |calls|
  {
    calls != [] ==>
      if calls[0].RegisterCall? then calls[0].id !in used && NeverReused(used + {calls[0].id}, calls[1..])
      else NeverReused(used, calls[1..])
  }

  /**
    What the janitor may change about one answer (`a` with it, `b` without): an already
    lapsed entry may be gone instead of shown as lapsed. Registrations, listings,
    accepted decisions and delivered messages are the same.
   */
  ghost predicate SameToCallers(c: Call, a: Answer, b: Answer) {
    match c
    case RegisterCall(_, _, _) => a == b
    case ListCall(_) => a == b
    case PurgeCall(_) => true
    case DecideCall(_, _, _) =>
      a == b || (a == Decided(Err(NotFound), None) && b == Decided(Err(Expired), None))
    case StatusCall(_, _) =>
      a == b || (a == Reported(None) && b.Reported? && b.status.Some? && b.status.value.expired)
    case EarliestCall(_, now) =>
      a == b || (a.Deadline? && b.Deadline? && b.at.Some? && b.at.value < now
                 && (a.at.None? || b.at.value < a.at.value))
  }

  ghost predicate IndistinguishableLogs(a: seq<(Call, Answer)>, b: seq<(Call, Answer)>) {
    && |a| == |b|
    && forall i | 0 <= i < |a| :: a[i].0 == b[i].0 && SameToCallers(a[i].0, a[i].1, b[i].1)
  }

  /** `full` is `purged` plus entries that had already lapsed by `clock`; `used` covers every id seen. */
  ghost predicate DiffersByLapsed(purged: Table, full: Table, clock: Instant, used: set<Id>) {
    && purged.Keys <= full.Keys <= used
    && (forall id | id in purged :: purged[id] == full[id])
    && (forall id | id in full && id !in purged :: full[id].expiresAt < clock)
  }

  lemma {:induction false} EarliestDiffersByLapsed(p: Table, f: Table, clock: Instant, used: set<Id>, ids: seq<Id>, now: Instant)
    requires DiffersByLapsed(p, f, clock, used) && clock <= now
    ensures SameToCallers(EarliestCall(ids, now), Deadline(EarliestExpiry(p, ids)), Deadline(EarliestExpiry(f, ids)))
  {
    if ids != [] {
      EarliestDiffersByLapsed(p, f, clock, used, ids[..|ids| - 1], now);
    }
  }

  lemma StepKeepsDifference(p: Table, f: Table, clock: Instant, used: set<Id>, c: Call)
    requires DiffersByLapsed(p, f, clock, used) && clock <= c.now && !c.PurgeCall?
    requires c.RegisterCall? ==> c.id !in used
    ensures DiffersByLapsed(Apply(None, p, c).0, Apply(None, f, c).0, c.now,
                            if c.RegisterCall? then used + {c.id} else used)
    ensures SameToCallers(c, Apply(None, p, c).1, Apply(None, f, c).1)
  {
    if c.EarliestCall? {
      EarliestDiffersByLapsed(p, f, clock, used, c.ids, c.now);
    }
    if c.ListCall? {
      assert Listed(p, c.now) == Listed(f, c.now);
    }
  }

  lemma PurgeKeepsDifference(p: Table, f: Table, clock: Instant, used: set<Id>, now: Instant)
    requires DiffersByLapsed(p, f, clock, used) && clock <= now
    ensures DiffersByLapsed(Apply(None, p, PurgeCall(now)).0, f, now, used)
  {
  }

  lemma LogsCons(c: Call, a: Answer, b: Answer, x: seq<(Call, Answer)>, y: seq<(Call, Answer)>)
    requires SameToCallers(c, a, b) && IndistinguishableLogs(x, y)
    ensures IndistinguishableLogs([(c, a)] + x, [(c, b)] + y)
  {
  }

  lemma {:induction false} ErasureSimulation(p: Table, f: Table, clock: Instant, used: set<Id>, calls: seq<Call>)
    requires DiffersByLapsed(p, f, clock, used)
    requires Monotone(clock, calls) && NeverReused(used, calls)
    ensures IndistinguishableLogs(WithoutPurgeAnswers(Run(None, p, calls)), Run(None, f, WithoutPurges(calls)))
    decreases |calls|
  {
    if calls != [] {
      var c := calls[0];
      var p' := Apply(None, p, c).0;
      if c.PurgeCall? {
        PurgeKeepsDifference(p, f, clock, used, c.now);
        ErasureSimulation(p', f, c.now, used, calls[1..]);
        UnfoldRuns(p, f, calls);
      } else {
        StepKeepsDifference(p, f, clock, used, c);
        var f' := Apply(None, f, c).0;
        ErasureSimulation(p', f', c.now, if c.RegisterCall? then used + {c.id} else used, calls[1..]);
        UnfoldRuns(p, f, calls);
        LogsCons(c, Apply(None, p, c).1, Apply(None, f, c).1,
                 WithoutPurgeAnswers(Run(None, p', calls[1..])), Run(None, f', WithoutPurges(calls[1..])));
      }
    }
  }

  lemma UnfoldRuns(p: Table, f: Table, calls: seq<Call>)
    requires calls != []
    ensures var c := calls[0];
            var (p', a) := Apply(None, p, c);
            var (f', b) := Apply(None, f, c);
            var x := WithoutPurgeAnswers(Run(None, p', calls[1..]));
            if c.PurgeCall? then
              WithoutPurgeAnswers(Run(None, p, calls)) == x && WithoutPurges(calls) == WithoutPurges(calls[1..])
            else
              && WithoutPurgeAnswers(Run(None, p, calls)) == [(c, a)] + x
              && Run(None, f, WithoutPurges(calls)) == [(c, b)] + Run(None, f', WithoutPurges(calls[1..]))
  {
    assert Run(None, p, calls)[1..] == Run(None, Apply(None, p, calls[0]).0, calls[1..]);
    if !calls[0].PurgeCall? {
      assert WithoutPurges(calls)[1..] == WithoutPurges(calls[1..]);
    }
  }

  /**
    Erasing the janitor from any history of an uncapped table, with ids that are never
    reused and a clock that never runs backwards, is invisible to every caller.
   */
  lemma JanitorIsUnobservable(clock: Instant, calls: seq<Call>)
    requires Monotone(clock, calls) && NeverReused({}, calls)
    ensures IndistinguishableLogs(WithoutPurgeAnswers(Run(None, map[], calls)), Run(None, map[], WithoutPurges(calls)))
  {
    ErasureSimulation(map[], map[], clock, {}, calls);
  }

  /** A history in which some caller can tell that the janitor ran. */
  ghost predicate JanitorSeen(cap: Option<nat>, calls: seq<Call>) {
    !IndistinguishableLogs(WithoutPurgeAnswers(Run(cap, map[], calls)), Run(cap, map[], WithoutPurges(calls)))
  }

  lemma PremisesOfThree(a: Call, b: Call, c: Call)
    requires b.PurgeCall?
    ensures Monotone(a.now, [a, b, c]) <==> a.now <= b.now <= c.now
    ensures NeverReused({}, [a, b, c]) <==> !(a.RegisterCall? && c.RegisterCall? && a.id == c.id)
  {
    assert [a, b, c][1..] == [b, c] && [b, c][1..] == [c] && [c][1..] == [];
    assert Monotone(b.now, [c]) <==> b.now <= c.now;
    forall used ensures NeverReused(used, [b, c]) <==> !(c.RegisterCall? && c.id in used) {
      assert NeverReused(used, [c]) <==> !(c.RegisterCall? && c.id in used);
    }
    assert a.RegisterCall? ==> {} + {a.id} == {a.id};
  }

  lemma ErasingTheMiddle(x: (Call, Answer), y: (Call, Answer), z: (Call, Answer))
    requires !x.0.PurgeCall? && y.0.PurgeCall? && !z.0.PurgeCall?
    ensures WithoutPurgeAnswers([x, y, z]) == [x, z]
    ensures WithoutPurges([x.0, y.0, z.0]) == [x.0, z.0]
  {
    assert [x, y, z][1..] == [y, z] && [y, z][1..] == [z] && [z][1..] == [];
    assert WithoutPurgeAnswers([y, z]) == [] + WithoutPurgeAnswers([z]) == [z];
    assert [x.0, y.0, z.0][1..] == [y.0, z.0] && [y.0, z.0][1..] == [z.0] && [z.0][1..] == [];
    assert WithoutPurges([y.0, z.0]) == [] + WithoutPurges([z.0]) == [z.0];
  }

  lemma RunOfTwo(cap: Option<nat>, t: Table, a: Call, b: Call)
    ensures var t1 := Apply(cap, t, a).0;
            Run(cap, t, [a, b]) == [(a, Apply(cap, t, a).1), (b, Apply(cap, t1, b).1)]
  {
    assert [a, b][1..] == [b] && [b][1..] == [];
    assert Run(cap, Apply(cap, t, a).0, [b]) == [(b, Apply(cap, Apply(cap, t, a).0, b).1)];
  }

  /** The janitor runs between `a` and `c`: it is seen when it changes what `c` answers. */
  lemma PurgeBetween(cap: Option<nat>, a: Call, b: Call, c: Call)
    requires !a.PurgeCall? && b.PurgeCall? && !c.PurgeCall?
    requires var t := Apply(cap, map[], a).0;
             !SameToCallers(c, Apply(cap, Purge(t, b.now), c).1, Apply(cap, t, c).1)
    ensures JanitorSeen(cap, [a, b, c])
  {
    var t := Apply(cap, map[], a).0;
    RunOfTwo(cap, map[], a, c);
    RunOfTwo(cap, t, b, c);
    assert [a, b, c][1..] == [b, c];
    var purged := Run(cap, map[], [a, b, c]);
    ErasingTheMiddle(purged[0], purged[1], purged[2]);
    assert purged == [purged[0], purged[1], purged[2]];
  }

  /** None of the three premises can go: a cap, a reused id or a clock step backwards each exposes the janitor. */
  lemma JanitorIsSeenOtherwise(e: Entry)
    requires e.expiresAt == 5
    ensures var calls := [RegisterCall("a", e, 0), PurgeCall(6), RegisterCall("b", e, 6)];
            Monotone(0, calls) && NeverReused({}, calls) && JanitorSeen(Some(1), calls)
    ensures var calls := [RegisterCall("a", e, 0), PurgeCall(6), RegisterCall("a", e, 6)];
            Monotone(0, calls) && JanitorSeen(None, calls)
    ensures var calls := [RegisterCall("a", e, 0), PurgeCall(6), DecideCall("a", Approve, 1)];
            NeverReused({}, calls) && JanitorSeen(None, calls)
  {
    var a := RegisterCall("a", e, 0);
    assert Purge(map["a" := e], 6) == map[] && map[]["a" := e] == map["a" := e];
    forall c ensures Monotone(0, [a, PurgeCall(6), c]) <==> 6 <= c.now
              ensures NeverReused({}, [a, PurgeCall(6), c]) <==> !(c.RegisterCall? && c.id == "a")
    {
      PremisesOfThree(a, PurgeCall(6), c);
    }
    PurgeBetween(Some(1), a, PurgeCall(6), RegisterCall("b", e, 6));
    PurgeBetween(None, a, PurgeCall(6), RegisterCall("a", e, 6));
    PurgeBetween(None, a, PurgeCall(6), DecideCall("a", Approve, 1));
  }

  /** Calls that run one at a time never push the table over its cap. */
  lemma {:induction false} AtomicRunsRespectCap(cap: nat, t: Table, calls: seq<Call>)
    requires |t| <= cap
    ensures |After(Some(cap), t, calls)| <= cap
    decreases |calls|
  {
    if calls != [] {
      var t' := Apply(Some(cap), t, calls[0]).0;
      if calls[0].PurgeCall? {
        SubmapIsSmaller(t', t);
      }
      AtomicRunsRespectCap(cap, t', calls[1..]);
    }
  }

  lemma SubmapIsSmaller(a: Table, b: Table)
    requires a.Keys <= b.Keys
    ensures |a| <= |b|
  {
    assert b.Keys == a.Keys + (b.Keys - a.Keys);
    assert |b.Keys| == |a.Keys| + |b.Keys - a.Keys|;
    assert |a| == |a.Keys| && |b| == |b.Keys|;
  }
}
