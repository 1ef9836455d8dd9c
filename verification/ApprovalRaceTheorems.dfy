/** What holds of the approval store under every interleaving, and what does not. */
module ApprovalRaceTheorems {
  import opened Wrappers
  import opened ApprovalTable
  import opened ApprovalRaces

  // ---- decisions --------------------------------------------------------------------

  /** No insertion is ever sent two decisions, and no caller sends twice. */
  lemma AtMostOneDecisionPerInsertion(cap: Option<nat>, steps: seq<Step>, i: nat, j: nat)
    requires var log := Run(cap, steps).log; i < j < |log| && log[i].Sent? && log[j].Sent?
    ensures var log := Run(cap, steps).log;
            log[i].entry.token != log[j].entry.token && log[i].tid != log[j].tid
  {
    ReachableInv(cap, steps);
  }

  /** Every send follows a peek by the same call, of the same id, that saw an unexpired insertion. */
  lemma EverySendFollowsAFreshPeek(cap: Option<nat>, steps: seq<Step>, j: nat)
    requires j < |Run(cap, steps).log| && Run(cap, steps).log[j].Sent?
    ensures var log := Run(cap, steps).log;
            exists i :: 0 <= i < j && log[i].Peeked? && log[i].tid == log[j].tid && log[i].id == log[j].id
                        && log[i].at <= log[i].seen.expiresAt
  {
    ReachableInv(cap, steps);
    var s := Run(cap, steps);
    var i :| 0 <= i < j && i < |s.log| && PeekAt(s, i, s.log[j].tid, s.log[j].id);
  }

  lemma OkHasSent(cap: Option<nat>, steps: seq<Step>, tid: Tid) returns (i: nat)
    requires tid in Run(cap, steps).threads && Run(cap, steps).threads[tid] == DecideDone(Ok(()))
    ensures i < |Run(cap, steps).log| && Run(cap, steps).log[i].Sent? && Run(cap, steps).log[i].tid == tid
  {
    ReachableInv(cap, steps);
    i :| 0 <= i < |Run(cap, steps).log| && Run(cap, steps).log[i].Sent? && Run(cap, steps).log[i].tid == tid;
  }

  /** A call has answered `Ok` exactly when it has sent; two calls that answered `Ok` decided two insertions. */
  lemma RacingDecidersShareNoInsertion(cap: Option<nat>, steps: seq<Step>, a: Tid, b: Tid)
    requires var s := Run(cap, steps);
             a != b && a in s.threads && b in s.threads
             && s.threads[a] == DecideDone(Ok(())) && s.threads[b] == DecideDone(Ok(()))
    ensures var log := Run(cap, steps).log;
            exists i, j :: 0 <= i < |log| && 0 <= j < |log| && log[i].Sent? && log[j].Sent?
                           && log[i].tid == a && log[j].tid == b && log[i].entry.token != log[j].entry.token
  {
    var i := OkHasSent(cap, steps, a);
    var j := OkHasSent(cap, steps, b);
    if i < j {
      AtMostOneDecisionPerInsertion(cap, steps, i, j);
    } else {
      AtMostOneDecisionPerInsertion(cap, steps, j, i);
    }
  }

  // ---- who clears expired entries --------------------------------------------------------

  /** The insertion under `id` is no longer there after the step. */
  predicate Leaves(s: State, step: Step, id: Id)
    requires id in s.table
  {
    id !in Next(s, step).table || Next(s, step).table[id] != s.table[id]
  }

  predicate PurgesIt(s: State, step: Step, id: Id)
    requires id in s.table
  {
    && step.PurgeVisit? && step.id == id && step.tid in s.threads
    && s.threads[step.tid].Purging? && s.threads[step.tid].asOf > s.table[id].expiresAt
  }

  predicate DecidesIt(s: State, step: Step, id: Id) {
    step.Advance? && step.tid in s.threads && s.threads[step.tid].DecideRemove? && s.threads[step.tid].id == id
  }

  predicate OverwritesIt(s: State, step: Step, id: Id) {
    step.Advance? && step.tid in s.threads && s.threads[step.tid].RegisterInsert? && s.threads[step.tid].id == id
  }

  lemma EntriesLeaveThen(s: State, step: Step, id: Id)
    requires id in s.table && s.table[id].token < |s.inserted|
    ensures Leaves(s, step, id) <==> PurgesIt(s, step, id) || DecidesIt(s, step, id) || OverwritesIt(s, step, id)
  {
  }

  /**
    An entry, expired or not, leaves the table exactly by a visit of the janitor that finds it
    lapsed, by a decider past its peek, or by a racing registrant that overwrites it. A decider
    looks at the clock only when it peeks: it saw the id unexpired then, and removes whatever is
    there now.
   */
  lemma EntriesLeaveExactly(cap: Option<nat>, steps: seq<Step>, step: Step, id: Id)
    requires id in Run(cap, steps).table
    ensures var s := Run(cap, steps);
            && (Leaves(s, step, id) <==> PurgesIt(s, step, id) || DecidesIt(s, step, id) || OverwritesIt(s, step, id))
            && (DecidesIt(s, step, id) ==> FreshPeek(s, |s.log|, step.tid, id))
  {
    ReachableInv(cap, steps);
    var s := Run(cap, steps);
    assert s.table[id].token < |s.inserted|;
    EntriesLeaveThen(s, step, id);
  }

  lemma RunMore(cap: Option<nat>, steps: seq<Step>, step: Step)
    ensures Run(cap, steps + [step]) == Next(Run(cap, steps), step)
  {
    assert (steps + [step])[..|steps|] == steps;
  }

  /** `steps` followed by the three map accesses of one registration and the call itself. */
  function Registration(tid: Tid, id: Id, expiresAt: Instant): seq<Step> {
    [CallRegister(tid, id, expiresAt), Advance(tid), Advance(tid), Advance(tid)]
  }

  lemma RegisterAlone(s: State, tid: Tid, id: Id, expiresAt: Instant)
    requires tid !in s.threads && id !in s.table && (s.cap.Some? ==> |s.table| < s.cap.value)
    ensures var s1 := Next(s, CallRegister(tid, id, expiresAt));
            var s2 := Next(s1, Advance(tid));
            var s3 := Next(s2, Advance(tid));
            && s1 == At(s, tid, RegisterLen(id, expiresAt))
            && s2 == At(s1, tid, RegisterContains(id, expiresAt))
            && s3 == At(s2, tid, RegisterInsert(id, expiresAt))
            && Next(s3, Advance(tid)) == Insert(s3, tid, id, expiresAt)
            && s3 == At(s, tid, RegisterInsert(id, expiresAt))
  {
    AtAgain(s, tid, RegisterLen(id, expiresAt), RegisterContains(id, expiresAt));
    AtAgain(s, tid, RegisterContains(id, expiresAt), RegisterInsert(id, expiresAt));
  }

  /** A registration that nothing interrupts inserts its entry when the table has room and the id is free. */
  lemma RunRegistration(cap: Option<nat>, steps: seq<Step>, tid: Tid, id: Id, expiresAt: Instant)
    requires var s := Run(cap, steps);
             tid !in s.threads && id !in s.table && (s.cap.Some? ==> |s.table| < s.cap.value)
    ensures var s, s' := Run(cap, steps), Run(cap, steps + Registration(tid, id, expiresAt));
            && s'.table == s.table[id := Stored(|s.inserted|, expiresAt)]
            && s'.threads == s.threads[tid := RegisterDone(Ok(()))]
            && s'.clock == s.clock && s'.log == s.log && s'.cap == s.cap
            && s'.inserted == s.inserted + [(id, expiresAt)]
  {
    var s1 := steps + [CallRegister(tid, id, expiresAt)];
    var s2 := s1 + [Advance(tid)];
    var s3 := s2 + [Advance(tid)];
    RunMore(cap, steps, CallRegister(tid, id, expiresAt));
    RunMore(cap, s1, Advance(tid));
    RunMore(cap, s2, Advance(tid));
    RunMore(cap, s3, Advance(tid));
    RegisterAlone(Run(cap, steps), tid, id, expiresAt);
    assert steps + Registration(tid, id, expiresAt) == s3 + [Advance(tid)];
  }

  /** A decider that finds a live entry and stops before removing it. */
  lemma RunPeek(cap: Option<nat>, steps: seq<Step>, tid: Tid, id: Id, d: Decision)
    requires var s := Run(cap, steps); tid !in s.threads && id in s.table && s.clock <= s.table[id].expiresAt
    ensures var s := Run(cap, steps);
            Run(cap, steps + [CallDecide(tid, id, d)] + [Advance(tid)])
            == s.(threads := s.threads[tid := DecideRemove(id, d)], log := s.log + [Peeked(tid, id, s.table[id], s.clock)])
  {
    RunMore(cap, steps, CallDecide(tid, id, d));
    RunMore(cap, steps + [CallDecide(tid, id, d)], Advance(tid));
    var s := Run(cap, steps);
    assert s.threads[tid := DecidePeek(id, d)][tid := DecideRemove(id, d)] == s.threads[tid := DecideRemove(id, d)];
  }

  /** A decider past its peek that still finds an entry under the id removes and sends it. */
  lemma RunTake(cap: Option<nat>, steps: seq<Step>, tid: Tid)
    requires var s := Run(cap, steps);
             tid in s.threads && s.threads[tid].DecideRemove? && s.threads[tid].id in s.table
    ensures var s, s' := Run(cap, steps), Run(cap, steps + [Advance(tid)] + [Advance(tid)]);
            var pc := s.threads[tid];
            && s'.table == s.table - {pc.id} && s'.threads == s.threads[tid := DecideDone(Ok(()))]
            && s'.log == s.log + [Sent(tid, pc.id, pc.decision, s.table[pc.id])]
            && s'.clock == s.clock && s'.inserted == s.inserted
  {
    RunMore(cap, steps, Advance(tid));
    RunMore(cap, steps + [Advance(tid)], Advance(tid));
  }

  /** Two callers peek the same live insertion. */
  lemma TwoPeeks() returns (steps: seq<Step>)
    ensures var s := Run(None, steps);
            && s.table == map["a" := Stored(0, 10)] && s.clock == 0 && |s.inserted| == 1
            && s.threads == map[0 := RegisterDone(Ok(())), 1 := DecideRemove("a", Approve), 2 := DecideRemove("a", Deny)]
            && s.log == [Peeked(1, "a", Stored(0, 10), 0), Peeked(2, "a", Stored(0, 10), 0)]
            && s.inserted == [("a", 10)]
    ensures forall i | 0 <= i < |steps| :: !steps[i].PurgeVisit?
  {
    steps := Registration(0, "a", 10);
    assert [] + steps == steps;
    RunRegistration(None, [], 0, "a", 10);
    RunPeek(None, steps, 1, "a", Approve);
    steps := steps + [CallDecide(1, "a", Approve)] + [Advance(1)];
    RunPeek(None, steps, 2, "a", Deny);
    steps := steps + [CallDecide(2, "a", Deny)] + [Advance(2)];
  }

  /** A decider that peeked in time removes and decides the entry after its deadline. */
  lemma ALateDeciderRemovesAnExpiredEntry() returns (steps: seq<Step>)
    ensures var s, s' := Run(None, steps), Run(None, steps + [Advance(1)]);
            "a" in s.table && s.clock > s.table["a"].expiresAt && s'.table == map[] && s'.threads[1].DecideSend?
  {
    steps := TwoPeeks();
    RunMore(None, steps, Tick(11));
    steps := steps + [Tick(11)];
    RunMore(None, steps, Advance(1));
  }

  /** Caller 2 decides the insertion both have peeked, and the id is registered again, already expired. */
  lemma DecidedAndRegisteredAgain() returns (steps: seq<Step>)
    ensures var s := Run(None, steps);
            && s.table == map["a" := Stored(1, -1)] && s.clock == 0 && 1 in s.threads && s.threads[1] == DecideRemove("a", Approve)
            && s.log == [Peeked(1, "a", Stored(0, 10), 0), Peeked(2, "a", Stored(0, 10), 0), Sent(2, "a", Deny, Stored(0, 10))]
  {
    var peeked := TwoPeeks();
    RunTake(None, peeked, 2);
    var decided := peeked + [Advance(2)] + [Advance(2)];
    RunRegistration(None, decided, 3, "a", -1);
    steps := decided + Registration(3, "a", -1);
  }

  /**
    Reuse breaks it: caller 1 peeks a live "a", caller 2 decides it, "a" is registered
    again already expired, and caller 1's decision goes to that dead insertion.
   */
  lemma ReuseLetsADecisionReachAnExpiredInsertion() returns (steps: seq<Step>)
    ensures var s := Run(None, steps);
            && |s.log| == 4 && s.log[3] == Sent(1, "a", Approve, Stored(1, -1)) && s.clock == 0
            && (forall i | 0 <= i < 4 && s.log[i].Peeked? :: s.log[i].seen == Stored(0, 10))
  {
    var again := DecidedAndRegisteredAgain();
    RunTake(None, again, 1);
    steps := again + [Advance(1)] + [Advance(1)];
  }

  // ---- capacity ---------------------------------------------------------------------

  /** Registrations that have started and not answered. */
  function InFlight(s: State): set<Tid> {
    set t | t in s.threads && (s.threads[t].RegisterLen? || s.threads[t].RegisterContains? || s.threads[t].RegisterInsert?)
  }

  /** Those of them that already found the table below its cap. */
  function PastCheck(s: State): set<Tid> {
    set t | t in s.threads && (s.threads[t].RegisterContains? || s.threads[t].RegisterInsert?)
  }

  /** At no point of the run are more than `n` registrations in flight. */
  ghost predicate AtMostInFlight(cap: Option<nat>, steps: seq<Step>, n: nat) {
    forall k | 0 <= k <= |steps| :: |InFlight(Run(cap, steps[..k]))| <= n
  }

  lemma SmallerSet<T>(a: set<T>, b: set<T>)
    requires a <= b
    ensures |a| <= |b|
  {
    assert b == a + (b - a);
  }

  lemma PutSize<K, V>(m: map<K, V>, k: K, v: V)
    ensures |m[k := v]| == if k in m then |m| else |m| + 1
  {
    assert m[k := v].Keys == m.Keys + {k};
    assert |m| == |m.Keys| && |m[k := v]| == |m[k := v].Keys|;
  }

  lemma SmallerMap<K, V>(a: map<K, V>, b: map<K, V>)
    requires a.Keys <= b.Keys
    ensures |a| <= |b|
  {
    SmallerSet(a.Keys, b.Keys);
    assert |a| == |a.Keys| && |b| == |b.Keys|;
  }

  lemma InsertRoom(s: State, t: Tid)
    requires t in s.threads && s.threads[t].RegisterInsert?
    ensures |AdvanceThread(s, t).table| + |PastCheck(AdvanceThread(s, t))| <= |s.table| + |PastCheck(s)|
  {
    assert PastCheck(AdvanceThread(s, t)) == PastCheck(s) - {t};
    PutSize(s.table, s.threads[t].id, Stored(|s.inserted|, s.threads[t].expiresAt));
  }

  /** Every other step after the length check frees room or leaves it. */
  lemma OtherRoom(s: State, step: Step)
    requires step.Advance? && step.tid in s.threads
             ==> !s.threads[step.tid].RegisterInsert? && !s.threads[step.tid].RegisterLen?
    ensures Next(s, step).table.Keys <= s.table.Keys && PastCheck(Next(s, step)) <= PastCheck(s)
  {
  }

  lemma StepRoom(s: State, step: Step, n: nat)
    requires s.cap.Some? && |s.table| + |PastCheck(s)| + 1 <= s.cap.value + n
    requires |InFlight(Next(s, step))| <= n
    ensures |Next(s, step).table| + |PastCheck(Next(s, step))| + 1 <= s.cap.value + n
  {
    var s' := Next(s, step);
    if step.Advance? && step.tid in s.threads && s.threads[step.tid].RegisterInsert? {
      InsertRoom(s, step.tid);
    } else if step.Advance? && step.tid in s.threads && s.threads[step.tid].RegisterLen? {
      if |s.table| >= s.cap.value {
        assert PastCheck(s') == PastCheck(s);
      } else {
        SmallerSet(PastCheck(s'), InFlight(s'));
      }
    } else {
      OtherRoom(s, step);
      SmallerMap(s'.table, s.table);
      SmallerSet(PastCheck(s'), PastCheck(s));
    }
  }

  lemma {:induction false} RoomInvariant(cap: nat, steps: seq<Step>, n: nat)
    requires n >= 1 && AtMostInFlight(Some(cap), steps, n)
    ensures var s := Run(Some(cap), steps); s.cap == Some(cap) && |s.table| + |PastCheck(s)| + 1 <= cap + n
    decreases |steps|
  {
    if steps != [] {
      var before := steps[..|steps| - 1];
      forall k | 0 <= k <= |before| ensures |InFlight(Run(Some(cap), before[..k]))| <= n {
        assert before[..k] == steps[..k];
      }
      RoomInvariant(cap, before, n);
      assert steps[..|steps|] == steps;
      StepRoom(Run(Some(cap), before), steps[|steps| - 1], n);
    }
  }

  /** A cap of zero admits nobody. */
  lemma {:induction false} ZeroCapStaysEmpty(steps: seq<Step>)
    ensures Run(Some(0), steps).table == map[] && PastCheck(Run(Some(0), steps)) == {}
    decreases |steps|
  {
    if steps != [] {
      ZeroCapStaysEmpty(steps[..|steps| - 1]);
      var s := Run(Some(0), steps[..|steps| - 1]);
      assert forall t | t in s.threads && (s.threads[t].RegisterContains? || s.threads[t].RegisterInsert?) :: t in PastCheck(s);
    }
  }

  /** With at most `n` registrations in flight the table never exceeds its cap by more than `n - 1`. */
  lemma RacingRegistrantsOverrunByLessThanTheirNumber(cap: nat, steps: seq<Step>, n: nat)
    requires n >= 1 && AtMostInFlight(Some(cap), steps, n)
    ensures |Run(Some(cap), steps).table| <= if cap == 0 then 0 else cap + n - 1
  {
    RoomInvariant(cap, steps, n);
    if cap == 0 {
      ZeroCapStaysEmpty(steps);
    }
  }

  // ---- the bound is reached -----------------------------------------------------------

  function Name(t: Tid): (id: Id)
    ensures |id| == t
  {
    seq(t, _ => 'x')
  }

  lemma {:induction false} FitsInterval(s: set<Tid>, a: nat, b: nat)
    requires a <= b && forall t | t in s :: a <= t < b
    ensures |s| <= b - a
    decreases b
  {
    if a == b {
      assert s == {};
    } else {
      FitsInterval(s - {b - 1}, a, b - 1);
    }
  }

  /**
    Threads below `b + k` have inserted one entry each under their own names; those from
    there to `b + j` passed both checks and are about to insert.
   */
  ghost predicate Racing(s: State, b: nat, j: nat, k: nat) {
    && k <= j
    && (forall t: Tid :: t in s.threads <==> t < b + j)
    && (forall t | t in s.threads ::
          s.threads[t] == if t < b + k then RegisterDone(Ok(())) else RegisterInsert(Name(t), 0))
    && |s.table| == b + k
    && (forall id | id in s.table :: |id| < b + k)
  }

  lemma InFlightMore(cap: Option<nat>, steps: seq<Step>, step: Step, n: nat)
    requires AtMostInFlight(cap, steps, n) && |InFlight(Run(cap, steps + [step]))| <= n
    ensures AtMostInFlight(cap, steps + [step], n)
  {
    var more := steps + [step];
    forall k | 0 <= k <= |more| ensures |InFlight(Run(cap, more[..k]))| <= n {
      if k <= |steps| {
        assert more[..k] == steps[..k];
      } else {
        assert more[..k] == more;
      }
    }
  }

  /** One more thread, whatever it is doing, puts at most `j + 1` in flight. */
  lemma RacerFits(s: State, b: nat, j: nat, pc: Pc)
    requires Racing(s, b, j, 0)
    ensures |InFlight(At(s, b + j, pc))| <= j + 1
    ensures pc == RegisterInsert(Name(b + j), 0) ==> Racing(At(s, b + j, pc), b, j + 1, 0)
  {
    FitsInterval(InFlight(At(s, b + j, pc)), b, b + j + 1);
  }

  /** One more registrant passes both checks while the table still has room. */
  lemma OneMoreRacer(cap: nat, steps: seq<Step>, b: nat, j: nat, n: nat) returns (more: seq<Step>)
    requires Racing(Run(Some(cap), steps), b, j, 0) && b < cap && j < n && AtMostInFlight(Some(cap), steps, n)
    ensures Racing(Run(Some(cap), more), b, j + 1, 0) && AtMostInFlight(Some(cap), more, n)
  {
    var s, t := Run(Some(cap), steps), b + j;
    var id := Name(t);
    var len, contains, insert := RegisterLen(id, 0), RegisterContains(id, 0), RegisterInsert(id, 0);
    AtAgain(s, t, len, contains);
    AtAgain(s, t, contains, insert);
    assert id !in s.table && AdvanceThread(At(s, t, len), t) == At(s, t, contains);
    assert AdvanceThread(At(s, t, contains), t) == At(s, t, insert);
    more := OneStep(cap, steps, CallRegister(t, id, 0), s, b, j, len, n);
    more := OneStep(cap, more, Advance(t), s, b, j, contains, n);
    more := OneStep(cap, more, Advance(t), s, b, j, insert, n);
  }

  lemma AtAgain(s: State, t: Tid, x: Pc, y: Pc)
    ensures At(At(s, t, x), t, y) == At(s, t, y)
  {
    assert s.threads[t := x][t := y] == s.threads[t := y];
  }

  lemma OneStep(cap: nat, steps: seq<Step>, step: Step, s: State, b: nat, j: nat, pc: Pc, n: nat) returns (more: seq<Step>)
    requires Racing(s, b, j, 0) && j < n && AtMostInFlight(Some(cap), steps, n)
    requires Next(Run(Some(cap), steps), step) == At(s, b + j, pc)
    ensures Run(Some(cap), more) == At(s, b + j, pc) && AtMostInFlight(Some(cap), more, n)
    ensures pc == RegisterInsert(Name(b + j), 0) ==> Racing(At(s, b + j, pc), b, j + 1, 0)
  {
    more := steps + [step];
    RunMore(Some(cap), steps, step);
    RacerFits(s, b, j, pc);
    InFlightMore(Some(cap), steps, step, n);
  }

  lemma InsertRaces(s: State, b: nat, j: nat, k: nat)
    requires Racing(s, b, j, k) && k < j
    ensures Racing(AdvanceThread(s, b + k), b, j, k + 1)
    ensures InFlight(AdvanceThread(s, b + k)) <= InFlight(s)
  {
    assert s.threads[b + k] == RegisterInsert(Name(b + k), 0) && Name(b + k) !in s.table;
    PutSize(s.table, Name(b + k), Stored(|s.inserted|, 0));
  }

  /** The next racer inserts, whatever the table has become. */
  lemma OneMoreInsert(cap: nat, steps: seq<Step>, b: nat, j: nat, k: nat, n: nat) returns (more: seq<Step>)
    requires Racing(Run(Some(cap), steps), b, j, k) && k < j && AtMostInFlight(Some(cap), steps, n)
    ensures Racing(Run(Some(cap), more), b, j, k + 1) && AtMostInFlight(Some(cap), more, n)
  {
    var s, t := Run(Some(cap), steps), b + k;
    more := steps + [Advance(t)];
    RunMore(Some(cap), steps, Advance(t));
    InsertRaces(s, b, j, k);
    assert steps[..|steps|] == steps;
    SmallerSet(InFlight(AdvanceThread(s, t)), InFlight(s));
    InFlightMore(Some(cap), steps, Advance(t), n);
  }

  /** The overrun is exact: for every positive cap and every number of racers some run fills the table to `cap + n - 1`. */
  lemma OverrunIsReached(cap: nat, n: nat) returns (steps: seq<Step>)
    requires cap >= 1 && n >= 1
    ensures AtMostInFlight(Some(cap), steps, n) && |Run(Some(cap), steps).table| == cap + n - 1
  {
    steps := [];
    var b := 0;
    assert InFlight(Init(Some(cap))) == {};
    while b < cap - 1
      invariant 0 <= b <= cap - 1 && AtMostInFlight(Some(cap), steps, n) && Racing(Run(Some(cap), steps), b, 0, 0)
    {
      steps := OneMoreRacer(cap, steps, b, 0, n);
      steps := OneMoreInsert(cap, steps, b, 1, 0, n);
      b := b + 1;
    }
    var j, k := 0, 0;
    while j < n
      invariant 0 <= j <= n && AtMostInFlight(Some(cap), steps, n) && Racing(Run(Some(cap), steps), b, j, 0)
    {
      steps := OneMoreRacer(cap, steps, b, j, n);
      j := j + 1;
    }
    while k < n
      invariant 0 <= k <= n && AtMostInFlight(Some(cap), steps, n) && Racing(Run(Some(cap), steps), b, n, k)
    {
      steps := OneMoreInsert(cap, steps, b, n, k, n);
      k := k + 1;
    }
  }
}
