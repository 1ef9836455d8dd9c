/**
  The same store under concurrency: every map access is one step, and any number of
  registrants, deciders and purges interleave. A step that is not enabled changes nothing.
 */
module ApprovalRaces {
  import opened Wrappers
  import opened ApprovalTable

  type Tid = nat
  /** The number of an insertion: two insertions under one id have two tokens. */
  type Token = nat

  datatype Stored = Stored(token: Token, expiresAt: Instant)

  datatype Pc =
    | RegisterLen(id: Id, expiresAt: Instant)
    | RegisterContains(id: Id, expiresAt: Instant)
    | RegisterInsert(id: Id, expiresAt: Instant)
    | DecidePeek(id: Id, decision: Decision)
    | DecideRemove(id: Id, decision: Decision)
    | DecideSend(id: Id, decision: Decision, entry: Stored)
    | Purging(asOf: Instant)
    | RegisterDone(registered: Result<(), ApprovalError>)
    | DecideDone(outcome: Result<(), ApprovalError>)
    | PurgeDone

  datatype Event =
    | Peeked(tid: Tid, id: Id, seen: Stored, at: Instant)
    | Sent(tid: Tid, id: Id, decision: Decision, entry: Stored)

  /** Where an insertion is now. */
  datatype Fate = InTable(id: Id) | HeldBy(tid: Tid) | SentBy(tid: Tid) | Purged | Overwritten

  /**
    `inserted` records each insertion under its token and `fates` where it went;
    no step reads either, nor the log.
   */
  datatype State = State(
    cap: Option<nat>,
    clock: Instant,
    table: map<Id, Stored>,
    threads: map<Tid, Pc>,
    log: seq<Event>,
    inserted: seq<(Id, Instant)>,
    fates: seq<Fate>)

  datatype Step =
    | Tick(elapsed: nat)
    | CallRegister(tid: Tid, id: Id, expiresAt: Instant)
    | CallDecide(tid: Tid, id: Id, decision: Decision)
    | CallPurge(tid: Tid)
    | Advance(tid: Tid)
    | PurgeVisit(tid: Tid, id: Id)

  function Init(cap: Option<nat>): State {
    State(cap, 0, map[], map[], [], [], [])
  }

  function At(s: State, tid: Tid, pc: Pc): State {
    s.(threads := s.threads[tid := pc])
  }

  function Refate(fates: seq<Fate>, k: Token, f: Fate): seq<Fate> {
    if k < |fates| then fates[k := f] else fates
  }

  /** The map insert: it overwrites whatever a racing registrant put under the same id. */
  function Insert(s: State, tid: Tid, id: Id, expiresAt: Instant): State {
    var fates := if id in s.table then Refate(s.fates, s.table[id].token, Overwritten) else s.fates;
    State(s.cap, s.clock, s.table[id := Stored(|s.inserted|, expiresAt)],
          s.threads[tid := RegisterDone(Ok(()))], s.log,
          s.inserted + [(id, expiresAt)], fates + [InTable(id)])
  }

  function Remove(s: State, id: Id, fate: Fate): State
    requires id in s.table
  {
    s.(table := s.table - {id}, fates := Refate(s.fates, s.table[id].token, fate))
  }

  /** The next step of a running call. */
  function AdvanceThread(s: State, tid: Tid): State
    requires tid in s.threads
  {
    match s.threads[tid]
    case RegisterLen(id, at) =>
      At(s, tid, if s.cap.Some? && |s.table| >= s.cap.value then RegisterDone(Err(CapExceeded))
                 else RegisterContains(id, at))
    case RegisterContains(id, at) =>
      At(s, tid, if id in s.table then RegisterDone(Err(NotFound)) else RegisterInsert(id, at))
    case RegisterInsert(id, at) => Insert(s, tid, id, at)
    case DecidePeek(id, d) =>
      if id !in s.table then At(s, tid, DecideDone(Err(NotFound)))
      else if s.clock > s.table[id].expiresAt then At(s, tid, DecideDone(Err(Expired)))
      else At(s, tid, DecideRemove(id, d)).(log := s.log + [Peeked(tid, id, s.table[id], s.clock)])
    case DecideRemove(id, d) =>
      if id !in s.table then At(s, tid, DecideDone(Err(NotFound)))
      else At(Remove(s, id, HeldBy(tid)), tid, DecideSend(id, d, s.table[id]))
    case DecideSend(id, d, entry) =>
      At(s, tid, DecideDone(Ok(()))).(
        log := s.log + [Sent(tid, id, d, entry)],
        fates := Refate(s.fates, entry.token, SentBy(tid)))
    case Purging(_) => At(s, tid, PurgeDone)
    case _ => s
  }

  function Next(s: State, step: Step): State {
    match step
    case Tick(n) => s.(clock := s.clock + n)
    case CallRegister(tid, id, at) => if tid in s.threads then s else At(s, tid, RegisterLen(id, at))
    case CallDecide(tid, id, d) => if tid in s.threads then s else At(s, tid, DecidePeek(id, d))
    case CallPurge(tid) => if tid in s.threads then s else At(s, tid, Purging(s.clock))
    case Advance(tid) => if tid in s.threads then AdvanceThread(s, tid) else s
    case PurgeVisit(tid, id) =>
      if tid in s.threads && s.threads[tid].Purging? && id in s.table && s.threads[tid].asOf > s.table[id].expiresAt
      then Remove(s, id, Purged) else s
  }

  /** The state after `steps` from the empty store: every reachable state is one of these. */
  function Run(cap: Option<nat>, steps: seq<Step>): (s: State)
    ensures s.cap == cap
    decreases |steps|
  {
    if steps == [] then Init(cap) else Next(Run(cap, steps[..|steps| - 1]), steps[|steps| - 1])
  }

  // ---- the invariant ---------------------------------------------------------------

  /** Every insertion is in exactly one place, and every place is known to it. */
  ghost predicate Accounted(s: State) {
    && |s.fates| == |s.inserted|
    && (forall id | id in s.table ::
          var e := s.table[id];
          e.token < |s.fates| && s.fates[e.token] == InTable(id) && s.inserted[e.token] == (id, e.expiresAt))
    && (forall k | 0 <= k < |s.fates| && s.fates[k].InTable? ::
          s.fates[k].id in s.table && s.table[s.fates[k].id].token == k)
  }

  ghost predicate HeldOnce(s: State)
    requires |s.fates| == |s.inserted|
  {
    && (forall tid | tid in s.threads && s.threads[tid].DecideSend? ::
          var e := s.threads[tid].entry;
          e.token < |s.fates| && s.fates[e.token] == HeldBy(tid)
          && s.inserted[e.token] == (s.threads[tid].id, e.expiresAt))
    && (forall k | 0 <= k < |s.fates| && s.fates[k].HeldBy? ::
          s.fates[k].tid in s.threads && s.threads[s.fates[k].tid].DecideSend?
          && s.threads[s.fates[k].tid].entry.token == k)
  }

  ghost predicate SentOnce(s: State)
    requires |s.fates| == |s.inserted|
  {
    && (forall i | 0 <= i < |s.log| && s.log[i].Sent? ::
          var e := s.log[i];
          e.entry.token < |s.fates| && s.fates[e.entry.token] == SentBy(e.tid)
          && s.inserted[e.entry.token] == (e.id, e.entry.expiresAt)
          && e.tid in s.threads && s.threads[e.tid] == DecideDone(Ok(())))
    && (forall i, j | 0 <= i < j < |s.log| && s.log[i].Sent? && s.log[j].Sent? ::
          s.log[i].entry.token != s.log[j].entry.token && s.log[i].tid != s.log[j].tid)
  }

  /** A `Peeked` before position `n` of the log by `tid` for `id` that saw an unexpired insertion under that id. */
  ghost predicate FreshPeek(s: State, n: nat, tid: Tid, id: Id) {
    exists i :: 0 <= i < n && i < |s.log| && PeekAt(s, i, tid, id)
  }

  ghost predicate PeekAt(s: State, i: nat, tid: Tid, id: Id)
    requires i < |s.log|
  {
    var e := s.log[i];
    e.Peeked? && e.tid == tid && e.id == id && e.at <= e.seen.expiresAt
    && e.seen.token < |s.inserted| && s.inserted[e.seen.token] == (id, e.seen.expiresAt)
  }

  ghost predicate PeekedFirst(s: State) {
    && (forall tid | tid in s.threads && (s.threads[tid].DecideRemove? || s.threads[tid].DecideSend?) ::
          FreshPeek(s, |s.log|, tid, s.threads[tid].id))
    && (forall i | 0 <= i < |s.log| && s.log[i].Sent? :: FreshPeek(s, i, s.log[i].tid, s.log[i].id))
  }

  /** The callers that got `Ok` are exactly those that sent. */
  ghost predicate OkMeansSent(s: State) {
    forall tid | tid in s.threads && s.threads[tid] == DecideDone(Ok(())) ::
      exists i :: 0 <= i < |s.log| && s.log[i].Sent? && s.log[i].tid == tid
  }

  /** Who holds or has sent what; independent of the order of steps. */
  ghost predicate Custody(s: State) {
    Accounted(s) && HeldOnce(s) && SentOnce(s)
  }

  ghost predicate Inv(s: State) {
    Custody(s) && PeekedFirst(s) && OkMeansSent(s)
  }

  lemma FreshPeekSurvives(s: State, s': State, n: nat, tid: Tid, id: Id)
    requires FreshPeek(s, n, tid, id) && n <= |s.log|
    requires s.log <= s'.log && s.inserted <= s'.inserted
    ensures FreshPeek(s', n, tid, id) && FreshPeek(s', |s'.log|, tid, id)
  {
    var i :| 0 <= i < n && i < |s.log| && PeekAt(s, i, tid, id);
    assert PeekAt(s', i, tid, id);
  }

  /** A thread moves on without taking or sending anything. */
  lemma MoveKeepsCustody(s: State, tid: Tid, pc: Pc, log: seq<Event>)
    requires Custody(s) && s.log <= log && forall i | |s.log| <= i < |log| :: log[i].Peeked?
    requires tid in s.threads ==> !s.threads[tid].DecideSend? && s.threads[tid] != DecideDone(Ok(()))
    requires !pc.DecideSend?
    ensures Custody(At(s, tid, pc).(log := log))
  {
    var s' := At(s, tid, pc).(log := log);
    assert Accounted(s');
    assert HeldOnce(s');
    assert SentOnce(s');
  }

  lemma InsertKeepsAccounts(s: State, tid: Tid)
    requires Custody(s) && tid in s.threads && s.threads[tid].RegisterInsert?
    ensures Accounted(AdvanceThread(s, tid))
  {
  }

  lemma InsertKeepsHolders(s: State, tid: Tid)
    requires Custody(s) && tid in s.threads && s.threads[tid].RegisterInsert?
    requires Accounted(AdvanceThread(s, tid))
    ensures HeldOnce(AdvanceThread(s, tid))
  {
  }

  lemma InsertKeepsCustody(s: State, tid: Tid)
    requires Custody(s) && tid in s.threads && s.threads[tid].RegisterInsert?
    ensures Custody(AdvanceThread(s, tid))
  {
    InsertKeepsAccounts(s, tid);
    InsertKeepsHolders(s, tid);
    assert SentOnce(AdvanceThread(s, tid));
  }

  lemma RemovalKeepsCustody(s: State, id: Id)
    requires Custody(s) && id in s.table
    ensures Custody(Remove(s, id, Purged))
  {
    var s' := Remove(s, id, Purged);
    assert Accounted(s');
    assert HeldOnce(s');
    assert SentOnce(s');
  }

  lemma TakeKeepsCustody(s: State, tid: Tid)
    requires Custody(s) && tid in s.threads && s.threads[tid].DecideRemove? && s.threads[tid].id in s.table
    ensures Custody(AdvanceThread(s, tid))
  {
    var s' := AdvanceThread(s, tid);
    assert Accounted(s');
    assert HeldOnce(s');
    assert SentOnce(s');
  }

  lemma SendKeepsCustody(s: State, tid: Tid)
    requires Custody(s) && tid in s.threads && s.threads[tid].DecideSend?
    ensures Custody(AdvanceThread(s, tid))
  {
    var s' := AdvanceThread(s, tid);
    assert Accounted(s');
    assert HeldOnce(s');
    assert SentOnce(s');
  }

  lemma NextKeepsCustody(s: State, step: Step)
    requires Custody(s)
    ensures Custody(Next(s, step))
  {
    match step
    case Tick(_) =>
    case CallRegister(tid, id, at) => if tid !in s.threads { MoveKeepsCustody(s, tid, RegisterLen(id, at), s.log); }
    case CallDecide(tid, id, d) => if tid !in s.threads { MoveKeepsCustody(s, tid, DecidePeek(id, d), s.log); }
    case CallPurge(tid) => if tid !in s.threads { MoveKeepsCustody(s, tid, Purging(s.clock), s.log); }
    case PurgeVisit(tid, id) => if id in s.table { RemovalKeepsCustody(s, id); }
    case Advance(tid) =>
      if tid in s.threads {
        AdvanceKeepsCustody(s, tid);
      }
  }

  lemma AdvanceKeepsCustody(s: State, tid: Tid)
    requires Custody(s) && tid in s.threads
    ensures Custody(AdvanceThread(s, tid))
  {
    var s', pc := AdvanceThread(s, tid), s.threads[tid];
    if pc.RegisterInsert? {
      InsertKeepsCustody(s, tid);
    } else if pc.DecideSend? {
      SendKeepsCustody(s, tid);
    } else if pc.DecideRemove? && pc.id in s.table {
      TakeKeepsCustody(s, tid);
    } else if !pc.DecideDone? && !pc.RegisterDone? && !pc.PurgeDone? {
      assert s' == At(s, tid, s'.threads[tid]).(log := s'.log);
      MoveKeepsCustody(s, tid, s'.threads[tid], s'.log);
    }
  }

  /** What every step does to the log, to the tokens and to the threads that decide. */
  lemma NextExtends(s: State, step: Step)
    ensures var s' := Next(s, step);
            && s.log <= s'.log && s.inserted <= s'.inserted && |s'.log| <= |s.log| + 1
            && (forall t | t in s.threads && !(step == Advance(t)) :: t in s'.threads && s'.threads[t] == s.threads[t])
            && (forall t | t in s'.threads && !(step == Advance(t)) ::
                  ((t in s.threads && s'.threads[t] == s.threads[t])
                   || s'.threads[t].RegisterLen? || s'.threads[t].DecidePeek? || s'.threads[t].Purging?))
            && (!step.Advance? ==> s'.log == s.log)
  {
  }

  lemma ThreadsHavePeeked(s: State, step: Step, tid: Tid)
    requires Inv(s) && tid in Next(s, step).threads
    requires Next(s, step).threads[tid].DecideRemove? || Next(s, step).threads[tid].DecideSend?
    ensures var s' := Next(s, step); FreshPeek(s', |s'.log|, tid, s'.threads[tid].id)
  {
    NextExtends(s, step);
    if step == Advance(tid) && tid in s.threads {
      AdvanceKeepsPeek(s, tid);
    } else {
      FreshPeekSurvives(s, Next(s, step), |s.log|, tid, s.threads[tid].id);
    }
  }

  lemma SendsHavePeeked(s: State, step: Step, i: nat)
    requires Inv(s) && i < |Next(s, step).log| && Next(s, step).log[i].Sent?
    ensures var s' := Next(s, step); FreshPeek(s', i, s'.log[i].tid, s'.log[i].id)
  {
    NextExtends(s, step);
    if i < |s.log| {
      assert Next(s, step).log[i] == s.log[i];
      FreshPeekSurvives(s, Next(s, step), i, s.log[i].tid, s.log[i].id);
    } else {
      AdvanceKeepsPeek(s, step.tid);
    }
  }

  lemma NextKeepsPeekedFirst(s: State, step: Step)
    requires Inv(s)
    ensures PeekedFirst(Next(s, step))
  {
    var s' := Next(s, step);
    forall tid | tid in s'.threads && (s'.threads[tid].DecideRemove? || s'.threads[tid].DecideSend?)
      ensures FreshPeek(s', |s'.log|, tid, s'.threads[tid].id)
    {
      ThreadsHavePeeked(s, step, tid);
    }
    forall i | 0 <= i < |s'.log| && s'.log[i].Sent? ensures FreshPeek(s', i, s'.log[i].tid, s'.log[i].id) {
      SendsHavePeeked(s, step, i);
    }
  }

  lemma AdvanceKeepsPeek(s: State, tid: Tid)
    requires Inv(s) && tid in s.threads
    ensures var s' := AdvanceThread(s, tid);
            && (s'.threads[tid].DecideRemove? || s'.threads[tid].DecideSend? ==>
                  FreshPeek(s', |s'.log|, tid, s'.threads[tid].id))
            && (|s'.log| > |s.log| && s'.log[|s.log|].Sent? ==>
                  FreshPeek(s', |s.log|, s'.log[|s.log|].tid, s'.log[|s.log|].id))
  {
    var s' := AdvanceThread(s, tid);
    NextExtends(s, Advance(tid));
    match s.threads[tid]
    case DecidePeek(id, _) =>
      if s'.threads[tid].DecideRemove? {
        assert PeekAt(s', |s.log|, tid, id);
      }
    case DecideRemove(id, _) => FreshPeekSurvives(s, s', |s.log|, tid, id);
    case DecideSend(id, _, _) => FreshPeekSurvives(s, s', |s.log|, tid, id);
    case _ =>
  }

  lemma NextKeepsOk(s: State, step: Step)
    requires OkMeansSent(s)
    ensures OkMeansSent(Next(s, step))
  {
    var s' := Next(s, step);
    NextExtends(s, step);
    forall t | t in s'.threads && s'.threads[t] == DecideDone(Ok(()))
      ensures exists i :: 0 <= i < |s'.log| && s'.log[i].Sent? && s'.log[i].tid == t
    {
      if t in s.threads && s.threads[t] == DecideDone(Ok(())) {
        var i :| 0 <= i < |s.log| && s.log[i].Sent? && s.log[i].tid == t;
        assert s'.log[i] == s.log[i];
      } else {
        assert s'.log[|s.log|].Sent? && s'.log[|s.log|].tid == t;
      }
    }
  }

  lemma {:induction false} ReachableInv(cap: Option<nat>, steps: seq<Step>)
    ensures Inv(Run(cap, steps))
    decreases |steps|
  {
    if steps != [] {
      var before, step := steps[..|steps| - 1], steps[|steps| - 1];
      ReachableInv(cap, before);
      var s := Run(cap, before);
      NextKeepsCustody(s, step);
      NextKeepsPeekedFirst(s, step);
      NextKeepsOk(s, step);
    }
  }
}
