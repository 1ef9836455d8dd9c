/** What erasing the janitor changes when calls interleave, and exactly when it changes anything. */
module ApprovalJanitor {
  import opened Wrappers
  import opened ApprovalTable
  import opened ApprovalRaces
  import opened ApprovalRaceTheorems

  /** The same run in which the janitor removes nothing. */
  function WithoutVisits(steps: seq<Step>): seq<Step> {
    if steps == [] then []
    else
      var front := WithoutVisits(steps[..|steps| - 1]);
      if steps[|steps| - 1].PurgeVisit? then front else front + [steps[|steps| - 1]]
  }

  /** What `list` shows: the unexpired entries. */
  function Visible(s: State): map<Id, Stored> {
    map id | id in s.table && s.clock <= s.table[id].expiresAt :: s.table[id]
  }

  /** The one answer the janitor may change: an expired entry may be gone. */
  predicate LikePc(a: Pc, b: Pc) {
    a == b || (a == DecideDone(Err(NotFound)) && b == DecideDone(Err(Expired)))
  }

  predicate LikeThreads(a: map<Tid, Pc>, b: map<Tid, Pc>) {
    a.Keys == b.Keys && forall t | t in a :: LikePc(a[t], b[t])
  }

  /** `s`, with the janitor, and `f`, without, look the same: answers, calls under way, peeks, deliveries and listing. */
  predicate Like(s: State, f: State) {
    s.log == f.log && LikeThreads(s.threads, f.threads) && Visible(s) == Visible(f)
  }

  /** The step of a call that now finds missing what the janitor removed, or finds the room it made. */
  predicate Shows(s: State, f: State, step: Step) {
    && step.Advance? && step.tid in s.threads
    && match s.threads[step.tid]
       case DecideRemove(id, _) => id !in s.table && id in f.table
       case RegisterContains(id, _) => id !in s.table && id in f.table
       case RegisterLen(_, _) => s.cap.Some? && |s.table| < s.cap.value <= |f.table|
       case _ => false
  }

  /** `f.table` is `s.table` and entries that have lapsed. */
  ghost predicate LapsedOnly(s: State, f: State) {
    && (forall id | id in s.table :: id in f.table && s.table[id] == f.table[id])
    && (forall id | id in f.table && id !in s.table :: f.table[id].expiresAt < s.clock)
  }

  ghost predicate PurgesLookBack(s: State) {
    forall t | t in s.threads && s.threads[t].Purging? :: s.threads[t].asOf <= s.clock
  }

  ghost predicate Alongside(s: State, f: State) {
    && s.cap == f.cap && s.clock == f.clock && s.inserted == f.inserted && s.log == f.log
    && LikeThreads(s.threads, f.threads) && LapsedOnly(s, f) && PurgesLookBack(s)
  }

  lemma AlongsideLooksLike(s: State, f: State)
    requires Alongside(s, f)
    ensures Like(s, f)
  {
    forall id ensures id in Visible(s) <==> id in Visible(f) {
    }
  }

  lemma VisitStays(s: State, f: State, t: Tid, id: Id)
    requires Alongside(s, f)
    ensures Alongside(Next(s, PurgeVisit(t, id)), f)
  {
  }

  lemma NewPcStays(s: State, f: State, t: Tid, a: Pc, b: Pc)
    requires Alongside(s, f) && LikePc(a, b) && (a.Purging? ==> a.asOf <= s.clock)
    ensures Alongside(At(s, t, a), At(f, t, b))
  {
  }

  lemma SizeOfMore(s: State, f: State)
    requires LapsedOnly(s, f)
    ensures |s.table| <= |f.table|
  {
    SmallerMap(s.table, f.table);
  }

  lemma InsertStays(s: State, f: State, t: Tid, id: Id, at: Instant)
    requires Alongside(s, f)
    ensures Alongside(Insert(s, t, id, at), Insert(f, t, id, at))
  {
  }

  lemma TakeStays(s: State, f: State, t: Tid, id: Id, d: Decision)
    requires Alongside(s, f) && id in s.table
    ensures Alongside(At(Remove(s, id, HeldBy(t)), t, DecideSend(id, d, s.table[id])),
                      At(Remove(f, id, HeldBy(t)), t, DecideSend(id, d, f.table[id])))
  {
  }

  lemma PeekStays(s: State, f: State, t: Tid)
    requires Alongside(s, f) && t in s.threads && s.threads[t].DecidePeek? && f.threads[t] == s.threads[t]
    ensures Alongside(AdvanceThread(s, t), AdvanceThread(f, t))
  {
  }

  lemma SendStays(s: State, f: State, t: Tid)
    requires Alongside(s, f) && t in s.threads && s.threads[t].DecideSend? && f.threads[t] == s.threads[t]
    ensures Alongside(AdvanceThread(s, t), AdvanceThread(f, t))
  {
  }

  lemma RemoveStays(s: State, f: State, t: Tid)
    requires Alongside(s, f) && t in s.threads && s.threads[t].DecideRemove? && f.threads[t] == s.threads[t]
    requires !Shows(s, f, Advance(t))
    ensures Alongside(AdvanceThread(s, t), AdvanceThread(f, t))
  {
    var pc := s.threads[t];
    if pc.id in s.table {
      TakeStays(s, f, t, pc.id, pc.decision);
    } else {
      NewPcStays(s, f, t, DecideDone(Err(NotFound)), DecideDone(Err(NotFound)));
    }
  }

  lemma CheckStays(s: State, f: State, t: Tid)
    requires Alongside(s, f) && t in s.threads && f.threads[t] == s.threads[t] && !Shows(s, f, Advance(t))
    requires s.threads[t].RegisterLen? || s.threads[t].RegisterContains?
    ensures Alongside(AdvanceThread(s, t), AdvanceThread(f, t))
  {
    SizeOfMore(s, f);
    NewPcStays(s, f, t, AdvanceThread(s, t).threads[t], AdvanceThread(f, t).threads[t]);
  }

  lemma AdvanceStays(s: State, f: State, t: Tid)
    requires Alongside(s, f) && t in s.threads && !Shows(s, f, Advance(t))
    ensures Alongside(AdvanceThread(s, t), AdvanceThread(f, t))
  {
    assert LikePc(s.threads[t], f.threads[t]);
    match s.threads[t]
    case RegisterLen(_, _) => CheckStays(s, f, t);
    case RegisterContains(_, _) => CheckStays(s, f, t);
    case RegisterInsert(id, at) => InsertStays(s, f, t, id, at);
    case DecidePeek(_, _) => PeekStays(s, f, t);
    case DecideRemove(_, _) => RemoveStays(s, f, t);
    case DecideSend(_, _, _) => SendStays(s, f, t);
    case Purging(_) => NewPcStays(s, f, t, PurgeDone, PurgeDone);
    case _ =>
  }

  lemma CallStays(s: State, f: State, step: Step)
    requires Alongside(s, f) && (step.CallRegister? || step.CallDecide? || step.CallPurge?)
    ensures Alongside(Next(s, step), Next(f, step))
  {
    if step.tid !in s.threads {
      var pc := Next(s, step).threads[step.tid];
      NewPcStays(s, f, step.tid, pc, pc);
    }
  }

  lemma ShownDiffers(s: State, f: State, step: Step)
    requires Alongside(s, f) && Shows(s, f, step)
    ensures !Like(Next(s, step), Next(f, step))
  {
    var t := step.tid;
    assert LikePc(s.threads[t], f.threads[t]);
    assert t in Next(s, step).threads;
    assert !LikePc(Next(s, step).threads[t], Next(f, step).threads[t]);
  }

  /** As long as no step shows the difference, the two runs stay alongside. */
  lemma StepStays(s: State, f: State, step: Step)
    requires Alongside(s, f) && !Shows(s, f, step)
    ensures Alongside(Next(s, step), if step.PurgeVisit? then f else Next(f, step))
  {
    match step
    case Advance(t) => if t in s.threads { AdvanceStays(s, f, t); }
    case PurgeVisit(t, id) => VisitStays(s, f, t, id);
    case Tick(_) =>
    case _ => CallStays(s, f, step);
  }

  // ---- theorems ---------------------------------------------------------------------------

  /** The first `k` steps, with and without the janitor. */
  function With(cap: Option<nat>, steps: seq<Step>, k: nat): State
    requires k <= |steps|
  {
    Run(cap, steps[..k])
  }

  function Without(cap: Option<nat>, steps: seq<Step>, k: nat): State
    requires k <= |steps|
  {
    Run(cap, WithoutVisits(steps[..k]))
  }

  /** Step `k` shows the difference. */
  predicate ShownAt(cap: Option<nat>, steps: seq<Step>, k: nat) {
    k < |steps| && Shows(With(cap, steps, k), Without(cap, steps, k), steps[k])
  }

  lemma OneMore(cap: Option<nat>, steps: seq<Step>, k: nat)
    requires k < |steps|
    ensures With(cap, steps, k + 1) == Next(With(cap, steps, k), steps[k])
    ensures Without(cap, steps, k + 1)
            == if steps[k].PurgeVisit? then Without(cap, steps, k) else Next(Without(cap, steps, k), steps[k])
  {
    assert steps[..k + 1][..k] == steps[..k] && steps[..k + 1][k] == steps[k];
    RunMore(cap, WithoutVisits(steps[..k]), steps[k]);
  }

  lemma AlongsideAtFirst(cap: Option<nat>, steps: seq<Step>)
    ensures Alongside(With(cap, steps, 0), Without(cap, steps, 0))
  {
    assert steps[..0] == [] && WithoutVisits([]) == [];
  }

  lemma AlongsideOneMore(cap: Option<nat>, steps: seq<Step>, n: nat)
    requires n < |steps| && Alongside(With(cap, steps, n), Without(cap, steps, n)) && !ShownAt(cap, steps, n)
    ensures Alongside(With(cap, steps, n + 1), Without(cap, steps, n + 1))
  {
    OneMore(cap, steps, n);
    StepStays(With(cap, steps, n), Without(cap, steps, n), steps[n]);
  }

  lemma {:induction false} AlongsideUntilShown(cap: Option<nat>, steps: seq<Step>, n: nat)
    requires n <= |steps| && forall k: nat | k < n :: !ShownAt(cap, steps, k)
    ensures Alongside(With(cap, steps, n), Without(cap, steps, n))
  {
    if n == 0 {
      AlongsideAtFirst(cap, steps);
    } else {
      AlongsideUntilShown(cap, steps, n - 1);
      AlongsideOneMore(cap, steps, n - 1);
    }
  }

  lemma {:induction false} FirstShown(cap: Option<nat>, steps: seq<Step>, n: nat) returns (k: nat)
    requires ShownAt(cap, steps, n)
    ensures ShownAt(cap, steps, k) && forall i: nat | i < k :: !ShownAt(cap, steps, i)
  {
    k := n;
    if i: nat :| i < n && ShownAt(cap, steps, i) {
      k := FirstShown(cap, steps, i);
    }
  }

  lemma ShownIsNoticed(cap: Option<nat>, steps: seq<Step>, n: nat) returns (k: nat)
    requires ShownAt(cap, steps, n)
    ensures k < |steps| && !Like(With(cap, steps, k + 1), Without(cap, steps, k + 1))
  {
    k := FirstShown(cap, steps, n);
    AlongsideUntilShown(cap, steps, k);
    ShownDiffers(With(cap, steps, k), Without(cap, steps, k), steps[k]);
    OneMore(cap, steps, k);
  }

  /**
    Over every interleaving, cap and reuse of ids: erasing the janitor changes no answer (but
    `NotFound` for `Expired`), no delivery and no listing, at any point of the run, exactly when
    no decider past its peek and no registrant at its checks comes upon an entry that only the
    run without the janitor still has.
   */
  lemma JanitorIsUnobservableExactly(cap: Option<nat>, steps: seq<Step>)
    ensures (forall k: nat | k <= |steps| :: Like(With(cap, steps, k), Without(cap, steps, k)))
            <==> forall k: nat | k < |steps| :: !ShownAt(cap, steps, k)
  {
    if n: nat :| n < |steps| && ShownAt(cap, steps, n) {
      var k := ShownIsNoticed(cap, steps, n);
    } else {
      forall k: nat | k <= |steps| ensures Like(With(cap, steps, k), Without(cap, steps, k)) {
        AlongsideUntilShown(cap, steps, k);
        AlongsideLooksLike(With(cap, steps, k), Without(cap, steps, k));
      }
    }
  }

  // ---- ids that are never reused ----------------------------------------------------------

  /** No id is registered twice. */
  ghost predicate RegisteredOnce(steps: seq<Step>) {
    forall i, j | 0 <= i < j < |steps| && steps[i].CallRegister? && steps[j].CallRegister? :: steps[i].id != steps[j].id
  }

  predicate Registering(pc: Pc) {
    pc.RegisterLen? || pc.RegisterContains? || pc.RegisterInsert?
  }

  ghost predicate Called(steps: seq<Step>, id: Id) {
    exists i :: 0 <= i < |steps| && steps[i].CallRegister? && steps[i].id == id
  }

  ghost predicate WasInserted(s: State, id: Id) {
    exists k :: 0 <= k < |s.inserted| && s.inserted[k].0 == id
  }

  /** Registrations under way are of ids nobody else registers or has registered. */
  ghost predicate FreshIds(s: State, steps: seq<Step>) {
    && (forall k | 0 <= k < |s.inserted| :: Called(steps, s.inserted[k].0))
    && (forall t | t in s.threads && Registering(s.threads[t]) ::
          Called(steps, s.threads[t].id) && !WasInserted(s, s.threads[t].id))
    && (forall t, u | t in s.threads && u in s.threads && t != u && Registering(s.threads[t]) && Registering(s.threads[u]) ::
          s.threads[t].id != s.threads[u].id)
  }

  lemma CalledMore(steps: seq<Step>, step: Step, id: Id)
    ensures Called(steps + [step], id) <==> Called(steps, id) || (step.CallRegister? && step.id == id)
  {
    var more := steps + [step];
    assert more[|steps|] == step;
    if i :| 0 <= i < |steps| && steps[i].CallRegister? && steps[i].id == id {
      assert more[i] == steps[i];
    }
  }

  /** No registration begins or ends in an insertion. */
  lemma SameIds(s: State, s': State, steps: seq<Step>)
    requires FreshIds(s, steps) && s'.inserted == s.inserted
    requires forall t | t in s'.threads && Registering(s'.threads[t]) ::
               t in s.threads && Registering(s.threads[t]) && s.threads[t].id == s'.threads[t].id
    ensures FreshIds(s', steps)
  {
  }

  lemma InsertedMore(s: State, t: Tid, id: Id, at: Instant, other: Id)
    ensures WasInserted(Insert(s, t, id, at), other) <==> WasInserted(s, other) || other == id
  {
    var s' := Insert(s, t, id, at);
    assert s'.inserted[|s.inserted|].0 == id;
    if k :| 0 <= k < |s.inserted| && s.inserted[k].0 == other {
      assert s'.inserted[k] == s.inserted[k];
    }
  }

  lemma InsertedIds(s: State, steps: seq<Step>, t: Tid)
    requires FreshIds(s, steps) && t in s.threads && s.threads[t].RegisterInsert?
    ensures FreshIds(AdvanceThread(s, t), steps)
  {
    var s' := AdvanceThread(s, t);
    forall u | u in s'.threads && Registering(s'.threads[u])
      ensures Called(steps, s'.threads[u].id) && !WasInserted(s', s'.threads[u].id)
    {
      InsertedMore(s, t, s.threads[t].id, s.threads[t].expiresAt, s.threads[u].id);
    }
  }

  lemma CallIds(s: State, steps: seq<Step>, step: Step)
    requires FreshIds(s, steps) && step.CallRegister? && !Called(steps, step.id)
    ensures FreshIds(Next(s, step), steps + [step])
  {
    forall id ensures Called(steps + [step], id) <==> Called(steps, id) || step.id == id {
      CalledMore(steps, step, id);
    }
    assert !WasInserted(s, step.id);
  }

  lemma FreshIdsMore(s: State, steps: seq<Step>, step: Step)
    requires FreshIds(s, steps) && (step.CallRegister? ==> !Called(steps, step.id))
    ensures FreshIds(Next(s, step), steps + [step])
  {
    if step.CallRegister? {
      CallIds(s, steps, step);
    } else {
      forall id ensures Called(steps + [step], id) <==> Called(steps, id) {
        CalledMore(steps, step, id);
      }
      if step.Advance? && step.tid in s.threads && s.threads[step.tid].RegisterInsert? {
        InsertedIds(s, steps, step.tid);
      } else {
        SameIds(s, Next(s, step), steps);
      }
    }
  }

  lemma {:induction false} IdsStayFresh(cap: Option<nat>, steps: seq<Step>)
    requires RegisteredOnce(steps)
    ensures FreshIds(Run(cap, steps), steps)
    decreases |steps|
  {
    if steps != [] {
      var front, step := steps[..|steps| - 1], steps[|steps| - 1];
      IdsStayFresh(cap, front);
      assert steps == front + [step];
      FreshIdsMore(Run(cap, front), front, step);
    }
  }

  /** With no cap and no id registered twice, a decider past its peek is the first to notice. */
  lemma FirstShownToADecider(steps: seq<Step>, k: nat)
    requires RegisteredOnce(steps) && ShownAt(None, steps, k) && forall i: nat | i < k :: !ShownAt(None, steps, i)
    ensures With(None, steps, k).threads[steps[k].tid].DecideRemove?
  {
    AlongsideUntilShown(None, steps, k);
    IdsStayFresh(None, steps[..k]);
    ReachableInv(None, WithoutVisits(steps[..k]));
    var f := Without(None, steps, k);
    forall id | id in f.table ensures WasInserted(f, id) {
      assert f.inserted[f.table[id].token].0 == id;
    }
  }

  /**
    So with no cap and ids never reused the janitor is unobservable exactly when it takes no
    entry away between a decider's peek and its removal; calls that run one at a time leave no
    such gap.
   */
  lemma JanitorShowsOnlyToDeciders(steps: seq<Step>)
    requires RegisteredOnce(steps)
    ensures (forall k: nat | k <= |steps| :: Like(With(None, steps, k), Without(None, steps, k)))
            <==> forall k: nat | ShownAt(None, steps, k) :: !With(None, steps, k).threads[steps[k].tid].DecideRemove?
  {
    JanitorIsUnobservableExactly(None, steps);
    if n: nat :| ShownAt(None, steps, n) {
      var k := FirstShown(None, steps, n);
      FirstShownToADecider(steps, k);
    }
  }

  lemma {:induction false} NothingToErase(steps: seq<Step>)
    requires forall i | 0 <= i < |steps| :: !steps[i].PurgeVisit?
    ensures WithoutVisits(steps) == steps
  {
    if steps != [] {
      NothingToErase(steps[..|steps| - 1]);
    }
  }

  lemma VisitBeforeRemoval(f: State)
    requires f.table == map["a" := Stored(0, 10)] && 1 in f.threads && f.threads[1] == DecideRemove("a", Approve)
    requires 3 in f.threads && f.threads[3] == Purging(11)
    ensures var s := Next(f, PurgeVisit(3, "a"));
            && Shows(s, f, Advance(1)) && s.inserted == f.inserted
            && Next(s, Advance(1)).threads == s.threads[1 := DecideDone(Err(NotFound))]
            && Next(f, Advance(1)).threads == f.threads[1 := DecideSend("a", Approve, Stored(0, 10))]
  {
  }

  /** It happens without a cap, without any reuse of ids and with a forward clock: a visit between a peek and its removal. */
  lemma TheJanitorCanTakeADecision() returns (steps: seq<Step>)
    ensures var s, f := Run(None, steps), Run(None, WithoutVisits(steps));
            && Shows(s, f, Advance(1)) && s.inserted == [("a", 10)]
            && Next(s, Advance(1)).threads == s.threads[1 := DecideDone(Err(NotFound))]
            && Next(f, Advance(1)).threads == f.threads[1 := DecideSend("a", Approve, Stored(0, 10))]
  {
    var peeked := TwoPeeks();
    var waiting := peeked + [Tick(11)] + [CallPurge(3)];
    RunMore(None, peeked, Tick(11));
    RunMore(None, peeked + [Tick(11)], CallPurge(3));
    VisitBeforeRemoval(Run(None, waiting));
    steps := waiting + [PurgeVisit(3, "a")];
    RunMore(None, waiting, PurgeVisit(3, "a"));
    NothingToErase(waiting);
    assert steps[..|steps| - 1] == waiting;
  }
}
